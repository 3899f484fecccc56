/** The memory map (src/memmap.c): RAM regions visible through a Secure and a Non-secure
    window, packed one after the other into a single backing buffer. */
module Memmap {
  import opened Words

  datatype Access = ReadAccess | WriteAccess

  datatype Region = Region(baseS: u32, baseNs: u32, size: u32)

  datatype Window = Window(base: u32, size: u32) {
    /** The range check of the source, with its 32-bit wrap-around. */
    predicate Holds(addr: u32, size: nat) {
      addr >= base && Wrap(addr - base + size) <= this.size
    }
  }

  /** Everything the map holds besides the RAM bytes. `flashView` is the window used when a
      flash window was configured with size zero; `allow` is the access interceptor. */
  datatype Layout = Layout(
    regions: seq<Region>,
    offsets: seq<u32>,
    ramS: Window,
    ramNs: Window,
    ramTotal: u32,
    hasFlash: bool,
    hasFlashWriter: bool,
    flashS: Window,
    flashNs: Window,
    flashView: Window,
    allow: (Access, Security, u32, nat) -> bool
  ) {
    function EffectiveFlash(w: Window): Window {
      if w.size == 0 && flashView.size > 0 then flashView else w
    }

    predicate InFlash(addr: u32, size: nat) {
      EffectiveFlash(flashS).Holds(addr, size) || EffectiveFlash(flashNs).Holds(addr, size)
    }

    function FlashOffset(addr: u32, size: nat): u32
      requires InFlash(addr, size)
    {
      var s := EffectiveFlash(flashS);
      if s.Holds(addr, size) then addr - s.base else addr - EffectiveFlash(flashNs).base
    }

    function WithTable(regions: seq<Region>, offsets: seq<u32>, total: u32): Layout {
      this.(regions := regions, offsets := offsets, ramTotal := total)
    }

    ghost predicate Shaped() { |offsets| == |regions| }
  }

  // ---------------------------------------------------------------- address resolution

  predicate RegionHolds(r: Region, addr: u32, size: nat) {
    Window(r.baseS, r.size).Holds(addr, size) || Window(r.baseNs, r.size).Holds(addr, size)
  }

  /** First region at or after `i` that holds the access, Secure window tried first. */
  function SearchRegions(l: Layout, i: nat, addr: u32, size: nat): (o: Option<u32>)
    requires l.Shaped()
    decreases |l.regions| - i
  {
    if i >= |l.regions| then None
    else
      var r := l.regions[i];
      if Window(r.baseS, r.size).Holds(addr, size) then Some(Wrap(l.offsets[i] + (addr - r.baseS)))
      else if Window(r.baseNs, r.size).Holds(addr, size) then Some(Wrap(l.offsets[i] + (addr - r.baseNs)))
      else SearchRegions(l, i + 1, addr, size)
  }

  function SearchWindows(l: Layout, addr: u32, size: nat): (o: Option<u32>)
    requires l.Shaped()
  {
    if |l.regions| > 0 then SearchRegions(l, 0, addr, size)
    else if l.ramS.Holds(addr, size) then Some(addr - l.ramS.base)
    else if l.ramNs.Holds(addr, size) then Some(addr - l.ramNs.base)
    else None
  }

  function RamOffset(l: Layout, addr: u32, size: nat): (o: Option<u32>)
    requires l.Shaped()
  {
    var hit := SearchWindows(l, addr, size);
    if hit.Some? then hit
    else if l.ramTotal > 0 && Wrap(addr + size) <= l.ramTotal then Some(addr)
    else None
  }

  /** How an access ends. `FlashAccess` and `MmioAccess` hand over to the flash writer or
      reader and to the device bus; `Stray` is an offset beyond the RAM buffer. */
  datatype Outcome = Denied | Done(value: u32) | FlashAccess(offset: u32) | MmioAccess | Stray

  predicate BusSize(size: nat) { size == 1 || size == 2 || size == 4 }

  function Read(l: Layout, ram: seq<u8>, sec: Security, addr: u32, size: nat): (o: Outcome)
    requires l.Shaped() && BusSize(size)
  {
    if !l.allow(ReadAccess, sec, addr, size) then Denied
    else if l.hasFlash && l.InFlash(addr, size) then FlashAccess(l.FlashOffset(addr, size))
    else
      match RamOffset(l, addr, size)
      case None => MmioAccess
      case Some(off) => if off + size <= |ram| then Done(LeBelow(ram[off..off + size])) else Stray
  }

  /** A store of 1, 2 or 4 bytes; the second component is the buffer afterwards. */
  function Write(l: Layout, ram: seq<u8>, sec: Security, addr: u32, size: nat, value: u32): (r: (Outcome, seq<u8>))
    requires l.Shaped() && BusSize(size)
    ensures |r.1| == |ram|
  {
    if !l.allow(WriteAccess, sec, addr, size) then (Denied, ram)
    else if l.hasFlash && l.hasFlashWriter && l.InFlash(addr, size) then (FlashAccess(l.FlashOffset(addr, size)), ram)
    else
      match RamOffset(l, addr, size)
      case None => (MmioAccess, ram)
      case Some(off) =>
        if off + size <= |ram| then (Done(value), Splice(ram, off, ToLe(value, size))) else (Stray, ram)
  }

  /** Little-endian value of at most four bytes, as a 32-bit word. */
  function LeBelow(b: seq<u8>): (v: u32)
    requires BusSize(|b|)
    ensures v == FromLe(b)
  {
    if |b| == 4 then (FourBytes(b); FromLe(b))
    else if |b| == 2 then (TwoBytes(b); FromLe(b))
    else (OneByte(b); FromLe(b))
  }

  /** The value written out byte by byte. */
  lemma LeSum(b: seq<u8>)
    requires BusSize(|b|)
    ensures LeBelow(b) ==
            (b[0] as int) + (if |b| >= 2 then 0x100 * (b[1] as int) else 0)
            + (if |b| == 4 then 0x1_0000 * (b[2] as int) + 0x100_0000 * (b[3] as int) else 0)
  {
    hide FromLe;
    if |b| == 4 { FourBytes(b); } else if |b| == 2 { TwoBytes(b); } else { OneByte(b); }
  }

  lemma OneByte(b: seq<u8>)
    requires |b| == 1
    ensures FromLe(b) == b[0]
  {
    assert b[1..] == [];
  }

  // ---------------------------------------------------------------- region tables

  function SumSizes(rs: seq<Region>): nat {
    if rs == [] then 0 else SumSizes(rs[..|rs| - 1]) + rs[|rs| - 1].size
  }

  lemma {:induction false} SumSizesSplit(rs: seq<Region>, i: nat, j: nat)
    requires i < j <= |rs|
    ensures SumSizes(rs[..i]) + rs[i].size <= SumSizes(rs[..j])
  {
    assert rs[..j][..j - 1] == rs[..j - 1];
    if i + 1 < j {
      SumSizesSplit(rs, i, j - 1);
    } else {
      assert rs[..j][j - 1] == rs[i];
    }
  }

  lemma PrefixStep(rs: seq<Region>, i: nat)
    requires i < |rs|
    ensures SumSizes(rs[..i + 1]) == SumSizes(rs[..i]) + rs[i].size <= SumSizes(rs)
  {
    assert rs[..i + 1][..i] == rs[..i];
    assert rs[..|rs|] == rs;
    SumSizesSplit(rs, i, |rs|);
  }

  /** Running 32-bit totals before each of the first `n` regions. */
  function PrefixOffsets(rs: seq<Region>, n: nat): (o: seq<u32>)
    requires n <= |rs|
    ensures |o| == n
    ensures forall k :: 0 <= k < n ==> o[k] == Wrap(SumSizes(rs[..k]))
  {
    if n == 0 then [] else PrefixOffsets(rs, n - 1) + [Wrap(SumSizes(rs[..n - 1]))]
  }

  /** The layout after configuring a region table. */
  function LaidOut(l: Layout, regions: seq<Region>): Layout {
    if |regions| == 0 then l.WithTable([], [], l.ramS.size)
    else
      var n := if |regions| > 8 then 8 else |regions|;
      l.WithTable(regions[..n], PrefixOffsets(regions, n), Wrap(SumSizes(regions[..n])))
  }

  ghost predicate Apart(a: Window, b: Window) {
    a.base + a.size <= b.base || b.base + b.size <= a.base
  }

  ghost predicate RegionsApart(r: Region, q: Region) {
    && Apart(Window(r.baseS, r.size), Window(q.baseS, q.size))
    && Apart(Window(r.baseS, r.size), Window(q.baseNs, q.size))
    && Apart(Window(r.baseNs, r.size), Window(q.baseS, q.size))
    && Apart(Window(r.baseNs, r.size), Window(q.baseNs, q.size))
  }

  /** The two windows of a region coincide or do not meet, and neither wraps. */
  ghost predicate WindowsOk(r: Region) {
    && r.baseS + r.size <= U32 && r.baseNs + r.size <= U32
    && (r.baseS == r.baseNs || Apart(Window(r.baseS, r.size), Window(r.baseNs, r.size)))
  }

  predicate AtBottom(r: Region) { r.baseS == 0 || r.baseNs == 0 }

  predicate AtTop(r: Region) { r.baseS + r.size == U32 || r.baseNs + r.size == U32 }

  /** Non-empty table of non-wrapping windows; windows of different regions do not meet. */
  ghost predicate TablePlain(rs: seq<Region>) {
    && 0 < |rs| <= 8
    && SumSizes(rs) < U32
    && (forall i :: 0 <= i < |rs| ==> WindowsOk(rs[i]))
    && (forall i, j :: 0 <= i < j < |rs| ==> RegionsApart(rs[i], rs[j]))
  }

  /** In addition not both ends of the address space are RAM: a window at address 0 also accepts
      accesses that end at the very top (`AliasResolvesIff`). */
  ghost predicate TableOk(rs: seq<Region>) {
    && TablePlain(rs)
    && (forall i, j :: 0 <= i < |rs| && 0 <= j < |rs| ==> !(AtBottom(rs[i]) && AtTop(rs[j])))
  }

  /** Offsets are the true prefix sums of a well-formed table. */
  ghost predicate Packed(l: Layout) {
    && l.Shaped()
    && TablePlain(l.regions)
    && l.ramTotal == SumSizes(l.regions)
    && (forall i :: 0 <= i < |l.offsets| ==> l.offsets[i] == SumSizes(l.regions[..i]))
  }

  ghost predicate Configured(l: Layout) { Packed(l) && TableOk(l.regions) }

  /** `ConfigureRam` on a well-formed table never wraps, so the offsets are prefix sums. */
  lemma LaidOutConfigured(l: Layout, regions: seq<Region>)
    requires TablePlain(regions)
    ensures Packed(LaidOut(l, regions)) && LaidOut(l, regions).regions == regions
  {
    hide RegionsApart, Apart;
    assert regions[..|regions|] == regions;
    var o := PrefixOffsets(regions, |regions|);
    forall k | 0 <= k < |regions|
      ensures o[k] == SumSizes(regions[..k])
    {
      PrefixStep(regions, k);
    }
  }

  /** The slices of the buffer given to the regions are in bounds and pairwise disjoint. */
  lemma SlicesDisjoint(l: Layout, i: nat, j: nat)
    requires Packed(l) && i < j < |l.regions|
    ensures l.offsets[i] + l.regions[i].size <= l.offsets[j]
    ensures l.offsets[j] + l.regions[j].size <= l.ramTotal
  {
    SumSizesSplit(l.regions, i, j);
    SumSizesSplit(l.regions, j, |l.regions|);
    assert l.regions[..|l.regions|] == l.regions;
  }

  lemma SliceInBounds(l: Layout, i: nat)
    requires Packed(l) && i < |l.regions|
    ensures l.offsets[i] + l.regions[i].size <= l.ramTotal
  {
    SumSizesSplit(l.regions, i, |l.regions|);
    assert l.regions[..|l.regions|] == l.regions;
  }

  /** The range check is plain while its 32-bit sum does not wrap. */
  lemma HoldsPlain(w: Window, addr: u32, size: nat)
    requires addr - w.base + size < U32
    ensures w.Holds(addr, size) <==> w.base <= addr && addr + size <= w.base + w.size
  {
  }

  lemma RegionHoldsPlain(r: Region, addr: u32, size: nat)
    requires addr - r.baseS + size < U32 && addr - r.baseNs + size < U32
    ensures Window(r.baseS, r.size).Holds(addr, size) <==> r.baseS <= addr && addr + size <= r.baseS + r.size
    ensures Window(r.baseNs, r.size).Holds(addr, size) <==> r.baseNs <= addr && addr + size <= r.baseNs + r.size
  {
    HoldsPlain(Window(r.baseS, r.size), addr, size);
    HoldsPlain(Window(r.baseNs, r.size), addr, size);
  }

  /** The access lies inside a window of the region. */
  predicate InRegion(q: Region, addr: u32, size: nat) {
    (q.baseS <= addr && addr + size <= q.baseS + q.size) || (q.baseNs <= addr && addr + size <= q.baseNs + q.size)
  }

  /** So is the check of one region's windows against an access inside another's. */
  lemma NoWrap(r: Region, q: Region, addr: u32, size: nat)
    requires WindowsOk(q) && InRegion(q, addr, size) && !(AtBottom(r) && AtTop(q))
    ensures addr - r.baseS + size < U32 && addr - r.baseNs + size < U32
  {
  }

  /** An access inside a window of `q` is in no window of a region apart from `q`. */
  lemma ApartMisses(r: Region, q: Region, addr: u32, size: nat)
    requires 0 < size && WindowsOk(q) && InRegion(q, addr, size) && !(AtBottom(r) && AtTop(q))
    requires RegionsApart(r, q)
    ensures !RegionHolds(r, addr, size)
  {
    NoWrap(r, q, addr, size);
    RegionHoldsPlain(r, addr, size);
  }

  /** One step of the search. */
  lemma SearchAt(l: Layout, i: nat, addr: u32, size: nat)
    requires l.Shaped() && i < |l.regions|
    ensures var r := l.regions[i];
            SearchRegions(l, i, addr, size) ==
            if Window(r.baseS, r.size).Holds(addr, size) then Some(Wrap(l.offsets[i] + (addr - r.baseS)))
            else if Window(r.baseNs, r.size).Holds(addr, size) then Some(Wrap(l.offsets[i] + (addr - r.baseNs)))
            else SearchRegions(l, i + 1, addr, size)
  {
    hide Window.Holds, Wrap;
  }

  lemma WrapCases(x: int)
    ensures 0 <= x < U32 ==> Wrap(x) == x
    ensures U32 <= x < 2 * U32 ==> Wrap(x) == x - U32
  {
  }

  /** The region that holds the access answers with its own slice. */
  lemma SearchHit(l: Layout, i: nat, d: nat, size: nat, addr: u32)
    requires l.Shaped() && i < |l.regions| && l.offsets[i] + d < U32
    requires 0 < size && d + size <= l.regions[i].size
    requires WindowsOk(l.regions[i]) && !(AtBottom(l.regions[i]) && AtTop(l.regions[i]))
    requires addr == l.regions[i].baseS + d || addr == l.regions[i].baseNs + d
    ensures SearchRegions(l, i, addr, size) == Some(l.offsets[i] + d)
  {
    NoWrap(l.regions[i], l.regions[i], addr, size);
    RegionHoldsPlain(l.regions[i], addr, size);
    SearchAt(l, i, addr, size);
    WrapCases(l.offsets[i] + d);
    hide SearchRegions, Window.Holds, Wrap;
  }

  /** The search skips every region before the one that holds the access. */
  lemma {:induction false} SearchFrom(l: Layout, k: nat, i: nat, d: nat, size: nat, addr: u32)
    requires Configured(l) && k <= i < |l.regions|
    requires 0 < size && d + size <= l.regions[i].size
    requires addr == l.regions[i].baseS + d || addr == l.regions[i].baseNs + d
    ensures SearchRegions(l, k, addr, size) == Some(l.offsets[i] + d)
    decreases i - k
  {
    if k == i {
      SliceInBounds(l, i);
      SearchHit(l, i, d, size, addr);
    } else {
      ApartMisses(l.regions[k], l.regions[i], addr, size);
      SearchFrom(l, k + 1, i, d, size, addr);
    }
  }

  /** Both windows of a region resolve to the same buffer offset, inside that region's slice. */
  lemma AliasesAgree(l: Layout, i: nat, d: nat, size: nat)
    requires Configured(l) && i < |l.regions|
    requires 0 < size && d + size <= l.regions[i].size
    ensures RamOffset(l, l.regions[i].baseS + d, size) == Some(l.offsets[i] + d)
    ensures RamOffset(l, l.regions[i].baseNs + d, size) == Some(l.offsets[i] + d)
    ensures l.offsets[i] + d + size <= l.ramTotal
  {
    hide SearchRegions, SumSizes, RegionsApart, Apart;
    SliceInBounds(l, i);
    SearchFrom(l, 0, i, d, size, l.regions[i].baseS + d);
    SearchFrom(l, 0, i, d, size, l.regions[i].baseNs + d);
  }

  /** No window starts in the first word of the address space. */
  ghost predicate ClearOfBottom(rs: seq<Region>) {
    forall i :: 0 <= i < |rs| ==> 4 <= rs[i].baseS && 4 <= rs[i].baseNs
  }

  lemma {:induction false} SearchSound(l: Layout, k: nat, addr: u32, size: nat)
    requires Configured(l) && k <= |l.regions| && size <= 4 && ClearOfBottom(l.regions)
    requires SearchRegions(l, k, addr, size).Some?
    ensures SearchRegions(l, k, addr, size).value + size <= l.ramTotal
    decreases |l.regions| - k
  {
    hide RegionsApart, Apart, SumSizes;
    SliceInBounds(l, k);
    RegionHoldsPlain(l.regions[k], addr, size);
    if !RegionHolds(l.regions[k], addr, size) {
      SearchSound(l, k + 1, addr, size);
    }
  }

  /** A resolved access lies inside the buffer exactly when a region window holds it or its end
      does not wrap past the address space: the low-address fallback checks a wrapped sum. */
  lemma ResolvedInBoundsIff(l: Layout, addr: u32, size: nat)
    requires Configured(l) && size <= 4 && ClearOfBottom(l.regions)
    requires RamOffset(l, addr, size).Some?
    ensures RamOffset(l, addr, size).value + size <= l.ramTotal
       <==> SearchWindows(l, addr, size).Some? || addr + size < U32
  {
    if SearchWindows(l, addr, size).Some? {
      SearchSound(l, 0, addr, size);
    }
  }

  /** The STM32H563 table of cpu/stm32h563/cpu_config.h. */
  const H563_REGIONS: seq<Region> := [
    Region(0x30000000, 0x20000000, 0x40000),
    Region(0x30040000, 0x20040000, 0x10000),
    Region(0x30050000, 0x20050000, 0x50000)
  ]

  lemma H563TableOk()
    ensures TableOk(H563_REGIONS) && ClearOfBottom(H563_REGIONS) && SumSizes(H563_REGIONS) == 0xA0000
  {
    var rs := H563_REGIONS;
    assert rs[..2] == [rs[0], rs[1]] && rs[..2][..1] == [rs[0]] && rs[..2][..1][..0] == [];
    assert SumSizes(rs[..2][..1]) == 0x40000;
    assert SumSizes(rs[..2]) == 0x50000;
  }

  /** On that table the last word of the address space resolves outside the buffer. */
  lemma LastWordStrays(l: Layout)
    requires Configured(l) && l.regions == H563_REGIONS
    ensures RamOffset(l, 0xFFFF_FFFC, 4) == Some(0xFFFF_FFFC)
    ensures RamOffset(l, 0xFFFF_FFFC, 4).value + 4 > l.ramTotal
  {
    H563TableOk();
    assert SearchRegions(l, 3, 0xFFFF_FFFC, 4) == None;
    assert SearchRegions(l, 2, 0xFFFF_FFFC, 4) == None;
    assert SearchRegions(l, 1, 0xFFFF_FFFC, 4) == None;
  }

  /** Without a region table RAM is one Secure and one Non-secure window of the same bytes ... */
  lemma PlainWindowsAgree(l: Layout, d: nat, size: nat)
    requires l.regions == [] && l.offsets == [] && 0 < size && d + size <= l.ramS.size == l.ramNs.size
    requires l.ramNs.base + l.ramNs.size <= l.ramS.base && l.ramS.base + l.ramS.size < U32
    ensures RamOffset(l, l.ramS.base + d, size) == Some(d) == RamOffset(l, l.ramNs.base + d, size)
  {
  }

  /** ... and so it is after configuring an empty table; of a longer table eight regions are kept. */
  lemma OtherTables(l: Layout, rs: seq<Region>)
    ensures rs == [] ==> LaidOut(l, rs).regions == [] && LaidOut(l, rs).ramTotal == l.ramS.size
    ensures |rs| > 8 ==> LaidOut(l, rs) == LaidOut(l, rs[..8])
  {
    if |rs| > 8 {
      PrefixOffsetsSame(rs, 8, 8);
      assert rs[..8][..8] == rs[..8];
    }
  }

  lemma {:induction false} PrefixOffsetsSame(rs: seq<Region>, m: nat, n: nat)
    requires n <= m <= |rs|
    ensures PrefixOffsets(rs[..m], n) == PrefixOffsets(rs, n)
  {
    if n > 0 {
      PrefixOffsetsSame(rs, m, n - 1);
      assert rs[..m][..n - 1] == rs[..n - 1];
    }
  }

  /** Low addresses outside every window are offsets into RAM. */
  lemma LowAddresses(l: Layout, addr: u32, size: nat)
    requires l.Shaped() && SearchWindows(l, addr, size) == None && addr + size < U32
    ensures RamOffset(l, addr, size) == if 0 < l.ramTotal && addr + size <= l.ramTotal then Some(addr) else None
  {
    hide SearchWindows;
  }

  // ---------------------------------------------------------------- RAM at both ends

  /** A window at address 0 that is tried before region `i`'s window of the given alias. */
  ghost predicate CapturedBefore(l: Layout, i: nat, viaNs: bool)
    requires i < |l.regions|
  {
    (exists k :: 0 <= k < i && AtBottom(l.regions[k])) || (viaNs && l.regions[i].baseS == 0)
  }

  /** Even with RAM at both ends of the address space an access through a window resolves to its place
      exactly when it does not end at the very top or no window at address 0 is tried first. */
  lemma AliasResolvesIff(l: Layout, i: nat, d: nat, size: nat, viaNs: bool)
    requires Packed(l) && i < |l.regions| && 0 < size && d + size <= l.regions[i].size
    ensures var addr := (if viaNs then l.regions[i].baseNs else l.regions[i].baseS) + d;
            RamOffset(l, addr, size) == Some(l.offsets[i] + d) <==> addr + size < U32 || !CapturedBefore(l, i, viaNs)
  {
    hide SearchRegions, SumSizes, RegionsApart, Apart;
    var addr := (if viaNs then l.regions[i].baseNs else l.regions[i].baseS) + d;
    SliceInBounds(l, i);
    SearchEnds(l, 0, i, d, size, viaNs, addr);
  }

  lemma {:induction false} SearchEnds(l: Layout, k: nat, i: nat, d: nat, size: nat, viaNs: bool, addr: u32)
    requires Packed(l) && k <= i < |l.regions| && 0 < size && d + size <= l.regions[i].size
    requires addr == (if viaNs then l.regions[i].baseNs else l.regions[i].baseS) + d
    ensures var o := SearchRegions(l, k, addr, size);
            var captured := (exists j :: k <= j < i && AtBottom(l.regions[j])) || (viaNs && l.regions[i].baseS == 0);
            o.Some? && (o == Some(l.offsets[i] + d) <==> addr + size < U32 || !captured)
    decreases i - k
  {
    hide SumSizes, SearchRegions, Window.Holds, Wrap, AtBottom, Apart;
    SliceInBounds(l, i);
    var r, q := l.regions[k], l.regions[i];
    if k == i {
      EndHit(l, i, d, size, viaNs, addr);
    } else if addr + size == U32 && AtBottom(r) {
      SlicesDisjoint(l, k, i);
      BottomHit(l, k, q, size, addr);
      CapturedElsewhere(l.offsets[k], l.offsets[i], d, size, addr);
    } else {
      assert RegionsApart(r, q);
      EndMiss(r, q, addr, size);
      SearchEnds(l, k + 1, i, d, size, viaNs, addr);
      SearchSkips(l, k, addr, size);
    }
  }

  lemma CapturedElsewhere(before: u32, off: u32, d: nat, size: nat, addr: u32)
    requires before <= off && 0 < size && addr + size == U32 && off + d + size < U32
    ensures Wrap(before + addr) != off + d
  {
    WrapCases(before + addr);
    hide Wrap;
  }

  lemma SearchSkips(l: Layout, k: nat, addr: u32, size: nat)
    requires l.Shaped() && k < |l.regions| && !RegionHolds(l.regions[k], addr, size)
    ensures SearchRegions(l, k, addr, size) == SearchRegions(l, k + 1, addr, size)
  {
    SearchAt(l, k, addr, size);
    hide Window.Holds, SearchRegions, Wrap;
  }

  /** A window at address 0 accepts an access that ends at the top. */
  lemma HoldsTop(len: u32, addr: u32, size: nat)
    requires addr + size == U32
    ensures Window(0, len).Holds(addr, size)
  {
  }

  /** The region's own windows. */
  lemma EndHit(l: Layout, i: nat, d: nat, size: nat, viaNs: bool, addr: u32)
    requires l.Shaped() && i < |l.regions| && l.offsets[i] + d + size < U32
    requires 0 < size && d + size <= l.regions[i].size && WindowsOk(l.regions[i])
    requires addr == (if viaNs then l.regions[i].baseNs else l.regions[i].baseS) + d
    ensures var o := SearchRegions(l, i, addr, size);
            o.Some? && (o == Some(l.offsets[i] + d) <==> addr + size < U32 || !(viaNs && l.regions[i].baseS == 0))
  {
    var q := l.regions[i];
    SearchAt(l, i, addr, size);
    if addr + size == U32 && q.baseS == 0 {
      HoldsTop(q.size, addr, size);
      WrapCases(l.offsets[i] + addr);
      hide SearchRegions, Window.Holds, Wrap;
    } else {
      HoldsPlain(Window(q.baseS, q.size), addr, size);
      if q.baseNs > 0 || addr + size < U32 {
        HoldsPlain(Window(q.baseNs, q.size), addr, size);
      }
      WrapCases(l.offsets[i] + d);
      hide SearchRegions, Window.Holds, Wrap;
    }
  }

  /** A region at address 0 takes an access that ends at the top. */
  lemma BottomHit(l: Layout, k: nat, q: Region, size: nat, addr: u32)
    requires l.Shaped() && k < |l.regions| && AtBottom(l.regions[k]) && RegionsApart(l.regions[k], q)
    requires 0 < size && addr + size == U32 && InRegion(q, addr, size)
    ensures SearchRegions(l, k, addr, size) == Some(Wrap(l.offsets[k] + addr))
  {
    var r := l.regions[k];
    SearchAt(l, k, addr, size);
    HoldsTop(r.size, addr, size);
    if r.baseS != 0 {
      HoldsPlain(Window(r.baseS, r.size), addr, size);
    }
    hide SearchRegions, Window.Holds, Wrap;
  }

  lemma EndMiss(r: Region, q: Region, addr: u32, size: nat)
    requires 0 < size && InRegion(q, addr, size) && RegionsApart(r, q) && addr + size <= U32
    requires addr + size < U32 || !AtBottom(r)
    ensures !RegionHolds(r, addr, size)
  {
    RegionHoldsPlain(r, addr, size);
  }

  /** A 16-byte RAM region at address 0 answers for the last word of one at the top. */
  lemma BottomCapturesTop(l: Layout)
    requires l.Shaped() && l.regions == [Region(0, 0, 16), Region(0xFFFF_FFF0, 0xFFFF_FFF0, 16)] && l.offsets == [0, 16]
    ensures RamOffset(l, 0xFFFF_FFFC, 4) == Some(0xFFFF_FFFC)
  {
  }

  // ---------------------------------------------------------------- store, then load

  ghost predicate Permitted(l: Layout, access: Access, sec: Security, addr: u32, size: nat) {
    l.allow(access, sec, addr, size) && !l.InFlash(addr, size)
  }

  /** The low `size` bytes of a word. */
  function Truncate(v: u32, size: nat): u32
    requires BusSize(size)
  {
    if size == 1 then v % 0x100 else if size == 2 then v % 0x1_0000 else v
  }

  lemma LoadOfSplice(ram: seq<u8>, off: nat, size: nat, value: u32)
    requires BusSize(size) && off + size <= |ram|
    ensures LeBelow(Splice(ram, off, ToLe(value, size))[off..off + size]) == Truncate(value, size)
  {
    var b := ToLe(value, size);
    assert Splice(ram, off, b)[off..off + size] == b;
    hide Splice, ToLe;
    LeTruncates(value, size);
  }

  lemma LeTruncates(value: u32, size: nat)
    requires BusSize(size)
    ensures FromLe(ToLe(value, size)) == Truncate(value, size)
  {
    hide FromLe, ToLe;
    LeRoundTrip(value, size);
    assert Pow256(2) == 0x1_0000 && Pow256(4) == 0x100 * (0x100 * Pow256(2));
  }

  lemma StoreResolves(l: Layout, ram: seq<u8>, off: u32, size: nat, value: u32, sec: Security, addr: u32)
    requires l.Shaped() && BusSize(size) && Permitted(l, WriteAccess, sec, addr, size)
    requires RamOffset(l, addr, size) == Some(off) && off + size <= |ram|
    ensures Write(l, ram, sec, addr, size, value) == (Done(value), Splice(ram, off, ToLe(value, size)))
  {
  }

  lemma LoadResolves(l: Layout, ram: seq<u8>, off: u32, size: nat, sec: Security, addr: u32)
    requires l.Shaped() && BusSize(size) && Permitted(l, ReadAccess, sec, addr, size)
    requires RamOffset(l, addr, size) == Some(off) && off + size <= |ram|
    ensures Read(l, ram, sec, addr, size) == Done(LeBelow(ram[off..off + size]))
  {
  }

  /** A store through one window of a region is read back, truncated to its size, through
      either window and by either security state, and changes no other byte. */
  lemma StoreThenLoad(l: Layout, ram: seq<u8>, i: nat, d: nat, size: nat, value: u32,
                      wsec: Security, waddr: u32, rsec: Security, raddr: u32)
    requires Configured(l) && i < |l.regions| && BusSize(size) && |ram| == l.ramTotal
    requires d + size <= l.regions[i].size
    requires waddr == l.regions[i].baseS + d || waddr == l.regions[i].baseNs + d
    requires raddr == l.regions[i].baseS + d || raddr == l.regions[i].baseNs + d
    requires Permitted(l, WriteAccess, wsec, waddr, size) && Permitted(l, ReadAccess, rsec, raddr, size)
    ensures Write(l, ram, wsec, waddr, size, value).0.Done?
    ensures Read(l, Write(l, ram, wsec, waddr, size, value).1, rsec, raddr, size) == Done(Truncate(value, size))
    ensures forall k :: 0 <= k < |ram| && !(l.offsets[i] + d <= k < l.offsets[i] + d + size) ==>
              Write(l, ram, wsec, waddr, size, value).1[k] == ram[k]
  {
    hide TableOk, SumSizes, RamOffset;
    var off := l.offsets[i] + d;
    AliasesAgree(l, i, d, size);
    StoreResolves(l, ram, off, size, value, wsec, waddr);
    LoadOfSplice(ram, off, size, value);
    LoadResolves(l, Splice(ram, off, ToLe(value, size)), off, size, rsec, raddr);
  }

  // ---------------------------------------------------------------- the mutable map

  lemma WrapAdds(x: int, y: int)
    ensures Wrap(Wrap(x) + y) == Wrap(x + y)
  {
  }

  class Map {
    var layout: Layout
    const ram: array<u8>

    constructor (l: Layout, backing: array<u8>)
      ensures layout == l && ram == backing
    {
      layout := l;
      ram := backing;
    }

    /** Copies at most eight regions and lays them out one after the other; without a table
        the whole RAM is one window of the Secure size. */
    method ConfigureRam(regions: seq<Region>)
      modifies this
      ensures layout == LaidOut(old(layout), regions)
    {
      assert SumSizes(regions[..0]) == 0 && Wrap(0) == 0;
      hide SumSizes, Wrap;
      if |regions| == 0 {
        layout := layout.WithTable([], [], layout.ramS.size);
        return;
      }
      var total: u32 := 0;
      var offsets: seq<u32> := [];
      var count := if |regions| > 8 then 8 else |regions|;
      var i := 0;
      while i < count
        invariant 0 <= i <= count && layout == old(layout)
        invariant total == Wrap(SumSizes(regions[..i]))
        invariant offsets == PrefixOffsets(regions, i)
      {
        PrefixStep(regions, i);
        WrapAdds(SumSizes(regions[..i]), regions[i].size);
        offsets := offsets + [total];
        total := Wrap(total + regions[i].size);
        i := i + 1;
      }
      layout := layout.WithTable(regions[..count], offsets, total);
    }

    /** The region scan of `ram_offset_for_addr`. */
    method RamOffsetForAddr(addr: u32, size: nat) returns (o: Option<u32>)
      requires layout.Shaped()
      ensures o == RamOffset(layout, addr, size)
    {
      if |layout.regions| > 0 {
        var i := 0;
        while i < |layout.regions|
          invariant 0 <= i <= |layout.regions|
          invariant SearchRegions(layout, 0, addr, size) == SearchRegions(layout, i, addr, size)
        {
          var r := layout.regions[i];
          if addr >= r.baseS && Wrap(addr - r.baseS + size) <= r.size {
            return Some(Wrap(layout.offsets[i] + (addr - r.baseS)));
          }
          if addr >= r.baseNs && Wrap(addr - r.baseNs + size) <= r.size {
            return Some(Wrap(layout.offsets[i] + (addr - r.baseNs)));
          }
          i := i + 1;
        }
      } else {
        if layout.ramS.Holds(addr, size) { return Some(addr - layout.ramS.base); }
        if layout.ramNs.Holds(addr, size) { return Some(addr - layout.ramNs.base); }
      }
      if layout.ramTotal > 0 && Wrap(addr + size) <= layout.ramTotal { return Some(addr); }
      return None;
    }

    method Load(sec: Security, addr: u32, size: nat) returns (o: Outcome)
      requires layout.Shaped() && BusSize(size)
      ensures o == Read(layout, ram[..], sec, addr, size)
    {
      hide RamOffset, FromLe, Window.Holds;
      if !layout.allow(ReadAccess, sec, addr, size) { return Denied; }
      if layout.hasFlash && layout.InFlash(addr, size) { return FlashAccess(layout.FlashOffset(addr, size)); }
      var off := RamOffsetForAddr(addr, size);
      if off == None { return MmioAccess; }
      var k := off.value;
      if k + size > ram.Length { return Stray; }
      ghost var b := ram[..][k..k + size];
      LeSum(b);
      var v: int := ram[k];
      if size == 2 {
        v := v + 0x100 * (ram[k + 1] as int);
      } else if size == 4 {
        v := v + 0x100 * (ram[k + 1] as int) + 0x1_0000 * (ram[k + 2] as int) + 0x100_0000 * (ram[k + 3] as int);
      }
      assert v == LeBelow(b);
      o := Done(v);
    }

    method Store(sec: Security, addr: u32, size: nat, value: u32) returns (o: Outcome)
      requires layout.Shaped() && BusSize(size)
      modifies ram
      ensures (o, ram[..]) == Write(layout, old(ram[..]), sec, addr, size, value)
    {
      if !layout.allow(WriteAccess, sec, addr, size) { return Denied; }
      if layout.hasFlash && layout.hasFlashWriter && layout.InFlash(addr, size) {
        return FlashAccess(layout.FlashOffset(addr, size));
      }
      var off := RamOffsetForAddr(addr, size);
      if off == None { return MmioAccess; }
      var k := off.value;
      if k + size > ram.Length { return Stray; }
      ghost var before := ram[..];
      ghost var bytes := ToLe(value, size);
      LeDigits(value, size);
      ram[k] := value % 0x100;
      if size >= 2 {
        ram[k + 1] := value / 0x100 % 0x100;
      }
      if size == 4 {
        ram[k + 2] := value / 0x1_0000 % 0x100;
        ram[k + 3] := value / 0x100_0000 % 0x100;
      }
      assert ram[..] == Splice(before, k, bytes);
      o := Done(value);
    }
  }

  /** The bytes the source extracts by shifting are the digits of `ToLe`. */
  lemma LeDigits(v: u32, n: nat)
    requires BusSize(n)
    ensures ToLe(v, n)[0] == v % 0x100
    ensures n >= 2 ==> ToLe(v, n)[1] == v / 0x100 % 0x100
    ensures n == 4 ==> ToLe(v, n)[2] == v / 0x1_0000 % 0x100 && ToLe(v, n)[3] == v / 0x100_0000 % 0x100
  {
    if n >= 2 {
      assert ToLe(v, n)[1] == ToLe(v / 0x100, n - 1)[0];
    }
    if n == 4 {
      assert ToLe(v, n)[2] == ToLe(v / 0x100, 3)[1] == ToLe(v / 0x100 / 0x100, 2)[0];
      assert ToLe(v, n)[3] == ToLe(v / 0x100 / 0x100, 2)[1] == ToLe(v / 0x100 / 0x100 / 0x100, 1)[0];
    }
  }
}
