/** Exception entry and return (src/main.c) over the banked stacks in aliased RAM. */
module Exceptions {
  import opened Words
  import opened Memmap
  import opened Processor

  // ---------------------------------------------------------------- entry

  /** `x | (1 << 24)`: the Thumb bit. */
  function SetThumb(x: u32): u32 { if x / 0x100_0000 % 2 == 0 then x + 0x100_0000 else x }

  predicate Thumb(x: u32) { x / 0x100_0000 % 2 == 1 }

  /** `x & 0x1FF`: the exception number. */
  function Ipsr(x: u32): u32 { x % 0x200 }

  function ClearIpsr(x: u32): u32 { x - x % 0x200 }

  /** Flags of the interrupted context, Thumb bit, new exception number, no IT state. */
  function EntryXpsr(x: u32, excNum: u32): u32 {
    x - x % 0x800_0000 + 0x100_0000 + excNum % 0x200
  }

  /** The eight words stacked at entry, lowest address first. */
  function FrameOf(cpu: Cpu, returnPc: u32, xpsrIn: u32): (f: seq<u32>)
    requires |cpu.r| == 16
    ensures |f| == 8
  {
    [cpu.r[0], cpu.r[1], cpu.r[2], cpu.r[3], cpu.r[12], cpu.r[14], OrBit0(returnPc), SetThumb(xpsrIn)]
  }

  /** Pushes `words` from last to first, one word store at a time, stopping at a refused store. */
  function PushWords(l: Layout, ram: seq<u8>, sec: Security, sp: u32, words: seq<u32>): (r: (bool, seq<u8>, u32))
    requires l.Shaped()
    ensures |r.1| == |ram|
    decreases |words|
  {
    if words == [] then (true, ram, sp)
    else
      var n := |words| - 1;
      var sp' := Wrap(sp - 4);
      var (o, ram') := Write(l, ram, sec, sp', 4, words[n]);
      if o.Done? then PushWords(l, ram', sec, sp', words[..n]) else (false, ram', sp')
  }

  /** `wakes` distinguishes the generic entry, which also clears the sleep state, from the
      HardFault and UsageFault entries. */
  datatype Entry = Entry(excNum: u32, handlerSec: Security, handler: u32, wakes: bool)

  function HardFault(sec: Security, handler: u32): Entry { Entry(3, sec, handler, false) }

  function UsageFault(sec: Security, handler: u32): Entry { Entry(6, sec, handler, false) }

  /** Stack-pointer update and record keeping after the frame has been pushed at `sp`. */
  function Recorded(cpu: Cpu, sp: u32): (c: Cpu)
    requires cpu.Valid()
    ensures c.Valid()
  {
    var c := cpu.SetSp(cpu.sec, cpu.UsesPsp(), sp);
    if c.depth < EXC_STACK_MAX
    then c.(exc := c.exc[c.depth := Record(sp, cpu.UsesPsp(), cpu.sec)], depth := c.depth + 1)
    else c
  }

  function HandlerState(pre: Cpu, c: Cpu, e: Entry, xpsrIn: u32): (h: Cpu)
    requires c.Valid()
    ensures h.Valid()
  {
    c.(r := c.r[13 := c.msp.Get(e.handlerSec)]
             [14 := Encode(pre.sec, pre.UsesPsp(), pre.mode.Thread?)]
             [15 := OrBit0(e.handler)],
       xpsr := EntryXpsr(xpsrIn, e.excNum),
       mode := Handler,
       sec := e.handlerSec,
       sleeping := if e.wakes then false else c.sleeping,
       eventReg := if e.wakes then false else c.eventReg)
  }

  function Enter(l: Layout, cpu: Cpu, ram: seq<u8>, e: Entry, returnPc: u32, xpsrIn: u32): (r: (bool, Cpu, seq<u8>))
    requires l.Shaped() && cpu.Valid()
    ensures r.1.Valid() && |r.2| == |ram|
  {
    var (ok, ram', sp) := PushWords(l, ram, cpu.sec, cpu.ActiveSp(), FrameOf(cpu, returnPc, xpsrIn));
    if ok then (true, HandlerState(cpu, Recorded(cpu, sp), e, xpsrIn), ram') else (false, cpu, ram')
  }

  // ---------------------------------------------------------------- return

  function ReadWords(l: Layout, ram: seq<u8>, sec: Security, sp: u32, n: nat): (w: Option<seq<u32>>)
    requires l.Shaped()
    ensures w.Some? ==> |w.value| == n
  {
    if n == 0 then Some([])
    else
      var rest := ReadWords(l, ram, sec, sp, n - 1);
      if rest == None then None
      else
        match Read(l, ram, sec, Wrap(sp + 4 * (n - 1)), 4)
        case Done(v) => Some(rest.value + [v])
        case _ => None
  }

  /** The recorded stack pointer, unless nothing is recorded or the record disagrees on security. */
  function ReturnSp(cpu: Cpu, info: ReturnInfo): u32
    requires cpu.Valid()
  {
    if cpu.depth > 0 && cpu.exc[cpu.depth - 1].sec == info.sec then cpu.exc[cpu.depth - 1].sp
    else cpu.Sp(info.sec, info.usePsp)
  }

  function Popped(cpu: Cpu): (c: Cpu)
    requires cpu.Valid()
    ensures c.Valid()
  {
    if cpu.depth > 0 then cpu.(depth := cpu.depth - 1) else cpu
  }

  function Restored(c: Cpu, info: ReturnInfo, sp: u32, f: seq<u32>): (r: Cpu)
    requires c.Valid() && |f| == 8
    ensures r.Valid()
  {
    var top := Wrap(sp + 32);
    c.SetSp(info.sec, info.usePsp, top).(
      r := c.r[0 := f[0]][1 := f[1]][2 := f[2]][3 := f[3]][12 := f[4]][13 := top][14 := f[5]][15 := OrBit0(f[6])],
      xpsr := if info.toThread then ClearIpsr(f[7]) else f[7],
      sec := info.sec,
      mode := if info.toThread then Thread else Handler)
  }

  /** A failed frame read leaves the record already popped, as in the source. */
  function Unstack(l: Layout, cpu: Cpu, ram: seq<u8>, excRet: u32): (r: (bool, Cpu))
    requires l.Shaped() && cpu.Valid()
    ensures r.1.Valid()
  {
    var info := Decode(excRet);
    if !info.valid then (false, cpu)
    else
      var sp := ReturnSp(cpu, info);
      match ReadWords(l, ram, info.sec, sp, 8)
      case None => (false, Popped(cpu))
      case Some(f) => (true, Restored(Popped(cpu), info, sp, f))
  }

  // ---------------------------------------------------------------- stack areas

  /** A stack occupies addresses [lo, hi), backed by RAM offsets [off, off + hi - lo). */
  datatype Area = Area(lo: u32, hi: u32, off: nat)

  /** The word at `x` may be read and written and lies in RAM, at its place in the area. */
  ghost predicate WordMapped(l: Layout, sec: Security, a: Area, x: u32)
    requires l.Shaped()
  {
    && Permitted(l, ReadAccess, sec, x, 4)
    && Permitted(l, WriteAccess, sec, x, 4)
    && RamOffset(l, x, 4) == Some(a.off + (x - a.lo))
  }

  ghost predicate Mapped(l: Layout, sec: Security, a: Area, ramLen: nat)
    requires l.Shaped()
  {
    && a.lo <= a.hi && a.off + (a.hi - a.lo) <= ramLen < U32
    && (forall x: u32 :: a.lo <= x && x + 4 <= a.hi ==> WordMapped(l, sec, a, x))
  }

  /** A stack placed inside one window of one RAM region, clear of flash and permitted by the
      interceptor, is mapped, at the same offsets through either window. */
  lemma MappedInRegion(l: Layout, sec: Security, i: nat, d: nat, len: nat, viaNs: bool)
    requires Configured(l) && i < |l.regions| && d + len <= l.regions[i].size
    requires (if viaNs then l.regions[i].baseNs else l.regions[i].baseS) + d + len < U32
    requires var base := if viaNs then l.regions[i].baseNs else l.regions[i].baseS;
             forall x: u32 :: base + d <= x && x + 4 <= base + d + len ==>
               Permitted(l, ReadAccess, sec, x, 4) && Permitted(l, WriteAccess, sec, x, 4)
    ensures var base := if viaNs then l.regions[i].baseNs else l.regions[i].baseS;
            Mapped(l, sec, Area(base + d, base + d + len, l.offsets[i] + d), l.ramTotal)
  {
    hide RamOffset, Permitted, RegionsApart, Apart, SumSizes;
    var base := if viaNs then l.regions[i].baseNs else l.regions[i].baseS;
    var a := Area(base + d, base + d + len, l.offsets[i] + d);
    SliceInBounds(l, i);
    forall x: u32 | a.lo <= x && x + 4 <= a.hi
      ensures WordMapped(l, sec, a, x)
    {
      AliasesAgree(l, i, x - base, 4);
    }
  }

  ghost predicate SameOutside(ram: seq<u8>, ram': seq<u8>, from: nat, len: nat) {
    |ram'| == |ram| && forall k :: 0 <= k < |ram| && !(from <= k < from + len) ==> ram'[k] == ram[k]
  }

  ghost predicate HoldsWords(ram: seq<u8>, from: nat, words: seq<u32>) {
    from + 4 * |words| <= |ram| && forall k :: 0 <= k < |words| ==> WordAt(ram, from + 4 * k) == words[k]
  }

  lemma WordAtSame(ram: seq<u8>, ram': seq<u8>, at: nat)
    requires |ram| == |ram'| && at + 4 <= |ram|
    requires forall k :: at <= k < at + 4 ==> ram'[k] == ram[k]
    ensures WordAt(ram', at) == WordAt(ram, at)
  {
    assert ram'[at..at + 4] == ram[at..at + 4];
  }

  /** Stored words survive a change elsewhere. */
  lemma HoldsWordsSame(ram: seq<u8>, ram': seq<u8>, from: nat, words: seq<u32>)
    requires HoldsWords(ram, from, words) && |ram'| == |ram|
    requires forall k :: from <= k < from + 4 * |words| ==> ram'[k] == ram[k]
    ensures HoldsWords(ram', from, words)
  {
    forall k | 0 <= k < |words|
      ensures WordAt(ram', from + 4 * k) == words[k]
    {
      WordAtSame(ram, ram', from + 4 * k);
    }
  }

  /** One word store into a mapped stack. */
  lemma StoreWord(l: Layout, ram: seq<u8>, sec: Security, a: Area, x: u32, v: u32)
    requires l.Shaped() && Mapped(l, sec, a, |ram|)
    requires a.lo <= x && x + 4 <= a.hi
    ensures Write(l, ram, sec, x, 4, v) == (Done(v), Splice(ram, a.off + (x - a.lo), ToLe(v, 4)))
  {
    hide RamOffset;
    assert WordMapped(l, sec, a, x);
  }

  lemma LoadWord(l: Layout, ram: seq<u8>, sec: Security, a: Area, x: u32)
    requires l.Shaped() && Mapped(l, sec, a, |ram|)
    requires a.lo <= x && x + 4 <= a.hi
    ensures Read(l, ram, sec, x, 4) == Done(WordAt(ram, a.off + (x - a.lo)))
  {
    hide RamOffset;
    assert WordMapped(l, sec, a, x);
  }

  /** Pushing into a mapped stack with room succeeds, moves SP down by four per word, stores the
      words in order and touches nothing else. */
  lemma {:induction false} PushIntoArea(l: Layout, ram: seq<u8>, sec: Security, a: Area, sp: u32, words: seq<u32>)
    requires l.Shaped() && Mapped(l, sec, a, |ram|)
    requires a.lo + 4 * |words| <= sp <= a.hi
    ensures var r := PushWords(l, ram, sec, sp, words);
            var from := a.off + (sp - 4 * |words| - a.lo);
            && r.0 && r.2 == sp - 4 * |words|
            && HoldsWords(r.1, from, words)
            && SameOutside(ram, r.1, from, 4 * |words|)
    decreases |words|
  {
    hide Mapped, WordAt, Write, PushWords, HoldsWords, SameOutside;
    var from := a.off + (sp - 4 * |words| - a.lo);
    if words == [] {
      PushNone(l, ram, sec, a, sp);
    } else {
      var n := |words| - 1;
      var ram1 := PushOne(l, ram, sec, a, sp, words);
      PushIntoArea(l, ram1, sec, a, sp - 4, words[..n]);
      PushJoin(ram, ram1, PushWords(l, ram1, sec, sp - 4, words[..n]).1, from, words);
    }
  }

  lemma PushNone(l: Layout, ram: seq<u8>, sec: Security, a: Area, sp: u32)
    requires l.Shaped() && Mapped(l, sec, a, |ram|) && a.lo <= sp <= a.hi
    ensures PushWords(l, ram, sec, sp, []) == (true, ram, sp)
    ensures HoldsWords(ram, a.off + (sp - a.lo), [])
    ensures SameOutside(ram, ram, a.off + (sp - a.lo), 0)
  {
  }

  lemma PushOne(l: Layout, ram: seq<u8>, sec: Security, a: Area, sp: u32, words: seq<u32>) returns (ram1: seq<u8>)
    requires l.Shaped() && Mapped(l, sec, a, |ram|)
    requires words != [] && a.lo + 4 * |words| <= sp <= a.hi
    ensures |ram1| == |ram| && Mapped(l, sec, a, |ram1|)
    ensures a.off + (sp - a.lo) <= |ram|
    ensures SameOutside(ram, ram1, a.off + (sp - 4 - a.lo), 4)
    ensures WordAt(ram1, a.off + (sp - 4 - a.lo)) == words[|words| - 1]
    ensures PushWords(l, ram, sec, sp, words) == PushWords(l, ram1, sec, sp - 4, words[..|words| - 1])
  {
    hide WordMapped, Write;
    var at := a.off + (sp - 4 - a.lo);
    var v := words[|words| - 1];
    ram1 := Splice(ram, at, ToLe(v, 4));
    StoreWord(l, ram, sec, a, sp - 4, v);
    PushStep(l, ram, sec, sp, words, ram1);
    WordAfterSplice(ram, at, v, at);
  }

  /** Gluing the top word to the words pushed below it. */
  lemma PushJoin(ram: seq<u8>, ram1: seq<u8>, ram2: seq<u8>, from: nat, words: seq<u32>)
    requires words != [] && from + 4 * |words| <= |ram|
    requires SameOutside(ram, ram1, from + 4 * (|words| - 1), 4)
    requires WordAt(ram1, from + 4 * (|words| - 1)) == words[|words| - 1]
    requires HoldsWords(ram2, from, words[..|words| - 1])
    requires SameOutside(ram1, ram2, from, 4 * (|words| - 1))
    ensures HoldsWords(ram2, from, words)
    ensures SameOutside(ram, ram2, from, 4 * |words|)
  {
    hide WordAt;
    WordAtSame(ram1, ram2, from + 4 * (|words| - 1));
    HoldsLast(ram2, from, words);
  }

  lemma PushStep(l: Layout, ram: seq<u8>, sec: Security, sp: u32, words: seq<u32>, ram1: seq<u8>)
    requires l.Shaped() && words != [] && 4 <= sp
    requires Write(l, ram, sec, sp - 4, 4, words[|words| - 1]) == (Done(words[|words| - 1]), ram1)
    ensures PushWords(l, ram, sec, sp, words) == PushWords(l, ram1, sec, sp - 4, words[..|words| - 1])
  {
    hide Write;
  }

  lemma HoldsLast(ram: seq<u8>, from: nat, words: seq<u32>)
    requires words != [] && from + 4 * |words| <= |ram|
    requires HoldsWords(ram, from, words[..|words| - 1])
    requires WordAt(ram, from + 4 * (|words| - 1)) == words[|words| - 1]
    ensures HoldsWords(ram, from, words)
  {
    hide WordAt;
  }

  /** Reading back a frame that a mapped stack holds. */
  lemma {:induction false} ReadFromArea(l: Layout, ram: seq<u8>, sec: Security, a: Area, sp: u32, words: seq<u32>, n: nat)
    requires l.Shaped() && Mapped(l, sec, a, |ram|)
    requires n <= |words| && a.lo <= sp && sp + 4 * |words| <= a.hi
    requires HoldsWords(ram, a.off + (sp - a.lo), words)
    ensures ReadWords(l, ram, sec, sp, n) == Some(words[..n])
  {
    hide WordAt, RamOffset, Read, WordMapped;
    if n > 0 {
      ReadFromArea(l, ram, sec, a, sp, words, n - 1);
      LoadWord(l, ram, sec, a, sp + 4 * (n - 1));
      assert words[..n] == words[..n - 1] + [words[n - 1]];
    }
  }
}
