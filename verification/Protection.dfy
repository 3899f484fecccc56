/** The access interceptor (src/memmap.c:219-360): what it refuses is neither read nor written, by single
    accesses or by the loops built from them. */
module Protection {
  import opened Words
  import opened Memmap
  import opened Processor
  import opened Exceptions
  import opened MultiTransfer

  /** A refused store ends as denied and changes nothing, whatever it addresses. */
  lemma DeniedStore(l: Layout, ram: seq<u8>, sec: Security, addr: u32, size: nat, value: u32)
    requires l.Shaped() && BusSize(size) && !l.allow(WriteAccess, sec, addr, size)
    ensures Write(l, ram, sec, addr, size, value) == (Denied, ram)
  {
  }

  lemma DeniedLoad(l: Layout, ram: seq<u8>, sec: Security, addr: u32, size: nat)
    requires l.Shaped() && BusSize(size) && !l.allow(ReadAccess, sec, addr, size)
    ensures Read(l, ram, sec, addr, size) == Denied
  {
  }

  /** An access reaches its flash window exactly when it is allowed, there is flash (for stores, one that
      can be written) and the window holds it; RAM is then left alone. */
  lemma FlashAnswersIff(l: Layout, ram: seq<u8>, sec: Security, addr: u32, size: nat, value: u32)
    requires l.Shaped() && BusSize(size)
    ensures Read(l, ram, sec, addr, size).FlashAccess? <==>
              l.allow(ReadAccess, sec, addr, size) && l.hasFlash && l.InFlash(addr, size)
    ensures Write(l, ram, sec, addr, size, value).0.FlashAccess? <==>
              l.allow(WriteAccess, sec, addr, size) && l.hasFlash && l.hasFlashWriter && l.InFlash(addr, size)
    ensures Write(l, ram, sec, addr, size, value).0.FlashAccess? ==> Write(l, ram, sec, addr, size, value).1 == ram
  {
    hide RamOffset, Layout.InFlash, LeBelow;
  }

  /** Both windows of a flash show the same bytes. */
  lemma FlashAliasesAgree(l: Layout, ram: seq<u8>, sec: Security, d: nat, size: nat)
    requires l.Shaped() && BusSize(size) && l.hasFlash && d + size <= l.flashS.size == l.flashNs.size
    requires l.flashS.base + l.flashS.size < U32 && l.flashNs.base + l.flashNs.size <= l.flashS.base
    requires l.allow(ReadAccess, sec, l.flashS.base + d, size) && l.allow(ReadAccess, sec, l.flashNs.base + d, size)
    ensures Read(l, ram, sec, l.flashS.base + d, size) == FlashAccess(d) == Read(l, ram, sec, l.flashNs.base + d, size)
  {
    hide RamOffset;
  }

  /** A flash window configured with no size takes the place of the flash itself. */
  lemma FlashStandsIn(l: Layout, ram: seq<u8>, sec: Security, d: nat, size: nat, value: u32)
    requires l.Shaped() && BusSize(size) && l.hasFlash && l.flashS.size == 0 && d + size <= l.flashView.size
    requires l.flashView.base + l.flashView.size < U32 && l.allow(ReadAccess, sec, l.flashView.base + d, size)
    ensures Read(l, ram, sec, l.flashView.base + d, size) == FlashAccess(d)
  {
    hide RamOffset;
  }

  // ---------------------------------------------------------------- bytes

  /** Some allowed store of `size` bytes by `sec` reaches byte `k` of the buffer. */
  ghost predicate Writable(l: Layout, sec: Security, size: nat, k: nat)
    requires l.Shaped()
  {
    exists addr: u32 :: Reaches(l, sec, addr, size, k)
  }

  ghost predicate Reaches(l: Layout, sec: Security, addr: u32, size: nat, k: nat)
    requires l.Shaped()
  {
    && l.allow(WriteAccess, sec, addr, size)
    && RamOffset(l, addr, size).Some?
    && RamOffset(l, addr, size).value <= k < RamOffset(l, addr, size).value + size
  }

  /** A store changes a byte only if it was allowed and resolves to that byte. */
  lemma StoreTouches(l: Layout, ram: seq<u8>, sec: Security, addr: u32, size: nat, value: u32, k: nat)
    requires l.Shaped() && BusSize(size) && k < |ram|
    requires Write(l, ram, sec, addr, size, value).1[k] != ram[k]
    ensures Reaches(l, sec, addr, size, k)
  {
    hide RamOffset, ToLe, Layout.InFlash;
  }

  /** Stacking changes only bytes that allowed word stores of the same security state reach. */
  lemma {:induction false} StackingTouches(l: Layout, ram: seq<u8>, sec: Security, sp: u32, words: seq<u32>, k: nat)
    requires l.Shaped() && k < |ram| && PushWords(l, ram, sec, sp, words).1[k] != ram[k]
    ensures Writable(l, sec, 4, k)
    decreases |words|
  {
    hide Write, Reaches;
    if words != [] {
      var n := |words| - 1;
      var w := Write(l, ram, sec, Wrap(sp - 4), 4, words[n]);
      if w.1[k] != ram[k] {
        StoreTouches(l, ram, sec, Wrap(sp - 4), 4, words[n], k);
      } else if w.0.Done? {
        StackingTouches(l, w.1, sec, Wrap(sp - 4), words[..n], k);
      }
    }
  }

  /** So exception entry leaves every byte alone that its security state may not write, and a refused
      one leaves the processor as it was. */
  lemma EntryProtected(l: Layout, cpu: Cpu, ram: seq<u8>, e: Entry, returnPc: u32, xpsrIn: u32, k: nat)
    requires l.Shaped() && cpu.Valid() && k < |ram|
    ensures Enter(l, cpu, ram, e, returnPc, xpsrIn).2[k] != ram[k] ==> Writable(l, cpu.sec, 4, k)
    ensures !Enter(l, cpu, ram, e, returnPc, xpsrIn).0 ==> Enter(l, cpu, ram, e, returnPc, xpsrIn).1 == cpu
  {
    hide PushWords, Writable;
    if Enter(l, cpu, ram, e, returnPc, xpsrIn).2[k] != ram[k] {
      StackingTouches(l, ram, cpu.sec, cpu.ActiveSp(), FrameOf(cpu, returnPc, xpsrIn), k);
    }
  }

  /** The first word of a frame is stacked only with permission for it. */
  lemma EntryNeedsPermission(l: Layout, cpu: Cpu, ram: seq<u8>, e: Entry, returnPc: u32, xpsrIn: u32)
    requires l.Shaped() && cpu.Valid() && !l.allow(WriteAccess, cpu.sec, Wrap(cpu.ActiveSp() - 4), 4)
    ensures Enter(l, cpu, ram, e, returnPc, xpsrIn) == (false, cpu, ram)
  {
    hide FrameOf;
    DeniedStore(l, ram, cpu.sec, Wrap(cpu.ActiveSp() - 4), 4, FrameOf(cpu, returnPc, xpsrIn)[7]);
    hide Write;
  }

  lemma {:induction false} StoreLoopTouches(l: Layout, ram: seq<u8>, sec: Security, r: seq<u32>, addr: u32, mask: Mask, n: nat, k: nat)
    requires l.Shaped() && |r| == 16 && n <= 16 && k < |ram|
    requires StoreBelow(l, ram, sec, r, addr, mask, n).1[k] != ram[k]
    ensures Writable(l, sec, 4, k)
  {
    hide Write, Reaches, StoredValue;
    if n > 0 {
      var p := StoreBelow(l, ram, sec, r, addr, mask, n - 1);
      if p.1[k] != ram[k] {
        StoreLoopTouches(l, ram, sec, r, addr, mask, n - 1, k);
      } else {
        StoreTouches(l, p.1, sec, p.2, 4, StoredValue(r, n - 1), k);
      }
    }
  }

  /** PUSH and STM likewise. */
  lemma PushProtected(l: Layout, c: Cpu, ram: seq<u8>, mask: Mask, k: nat)
    requires l.Shaped() && c.Valid() && k < |ram|
    requires Push(l, c, ram, mask).2[k] != ram[k]
    ensures Writable(l, c.sec, 4, k)
  {
    hide Write, Reaches, StoreBelow, SetSpChecked, Writable;
    var bottom := Wrap(c.ActiveSp() - 4 * PushCount(mask));
    var s := StoreBelow(l, ram, c.sec, c.r, bottom, mask, 8);
    if s.1[k] != ram[k] {
      StoreLoopTouches(l, ram, c.sec, c.r, bottom, mask, 8, k);
    } else {
      StoreTouches(l, s.1, c.sec, s.2, 4, c.r[14], k);
      ReachesWritable(l, c.sec, s.2, k);
    }
  }

  lemma ReachesWritable(l: Layout, sec: Security, addr: u32, k: nat)
    requires l.Shaped() && Reaches(l, sec, addr, 4, k)
    ensures Writable(l, sec, 4, k)
  {
    hide Reaches;
  }

  lemma StoreMultipleProtected(l: Layout, c: Cpu, ram: seq<u8>, rn: nat, mask: Mask, db: bool, wb: bool, k: nat)
    requires l.Shaped() && c.Valid() && rn < 16 && k < |ram|
    requires StoreMultiple(l, c, ram, rn, mask, db, wb).2[k] != ram[k]
    ensures Writable(l, c.sec, 4, k)
  {
    hide StoreBelow, WriteBack, Writable, Count;
    var base := c.r[rn];
    var n := Count(mask, 16);
    StoreLoopTouches(l, ram, c.sec, c.r, if db then Wrap(base - 4 * n) else base, mask, 16, k);
  }

  // ---------------------------------------------------------------- loads

  /** A frame is read only with permission for each of its words ... */
  lemma {:induction false} FrameNeedsPermission(l: Layout, ram: seq<u8>, sec: Security, sp: u32, n: nat, i: nat)
    requires l.Shaped() && i < n && ReadWords(l, ram, sec, sp, n).Some?
    ensures l.allow(ReadAccess, sec, Wrap(sp + 4 * i), 4)
  {
    hide Read;
    if i == n - 1 {
      if !l.allow(ReadAccess, sec, Wrap(sp + 4 * i), 4) { DeniedLoad(l, ram, sec, Wrap(sp + 4 * i), 4); }
    } else {
      FrameNeedsPermission(l, ram, sec, sp, n - 1, i);
    }
  }

  /** ... so a return through a refused frame fails, giving up its record and nothing else. */
  lemma ReturnNeedsPermission(l: Layout, cpu: Cpu, ram: seq<u8>, value: u32, i: nat)
    requires l.Shaped() && cpu.Valid() && Decode(value).valid && i < 8
    requires !l.allow(ReadAccess, Decode(value).sec, Wrap(ReturnSp(cpu, Decode(value)) + 4 * i), 4)
    ensures Unstack(l, cpu, ram, value) == (false, cpu.(depth := if cpu.depth > 0 then cpu.depth - 1 else 0))
  {
    hide ReadWords, ReturnSp, Decode;
    var info := Decode(value);
    if ReadWords(l, ram, info.sec, ReturnSp(cpu, info), 8).Some? {
      FrameNeedsPermission(l, ram, info.sec, ReturnSp(cpu, info), 8, i);
    }
  }

  /** The load loop gets past a listed register only with permission for its word. */
  lemma {:induction false} LoadLoopNeedsPermission(l: Layout, ram: seq<u8>, sec: Security, r: seq<u32>, addr: u32, mask: Mask, n: nat, reg: nat)
    requires l.Shaped() && |r| == 16 && reg < n <= 16 && mask[reg] && LoadBelow(l, ram, sec, r, addr, mask, n).0
    ensures l.allow(ReadAccess, sec, LoadBelow(l, ram, sec, r, addr, mask, reg).2, 4)
  {
    hide Read;
    if reg == n - 1 {
      var at := LoadBelow(l, ram, sec, r, addr, mask, reg).2;
      if !l.allow(ReadAccess, sec, at, 4) { DeniedLoad(l, ram, sec, at, 4); }
    } else {
      LoadLoopNeedsPermission(l, ram, sec, r, addr, mask, n - 1, reg);
    }
  }
}
