/** Multiple-register loads and stores: the STM, LDM, PUSH and POP cases of
    src/execute.c:1870-1964 and 1988-2061, up to the first refused access. */
module MultiTransfer {
  import opened Words
  import opened Memmap
  import opened Processor
  import opened Exceptions
  import Core

  /** Register list, bit 0 first. */
  type Mask = m: seq<bool> | |m| == 16 witness seq(16, i => false)

  /** Listed registers below `n`. */
  function Count(mask: Mask, n: nat): (c: nat)
    requires n <= 16
    ensures c <= n
  {
    if n == 0 then 0 else Count(mask, n - 1) + (if mask[n - 1] then 1 else 0)
  }

  lemma {:induction false} CountGrows(mask: Mask, m: nat, n: nat)
    requires m <= n <= 16
    ensures Count(mask, m) <= Count(mask, n)
    ensures m < n && mask[m] ==> Count(mask, m) + 1 <= Count(mask, n)
  {
    if m + 1 < n {
      CountGrows(mask, m, n - 1);
    } else if m < n {
      assert Count(mask, n) == Count(mask, m) + (if mask[m] then 1 else 0);
    }
  }

  /** The value stored for a register; PC carries its Thumb bit. */
  function StoredValue(r: seq<u32>, reg: nat): u32
    requires |r| == 16 && reg < 16
  {
    if reg == 15 then OrBit0(r[15]) else r[reg]
  }

  /** Stores the listed registers below `n` at ascending addresses; stops at a refused store. */
  function StoreBelow(l: Layout, ram: seq<u8>, sec: Security, r: seq<u32>, addr: u32, mask: Mask, n: nat): (o: (bool, seq<u8>, u32))
    requires l.Shaped() && |r| == 16 && n <= 16
    ensures |o.1| == |ram|
  {
    if n == 0 then (true, ram, addr)
    else
      var p := StoreBelow(l, ram, sec, r, addr, mask, n - 1);
      if !p.0 || !mask[n - 1] then p
      else
        var w := Write(l, p.1, sec, p.2, 4, StoredValue(r, n - 1));
        if w.0.Done? then (true, w.1, Wrap(p.2 + 4)) else (false, w.1, p.2)
  }

  /** Loads the listed registers below `n` from ascending addresses; stops at a refused load. */
  function LoadBelow(l: Layout, ram: seq<u8>, sec: Security, r: seq<u32>, addr: u32, mask: Mask, n: nat): (o: (bool, seq<u32>, u32))
    requires l.Shaped() && |r| == 16 && n <= 16
    ensures |o.1| == 16
  {
    if n == 0 then (true, r, addr)
    else
      var p := LoadBelow(l, ram, sec, r, addr, mask, n - 1);
      if !p.0 || !mask[n - 1] then p
      else
        match Read(l, ram, sec, p.2, 4)
        case Done(v) => (true, p.1[n - 1 := v], Wrap(p.2 + 4))
        case _ => (false, p.1, p.2)
  }

  /** `Refused` is a failed access, `Limit` a stack-limit violation; both then raise a fault.
      `Leaves(v)` is a load of an EXC_RETURN value into PC. */
  datatype Status = Completed | Refused | Limit | Leaves(value: u32)

  predicate WithinLimit(c: Cpu, v: u32) { c.ActiveSplim() == 0 || v >= c.ActiveSplim() }

  /** `exec_set_active_sp`. */
  function SetSpChecked(c: Cpu, v: u32): (Status, Cpu)
    requires c.Valid()
  {
    if WithinLimit(c, v) then (Completed, c.SetActiveSp(v)) else (Limit, c)
  }

  // ---------------------------------------------------------------- PUSH and POP

  /** Bit 8 of the PUSH/POP list stands for LR or PC. */
  function PushCount(mask: Mask): nat { Count(mask, 8) + (if mask[8] then 1 else 0) }

  function Push(l: Layout, c: Cpu, ram: seq<u8>, mask: Mask): (o: (Status, Cpu, seq<u8>))
    requires l.Shaped() && c.Valid()
    ensures |o.2| == |ram|
  {
    var bottom := Wrap(c.ActiveSp() - 4 * PushCount(mask));
    var s := StoreBelow(l, ram, c.sec, c.r, bottom, mask, 8);
    if !s.0 then (Refused, c, s.1)
    else
      var w := if mask[8] then Write(l, s.1, c.sec, s.2, 4, c.r[14]) else (Done(0), s.1);
      if !w.0.Done? then (Refused, c, w.1)
      else
        var d := SetSpChecked(c, bottom);
        (d.0, d.1, w.1)
  }

  function Pop(l: Layout, c: Cpu, ram: seq<u8>, mask: Mask): (Status, Cpu)
    requires l.Shaped() && c.Valid()
  {
    var s := LoadBelow(l, ram, c.sec, c.r, c.ActiveSp(), mask, 8);
    var c1 := c.(r := s.1);
    if !s.0 then (Refused, c1)
    else if !mask[8] then SetSpChecked(c1, s.2)
    else
      match Read(l, ram, c.sec, s.2, 4)
      case Done(v) =>
        if IsExcReturn(v) then (Leaves(v), c1)
        else SetSpChecked(c1.(r := c1.r[15 := OrBit0(v)]), Wrap(s.2 + 4))
      case _ => (Refused, c1)
  }

  // ---------------------------------------------------------------- STM and LDM

  function WriteBack(c: Cpu, rn: nat, v: u32): (Status, Cpu)
    requires c.Valid() && rn < 16
  {
    var c1 := c.(r := c.r[rn := v]);
    if rn == 13 then SetSpChecked(c1, v) else (Completed, c1)
  }

  function StoreMultiple(l: Layout, c: Cpu, ram: seq<u8>, rn: nat, mask: Mask, db: bool, wb: bool): (o: (Status, Cpu, seq<u8>))
    requires l.Shaped() && c.Valid() && rn < 16
    ensures |o.2| == |ram|
  {
    var n := Count(mask, 16);
    var base := c.r[rn];
    if n == 0 then (Completed, c, ram)
    else
      var s := StoreBelow(l, ram, c.sec, c.r, if db then Wrap(base - 4 * n) else base, mask, 16);
      if !s.0 then (Refused, c, s.1)
      else if !wb then (Completed, c, s.1)
      else
        var d := WriteBack(c, rn, Wrap(if db then base - 4 * n else base + 4 * n));
        (d.0, d.1, s.1)
  }

  function LoadMultiple(l: Layout, c: Cpu, ram: seq<u8>, rn: nat, mask: Mask, db: bool, wb: bool): (Status, Cpu)
    requires l.Shaped() && c.Valid() && rn < 16
  {
    var n := Count(mask, 16);
    var base := c.r[rn];
    if n == 0 then (Completed, c)
    else
      var s := LoadBelow(l, ram, c.sec, c.r, if db then Wrap(base - 4 * n) else base, mask, 15);
      var c1 := c.(r := s.1);
      if !s.0 then (Refused, c1)
      else
        var pc := if mask[15] then Read(l, ram, c.sec, s.2, 4) else Done(0);
        if !pc.Done? then (Refused, c1)
        else if mask[15] && IsExcReturn(pc.value) then (Leaves(pc.value), c1)
        else
          var c2 := if mask[15] then c1.(r := c1.r[15 := OrBit0(pc.value)]) else c1;
          if !wb || mask[rn] then (Completed, c2)
          else WriteBack(c2, rn, Wrap(if db then base - 4 * n else base + 4 * n))
  }

  // ---------------------------------------------------------------- what the loops do in RAM

  /** Slot of a listed register in the transferred block. */
  function Slot(from: nat, mask: Mask, reg: nat): nat
    requires reg <= 16
  {
    from + 4 * Count(mask, reg)
  }

  ghost predicate BlockHolds(ram: seq<u8>, from: nat, mask: Mask, n: nat, r: seq<u32>)
    requires |r| == 16 && n <= 16
  {
    && Slot(from, mask, n) <= |ram|
    && forall reg :: 0 <= reg < n && mask[reg] ==>
         Slot(from, mask, reg) + 4 <= |ram| && WordAt(ram, Slot(from, mask, reg)) == StoredValue(r, reg)
  }

  /** Stores into a mapped area succeed, fill the block in register order and touch nothing else. */
  lemma {:induction false} StoreBelowArea(l: Layout, ram: seq<u8>, sec: Security, r: seq<u32>, a: Area, addr: u32, mask: Mask, n: nat)
    requires l.Shaped() && |r| == 16 && n <= 16 && Mapped(l, sec, a, |ram|)
    requires a.lo <= addr && addr + 4 * Count(mask, n) <= a.hi
    ensures var o := StoreBelow(l, ram, sec, r, addr, mask, n);
            var from := a.off + (addr - a.lo);
            && o.0 && o.2 == addr + 4 * Count(mask, n)
            && BlockHolds(o.1, from, mask, n, r)
            && SameOutside(ram, o.1, from, 4 * Count(mask, n))
  {
    hide Mapped, Write, BlockHolds, SameOutside, StoredValue, Splice, ToLe, Wrap;
    var from := a.off + (addr - a.lo);
    if n == 0 {
      EmptyBlock(l, ram, sec, a, addr, mask, r);
    } else {
      StoreBelowArea(l, ram, sec, r, a, addr, mask, n - 1);
      var p := StoreBelow(l, ram, sec, r, addr, mask, n - 1);
      if mask[n - 1] {
        StoreWord(l, p.1, sec, a, p.2, StoredValue(r, n - 1));
        WrapSmall(p.2 + 4);
        BlockExtend(ram, p.1, from, mask, n, r, l, sec, a);
      } else {
        BlockSkip(p.1, from, mask, n, r);
      }
    }
  }

  lemma WrapSmall(x: int)
    requires 0 <= x < U32
    ensures Wrap(x) == x
  {
  }

  lemma EmptyBlock(l: Layout, ram: seq<u8>, sec: Security, a: Area, addr: u32, mask: Mask, r: seq<u32>)
    requires l.Shaped() && |r| == 16 && Mapped(l, sec, a, |ram|) && a.lo <= addr <= a.hi
    ensures BlockHolds(ram, a.off + (addr - a.lo), mask, 0, r) && SameOutside(ram, ram, a.off + (addr - a.lo), 0)
  {
    hide WordMapped;
  }

  lemma BlockSkip(ram: seq<u8>, from: nat, mask: Mask, n: nat, r: seq<u32>)
    requires |r| == 16 && 0 < n <= 16 && !mask[n - 1] && BlockHolds(ram, from, mask, n - 1, r)
    ensures BlockHolds(ram, from, mask, n, r)
  {
    hide WordAt, StoredValue;
  }

  lemma BlockExtend(ram: seq<u8>, ram1: seq<u8>, from: nat, mask: Mask, n: nat, r: seq<u32>, l: Layout, sec: Security, a: Area)
    requires |r| == 16 && 0 < n <= 16 && mask[n - 1] && l.Shaped() && Mapped(l, sec, a, |ram|)
    requires Slot(from, mask, n) <= a.off + (a.hi - a.lo)
    requires BlockHolds(ram1, from, mask, n - 1, r) && SameOutside(ram, ram1, from, 4 * Count(mask, n - 1))
    ensures Slot(from, mask, n - 1) + 4 <= |ram1|
    ensures var ram2 := Splice(ram1, Slot(from, mask, n - 1), ToLe(StoredValue(r, n - 1), 4));
            BlockHolds(ram2, from, mask, n, r) && SameOutside(ram, ram2, from, 4 * Count(mask, n))
  {
    assert a.off + (a.hi - a.lo) <= |ram|;
    assert Count(mask, n) == Count(mask, n - 1) + 1;
    hide WordMapped, WordAt, Mapped, ToLe, StoredValue, Count;
    var at := Slot(from, mask, n - 1);
    var v := StoredValue(r, n - 1);
    var ram2 := Splice(ram1, at, ToLe(v, 4));
    forall reg | 0 <= reg < n && mask[reg]
      ensures Slot(from, mask, reg) + 4 <= |ram2| && WordAt(ram2, Slot(from, mask, reg)) == StoredValue(r, reg)
    {
      if reg < n - 1 { CountGrows(mask, reg, n - 1); }
      WordAfterSplice(ram1, at, v, Slot(from, mask, reg));
    }
  }

  /** Loading a block that holds the values of `src` gives exactly the listed registers back. */
  ghost predicate Loaded(r: seq<u32>, was: seq<u32>, src: seq<u32>, mask: Mask, n: nat)
    requires |src| == 16 && |was| == 16 && n <= 16
  {
    |r| == 16 && forall reg :: 0 <= reg < 16 ==>
      r[reg] == if reg < n && mask[reg] then StoredValue(src, reg) else was[reg]
  }

  lemma {:induction false} LoadBelowArea(l: Layout, ram: seq<u8>, sec: Security, r: seq<u32>, a: Area, addr: u32, mask: Mask, n: nat, src: seq<u32>, m: nat)
    requires l.Shaped() && |r| == 16 && |src| == 16 && n <= m <= 16 && Mapped(l, sec, a, |ram|)
    requires a.lo <= addr && addr + 4 * Count(mask, m) <= a.hi
    requires BlockHolds(ram, a.off + (addr - a.lo), mask, m, src)
    ensures var o := LoadBelow(l, ram, sec, r, addr, mask, n);
            && o.0 && o.2 == addr + 4 * Count(mask, n) && Loaded(o.1, r, src, mask, n)
  {
    hide Mapped, Read, WordAt, StoredValue, Wrap;
    if n > 0 {
      LoadBelowArea(l, ram, sec, r, a, addr, mask, n - 1, src, m);
      CountGrows(mask, n - 1, m);
      if mask[n - 1] {
        LoadWord(l, ram, sec, a, addr + 4 * Count(mask, n - 1));
        WrapSmall(addr + 4 * Count(mask, n));
      }
    }
  }

  /** A block survives changes outside it. */
  lemma BlockSame(ram: seq<u8>, ram': seq<u8>, from: nat, mask: Mask, n: nat, r: seq<u32>)
    requires |r| == 16 && n <= 16 && BlockHolds(ram, from, mask, n, r) && |ram'| == |ram|
    requires forall k :: from <= k < Slot(from, mask, n) ==> ram'[k] == ram[k]
    ensures BlockHolds(ram', from, mask, n, r)
  {
    hide WordAt, StoredValue;
    forall reg | 0 <= reg < n && mask[reg]
      ensures WordAt(ram', Slot(from, mask, reg)) == StoredValue(r, reg)
    {
      CountGrows(mask, reg, n);
      WordAtSame(ram, ram', Slot(from, mask, reg));
    }
  }

  // ---------------------------------------------------------------- POP undoes PUSH

  /** Block offset of a transfer that starts at `addr`. */
  function Offset(a: Area, addr: u32): int { a.off + (addr - a.lo) }

  /** PUSH in a mapped stack with room and within the limit: SP moves down and the block holds the low
      registers, with LR above them. */
  lemma PushEffect(l: Layout, c: Cpu, ram: seq<u8>, mask: Mask, a: Area)
    requires l.Shaped() && c.Valid() && Mapped(l, c.sec, a, |ram|)
    requires a.lo + 4 * PushCount(mask) <= c.ActiveSp() <= a.hi
    requires WithinLimit(c, c.ActiveSp() - 4 * PushCount(mask))
    ensures var p := Push(l, c, ram, mask);
            var bottom := c.ActiveSp() - 4 * PushCount(mask);
            && p.0 == Completed && p.1 == c.SetActiveSp(bottom)
            && |p.2| == |ram| && Offset(a, bottom) >= 0 && Slot(Offset(a, bottom), mask, 8) + (if mask[8] then 4 else 0) <= |ram|
            && BlockHolds(p.2, Offset(a, bottom), mask, 8, c.r)
            && (mask[8] ==> WordAt(p.2, Slot(Offset(a, bottom), mask, 8)) == c.r[14])
  {
    hide Mapped, Write, BlockHolds, WordAt, StoreBelow, Push, Count, WithinLimit, Cpu.SetActiveSp, Cpu.UsesPsp, Cpu.ActiveSp;
    var bottom := c.ActiveSp() - 4 * PushCount(mask);
    PushStores(l, c.sec, c.r, ram, mask, a, bottom);
    PushFinish(l, c, ram, mask, bottom);
  }

  /** The stores of PUSH, from the lowest address. */
  lemma PushStores(l: Layout, sec: Security, r: seq<u32>, ram: seq<u8>, mask: Mask, a: Area, bottom: u32)
    requires l.Shaped() && |r| == 16 && Mapped(l, sec, a, |ram|)
    requires a.lo <= bottom && bottom + 4 * PushCount(mask) <= a.hi
    ensures var s := StoreBelow(l, ram, sec, r, bottom, mask, 8);
            var w := if mask[8] then Write(l, s.1, sec, s.2, 4, r[14]) else (Done(0), s.1);
            var from := Offset(a, bottom);
            && s.0 && w.0.Done? && |w.1| == |ram| && from >= 0
            && Slot(from, mask, 8) + (if mask[8] then 4 else 0) <= |ram|
            && BlockHolds(w.1, from, mask, 8, r)
            && (mask[8] ==> WordAt(w.1, Slot(from, mask, 8)) == r[14])
  {
    assert a.off + (a.hi - a.lo) <= |ram|;
    hide Mapped, Write, BlockHolds, WordAt, StoreBelow, SameOutside, Splice, ToLe, Count;
    StoreBelowArea(l, ram, sec, r, a, bottom, mask, 8);
    if mask[8] {
      LinkStore(l, StoreBelow(l, ram, sec, r, bottom, mask, 8).1, sec, r, mask, a, bottom);
    }
  }

  /** The store of LR above the block. */
  lemma LinkStore(l: Layout, ram: seq<u8>, sec: Security, r: seq<u32>, mask: Mask, a: Area, bottom: u32)
    requires l.Shaped() && |r| == 16 && Mapped(l, sec, a, |ram|)
    requires a.lo <= bottom && bottom + 4 * Count(mask, 8) + 4 <= a.hi
    requires BlockHolds(ram, Offset(a, bottom), mask, 8, r)
    ensures var w := Write(l, ram, sec, bottom + 4 * Count(mask, 8), 4, r[14]);
            var from := Offset(a, bottom);
            && w.0.Done? && |w.1| == |ram| && from >= 0 && Slot(from, mask, 8) + 4 <= |ram|
            && BlockHolds(w.1, from, mask, 8, r) && WordAt(w.1, Slot(from, mask, 8)) == r[14]
  {
    var x := bottom + 4 * Count(mask, 8);
    assert a.off + (x - a.lo) == Slot(Offset(a, bottom), mask, 8) && a.off + (x - a.lo) + 4 <= |ram|;
    assert Offset(a, bottom) >= 0;
    hide *;
    StoreWord(l, ram, sec, a, x, r[14]);
    LinkAbove(ram, Offset(a, bottom), mask, r);
  }

  /** The last steps of PUSH once its stores are known. */
  lemma PushFinish(l: Layout, c: Cpu, ram: seq<u8>, mask: Mask, bottom: u32)
    requires l.Shaped() && c.Valid() && bottom == c.ActiveSp() - 4 * PushCount(mask) && WithinLimit(c, bottom)
    requires var s := StoreBelow(l, ram, c.sec, c.r, bottom, mask, 8);
             s.0 && (mask[8] ==> Write(l, s.1, c.sec, s.2, 4, c.r[14]).0.Done?)
    ensures var s := StoreBelow(l, ram, c.sec, c.r, bottom, mask, 8);
            Push(l, c, ram, mask) ==
            (Completed, c.SetActiveSp(bottom), if mask[8] then Write(l, s.1, c.sec, s.2, 4, c.r[14]).1 else s.1)
  {
    hide StoreBelow, Write, Count;
  }

  lemma LinkAbove(ram: seq<u8>, from: nat, mask: Mask, r: seq<u32>)
    requires |r| == 16 && BlockHolds(ram, from, mask, 8, r) && Slot(from, mask, 8) + 4 <= |ram|
    ensures var ram' := Splice(ram, Slot(from, mask, 8), ToLe(r[14], 4));
            BlockHolds(ram', from, mask, 8, r) && WordAt(ram', Slot(from, mask, 8)) == r[14]
  {
    hide BlockHolds, WordAt, ToLe;
    WordAfterSplice(ram, Slot(from, mask, 8), r[14], Slot(from, mask, 8));
    BlockSame(ram, Splice(ram, Slot(from, mask, 8), ToLe(r[14], 4)), from, mask, 8, r);
  }

  /** The state in which POP finds what PUSH left: same stack, same bytes in the block. Everything
      else, including every register, may have changed. */
  ghost predicate Reaches(c: Cpu, ram: seq<u8>, d: Cpu, ram': seq<u8>, from: nat, len: nat) {
    && d.Valid() && d.sec == c.sec && d.UsesPsp() == c.UsesPsp() && d.ActiveSp() == c.ActiveSp()
    && d.ActiveSplim() == c.ActiveSplim()
    && |ram'| == |ram| && forall k :: from <= k < from + len && k < |ram| ==> ram'[k] == ram[k]
  }

  /** POP of the list that was pushed restores the listed low registers and SP and leaves the other
      registers alone; PC becomes the pushed LR with bit 0 set, or, for an EXC_RETURN value,
      that value is what leaves the handler. */
  lemma PopUndoesPush(l: Layout, c: Cpu, ram: seq<u8>, mask: Mask, a: Area, d: Cpu, ram': seq<u8>)
    requires l.Shaped() && c.Valid() && Mapped(l, c.sec, a, |ram|)
    requires a.lo + 4 * PushCount(mask) <= c.ActiveSp() <= a.hi
    requires WithinLimit(c, c.ActiveSp() - 4 * PushCount(mask))
    requires var p := Push(l, c, ram, mask);
             var from := Offset(a, c.ActiveSp() - 4 * PushCount(mask));
             from >= 0 && Reaches(p.1, p.2, d, ram', from, 4 * PushCount(mask))
    ensures var q := Pop(l, d, ram', mask);
            && (forall reg :: 0 <= reg < 15 && reg != 13 ==> q.1.r[reg] == if reg < 8 && mask[reg] then c.r[reg] else d.r[reg])
            && (mask[8] && IsExcReturn(c.r[14]) ==> q.0 == Leaves(c.r[14]))
            && (!(mask[8] && IsExcReturn(c.r[14])) ==>
                  && q.0 == Completed && q.1.ActiveSp() == c.ActiveSp() == q.1.r[13]
                  && q.1.r[15] == if mask[8] then OrBit0(c.r[14]) else d.r[15])
  {
    hide Push, Mapped, Read, BlockHolds, WordAt, LoadBelow, StoredValue;
    var bottom := c.ActiveSp() - 4 * PushCount(mask);
    var from := Offset(a, bottom);
    PushEffect(l, c, ram, mask, a);
    var p := Push(l, c, ram, mask);
    ActiveAfterSet(c, bottom);
    BlockSame(p.2, ram', from, mask, 8, c.r);
    LoadBelowArea(l, ram', d.sec, d.r, a, bottom, mask, 8, c.r, 8);
    if mask[8] {
      LoadWord(l, ram', d.sec, a, bottom + 4 * Count(mask, 8));
      WordAtSame(p.2, ram', Slot(from, mask, 8));
    }
    PopFinish(l, c, ram', mask, d, bottom);
  }

  lemma ActiveAfterSet(c: Cpu, v: u32)
    requires c.Valid()
    ensures var d := c.SetActiveSp(v);
            && d.ActiveSp() == v && d.sec == c.sec && d.UsesPsp() == c.UsesPsp()
            && d.ActiveSplim() == c.ActiveSplim() && d.r == c.r[13 := v]
  {
  }

  /** The last steps of POP once its loads are known. */
  lemma PopFinish(l: Layout, c: Cpu, ram: seq<u8>, mask: Mask, d: Cpu, bottom: u32)
    requires l.Shaped() && c.Valid() && d.Valid() && d.ActiveSp() == bottom
    requires bottom + 4 * PushCount(mask) == c.ActiveSp() && WithinLimit(d, bottom)
    requires var s := LoadBelow(l, ram, d.sec, d.r, bottom, mask, 8);
             s.0 && s.2 == bottom + 4 * Count(mask, 8) && Loaded(s.1, d.r, c.r, mask, 8)
    requires mask[8] ==> Read(l, ram, d.sec, bottom + 4 * Count(mask, 8), 4) == Done(c.r[14])
    ensures var q := Pop(l, d, ram, mask);
            && (forall reg :: 0 <= reg < 15 && reg != 13 ==> q.1.r[reg] == if reg < 8 && mask[reg] then c.r[reg] else d.r[reg])
            && (mask[8] && IsExcReturn(c.r[14]) ==> q.0 == Leaves(c.r[14]))
            && (!(mask[8] && IsExcReturn(c.r[14])) ==>
                  && q.0 == Completed && q.1.ActiveSp() == c.ActiveSp() == q.1.r[13]
                  && q.1.r[15] == if mask[8] then OrBit0(c.r[14]) else d.r[15])
  {
    hide Read, LoadBelow, Count, IsExcReturn, StoredValue, OrBit0, SetSpChecked;
    LowValues(c.r);
    var s := LoadBelow(l, ram, d.sec, d.r, bottom, mask, 8);
    var r := if mask[8] then s.1[15 := OrBit0(c.r[14])] else s.1;
    MovesUp(d, r, c.ActiveSp());
  }

  /** Raising SP is always within the limit. */
  lemma MovesUp(d: Cpu, r: seq<u32>, v: u32)
    requires d.Valid() && |r| == 16 && WithinLimit(d, d.ActiveSp()) && v >= d.ActiveSp()
    ensures var q := SetSpChecked(d.(r := r), v);
            q.0 == Completed && q.1.ActiveSp() == v && q.1.r == r[13 := v]
  {
    SplimIgnoresRegs(d, r);
    ActiveAfterSet(d.(r := r), v);
  }

  lemma LowValues(r: seq<u32>)
    requires |r| == 16
    ensures forall reg :: 0 <= reg < 15 ==> StoredValue(r, reg) == r[reg]
  {
  }

  lemma SplimIgnoresRegs(c: Cpu, r: seq<u32>)
    ensures c.(r := r).ActiveSplim() == c.ActiveSplim() && c.(r := r).ActiveSp() == c.ActiveSp()
  {
  }

  // ---------------------------------------------------------------- LDM undoes STM

  /** First address of a transfer, and the base after write-back. */
  function Start(base: u32, n: nat, db: bool): int { if db then base - 4 * n else base }

  function Next(base: u32, n: nat, db: bool): int { if db then base - 4 * n else base + 4 * n }

  /** A store-multiple with write-back, then after any other activity a load-multiple of the same list in
      the opposite direction (LDMIA! after STMDB!, LDMDB! after STMIA!), gives back the listed registers
      and the base. */
  lemma LoadUndoesStore(l: Layout, c: Cpu, ram: seq<u8>, rn: nat, mask: Mask, db: bool, a: Area, d: Cpu, ram': seq<u8>)
    requires l.Shaped() && c.Valid() && rn < 15 && Mapped(l, c.sec, a, |ram|)
    requires !mask[rn] && !mask[13] && !mask[15] && Count(mask, 16) > 0
    requires a.lo <= Start(c.r[rn], Count(mask, 16), db) && Start(c.r[rn], Count(mask, 16), db) + 4 * Count(mask, 16) <= a.hi
    requires rn == 13 ==> WithinLimit(c, Next(c.r[13], Count(mask, 16), db))
    requires d.Valid() && d.sec == c.sec && d.r[rn] == Next(c.r[rn], Count(mask, 16), db)
    requires rn == 13 ==> WithinLimit(d, c.r[13])
    requires var p := StoreMultiple(l, c, ram, rn, mask, db, true);
             var from := Offset(a, Start(c.r[rn], Count(mask, 16), db));
             && |ram'| == |p.2|
             && forall k :: 0 <= k < |ram'| && from <= k < from + 4 * Count(mask, 16) ==> ram'[k] == p.2[k]
    ensures StoreMultiple(l, c, ram, rn, mask, db, true).0 == Completed
    ensures StoreMultiple(l, c, ram, rn, mask, db, true).1.r == c.r[rn := d.r[rn]]
    ensures var q := LoadMultiple(l, d, ram', rn, mask, !db, true);
            && q.0 == Completed
            && forall reg :: 0 <= reg < 16 ==> q.1.r[reg] == if mask[reg] || reg == rn then c.r[reg] else d.r[reg]
  {
    hide Mapped, Read, BlockHolds, WordAt, LoadBelow, StoreBelow, WithinLimit, StoreMultiple, LoadMultiple, Loaded;
    var start := Start(c.r[rn], Count(mask, 16), db);
    assert Count(mask, 15) == Count(mask, 16);
    StoreLeavesBlock(l, c, ram, rn, mask, db, a);
    BlockSame(StoreMultiple(l, c, ram, rn, mask, db, true).2, ram', Offset(a, start), mask, 16, c.r);
    LoadBelowArea(l, ram', d.sec, d.r, a, start, mask, 15, c.r, 16);
    LoadFinish(l, c, ram', rn, mask, db, d);
  }

  lemma StoreLeavesBlock(l: Layout, c: Cpu, ram: seq<u8>, rn: nat, mask: Mask, db: bool, a: Area)
    requires l.Shaped() && c.Valid() && rn < 15 && Mapped(l, c.sec, a, |ram|) && Count(mask, 16) > 0
    requires a.lo <= Start(c.r[rn], Count(mask, 16), db) && Start(c.r[rn], Count(mask, 16), db) + 4 * Count(mask, 16) <= a.hi
    requires rn == 13 ==> WithinLimit(c, Next(c.r[13], Count(mask, 16), db))
    ensures var p := StoreMultiple(l, c, ram, rn, mask, db, true);
            var from := Offset(a, Start(c.r[rn], Count(mask, 16), db));
            && p.0 == Completed && p.1.r == c.r[rn := Next(c.r[rn], Count(mask, 16), db)] && |p.2| == |ram|
            && 0 <= from && Slot(from, mask, 16) == from + 4 * Count(mask, 16) <= |ram|
            && BlockHolds(p.2, from, mask, 16, c.r)
  {
    assert a.off + (a.hi - a.lo) <= |ram|;
    hide Mapped, BlockHolds, StoreBelow, WithinLimit, SameOutside, StoreMultiple, Count;
    StoreBelowArea(l, ram, c.sec, c.r, a, Start(c.r[rn], Count(mask, 16), db), mask, 16);
    StoreFinish(l, c, ram, rn, mask, db);
  }

  lemma StoreFinish(l: Layout, c: Cpu, ram: seq<u8>, rn: nat, mask: Mask, db: bool)
    requires l.Shaped() && c.Valid() && rn < 15 && Count(mask, 16) > 0
    requires 0 <= Next(c.r[rn], Count(mask, 16), db) < U32
    requires rn == 13 ==> WithinLimit(c, Next(c.r[13], Count(mask, 16), db))
    requires StoreBelow(l, ram, c.sec, c.r, Start(c.r[rn], Count(mask, 16), db), mask, 16).0
    ensures var p := StoreMultiple(l, c, ram, rn, mask, db, true);
            && p.0 == Completed && p.1.r == c.r[rn := Next(c.r[rn], Count(mask, 16), db)]
            && p.2 == StoreBelow(l, ram, c.sec, c.r, Start(c.r[rn], Count(mask, 16), db), mask, 16).1
  {
    hide StoreBelow, Count;
    var next := Next(c.r[rn], Count(mask, 16), db);
    SplimIgnoresRegs(c, c.r[rn := next]);
    ActiveAfterSet(c.(r := c.r[rn := next]), next);
  }

  lemma LoadFinish(l: Layout, c: Cpu, ram: seq<u8>, rn: nat, mask: Mask, db: bool, d: Cpu)
    requires l.Shaped() && c.Valid() && d.Valid() && rn < 15 && Count(mask, 16) > 0
    requires !mask[rn] && !mask[13] && !mask[15]
    requires 0 <= Start(c.r[rn], Count(mask, 16), db) && d.r[rn] == Next(c.r[rn], Count(mask, 16), db)
    requires rn == 13 ==> WithinLimit(d, c.r[13])
    requires var s := LoadBelow(l, ram, d.sec, d.r, Start(c.r[rn], Count(mask, 16), db), mask, 15);
             s.0 && Loaded(s.1, d.r, c.r, mask, 15)
    ensures var q := LoadMultiple(l, d, ram, rn, mask, !db, true);
            && q.0 == Completed
            && forall reg :: 0 <= reg < 16 ==> q.1.r[reg] == if mask[reg] || reg == rn then c.r[reg] else d.r[reg]
  {
    hide LoadBelow, Count, Read;
    var s := LoadBelow(l, ram, d.sec, d.r, Start(c.r[rn], Count(mask, 16), db), mask, 15);
    var r := s.1[rn := c.r[rn]];
    SplimIgnoresRegs(d, r);
    ActiveAfterSet(d.(r := r), c.r[rn]);
  }

  // ---------------------------------------------------------------- single transfers written out

  /** What a listed load delivers: words of a mapped block in ascending register order. */
  ghost predicate WordsLoaded(ram: seq<u8>, from: nat, mask: Mask, n: nat, was: seq<u32>, r: seq<u32>)
    requires n <= 16 && |was| == 16 && |r| == 16
  {
    forall reg :: 0 <= reg < 16 ==>
      if reg < n && mask[reg]
      then Slot(from, mask, reg) + 4 <= |ram| && r[reg] == WordAt(ram, Slot(from, mask, reg))
      else r[reg] == was[reg]
  }

  lemma LoadBelowWords(l: Layout, ram: seq<u8>, sec: Security, r: seq<u32>, a: Area, addr: u32, mask: Mask)
    requires l.Shaped() && |r| == 16 && Mapped(l, sec, a, |ram|)
    requires a.lo <= addr && addr + 4 * Count(mask, 15) <= a.hi
    ensures var o := LoadBelow(l, ram, sec, r, addr, mask, 15);
            o.0 && o.2 == addr + 4 * Count(mask, 15) && WordsLoaded(ram, a.off + (addr - a.lo), mask, 15, r, o.1)
  {
    assert a.off + (a.hi - a.lo) <= |ram|;
    hide Mapped, LoadBelow;
    var from := a.off + (addr - a.lo);
    var src := BlockWords(ram, from, mask);
    LoadBelowArea(l, ram, sec, r, a, addr, mask, 15, src, 15);
    LowValues(src);
    hide WordAt, BlockHolds, StoredValue, Count;
  }

  /** Some register values that the block holds. */
  lemma BlockWords(ram: seq<u8>, from: nat, mask: Mask) returns (src: seq<u32>)
    requires Slot(from, mask, 15) <= |ram|
    ensures |src| == 16 && BlockHolds(ram, from, mask, 15, src)
    ensures forall reg :: 0 <= reg < 15 && mask[reg] ==>
              Slot(from, mask, reg) + 4 <= |ram| && src[reg] == WordAt(ram, Slot(from, mask, reg))
  {
    forall reg | 0 <= reg < 15 && mask[reg]
      ensures Slot(from, mask, reg) + 4 <= |ram|
    {
      CountGrows(mask, reg, 15);
    }
    hide WordAt, Slot, Count;
    src := seq(16, reg requires 0 <= reg < 16 => if reg < 15 && mask[reg] then WordAt(ram, Slot(from, mask, reg)) else 0);
    LowValues(src);
  }

  /** `x` with bit 0 set. */
  function OddOf(x: u32): int { x + (1 - x % 2) }

  /** The registers after a load-multiple that does not return from an exception: each listed register below
      PC has its word; PC, if listed, the last one with bit 0 set; an unlisted base has `next`. */
  ghost predicate RegistersLoaded(r: seq<u32>, was: seq<u32>, ram: seq<u8>, from: nat, mask: Mask, rn: nat, next: u32)
    requires |r| == 16 && |was| == 16 && rn < 15
  {
    && (forall reg :: 0 <= reg < 15 && mask[reg] ==>
          Slot(from, mask, reg) + 4 <= |ram| && r[reg] == WordAt(ram, Slot(from, mask, reg)))
    && (forall reg :: 0 <= reg < 15 && !mask[reg] && reg != rn ==> r[reg] == was[reg])
    && (!mask[rn] ==> r[rn] == next)
    && (if mask[15] then Slot(from, mask, 15) + 4 <= |ram| && r[15] == OddOf(WordAt(ram, Slot(from, mask, 15)))
        else r[15] == was[15])
  }

  /** LDM from a mapped block. An EXC_RETURN value for PC leaves instead and skips write-back; an unlisted
      base moves by the block with write-back and stays without. */
  lemma LoadMultipleEffect(l: Layout, c: Cpu, ram: seq<u8>, rn: nat, mask: Mask, db: bool, wb: bool, a: Area)
    requires l.Shaped() && c.Valid() && rn < 15 && Mapped(l, c.sec, a, |ram|) && Count(mask, 16) > 0
    requires a.lo <= Start(c.r[rn], Count(mask, 16), db) && Start(c.r[rn], Count(mask, 16), db) + 4 * Count(mask, 16) <= a.hi
    requires 0 <= Next(c.r[rn], Count(mask, 16), db) < U32
    requires rn == 13 && !mask[13] ==> WithinLimit(c, Next(c.r[13], Count(mask, 16), db))
    ensures var q := LoadMultiple(l, c, ram, rn, mask, db, wb);
            var from := Offset(a, Start(c.r[rn], Count(mask, 16), db));
            && from >= 0 && |q.1.r| == 16 && (mask[15] ==> Slot(from, mask, 15) + 4 <= |ram|)
            && (if mask[15] && IsExcReturn(WordAt(ram, Slot(from, mask, 15)))
                then q.0 == Leaves(WordAt(ram, Slot(from, mask, 15))) && WordsLoaded(ram, from, mask, 15, c.r, q.1.r)
                else q.0 == Completed && RegistersLoaded(q.1.r, c.r, ram, from, mask, rn, if wb then Next(c.r[rn], Count(mask, 16), db) else c.r[rn]))
  {
    var start := Start(c.r[rn], Count(mask, 16), db);
    var next := if wb then Next(c.r[rn], Count(mask, 16), db) else c.r[rn];
    assert Count(mask, 16) == Count(mask, 15) + (if mask[15] then 1 else 0);
    hide Mapped, LoadBelow, WithinLimit, LoadMultiple, Count, WordsLoaded, IsExcReturn, RegistersLoaded, Read, WordAt, Slot;
    var pc := BlockLoaded(l, ram, c.sec, c.r, a, start, mask, rn, next);
    LoadMultipleFinish(l, c, ram, rn, mask, db, wb, pc);
  }

  /** The loads of LDM from a mapped block. */
  lemma BlockLoaded(l: Layout, ram: seq<u8>, sec: Security, r: seq<u32>, a: Area, start: u32, mask: Mask, rn: nat, next: u32) returns (pc: u32)
    requires l.Shaped() && |r| == 16 && rn < 15 && Mapped(l, sec, a, |ram|)
    requires a.lo <= start && start + 4 * Count(mask, 15) + (if mask[15] then 4 else 0) <= a.hi
    ensures var s := LoadBelow(l, ram, sec, r, start, mask, 15);
            var from := Offset(a, start);
            && s.0 && from >= 0 && WordsLoaded(ram, from, mask, 15, r, s.1)
            && (!mask[rn] ==> s.1[rn] == r[rn])
            && (mask[15] ==> Slot(from, mask, 15) + 4 <= |ram| && pc == WordAt(ram, Slot(from, mask, 15)) && Read(l, ram, sec, s.2, 4) == Done(pc))
            && RegistersLoaded(AfterLoad(s.1, mask, rn, next, pc), r, ram, from, mask, rn, next)
  {
    assert a.off + (a.hi - a.lo) <= |ram|;
    var from := Offset(a, start);
    assert Slot(from, mask, 15) == a.off + (start + 4 * Count(mask, 15) - a.lo);
    hide *;
    LoadBelowWords(l, ram, sec, r, a, start, mask);
    if mask[15] { LoadWord(l, ram, sec, a, start + 4 * Count(mask, 15)); }
    pc := if mask[15] then WordAt(ram, Slot(from, mask, 15)) else 0;
    LoadedTogether(ram, from, mask, r, LoadBelow(l, ram, sec, r, start, mask, 15).1, rn, next, pc);
  }

  /** The registers the load ends with. */
  function AfterLoad(r: seq<u32>, mask: Mask, rn: nat, next: u32, pc: u32): (r': seq<u32>)
    requires |r| == 16 && rn < 15
    ensures |r'| == 16
  {
    var r1 := if mask[15] then r[15 := OrBit0(pc)] else r;
    if mask[rn] then r1 else r1[rn := next]
  }

  lemma LoadMultipleFinish(l: Layout, c: Cpu, ram: seq<u8>, rn: nat, mask: Mask, db: bool, wb: bool, pc: u32)
    requires l.Shaped() && c.Valid() && rn < 15 && Count(mask, 16) > 0
    requires 0 <= Start(c.r[rn], Count(mask, 16), db) && 0 <= Next(c.r[rn], Count(mask, 16), db) < U32
    requires rn == 13 && !mask[13] ==> WithinLimit(c, Next(c.r[13], Count(mask, 16), db))
    requires var s := LoadBelow(l, ram, c.sec, c.r, Start(c.r[rn], Count(mask, 16), db), mask, 15);
             && s.0 && (mask[15] ==> Read(l, ram, c.sec, s.2, 4) == Done(pc))
             && (!mask[rn] ==> s.1[rn] == c.r[rn])
    ensures var q := LoadMultiple(l, c, ram, rn, mask, db, wb);
            var s := LoadBelow(l, ram, c.sec, c.r, Start(c.r[rn], Count(mask, 16), db), mask, 15);
            if mask[15] && IsExcReturn(pc) then q.0 == Leaves(pc) && q.1.r == s.1
            else q.0 == Completed && q.1.r == AfterLoad(s.1, mask, rn, if wb then Next(c.r[rn], Count(mask, 16), db) else c.r[rn], pc)
  {
    hide LoadBelow, Read, Count, IsExcReturn, WithinLimit, OrBit0, Cpu.ActiveSplim, Cpu.SetActiveSp;
    var s := LoadBelow(l, ram, c.sec, c.r, Start(c.r[rn], Count(mask, 16), db), mask, 15);
    var next := Next(c.r[rn], Count(mask, 16), db);
    var r := AfterLoad(s.1, mask, rn, next, pc);
    if rn == 13 {
      LimitIgnoresRegs(c, r, next);
      ActiveAfterSet(c.(r := r), next);
    }
  }

  lemma LoadedTogether(ram: seq<u8>, from: nat, mask: Mask, was: seq<u32>, r: seq<u32>, rn: nat, next: u32, pc: u32)
    requires |was| == 16 && |r| == 16 && rn < 15 && WordsLoaded(ram, from, mask, 15, was, r)
    requires mask[15] ==> Slot(from, mask, 15) + 4 <= |ram| && pc == WordAt(ram, Slot(from, mask, 15))
    ensures RegistersLoaded(AfterLoad(r, mask, rn, next, pc), was, ram, from, mask, rn, next)
    ensures !mask[rn] ==> r[rn] == was[rn]
  {
    hide WordAt, Slot;
  }

  /** STM into a mapped area: every listed register's word in the block, PC with bit 0 set; only an unlisted
      or listed base with write-back changes, by the size of the block; no other byte does. */
  lemma StoreMultipleEffect(l: Layout, c: Cpu, ram: seq<u8>, rn: nat, mask: Mask, db: bool, wb: bool, a: Area)
    requires l.Shaped() && c.Valid() && rn < 15 && Mapped(l, c.sec, a, |ram|) && Count(mask, 16) > 0
    requires a.lo <= Start(c.r[rn], Count(mask, 16), db) && Start(c.r[rn], Count(mask, 16), db) + 4 * Count(mask, 16) <= a.hi
    requires 0 <= Next(c.r[rn], Count(mask, 16), db) < U32
    requires rn == 13 ==> WithinLimit(c, Next(c.r[13], Count(mask, 16), db))
    ensures var q := StoreMultiple(l, c, ram, rn, mask, db, wb);
            var from := Offset(a, Start(c.r[rn], Count(mask, 16), db));
            && q.0 == Completed && from >= 0
            && q.1.r == (if wb then c.r[rn := Next(c.r[rn], Count(mask, 16), db)] else c.r)
            && (forall reg :: 0 <= reg < 16 && mask[reg] ==>
                  && Slot(from, mask, reg) + 4 <= |ram|
                  && WordAt(q.2, Slot(from, mask, reg)) == if reg == 15 then OddOf(c.r[15]) else c.r[reg])
            && (forall k :: 0 <= k < |ram| && !(from <= k < from + 4 * Count(mask, 16)) ==> q.2[k] == ram[k])
  {
    var start := Start(c.r[rn], Count(mask, 16), db);
    StoredValues(c.r);
    hide Mapped, StoreBelow, WithinLimit, StoreMultiple, Count, WordAt, StoredValue;
    StoreBelowArea(l, ram, c.sec, c.r, a, start, mask, 16);
    StoreMultipleEnds(l, c, ram, rn, mask, db, wb);
  }

  lemma StoredValues(r: seq<u32>)
    requires |r| == 16
    ensures forall reg :: 0 <= reg < 16 ==> StoredValue(r, reg) == if reg == 15 then OddOf(r[15]) else r[reg]
  {
  }

  lemma StoreMultipleEnds(l: Layout, c: Cpu, ram: seq<u8>, rn: nat, mask: Mask, db: bool, wb: bool)
    requires l.Shaped() && c.Valid() && rn < 15 && Count(mask, 16) > 0
    requires 0 <= Start(c.r[rn], Count(mask, 16), db) && 0 <= Next(c.r[rn], Count(mask, 16), db) < U32
    requires rn == 13 ==> WithinLimit(c, Next(c.r[13], Count(mask, 16), db))
    requires StoreBelow(l, ram, c.sec, c.r, Start(c.r[rn], Count(mask, 16), db), mask, 16).0
    ensures var q := StoreMultiple(l, c, ram, rn, mask, db, wb);
            && q.0 == Completed && q.1.r == (if wb then c.r[rn := Next(c.r[rn], Count(mask, 16), db)] else c.r)
            && q.2 == StoreBelow(l, ram, c.sec, c.r, Start(c.r[rn], Count(mask, 16), db), mask, 16).1
  {
    hide StoreBelow, Count, WithinLimit;
    if wb {
      StoreFinish(l, c, ram, rn, mask, db);
      hide StoreMultiple;
    }
  }

  /** A base in SP is written back through the stack limit too: below one that is set, the violation is
      reported and the stack pointer stays. */
  lemma WriteBackLimit(c: Cpu, v: u32)
    requires c.Valid()
    ensures var q := WriteBack(c, 13, v);
            if c.ActiveSplim() != 0 && v < c.ActiveSplim() then q.0 == Limit && q.1.ActiveSp() == c.ActiveSp()
            else q.0 == Completed && q.1.ActiveSp() == v
  {
    var r := c.r[13 := v];
    SplimIgnoresRegs(c, r);
    ActiveAfterSet(c.(r := r), v);
    hide Cpu.ActiveSp, Cpu.ActiveSplim, Cpu.SetActiveSp;
  }

  /** An empty list does nothing. */
  lemma EmptyTransfers(l: Layout, c: Cpu, ram: seq<u8>, rn: nat, mask: Mask, db: bool, wb: bool)
    requires l.Shaped() && c.Valid() && rn < 16 && Count(mask, 16) == 0
    ensures StoreMultiple(l, c, ram, rn, mask, db, wb) == (Completed, c, ram)
    ensures LoadMultiple(l, c, ram, rn, mask, db, wb) == (Completed, c)
  {
  }

  lemma LimitIgnoresRegs(c: Cpu, r: seq<u32>, v: u32)
    ensures WithinLimit(c.(r := r), v) == WithinLimit(c, v)
  {
    SplimIgnoresRegs(c, r);
  }

  /** A stack limit stops SP: PUSH below a limit that is set stores but reports the violation and leaves
      the processor as it was. */
  lemma PushLimit(l: Layout, c: Cpu, ram: seq<u8>, mask: Mask, a: Area)
    requires l.Shaped() && c.Valid() && Mapped(l, c.sec, a, |ram|)
    requires a.lo + 4 * PushCount(mask) <= c.ActiveSp() <= a.hi
    ensures var bottom := c.ActiveSp() - 4 * PushCount(mask);
            var lim := if c.mode == Thread && (if c.sec == NonSecure then c.control.ns else c.control.s) / 2 % 2 == 1
                       then (if c.sec == NonSecure then c.psplim.ns else c.psplim.s)
                       else (if c.sec == NonSecure then c.msplim.ns else c.msplim.s);
            if lim != 0 && bottom < lim then Push(l, c, ram, mask).0 == Limit && Push(l, c, ram, mask).1 == c
            else Push(l, c, ram, mask).0 == Completed && Push(l, c, ram, mask).1.ActiveSp() == bottom
  {
    var bottom := c.ActiveSp() - 4 * PushCount(mask);
    ActiveAfterSet(c, bottom);
    LimitOf(c);
    hide Mapped, Write, BlockHolds, WordAt, StoreBelow, Count, Cpu.SetActiveSp, Cpu.ActiveSp, Cpu.ActiveSplim, Banked.Get, Push;
    PushStores(l, c.sec, c.r, ram, mask, a, bottom);
    PushEnds(l, c, ram, mask, bottom);
  }

  lemma LimitOf(c: Cpu)
    ensures c.ActiveSplim() ==
            if c.mode == Thread && (if c.sec == NonSecure then c.control.ns else c.control.s) / 2 % 2 == 1
            then (if c.sec == NonSecure then c.psplim.ns else c.psplim.s)
            else (if c.sec == NonSecure then c.msplim.ns else c.msplim.s)
  {
  }

  lemma PushEnds(l: Layout, c: Cpu, ram: seq<u8>, mask: Mask, bottom: u32)
    requires l.Shaped() && c.Valid() && bottom == c.ActiveSp() - 4 * PushCount(mask)
    requires var s := StoreBelow(l, ram, c.sec, c.r, bottom, mask, 8);
             s.0 && (mask[8] ==> Write(l, s.1, c.sec, s.2, 4, c.r[14]).0.Done?)
    ensures (Push(l, c, ram, mask).0, Push(l, c, ram, mask).1) == SetSpChecked(c, bottom)
  {
    hide StoreBelow, Write, Count;
  }

  // ---------------------------------------------------------------- the loops

  lemma {:induction false} StoreStops(l: Layout, ram: seq<u8>, sec: Security, r: seq<u32>, addr: u32, mask: Mask, m: nat, n: nat)
    requires l.Shaped() && |r| == 16 && m <= n <= 16 && !StoreBelow(l, ram, sec, r, addr, mask, m).0
    ensures StoreBelow(l, ram, sec, r, addr, mask, n) == StoreBelow(l, ram, sec, r, addr, mask, m)
  {
    hide Write;
    if m < n {
      StoreStops(l, ram, sec, r, addr, mask, m, n - 1);
    }
  }

  lemma {:induction false} LoadStops(l: Layout, ram: seq<u8>, sec: Security, r: seq<u32>, addr: u32, mask: Mask, m: nat, n: nat)
    requires l.Shaped() && |r| == 16 && m <= n <= 16 && !LoadBelow(l, ram, sec, r, addr, mask, m).0
    ensures LoadBelow(l, ram, sec, r, addr, mask, n) == LoadBelow(l, ram, sec, r, addr, mask, m)
  {
    hide Read;
    if m < n {
      LoadStops(l, ram, sec, r, addr, mask, m, n - 1);
    }
  }

  method CountListed(mask: Mask, n: nat) returns (c: nat)
    requires n <= 16
    ensures c == Count(mask, n)
  {
    c := 0;
    var reg := 0;
    while reg < n
      invariant 0 <= reg <= n && c == Count(mask, reg)
    {
      if mask[reg] { c := c + 1; }
      reg := reg + 1;
    }
  }

  method StoreLoop(core: Core.Core, mask: Mask, n: nat, start: u32) returns (ok: bool, addr: u32)
    requires core.Valid() && n <= 16
    modifies core.mem.ram
    ensures (ok, core.mem.ram[..], addr) ==
            StoreBelow(core.mem.layout, old(core.mem.ram[..]), core.sec, core.r, start, mask, n)
  {
    hide Write;
    ghost var l, was := core.mem.layout, core.mem.ram[..];
    addr := start;
    ok := true;
    var reg := 0;
    while reg < n
      invariant 0 <= reg <= n
      invariant (true, core.mem.ram[..], addr) == StoreBelow(l, was, core.sec, core.r, start, mask, reg)
    {
      if mask[reg] {
        var o := core.mem.Store(core.sec, addr, 4, if reg == 15 then OrBit0(core.r[15]) else core.r[reg]);
        if !o.Done? {
          StoreStops(l, was, core.sec, core.r, start, mask, reg + 1, n);
          return false, addr;
        }
        addr := Wrap(addr + 4);
      }
      reg := reg + 1;
    }
  }

  method LoadLoop(core: Core.Core, mask: Mask, n: nat, start: u32) returns (ok: bool, addr: u32)
    requires core.Valid() && n <= 16
    modifies core`r
    ensures (ok, core.r, addr) ==
            LoadBelow(core.mem.layout, core.mem.ram[..], core.sec, old(core.r), start, mask, n)
  {
    hide Read;
    ghost var l, was, ram := core.mem.layout, core.r, core.mem.ram[..];
    addr := start;
    ok := true;
    var reg := 0;
    while reg < n
      invariant 0 <= reg <= n && |core.r| == 16
      invariant (true, core.r, addr) == LoadBelow(l, ram, core.sec, was, start, mask, reg)
    {
      if mask[reg] {
        var o := core.mem.Load(core.sec, addr, 4);
        if !o.Done? {
          LoadStops(l, ram, core.sec, was, start, mask, reg + 1, n);
          return false, addr;
        }
        core.r := core.r[reg := o.value];
        addr := Wrap(addr + 4);
      }
      reg := reg + 1;
    }
  }

  method SetSp(core: Core.Core, v: u32) returns (s: Status)
    requires core.Valid()
    modifies core
    ensures (s, core.State()) == SetSpChecked(old(core.State()), v)
    ensures core.Valid()
  {
    var usePsp := core.mode.Thread? && core.control.Get(core.sec) / 2 % 2 == 1;
    var lim := if usePsp then core.psplim.Get(core.sec) else core.msplim.Get(core.sec);
    if lim != 0 && v < lim { return Limit; }
    core.AssignSp(core.sec, usePsp, v);
    core.r := core.r[13 := v];
    s := Completed;
  }

  method ActiveSp(core: Core.Core) returns (sp: u32)
    requires core.Valid()
    ensures sp == core.State().ActiveSp()
  {
    sp := core.SelectSp(core.sec, core.mode.Thread? && core.control.Get(core.sec) / 2 % 2 == 1);
  }

  method ExecPush(core: Core.Core, mask: Mask) returns (s: Status)
    requires core.Valid()
    modifies core, core.mem.ram
    ensures (s, core.State(), core.mem.ram[..]) == Push(core.mem.layout, old(core.State()), old(core.mem.ram[..]), mask)
  {
    hide StoreBelow, SetSpChecked, Write;
    var sp := ActiveSp(core);
    var n := CountListed(mask, 8);
    if mask[8] { n := n + 1; }
    var bottom := Wrap(sp - 4 * n);
    var ok, addr := StoreLoop(core, mask, 8, bottom);
    if !ok { return Refused; }
    if mask[8] {
      var o := core.mem.Store(core.sec, addr, 4, core.r[14]);
      if !o.Done? { return Refused; }
    }
    s := SetSp(core, bottom);
  }

  method ExecPop(core: Core.Core, mask: Mask) returns (s: Status)
    requires core.Valid()
    modifies core
    ensures (s, core.State()) == Pop(core.mem.layout, old(core.State()), core.mem.ram[..], mask)
  {
    hide LoadBelow, SetSpChecked, Read;
    var sp := ActiveSp(core);
    var ok, addr := LoadLoop(core, mask, 8, sp);
    if !ok { return Refused; }
    if mask[8] {
      var o := core.mem.Load(core.sec, addr, 4);
      if !o.Done? { return Refused; }
      if IsExcReturn(o.value) { return Leaves(o.value); }
      core.r := core.r[15 := OrBit0(o.value)];
      addr := Wrap(addr as int + 4);
    }
    s := SetSp(core, addr);
  }

  method StoreBase(core: Core.Core, rn: nat, v: u32) returns (s: Status)
    requires core.Valid() && rn < 16
    modifies core
    ensures (s, core.State()) == WriteBack(old(core.State()), rn, v)
  {
    hide SetSpChecked;
    core.r := core.r[rn := v];
    if rn == 13 { s := SetSp(core, v); } else { s := Completed; }
  }

  method ExecStoreMultiple(core: Core.Core, rn: nat, mask: Mask, db: bool, wb: bool) returns (s: Status)
    requires core.Valid() && rn < 16
    modifies core, core.mem.ram
    ensures (s, core.State(), core.mem.ram[..]) ==
            StoreMultiple(core.mem.layout, old(core.State()), old(core.mem.ram[..]), rn, mask, db, wb)
  {
    hide StoreBelow, WriteBack;
    var base := core.r[rn];
    var n := CountListed(mask, 16);
    if n == 0 { return Completed; }
    var ok, addr := StoreLoop(core, mask, 16, if db then Wrap(base - 4 * n) else base);
    if !ok { return Refused; }
    if !wb { return Completed; }
    s := StoreBase(core, rn, Wrap(if db then base - 4 * n else base + 4 * n));
  }

  method ExecLoadMultiple(core: Core.Core, rn: nat, mask: Mask, db: bool, wb: bool) returns (s: Status)
    requires core.Valid() && rn < 16
    modifies core
    ensures (s, core.State()) == LoadMultiple(core.mem.layout, old(core.State()), core.mem.ram[..], rn, mask, db, wb)
  {
    hide LoadBelow, WriteBack, Read;
    var base := core.r[rn];
    var n := CountListed(mask, 16);
    if n == 0 { return Completed; }
    var ok, addr := LoadLoop(core, mask, 15, if db then Wrap(base - 4 * n) else base);
    if !ok { return Refused; }
    if mask[15] {
      var o := core.mem.Load(core.sec, addr, 4);
      if !o.Done? { return Refused; }
      if IsExcReturn(o.value) { return Leaves(o.value); }
      core.r := core.r[15 := OrBit0(o.value)];
    }
    if !wb || mask[rn] { return Completed; }
    s := StoreBase(core, rn, Wrap(if db then base - 4 * n else base + 4 * n));
  }
}
