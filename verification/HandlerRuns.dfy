/** Handlers that save registers with PUSH {...,LR} and leave with POP {...,PC}: exception entry,
    multiple transfers and exception return together. */
module HandlerRuns {
  import opened Words
  import opened Memmap
  import opened Processor
  import opened Exceptions
  import opened ExceptionRuns
  import opened MultiTransfer

  /** The invariant does not read the general registers. */
  lemma InvIgnoresRegs(l: Layout, st: Stacks, m: Machine, r: seq<u32>)
    requires Inv(l, st, m) && |r| == 16
    ensures Inv(l, st, m.(cpu := m.cpu.(r := r)))
  {
    hide Mapped, HoldsWords, OffsetsApart, FrameOk, Stacked;
    var c := m.cpu.(r := r);
    assert forall sec, p :: c.Sp(sec, p) == m.cpu.Sp(sec, p);
  }

  /** The handler starts in Handler mode and its own security state, at its address, on the main stack
      mirrored in r13, with the interrupted r4-r11; a generic entry wakes the processor. */
  lemma HandlerStart(l: Layout, st: Stacks, m: Machine, ev: Event)
    requires Inv(l, st, m) && ev.Take? && Allowed(st, m, ev)
    ensures var c := Apply(l, m, ev).cpu;
            && c.mode == Handler && c.sec == ev.e.handlerSec && c.r[15] == OrBit0(ev.e.handler)
            && !c.UsesPsp() && c.r[13] == c.ActiveSp() && c.r[4..12] == m.cpu.r[4..12]
            && (ev.e.wakes ==> !c.sleeping && !c.eventReg)
  {
    hide Mapped, HoldsWords, OffsetsApart, XpsrOk, SameOutside, PushWords, FramesOk;
    EnterEffect(l, st, m.cpu, m.ram, ev.e, ev.returnPc);
  }

  ghost predicate PushFits(st: Stacks, c: Cpu, mask: Mask) {
    && st.Of(c.sec, c.UsesPsp()).lo + 4 * PushCount(mask) <= c.ActiveSp()
    && WithinLimit(c, Wrap(c.ActiveSp() - 4 * PushCount(mask)))
  }

  /** Buffer offset of the pushed block. */
  function BlockOffset(st: Stacks, c: Cpu, mask: Mask): int {
    var a := st.Of(c.sec, c.UsesPsp());
    a.off + (c.ActiveSp() - 4 * PushCount(mask) - a.lo)
  }

  /** Everything PUSH changes in memory is its own block. */
  lemma PushTouches(l: Layout, c: Cpu, ram: seq<u8>, mask: Mask, a: Area)
    requires l.Shaped() && c.Valid() && Mapped(l, c.sec, a, |ram|)
    requires a.lo + 4 * PushCount(mask) <= c.ActiveSp() <= a.hi
    requires WithinLimit(c, c.ActiveSp() - 4 * PushCount(mask))
    ensures var from := Offset(a, c.ActiveSp() - 4 * PushCount(mask));
            0 <= from && SameOutside(ram, Push(l, c, ram, mask).2, from, 4 * PushCount(mask))
  {
    hide Mapped, Write, BlockHolds, StoreBelow, Push, Count, WithinLimit, ToLe;
    var bottom := c.ActiveSp() - 4 * PushCount(mask);
    StoreBelowArea(l, ram, c.sec, c.r, a, bottom, mask, 8);
    var s := StoreBelow(l, ram, c.sec, c.r, bottom, mask, 8);
    if mask[8] {
      StoreWord(l, s.1, c.sec, a, s.2, c.r[14]);
      SpliceInside(l, c.sec, a, s.1, s.2, c.r[14]);
    }
    PushFinish(l, c, ram, mask, bottom);
  }

  lemma SpliceInside(l: Layout, sec: Security, a: Area, ram: seq<u8>, x: u32, v: u32)
    requires l.Shaped() && Mapped(l, sec, a, |ram|) && a.lo <= x && x + 4 <= a.hi
    ensures a.off + (x - a.lo) + 4 <= |ram|
    ensures SameOutside(ram, Splice(ram, a.off + (x - a.lo), ToLe(v, 4)), a.off + (x - a.lo), 4)
  {
    hide WordMapped, ToLe;
  }

  /** PUSH in a run is an allowed stretch of code: live frames lie above the stack pointer or in
      other stacks. */
  lemma PushIsCode(l: Layout, st: Stacks, m: Machine, mask: Mask)
    requires Inv(l, st, m) && PushFits(st, m.cpu, mask)
    ensures var p := Push(l, m.cpu, m.ram, mask);
            p.0 == Completed && CodeOk(st, m, p.1, p.2)
  {
    hide Mapped, HoldsWords, OffsetsApart, Push, SameOutside, BlockHolds, WordAt, XpsrOk, FrameOk, FrameUntouched, FrameOffset, Stacked;
    var c := m.cpu;
    var a := st.Of(c.sec, c.UsesPsp());
    var bottom := c.ActiveSp() - 4 * PushCount(mask);
    assert Mapped(l, c.sec, a, |m.ram|) && c.ActiveSp() <= a.hi;
    PushEffect(l, c, m.ram, mask, a);
    PushTouches(l, c, m.ram, mask, a);
    var p := Push(l, c, m.ram, mask);
    SpAfterSet(c, bottom);
    assert XpsrOk(p.1) by { XpsrSame(c, p.1); }
    forall i | 0 <= i < c.depth
      ensures FrameUntouched(st, m.ram, p.2, c.exc[i])
    {
      FrameAbovePush(l, st, m, p.2, mask, i);
    }
  }

  lemma SpAfterSet(c: Cpu, v: u32)
    requires c.Valid()
    ensures var d := c.SetActiveSp(v);
            && d.Valid() && d.depth == c.depth && d.exc == c.exc && d.xpsr == c.xpsr && d.mode == c.mode
            && forall sec, p :: d.Sp(sec, p) == if sec == c.sec && p == c.UsesPsp() then v else c.Sp(sec, p)
  {
  }

  lemma FrameAbovePush(l: Layout, st: Stacks, m: Machine, ram: seq<u8>, mask: Mask, i: nat)
    requires Inv(l, st, m) && i < m.cpu.depth
    requires st.Of(m.cpu.sec, m.cpu.UsesPsp()).lo + 4 * PushCount(mask) <= m.cpu.ActiveSp()
    requires BlockOffset(st, m.cpu, mask) >= 0
    requires SameOutside(m.ram, ram, BlockOffset(st, m.cpu, mask), 4 * PushCount(mask))
    ensures FrameUntouched(st, m.ram, ram, m.cpu.exc[i])
  {
    hide Mapped, HoldsWords, XpsrOk, PushCount, Stacked;
    var x := m.cpu.exc[i];
    assert FrameOk(st, m.ram, m.saved[i], x) && BelowFrame(m.cpu, x);
    if (x.sec, x.usePsp) != (m.cpu.sec, m.cpu.UsesPsp()) {
      assert OffsetsApart(st.Of(x.sec, x.usePsp), st.Of(m.cpu.sec, m.cpu.UsesPsp()));
    }
  }

  /** POP of an EXC_RETURN value loads registers and nothing else. */
  lemma LeavingPop(l: Layout, c: Cpu, ram: seq<u8>, mask: Mask)
    requires l.Shaped() && c.Valid() && Pop(l, c, ram, mask).0.Leaves?
    ensures Pop(l, c, ram, mask).1 == c.(r := Pop(l, c, ram, mask).1.r) && |Pop(l, c, ram, mask).1.r| == 16
  {
    hide LoadBelow, Read, SetSpChecked;
    var s := LoadBelow(l, ram, c.sec, c.r, c.ActiveSp(), mask, 8);
    if mask[8] && s.0 {
      var o := Read(l, ram, c.sec, s.2, 4);
      if o.Done? && !IsExcReturn(o.value) {
        NeverLeaves(c.(r := s.1[15 := OrBit0(o.value)]), Wrap(s.2 as int + 4));
      }
    } else if s.0 {
      NeverLeaves(c.(r := s.1), s.2);
    }
  }

  lemma NeverLeaves(c: Cpu, v: u32)
    requires c.Valid()
    ensures !SetSpChecked(c, v).0.Leaves?
  {
  }

  /** Entry; PUSH of any list with LR; any run that comes back to the same nesting level with the pushed block
      and the stack pointer intact; POP of that list into PC. The POP is an exception return, it resumes the
      interrupted context, and every pushed callee-saved register has its interrupted value. */
  lemma HandlerTransparent(l: Layout, st: Stacks, m: Machine, e: Entry, returnPc: u32, mask: Mask, m2: Machine)
    requires Inv(l, st, m) && Allowed(st, m, Take(e, returnPc)) && mask[8]
    requires PushFits(st, Apply(l, m, Take(e, returnPc)).cpu, mask)
    requires Inv(l, st, m2) && m2.saved == m.saved + [Saved(m.cpu, returnPc)]
    requires var m1 := Apply(l, m, Take(e, returnPc));
             var p := Push(l, m1.cpu, m1.ram, mask);
             var from := BlockOffset(st, m1.cpu, mask);
             from >= 0 && Reaches(p.1, p.2, m2.cpu, m2.ram, from, 4 * PushCount(mask))
    ensures var s := Saved(m.cpu, returnPc);
            var q := Pop(l, m2.cpu, m2.ram, mask);
            && q.0 == Leaves(ReturnValue(s)) && q.1.Valid()
            && var r := Unstack(l, q.1, m2.ram, ReturnValue(s));
               && r.0 && ResumedFrom(r.1, q.1, s) && r.1.depth == m.cpu.depth
               && forall i :: 4 <= i < 12 ==> r.1.r[i] == if i < 8 && mask[i] then m.cpu.r[i] else m2.cpu.r[i]
  {
    hide Inv, Apply, Push, Pop, Unstack, ResumedFrom, Reaches, ReturnValue, StacksOk, SpsInside;
    var s := Saved(m.cpu, returnPc);
    InvShape(l, st, m);
    TakeKeeps(l, st, m, Take(e, returnPc));
    HandlerStart(l, st, m, Take(e, returnPc));
    var m1 := Apply(l, m, Take(e, returnPc));
    PopInHandler(l, st, m1, mask, m2, s);
    var q := Pop(l, m2.cpu, m2.ram, mask);
    InvShape(l, st, m2);
    LeavingPop(l, m2.cpu, m2.ram, mask);
    InvIgnoresRegs(l, st, m2, q.1.r);
    var m3 := m2.(cpu := q.1);
    LeaveEffect(l, st, m3);
    assert m3.saved[m3.cpu.depth - 1] == s;
    var r := Unstack(l, q.1, m2.ram, ReturnValue(s));
    forall i | 4 <= i < 12
      ensures r.1.r[i] == if i < 8 && mask[i] then m.cpu.r[i] else m2.cpu.r[i]
    {
      ResumedKeeps(r.1, q.1, s, i);
      assert m1.cpu.r[4..12][i - 4] == m.cpu.r[4..12][i - 4];
    }
  }

  lemma ResumedKeeps(c: Cpu, from: Cpu, s: Saved, i: nat)
    requires ResumedFrom(c, from, s) && 4 <= i < 12
    ensures c.Valid() && from.Valid() && c.r[i] == from.r[i]
  {
    assert c.r[4..12][i - 4] == from.r[4..12][i - 4];
  }

  /** The POP side of the theorem. */
  lemma PopInHandler(l: Layout, st: Stacks, m1: Machine, mask: Mask, m2: Machine, s: Saved)
    requires Inv(l, st, m1) && mask[8] && PushFits(st, m1.cpu, mask) && m1.cpu.r[14] == ReturnValue(s)
    requires l.Shaped() && m1.cpu.Valid()
    requires var p := Push(l, m1.cpu, m1.ram, mask);
             var from := BlockOffset(st, m1.cpu, mask);
             from >= 0 && Reaches(p.1, p.2, m2.cpu, m2.ram, from, 4 * PushCount(mask))
    ensures m2.cpu.Valid()
    ensures var q := Pop(l, m2.cpu, m2.ram, mask);
            && q.0 == Leaves(ReturnValue(s)) && |q.1.r| == 16
            && forall i :: 4 <= i < 12 ==> q.1.r[i] == if i < 8 && mask[i] then m1.cpu.r[i] else m2.cpu.r[i]
  {
    hide Mapped, HoldsWords, OffsetsApart, XpsrOk, Push, Pop, FramesOk, Count;
    var a := st.Of(m1.cpu.sec, m1.cpu.UsesPsp());
    assert Mapped(l, m1.cpu.sec, a, |m1.ram|) && m1.cpu.ActiveSp() <= a.hi;
    DecodeEncode(s.cpu.sec, s.cpu.UsesPsp(), s.cpu.mode.Thread?);
    PopUndoesPush(l, m1.cpu, m1.ram, mask, a, m2.cpu, m2.ram);
    LeavingPop(l, m2.cpu, m2.ram, mask);
  }
}
