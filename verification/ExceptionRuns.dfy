/** Safety of whole runs of exception entries, handler code and EXC_RETURN returns. */
module ExceptionRuns {
  import opened Words
  import opened Memmap
  import opened Processor
  import opened Exceptions

  /** The four banked stacks. */
  datatype Stacks = Stacks(mspS: Area, mspNs: Area, pspS: Area, pspNs: Area) {
    function Of(sec: Security, usePsp: bool): Area {
      if usePsp then (if sec.NonSecure? then pspNs else pspS)
      else (if sec.NonSecure? then mspNs else mspS)
    }
  }

  ghost predicate OffsetsApart(a: Area, b: Area) {
    a.off + (a.hi - a.lo) <= b.off || b.off + (b.hi - b.lo) <= a.off
  }

  /** Every stack is mapped and no two of them share a byte of the buffer, whatever addresses
      (Secure or Non-secure alias) they are reached through. */
  ghost predicate StacksOk(l: Layout, st: Stacks, ramLen: nat)
    requires l.Shaped()
  {
    && (forall sec, p :: Mapped(l, sec, st.Of(sec, p), ramLen))
    && (forall sec, p, sec', p' :: (sec, p) != (sec', p') ==> OffsetsApart(st.Of(sec, p), st.Of(sec', p')))
  }

  /** What was interrupted, and where it resumes. */
  datatype Saved = Saved(cpu: Cpu, returnPc: u32)

  /** `saved` is the history of interrupted contexts; the emulator does not keep it. */
  datatype Machine = Machine(cpu: Cpu, ram: seq<u8>, saved: seq<Saved>)

  ghost predicate SpsInside(st: Stacks, cpu: Cpu) {
    forall sec, p :: st.Of(sec, p).lo <= cpu.Sp(sec, p) <= st.Of(sec, p).hi
  }

  /** Thumb state always; no exception number in Thread mode. */
  ghost predicate XpsrOk(cpu: Cpu) {
    Thumb(cpu.xpsr) && (cpu.mode.Thread? ==> Ipsr(cpu.xpsr) == 0)
  }

  function FrameOffset(st: Stacks, rec: Record): int {
    st.Of(rec.sec, rec.usePsp).off + (rec.sp - st.Of(rec.sec, rec.usePsp).lo)
  }

  ghost predicate RecordInside(st: Stacks, rec: Record) {
    var a := st.Of(rec.sec, rec.usePsp);
    a.lo <= rec.sp && rec.sp + 32 <= a.hi
  }

  /** A record describes the frame of the context saved beside it. */
  ghost predicate FrameOk(st: Stacks, ram: seq<u8>, s: Saved, rec: Record) {
    && s.cpu.Valid() && XpsrOk(s.cpu)
    && rec.sec == s.cpu.sec && rec.usePsp == s.cpu.UsesPsp()
    && RecordInside(st, rec)
    && rec.sp + 32 == s.cpu.ActiveSp()
    && HoldsWords(ram, FrameOffset(st, rec), FrameOf(s.cpu, s.returnPc, s.cpu.xpsr))
  }

  /** The stack pointer of the record's stack has not been raised into its frame. */
  ghost predicate BelowFrame(cpu: Cpu, rec: Record) { cpu.Sp(rec.sec, rec.usePsp) <= rec.sp }

  ghost predicate Stacked(older: Record, newer: Record) {
    older.sec == newer.sec && older.usePsp == newer.usePsp ==> newer.sp + 32 <= older.sp
  }

  ghost predicate FramesOk(st: Stacks, m: Machine) {
    && |m.saved| == m.cpu.depth <= |m.cpu.exc|
    && (forall i :: 0 <= i < m.cpu.depth ==> FrameOk(st, m.ram, m.saved[i], m.cpu.exc[i]))
    && (forall i :: 0 <= i < m.cpu.depth ==> BelowFrame(m.cpu, m.cpu.exc[i]))
    && (forall i, j :: 0 <= i < j < m.cpu.depth ==> Stacked(m.cpu.exc[i], m.cpu.exc[j]))
  }

  ghost predicate Inv(l: Layout, st: Stacks, m: Machine) {
    && l.Shaped() && m.cpu.Valid()
    && StacksOk(l, st, |m.ram|)
    && SpsInside(st, m.cpu)
    && XpsrOk(m.cpu)
    && FramesOk(st, m)
  }

  // ---------------------------------------------------------------- events

  /** `Code` is any stretch of code between exceptions: it may change every register, the
      security state, CONTROL and any byte outside live frames. */
  datatype Event = Take(e: Entry, returnPc: u32) | Code(cpu: Cpu, ram: seq<u8>) | Leave

  ghost predicate CodeOk(st: Stacks, m: Machine, cpu: Cpu, ram: seq<u8>) {
    && cpu.Valid() && cpu.depth == m.cpu.depth && |ram| == |m.ram|
    && SpsInside(st, cpu) && XpsrOk(cpu)
    && m.cpu.depth <= |m.cpu.exc|
    && (forall i :: 0 <= i < m.cpu.depth ==> cpu.exc[i] == m.cpu.exc[i])
    && (forall i :: 0 <= i < m.cpu.depth ==> BelowFrame(cpu, m.cpu.exc[i]))
    && (forall i :: 0 <= i < m.cpu.depth ==> FrameUntouched(st, m.ram, ram, m.cpu.exc[i]))
  }

  ghost predicate FrameUntouched(st: Stacks, ram: seq<u8>, ram': seq<u8>, rec: Record) {
    |ram'| == |ram| && forall k :: FrameOffset(st, rec) <= k < FrameOffset(st, rec) + 32 && 0 <= k < |ram| ==> ram'[k] == ram[k]
  }

  ghost predicate Room(st: Stacks, cpu: Cpu) {
    st.Of(cpu.sec, cpu.UsesPsp()).lo + 32 <= cpu.ActiveSp()
  }

  ghost predicate Allowed(st: Stacks, m: Machine, ev: Event) {
    match ev
    case Take(_, _) => m.cpu.depth < EXC_STACK_MAX && Room(st, m.cpu)
    case Code(cpu, ram) => CodeOk(st, m, cpu, ram)
    case Leave => m.cpu.depth > 0
  }

  /** The EXC_RETURN value entry gave the handler. */
  function ReturnValue(s: Saved): u32 { Encode(s.cpu.sec, s.cpu.UsesPsp(), s.cpu.mode.Thread?) }

  ghost function Apply(l: Layout, m: Machine, ev: Event): (m': Machine)
    requires l.Shaped() && m.cpu.Valid()
    requires ev.Code? ==> ev.cpu.Valid()
    ensures m'.cpu.Valid()
  {
    match ev
    case Take(e, returnPc) =>
      var r := Enter(l, m.cpu, m.ram, e, returnPc, m.cpu.xpsr);
      Machine(r.1, r.2, m.saved + [Saved(m.cpu, returnPc)])
    case Code(cpu, ram) => m.(cpu := cpu, ram := ram)
    case Leave =>
      if m.saved == [] then m
      else
        var n := |m.saved| - 1;
        Machine(Unstack(l, m.cpu, m.ram, ReturnValue(m.saved[n])).1, m.ram, m.saved[..n])
  }

  // ---------------------------------------------------------------- frames do not collide

  /** Live frames occupy pairwise disjoint 32-byte ranges of the RAM buffer. */
  lemma FramesDisjoint(l: Layout, st: Stacks, m: Machine, i: nat, j: nat)
    requires Inv(l, st, m) && i < j < m.cpu.depth
    ensures var a, b := FrameOffset(st, m.cpu.exc[i]), FrameOffset(st, m.cpu.exc[j]);
            && 0 <= a && a + 32 <= |m.ram| && 0 <= b && b + 32 <= |m.ram|
            && (a + 32 <= b || b + 32 <= a)
  {
    hide Mapped, HoldsWords, SpsInside, XpsrOk, BelowFrame;
    var x, y := m.cpu.exc[i], m.cpu.exc[j];
    assert FrameOk(st, m.ram, m.saved[i], x) && FrameOk(st, m.ram, m.saved[j], y) && Stacked(x, y);
    RecordsApart(l, st, |m.ram|, x, y);
  }

  lemma RecordsApart(l: Layout, st: Stacks, ramLen: nat, x: Record, y: Record)
    requires l.Shaped() && StacksOk(l, st, ramLen)
    requires RecordInside(st, x) && RecordInside(st, y) && Stacked(x, y)
    ensures var a, b := FrameOffset(st, x), FrameOffset(st, y);
            && 0 <= a && a + 32 <= ramLen && 0 <= b && b + 32 <= ramLen
            && (a + 32 <= b || b + 32 <= a)
  {
    hide WordMapped;
    assert Mapped(l, x.sec, st.Of(x.sec, x.usePsp), ramLen);
    assert Mapped(l, y.sec, st.Of(y.sec, y.usePsp), ramLen);
    if (x.sec, x.usePsp) != (y.sec, y.usePsp) {
      assert OffsetsApart(st.Of(x.sec, x.usePsp), st.Of(y.sec, y.usePsp));
    }
  }

  // ---------------------------------------------------------------- entry keeps the invariant

  /** The record entry writes, and what entry does to memory. */
  lemma EnterEffect(l: Layout, st: Stacks, cpu: Cpu, ram: seq<u8>, e: Entry, returnPc: u32)
    requires l.Shaped() && cpu.Valid() && StacksOk(l, st, |ram|) && SpsInside(st, cpu) && Room(st, cpu)
    ensures var r := Enter(l, cpu, ram, e, returnPc, cpu.xpsr);
            var rec := Record(cpu.ActiveSp() - 32, cpu.UsesPsp(), cpu.sec);
            && r.0 && r.1 == HandlerState(cpu, Recorded(cpu, rec.sp), e, cpu.xpsr)
            && RecordInside(st, rec)
            && FrameOffset(st, rec) >= 0
            && HoldsWords(r.2, FrameOffset(st, rec), FrameOf(cpu, returnPc, cpu.xpsr))
            && SameOutside(ram, r.2, FrameOffset(st, rec), 32)
  {
    hide Mapped, PushWords, HoldsWords, SameOutside, OffsetsApart;
    var a := st.Of(cpu.sec, cpu.UsesPsp());
    assert cpu.ActiveSp() <= a.hi;
    assert Mapped(l, cpu.sec, a, |ram|);
    PushIntoArea(l, ram, cpu.sec, a, cpu.ActiveSp(), FrameOf(cpu, returnPc, cpu.xpsr));
  }

  /** Entry's effect on the fields the invariant mentions. */
  lemma HandlerStateFields(cpu: Cpu, sp: u32, e: Entry)
    requires cpu.Valid() && cpu.depth < EXC_STACK_MAX
    ensures var h := HandlerState(cpu, Recorded(cpu, sp), e, cpu.xpsr);
            && h.depth == cpu.depth + 1 && h.mode == Handler && h.sec == e.handlerSec
            && h.exc == cpu.exc[cpu.depth := Record(sp, cpu.UsesPsp(), cpu.sec)]
            && (forall sec, p :: h.Sp(sec, p) == if sec == cpu.sec && p == cpu.UsesPsp() then sp else cpu.Sp(sec, p))
            && XpsrOk(h)
            && h.r[14] == ReturnValue(Saved(cpu, 0))
  {
    EntryXpsrThumb(cpu.xpsr, e.excNum);
  }

  lemma EntryXpsrThumb(x: u32, n: u32)
    ensures Thumb(EntryXpsr(x, n)) && Ipsr(EntryXpsr(x, n)) == n % 0x200
    ensures EntryXpsr(x, n) / 0x800_0000 == x / 0x800_0000
    ensures EntryXpsr(x, n) % 0x800_0000 == 0x100_0000 + n % 0x200
  {
    var q := x / 0x800_0000;
    assert EntryXpsr(x, n) == 0x800_0000 * q + 0x100_0000 + n % 0x200;
    EuclidUnique(EntryXpsr(x, n), 0x100_0000, 8 * q + 1, n % 0x200);
    EuclidUnique(EntryXpsr(x, n), 0x200, 0x4_0000 * q + 0x8000, n % 0x200);
    EuclidUnique(EntryXpsr(x, n), 0x800_0000, q, 0x100_0000 + n % 0x200);
  }

  lemma TakeFrames(l: Layout, st: Stacks, m: Machine, m': Machine, rec: Record, s: Saved)
    requires Inv(l, st, m) && m.cpu.depth < EXC_STACK_MAX
    requires m'.cpu.Valid() && m'.cpu.depth == m.cpu.depth + 1 && m'.cpu.exc == m.cpu.exc[m.cpu.depth := rec]
    requires forall sec, p :: m'.cpu.Sp(sec, p) == if sec == rec.sec && p == rec.usePsp then rec.sp else m.cpu.Sp(sec, p)
    requires m'.saved == m.saved + [s]
    requires FrameOk(st, m'.ram, s, rec) && rec.sp + 32 == m.cpu.Sp(rec.sec, rec.usePsp)
    requires FrameOffset(st, rec) >= 0 && SameOutside(m.ram, m'.ram, FrameOffset(st, rec), 32)
    ensures FramesOk(st, m')
  {
    assert RecordInside(st, rec);
    hide Mapped, HoldsWords, SpsInside, XpsrOk, OffsetsApart, FrameOk, SameOutside, RecordInside;
    var d := m.cpu.depth;
    forall i | 0 <= i < d + 1
      ensures FrameOk(st, m'.ram, m'.saved[i], m'.cpu.exc[i])
    {
      if i < d {
        OldFrameSurvives(l, st, m, m', rec, i);
      }
    }
  }

  lemma OldFrameSurvives(l: Layout, st: Stacks, m: Machine, m': Machine, rec: Record, i: nat)
    requires Inv(l, st, m) && i < m.cpu.depth
    requires RecordInside(st, rec) && rec.sp + 32 == m.cpu.Sp(rec.sec, rec.usePsp)
    requires FrameOffset(st, rec) >= 0 && SameOutside(m.ram, m'.ram, FrameOffset(st, rec), 32)
    ensures FrameOk(st, m'.ram, m.saved[i], m.cpu.exc[i])
  {
    hide Mapped, HoldsWords, SpsInside, XpsrOk, OffsetsApart;
    var x := m.cpu.exc[i];
    assert FrameOk(st, m.ram, m.saved[i], x) && BelowFrame(m.cpu, x);
    RecordsApart(l, st, |m.ram|, x, rec);
    HoldsWordsSame(m.ram, m'.ram, FrameOffset(st, x), FrameOf(m.saved[i].cpu, m.saved[i].returnPc, m.saved[i].cpu.xpsr));
  }

  lemma TakeKeeps(l: Layout, st: Stacks, m: Machine, ev: Event)
    requires Inv(l, st, m) && ev.Take? && Allowed(st, m, ev)
    ensures Enter(l, m.cpu, m.ram, ev.e, ev.returnPc, m.cpu.xpsr).0
    ensures Inv(l, st, Apply(l, m, ev))
    ensures Apply(l, m, ev).saved == m.saved + [Saved(m.cpu, ev.returnPc)]
    ensures Apply(l, m, ev).cpu.depth == m.cpu.depth + 1
    ensures Apply(l, m, ev).cpu.r[14] == ReturnValue(Saved(m.cpu, ev.returnPc))
  {
    hide Enter, HandlerState, Mapped, HoldsWords, OffsetsApart, Stacked, BelowFrame, XpsrOk, FramesOk, RecordInside, SameOutside;
    var s := Saved(m.cpu, ev.returnPc);
    var rec := Record(m.cpu.ActiveSp() - 32, m.cpu.UsesPsp(), m.cpu.sec);
    var m' := Apply(l, m, ev);
    EnterEffect(l, st, m.cpu, m.ram, ev.e, ev.returnPc);
    HandlerStateFields(m.cpu, rec.sp, ev.e);
    assert |m'.ram| == |m.ram|;
    assert FrameOk(st, m'.ram, s, rec);
    TakeFrames(l, st, m, m', rec, s);
  }

  // ---------------------------------------------------------------- code keeps the invariant

  lemma CodeKeeps(l: Layout, st: Stacks, m: Machine, ev: Event)
    requires Inv(l, st, m) && ev.Code? && Allowed(st, m, ev)
    ensures Inv(l, st, Apply(l, m, ev))
  {
    hide Mapped, HoldsWords, OffsetsApart, SpsInside, Stacked, BelowFrame, FrameOk, FrameUntouched, XpsrOk;
    var m' := Apply(l, m, ev);
    forall i | 0 <= i < m.cpu.depth
      ensures FrameOk(st, m'.ram, m'.saved[i], m'.cpu.exc[i])
    {
      UntouchedFrame(l, st, m, m'.ram, i);
    }
  }

  lemma UntouchedFrame(l: Layout, st: Stacks, m: Machine, ram: seq<u8>, i: nat)
    requires Inv(l, st, m) && i < m.cpu.depth
    requires FrameUntouched(st, m.ram, ram, m.cpu.exc[i])
    ensures FrameOk(st, ram, m.saved[i], m.cpu.exc[i])
  {
    hide Mapped, HoldsWords, OffsetsApart, SpsInside, Stacked, BelowFrame, XpsrOk;
    var x := m.cpu.exc[i];
    assert FrameOk(st, m.ram, m.saved[i], x);
    FrameInRam(l, st, m, i);
    HoldsWordsSame(m.ram, ram, FrameOffset(st, x), FrameOf(m.saved[i].cpu, m.saved[i].returnPc, m.saved[i].cpu.xpsr));
  }

  lemma FrameInRam(l: Layout, st: Stacks, m: Machine, i: nat)
    requires Inv(l, st, m) && i < m.cpu.depth
    ensures 0 <= FrameOffset(st, m.cpu.exc[i]) && FrameOffset(st, m.cpu.exc[i]) + 32 <= |m.ram|
  {
    hide WordMapped, HoldsWords, OffsetsApart, SpsInside, Stacked, BelowFrame, XpsrOk;
    var x := m.cpu.exc[i];
    assert FrameOk(st, m.ram, m.saved[i], x);
    assert Mapped(l, x.sec, st.Of(x.sec, x.usePsp), |m.ram|);
  }

  // ---------------------------------------------------------------- return restores

  /** What an exception return gives back: caller-saved registers, LR, PC, xPSR, the selected
      stack pointer and its mirror, mode and security state; nothing else of `from` changes. */
  ghost predicate ResumedFrom(c: Cpu, from: Cpu, s: Saved) {
    && c.Valid() && from.Valid() && s.cpu.Valid()
    && c.r[..4] == s.cpu.r[..4] && c.r[12] == s.cpu.r[12] && c.r[14] == s.cpu.r[14]
    && c.r[15] == OrBit0(s.returnPc)
    && c.r[4..12] == from.r[4..12]
    && c.xpsr == s.cpu.xpsr
    && c.sec == s.cpu.sec && c.mode == s.cpu.mode
    && c.r[13] == s.cpu.ActiveSp()
    && (forall sec, p :: c.Sp(sec, p) ==
          if sec == s.cpu.sec && p == s.cpu.UsesPsp() then s.cpu.ActiveSp() else from.Sp(sec, p))
    && c.control == from.control
    && (from.control.Get(s.cpu.sec) == s.cpu.control.Get(s.cpu.sec) ==> c.ActiveSp() == s.cpu.ActiveSp())
    && c.exc == from.exc
  }

  lemma RestoredResumes(from: Cpu, s: Saved, sp: u32)
    requires from.Valid() && from.depth > 0 && s.cpu.Valid() && XpsrOk(s.cpu) && sp + 32 == s.cpu.ActiveSp()
    ensures var info := ReturnInfo(true, s.cpu.UsesPsp(), true, s.cpu.mode.Thread?, s.cpu.sec);
            var c := Restored(Popped(from), info, sp, FrameOf(s.cpu, s.returnPc, s.cpu.xpsr));
            ResumedFrom(c, from, s) && c.depth == from.depth - 1
  {
    assert SetThumb(s.cpu.xpsr) == s.cpu.xpsr;
    assert s.cpu.mode.Thread? ==> ClearIpsr(s.cpu.xpsr) == s.cpu.xpsr;
    assert OrBit0(OrBit0(s.returnPc)) == OrBit0(s.returnPc);
  }

  lemma LeaveEffect(l: Layout, st: Stacks, m: Machine)
    requires Inv(l, st, m) && m.cpu.depth > 0
    ensures var s := m.saved[m.cpu.depth - 1];
            var r := Unstack(l, m.cpu, m.ram, ReturnValue(s));
            && r.0 && ResumedFrom(r.1, m.cpu, s) && r.1.depth == m.cpu.depth - 1
  {
    hide Mapped, HoldsWords, OffsetsApart, SpsInside, Stacked, BelowFrame, XpsrOk, ResumedFrom, ReadWords, Restored;
    var s := m.saved[m.cpu.depth - 1];
    var rec := m.cpu.exc[m.cpu.depth - 1];
    assert FrameOk(st, m.ram, s, rec);
    DecodeEncode(s.cpu.sec, s.cpu.UsesPsp(), s.cpu.mode.Thread?);
    var a := st.Of(rec.sec, rec.usePsp);
    assert Mapped(l, rec.sec, a, |m.ram|);
    var f := FrameOf(s.cpu, s.returnPc, s.cpu.xpsr);
    ReadFromArea(l, m.ram, rec.sec, a, rec.sp, f, 8);
    assert f[..8] == f;
    RestoredResumes(m.cpu, s, rec.sp);
  }

  lemma LeaveKeeps(l: Layout, st: Stacks, m: Machine)
    requires Inv(l, st, m) && m.cpu.depth > 0
    ensures Inv(l, st, Apply(l, m, Leave))
    ensures ResumedFrom(Apply(l, m, Leave).cpu, m.cpu, m.saved[m.cpu.depth - 1])
    ensures Apply(l, m, Leave).saved == m.saved[..m.cpu.depth - 1]
  {
    hide Mapped, HoldsWords, OffsetsApart, XpsrOk, Unstack, WordMapped;
    LeaveEffect(l, st, m);
    var n := m.cpu.depth - 1;
    var m' := Apply(l, m, Leave);
    var s := m.saved[n];
    assert FrameOk(st, m.ram, s, m.cpu.exc[n]);
    LeaveSps(st, m, m', n);
    assert XpsrOk(m'.cpu) by { XpsrSame(s.cpu, m'.cpu); }
  }

  lemma XpsrSame(c: Cpu, c': Cpu)
    requires XpsrOk(c) && c'.xpsr == c.xpsr && c'.mode == c.mode
    ensures XpsrOk(c')
  {
  }

  lemma LeaveSps(st: Stacks, m: Machine, m': Machine, n: nat)
    requires FramesOk(st, m) && SpsInside(st, m.cpu) && m.cpu.depth == n + 1
    requires ResumedFrom(m'.cpu, m.cpu, m.saved[n])
    requires m'.cpu.depth == n && m'.ram == m.ram && m'.saved == m.saved[..n]
    ensures SpsInside(st, m'.cpu) && FramesOk(st, m')
  {
    hide HoldsWords, XpsrOk;
    var rec := m.cpu.exc[n];
    assert FrameOk(st, m.ram, m.saved[n], rec);
    forall i | 0 <= i < n
      ensures BelowFrame(m'.cpu, m.cpu.exc[i])
    {
      assert Stacked(m.cpu.exc[i], rec) && BelowFrame(m.cpu, m.cpu.exc[i]);
    }
  }

  // ---------------------------------------------------------------- whole runs

  ghost predicate AllAllowed(l: Layout, st: Stacks, m: Machine, evs: seq<Event>)
    requires l.Shaped() && m.cpu.Valid()
    decreases |evs|
  {
    evs == [] || (Allowed(st, m, evs[0]) && AllAllowed(l, st, Apply(l, m, evs[0]), evs[1..]))
  }

  ghost function RunAll(l: Layout, st: Stacks, m: Machine, evs: seq<Event>): (m': Machine)
    requires l.Shaped() && m.cpu.Valid() && AllAllowed(l, st, m, evs)
    ensures m'.cpu.Valid()
    decreases |evs|
  {
    if evs == [] then m else RunAll(l, st, Apply(l, m, evs[0]), evs[1..])
  }

  lemma StepKeeps(l: Layout, st: Stacks, m: Machine, ev: Event)
    requires Inv(l, st, m) && Allowed(st, m, ev)
    ensures Inv(l, st, Apply(l, m, ev))
  {
    hide Inv, FramesOk, StacksOk, SpsInside, Apply;
    assert m.cpu.Valid() && l.Shaped() by { InvShape(l, st, m); }
    match ev {
      case Take(_, _) => TakeKeeps(l, st, m, ev);
      case Code(_, _) => CodeKeeps(l, st, m, ev);
      case Leave => LeaveKeeps(l, st, m);
    }
  }

  lemma InvShape(l: Layout, st: Stacks, m: Machine)
    requires Inv(l, st, m)
    ensures l.Shaped() && m.cpu.Valid() && |m.saved| == m.cpu.depth
  {
  }

  /** Every state of every run satisfies the invariant. */
  lemma {:induction false} RunKeeps(l: Layout, st: Stacks, m: Machine, evs: seq<Event>)
    requires Inv(l, st, m) && AllAllowed(l, st, m, evs)
    ensures Inv(l, st, RunAll(l, st, m, evs))
    decreases |evs|
  {
    hide Inv, Apply, SpsInside, XpsrOk, BelowFrame, FrameUntouched;
    InvShape(l, st, m);
    if evs != [] {
      StepKeeps(l, st, m, evs[0]);
      RunKeeps(l, st, Apply(l, m, evs[0]), evs[1..]);
    }
  }

  /** The run never returns past depth `floor`. */
  ghost predicate StaysAbove(l: Layout, st: Stacks, m: Machine, evs: seq<Event>, floor: nat)
    requires l.Shaped() && m.cpu.Valid() && AllAllowed(l, st, m, evs)
    decreases |evs|
  {
    m.cpu.depth >= floor && (evs != [] ==> StaysAbove(l, st, Apply(l, m, evs[0]), evs[1..], floor))
  }

  lemma StepHistory(l: Layout, st: Stacks, m: Machine, ev: Event, floor: nat)
    requires Inv(l, st, m) && Allowed(st, m, ev)
    requires m.cpu.depth >= floor && Apply(l, m, ev).cpu.depth >= floor
    ensures |m.saved| >= floor && |Apply(l, m, ev).saved| >= floor
    ensures Apply(l, m, ev).saved[..floor] == m.saved[..floor]
  {
    hide Inv, Enter, Unstack, CodeOk;
    InvShape(l, st, m);
    StepKeeps(l, st, m, ev);
    InvShape(l, st, Apply(l, m, ev));
  }

  lemma {:induction false} RunHistory(l: Layout, st: Stacks, m: Machine, evs: seq<Event>, floor: nat)
    requires Inv(l, st, m) && AllAllowed(l, st, m, evs) && StaysAbove(l, st, m, evs, floor)
    ensures |m.saved| >= floor && |RunAll(l, st, m, evs).saved| >= floor
    ensures RunAll(l, st, m, evs).saved[..floor] == m.saved[..floor]
    decreases |evs|
  {
    hide Inv, Apply, SpsInside, XpsrOk, BelowFrame, FrameUntouched;
    InvShape(l, st, m);
    if evs != [] {
      StepKeeps(l, st, m, evs[0]);
      StepHistory(l, st, m, evs[0], floor);
      RunHistory(l, st, Apply(l, m, evs[0]), evs[1..], floor);
    }
  }

  /** Entry, any allowed run that stays inside the handler and comes back to its level, then
      return: the interrupted context is resumed. */
  lemma NestedRoundTrip(l: Layout, st: Stacks, m: Machine, e: Entry, returnPc: u32, evs: seq<Event>)
    requires Inv(l, st, m) && Allowed(st, m, Take(e, returnPc))
    requires var m1 := Apply(l, m, Take(e, returnPc));
             && AllAllowed(l, st, m1, evs) && StaysAbove(l, st, m1, evs, m.cpu.depth + 1)
             && RunAll(l, st, m1, evs).cpu.depth == m.cpu.depth + 1
    ensures var m2 := RunAll(l, st, Apply(l, m, Take(e, returnPc)), evs);
            var r := Unstack(l, m2.cpu, m2.ram, ReturnValue(Saved(m.cpu, returnPc)));
            && r.0 && ResumedFrom(r.1, m2.cpu, Saved(m.cpu, returnPc)) && r.1.depth == m.cpu.depth
            && Apply(l, m, Take(e, returnPc)).cpu.r[14] == ReturnValue(Saved(m.cpu, returnPc))
  {
    hide Inv, Unstack, ResumedFrom, ReturnValue, Apply, StaysAbove;
    var ev := Take(e, returnPc);
    InvShape(l, st, m);
    TakeKeeps(l, st, m, ev);
    var m1 := Apply(l, m, ev);
    RunKeeps(l, st, m1, evs);
    RunHistory(l, st, m1, evs, m.cpu.depth + 1);
    var m2 := RunAll(l, st, m1, evs);
    InvShape(l, st, m2);
    assert m2.saved[..m.cpu.depth + 1][m.cpu.depth] == m1.saved[..m.cpu.depth + 1][m.cpu.depth];
    LeaveEffect(l, st, m2);
  }

  // ---------------------------------------------------------------- exact limits

  /** Stacking and unstacking returns an xPSR unchanged exactly when it has the Thumb bit and,
      for a Thread return, no exception number. */
  lemma XpsrRestoredIff(x: u32, toThread: bool)
    ensures (if toThread then ClearIpsr(SetThumb(x)) else SetThumb(x)) == x
       <==> Thumb(x) && (toThread ==> Ipsr(x) == 0)
  {
    assert ClearIpsr(SetThumb(x)) == x ==> Ipsr(x) == 0;
  }

  /** Two stacks reached by the same security state never share a top-of-stack address. */
  lemma TopsDiffer(l: Layout, st: Stacks, ramLen: nat, sec: Security, p: bool, sp: u32)
    requires l.Shaped() && StacksOk(l, st, ramLen)
    requires st.Of(sec, p).lo + 32 <= sp <= st.Of(sec, p).hi
    ensures !(st.Of(sec, !p).lo + 32 <= sp <= st.Of(sec, !p).hi)
  {
    hide Permitted, RamOffset;
    var a, b := st.Of(sec, p), st.Of(sec, !p);
    assert Mapped(l, sec, a, ramLen) && Mapped(l, sec, b, ramLen) && OffsetsApart(a, b);
    assert WordMapped(l, sec, a, sp - 4);
    assert b.lo + 32 <= sp <= b.hi ==> WordMapped(l, sec, b, sp - 4);
  }

  /** What the innermost live record looks like to the invariant. */
  lemma TopRecord(l: Layout, st: Stacks, m: Machine)
    requires Inv(l, st, m) && m.cpu.depth > 0
    ensures var rec := m.cpu.exc[m.cpu.depth - 1];
            && RecordInside(st, rec) && BelowFrame(m.cpu, rec)
            && Mapped(l, rec.sec, st.Of(rec.sec, rec.usePsp), |m.ram|)
  {
    hide HoldsWords, XpsrOk, Mapped, OffsetsApart;
    assert FrameOk(st, m.ram, m.saved[m.cpu.depth - 1], m.cpu.exc[m.cpu.depth - 1]);
  }

  /** With the record table full, entry records nothing, so the next return takes the innermost
      old record unless that record belongs to the other security state. */
  lemma FullTableReturnSp(l: Layout, st: Stacks, m: Machine, e: Entry, returnPc: u32)
    requires Inv(l, st, m) && m.cpu.depth == EXC_STACK_MAX && Room(st, m.cpu)
    ensures var c := Enter(l, m.cpu, m.ram, e, returnPc, m.cpu.xpsr).1;
            var info := Decode(ReturnValue(Saved(m.cpu, returnPc)));
            var rec := m.cpu.exc[EXC_STACK_MAX - 1];
            && c.r[14] == ReturnValue(Saved(m.cpu, returnPc))
            && ReturnSp(c, info) == if rec.sec == m.cpu.sec then rec.sp else m.cpu.ActiveSp() - 32
  {
    hide Mapped, HoldsWords, OffsetsApart, SpsInside, XpsrOk, SameOutside, PushWords, StacksOk, FramesOk, Enter;
    EnterEffect(l, st, m.cpu, m.ram, e, returnPc);
    DecodeEncode(m.cpu.sec, m.cpu.UsesPsp(), m.cpu.mode.Thread?);
  }

  /** Entry immediately followed by return restores the interrupted stack pointer exactly when a
      record slot was free or the innermost record belongs to the other security state. */
  lemma ImmediateReturnSpIff(l: Layout, st: Stacks, m: Machine, e: Entry, returnPc: u32)
    requires Inv(l, st, m) && Room(st, m.cpu)
    ensures var r := Enter(l, m.cpu, m.ram, e, returnPc, m.cpu.xpsr);
            var c := r.1;
            var back := Unstack(l, c, r.2, c.r[14]);
            back.0 && back.1.Sp(m.cpu.sec, m.cpu.UsesPsp()) == m.cpu.ActiveSp()
            <==> (m.cpu.depth < EXC_STACK_MAX || m.cpu.exc[EXC_STACK_MAX - 1].sec != m.cpu.sec)
  {
    hide Inv, Enter, Unstack, StacksOk, SpsInside;
    InvShape(l, st, m);
    if m.cpu.depth < EXC_STACK_MAX {
      RoundTripWithSlot(l, st, m, e, returnPc);
    } else {
      RoundTripFull(l, st, m, e, returnPc);
    }
  }

  /** The whole context and the depth come back exactly when a record slot was free: without one the
      return gives up an older record whatever its security state. */
  lemma ImmediateReturnIff(l: Layout, st: Stacks, m: Machine, e: Entry, returnPc: u32)
    requires Inv(l, st, m) && Room(st, m.cpu)
    ensures var r := Enter(l, m.cpu, m.ram, e, returnPc, m.cpu.xpsr);
            var back := Unstack(l, r.1, r.2, r.1.r[14]);
            back.0 && ResumedFrom(back.1, r.1, Saved(m.cpu, returnPc)) && back.1.depth == m.cpu.depth
            <==> m.cpu.depth < EXC_STACK_MAX
  {
    hide Inv, Enter, Unstack, StacksOk, SpsInside, ResumedFrom;
    InvShape(l, st, m);
    if m.cpu.depth < EXC_STACK_MAX {
      TakeKeeps(l, st, m, Take(e, returnPc));
      LeaveEffect(l, st, Apply(l, m, Take(e, returnPc)));
    } else {
      FullTableDepth(l, st, m, e, returnPc);
      var r := Enter(l, m.cpu, m.ram, e, returnPc, m.cpu.xpsr);
      UnstackPops(l, r.1, r.2, r.1.r[14]);
    }
  }

  lemma FullTableDepth(l: Layout, st: Stacks, m: Machine, e: Entry, returnPc: u32)
    requires Inv(l, st, m) && Room(st, m.cpu) && m.cpu.depth == EXC_STACK_MAX
    ensures Enter(l, m.cpu, m.ram, e, returnPc, m.cpu.xpsr).1.depth == EXC_STACK_MAX
  {
    hide Mapped, HoldsWords, OffsetsApart, SpsInside, XpsrOk, SameOutside, PushWords, StacksOk, FramesOk, Enter;
    EnterEffect(l, st, m.cpu, m.ram, e, returnPc);
  }

  lemma UnstackPops(l: Layout, cpu: Cpu, ram: seq<u8>, excRet: u32)
    requires l.Shaped() && cpu.Valid() && cpu.depth > 0
    ensures Unstack(l, cpu, ram, excRet).0 ==> Unstack(l, cpu, ram, excRet).1.depth == cpu.depth - 1
  {
    hide ReadWords, Decode, ReturnSp;
  }

  lemma RoundTripWithSlot(l: Layout, st: Stacks, m: Machine, e: Entry, returnPc: u32)
    requires Inv(l, st, m) && Room(st, m.cpu) && m.cpu.depth < EXC_STACK_MAX
    ensures var r := Enter(l, m.cpu, m.ram, e, returnPc, m.cpu.xpsr);
            var back := Unstack(l, r.1, r.2, r.1.r[14]);
            back.0 && back.1.Sp(m.cpu.sec, m.cpu.UsesPsp()) == m.cpu.ActiveSp()
  {
    hide Inv, Enter, Unstack;
    InvShape(l, st, m);
    TakeKeeps(l, st, m, Take(e, returnPc));
    LeaveEffect(l, st, Apply(l, m, Take(e, returnPc)));
  }

  lemma RoundTripFull(l: Layout, st: Stacks, m: Machine, e: Entry, returnPc: u32)
    requires Inv(l, st, m) && Room(st, m.cpu) && m.cpu.depth == EXC_STACK_MAX
    ensures var r := Enter(l, m.cpu, m.ram, e, returnPc, m.cpu.xpsr);
            var back := Unstack(l, r.1, r.2, r.1.r[14]);
            back.0 && back.1.Sp(m.cpu.sec, m.cpu.UsesPsp()) == m.cpu.ActiveSp()
            <==> m.cpu.exc[EXC_STACK_MAX - 1].sec != m.cpu.sec
  {
    hide Inv, Enter, StacksOk, SpsInside, FramesOk, HoldsWords, Mapped, ReadWords, PushWords, RecordInside, SameOutside;
    InvShape(l, st, m);
    var r := Enter(l, m.cpu, m.ram, e, returnPc, m.cpu.xpsr);
    DecodeEncode(m.cpu.sec, m.cpu.UsesPsp(), m.cpu.mode.Thread?);
    FullTableReturnSp(l, st, m, e, returnPc);
    FullTableReads(l, st, m, e, returnPc);
    FullTableTop(l, st, m);
  }

  lemma FullTableReads(l: Layout, st: Stacks, m: Machine, e: Entry, returnPc: u32)
    requires Inv(l, st, m) && Room(st, m.cpu) && m.cpu.depth == EXC_STACK_MAX
    ensures var rec := m.cpu.exc[EXC_STACK_MAX - 1];
            var sp := if rec.sec == m.cpu.sec then rec.sp else m.cpu.ActiveSp() - 32;
            ReadWords(l, Enter(l, m.cpu, m.ram, e, returnPc, m.cpu.xpsr).2, m.cpu.sec, sp, 8).Some?
  {
    hide Enter, Mapped, HoldsWords, OffsetsApart, XpsrOk, ReadWords, HandlerState, FramesOk;
    EnterEffect(l, st, m.cpu, m.ram, e, returnPc);
    TopRecord(l, st, m);
    var ram := Enter(l, m.cpu, m.ram, e, returnPc, m.cpu.xpsr).2;
    var rec := m.cpu.exc[EXC_STACK_MAX - 1];
    var a := st.Of(m.cpu.sec, if rec.sec == m.cpu.sec then rec.usePsp else m.cpu.UsesPsp());
    var sp := if rec.sec == m.cpu.sec then rec.sp else m.cpu.ActiveSp() - 32;
    assert |ram| == |m.ram|;
    assert Mapped(l, m.cpu.sec, a, |ram|);
    ReadSucceeds(l, ram, m.cpu.sec, a, sp, 8);
  }

  lemma {:induction false} ReadSucceeds(l: Layout, ram: seq<u8>, sec: Security, a: Area, sp: u32, n: nat)
    requires l.Shaped() && Mapped(l, sec, a, |ram|) && a.lo <= sp && sp + 4 * n <= a.hi
    ensures ReadWords(l, ram, sec, sp, n).Some?
  {
    hide Read, WordMapped;
    if n > 0 {
      ReadSucceeds(l, ram, sec, a, sp, n - 1);
      LoadWord(l, ram, sec, a, sp + 4 * (n - 1));
    }
  }

  lemma FullTableTop(l: Layout, st: Stacks, m: Machine)
    requires Inv(l, st, m) && Room(st, m.cpu) && m.cpu.depth == EXC_STACK_MAX
    ensures var rec := m.cpu.exc[EXC_STACK_MAX - 1];
            && rec.sp + 32 < U32
            && (rec.sec == m.cpu.sec ==> rec.sp + 32 != m.cpu.ActiveSp())
  {
    hide Mapped, HoldsWords, OffsetsApart, XpsrOk, FramesOk;
    TopRecord(l, st, m);
    var rec := m.cpu.exc[EXC_STACK_MAX - 1];
    if rec.sec == m.cpu.sec && rec.usePsp != m.cpu.UsesPsp() {
      TopsDiffer(l, st, |m.ram|, m.cpu.sec, m.cpu.UsesPsp(), m.cpu.ActiveSp());
    }
  }
}
