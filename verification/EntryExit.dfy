/** Exception entry and return written out field by field and word by word (src/main.c:672-1298). */
module EntryExit {
  import opened Words
  import opened Memmap
  import opened Processor
  import opened Exceptions
  import opened ExceptionRuns
  import ItPacking

  /** CONTROL.SPSEL of the current state matters in Thread mode only. */
  predicate OnPsp(c: Cpu) { c.mode == Thread && (if c.sec == NonSecure then c.control.ns else c.control.s) / 2 % 2 == 1 }

  /** The stack pointer in use. */
  function CurrentSp(c: Cpu): u32 {
    if OnPsp(c) then (if c.sec == NonSecure then c.psp.ns else c.psp.s)
    else (if c.sec == NonSecure then c.msp.ns else c.msp.s)
  }

  /** The stack it points into. */
  function CurrentArea(st: Stacks, c: Cpu): Area {
    if OnPsp(c) then (if c.sec == NonSecure then st.pspNs else st.pspS)
    else (if c.sec == NonSecure then st.mspNs else st.mspS)
  }

  lemma CurrentIsActive(st: Stacks, c: Cpu)
    ensures OnPsp(c) == c.UsesPsp() && CurrentSp(c) == c.ActiveSp() && CurrentArea(st, c) == st.Of(c.sec, c.UsesPsp())
  {
  }

  /** Entry: the handler's registers, mode and security state. */
  lemma HandlerRegisters(l: Layout, st: Stacks, cpu: Cpu, ram: seq<u8>, e: Entry, returnPc: u32)
    requires l.Shaped() && cpu.Valid() && StacksOk(l, st, |ram|) && SpsInside(st, cpu) && Room(st, cpu)
    ensures var r := Enter(l, cpu, ram, e, returnPc, cpu.xpsr);
            var h := r.1;
            && r.0 && h.mode == Handler && h.sec == e.handlerSec
            && h.xpsr / 0x800_0000 == cpu.xpsr / 0x800_0000 && h.xpsr % 0x800_0000 == 0x100_0000 + e.excNum % 0x200
            && ItPacking.Get(h.xpsr) == 0
            && h.r[15] == e.handler + (1 - e.handler % 2)
            && h.r[14] == (if cpu.mode == Handler then 0xFFFF_FFB1 else if OnPsp(cpu) then 0xFFFF_FFBD else 0xFFFF_FFB9)
                          + (if cpu.sec == Secure then 0x40 else 0)
            && h.r[13] == (if e.handlerSec == NonSecure then h.msp.ns else h.msp.s)
            && (forall k :: 0 <= k < 13 ==> h.r[k] == cpu.r[k])
            && (if e.wakes then !h.sleeping && !h.eventReg else h.sleeping == cpu.sleeping && h.eventReg == cpu.eventReg)
            && h.control == cpu.control && h.msplim == cpu.msplim && h.psplim == cpu.psplim
  {
    hide StacksOk, SpsInside, Room, HoldsWords, SameOutside, Enter, ItPacking.Get;
    EnterEffect(l, st, cpu, ram, e, returnPc);
    CurrentIsActive(st, cpu);
    EntryXpsrThumb(cpu.xpsr, e.excNum);
    ItPacking.EmptyState(EntryXpsr(cpu.xpsr, e.excNum), e.excNum % 0x200);
    hide EntryXpsr;
  }

  /** Entry: one stack pointer goes down by 32 and is recorded while there is room. */
  lemma EntryStackPointers(l: Layout, st: Stacks, cpu: Cpu, ram: seq<u8>, e: Entry, returnPc: u32)
    requires l.Shaped() && cpu.Valid() && StacksOk(l, st, |ram|) && SpsInside(st, cpu) && Room(st, cpu)
    ensures var h := Enter(l, cpu, ram, e, returnPc, cpu.xpsr).1;
            && h.msp.s == cpu.msp.s - (if cpu.sec == Secure && !OnPsp(cpu) then 32 else 0)
            && h.msp.ns == cpu.msp.ns - (if cpu.sec == NonSecure && !OnPsp(cpu) then 32 else 0)
            && h.psp.s == cpu.psp.s - (if cpu.sec == Secure && OnPsp(cpu) then 32 else 0)
            && h.psp.ns == cpu.psp.ns - (if cpu.sec == NonSecure && OnPsp(cpu) then 32 else 0)
            && (if cpu.depth < 64
                then h.depth == cpu.depth + 1 && h.exc == cpu.exc[cpu.depth := Record(CurrentSp(cpu) - 32, OnPsp(cpu), cpu.sec)]
                else h.depth == cpu.depth && h.exc == cpu.exc)
  {
    hide StacksOk, SpsInside, Room, HoldsWords, SameOutside, Enter, EntryXpsr;
    EnterEffect(l, st, cpu, ram, e, returnPc);
    CurrentIsActive(st, cpu);
  }

  /** Eight words at `at`, in stacking order. */
  ghost predicate FrameAt(ram: seq<u8>, at: int, r0: u32, r1: u32, r2: u32, r3: u32, r12: u32, lr: u32, pc: u32, xpsr: u32) {
    && 0 <= at && at + 32 <= |ram|
    && WordAt(ram, at) == r0 && WordAt(ram, at + 4) == r1 && WordAt(ram, at + 8) == r2 && WordAt(ram, at + 12) == r3
    && WordAt(ram, at + 16) == r12 && WordAt(ram, at + 20) == lr && WordAt(ram, at + 24) == pc && WordAt(ram, at + 28) == xpsr
  }

  /** Entry: r0 to r3, r12, LR, the return address with bit 0 set and xPSR with Thumb set, from the new
      stack pointer up; no other byte changes. */
  lemma EntryFrame(l: Layout, st: Stacks, cpu: Cpu, ram: seq<u8>, e: Entry, returnPc: u32)
    requires l.Shaped() && cpu.Valid() && StacksOk(l, st, |ram|) && SpsInside(st, cpu) && Room(st, cpu)
    ensures var ram' := Enter(l, cpu, ram, e, returnPc, cpu.xpsr).2;
            var a := CurrentArea(st, cpu);
            var at := a.off + (CurrentSp(cpu) - 32 - a.lo);
            && FrameAt(ram', at, cpu.r[0], cpu.r[1], cpu.r[2], cpu.r[3], cpu.r[12], cpu.r[14], returnPc + (1 - returnPc % 2),
                       cpu.xpsr + (if cpu.xpsr / 0x100_0000 % 2 == 0 then 0x100_0000 else 0))
            && forall k :: 0 <= k < |ram| && !(at <= k < at + 32) ==> ram'[k] == ram[k]
  {
    hide StacksOk, SpsInside, Room, HandlerState, Enter, EntryXpsr, WordAt, HoldsWords, FrameAt;
    EnterEffect(l, st, cpu, ram, e, returnPc);
    CurrentIsActive(st, cpu);
    var a := CurrentArea(st, cpu);
    FrameOfWords(Enter(l, cpu, ram, e, returnPc, cpu.xpsr).2, a.off + (CurrentSp(cpu) - 32 - a.lo), FrameOf(cpu, returnPc, cpu.xpsr));
  }

  lemma FrameOfWords(ram: seq<u8>, at: int, f: seq<u32>)
    requires at >= 0 && |f| == 8 && HoldsWords(ram, at, f)
    ensures FrameAt(ram, at, f[0], f[1], f[2], f[3], f[4], f[5], f[6], f[7])
  {
    hide WordAt;
    assert WordAt(ram, at + 4 * 0) == f[0] && WordAt(ram, at + 4 * 1) == f[1] && WordAt(ram, at + 4 * 2) == f[2];
    assert WordAt(ram, at + 4 * 3) == f[3] && WordAt(ram, at + 4 * 4) == f[4] && WordAt(ram, at + 4 * 5) == f[5];
    assert WordAt(ram, at + 4 * 6) == f[6] && WordAt(ram, at + 4 * 7) == f[7];
  }

  lemma FaultNumbers(l: Layout, st: Stacks, cpu: Cpu, ram: seq<u8>, handler: u32, pc: u32)
    requires l.Shaped() && cpu.Valid() && StacksOk(l, st, |ram|) && SpsInside(st, cpu) && Room(st, cpu)
    ensures Enter(l, cpu, ram, HardFault(cpu.sec, handler), pc, cpu.xpsr).1.xpsr % 0x800_0000 == 0x100_0003
    ensures Enter(l, cpu, ram, UsageFault(cpu.sec, handler), pc, cpu.xpsr).1.xpsr % 0x800_0000 == 0x100_0006
    ensures Enter(l, cpu, ram, HardFault(cpu.sec, handler), pc, cpu.xpsr).1.sec == cpu.sec
    ensures Enter(l, cpu, ram, UsageFault(cpu.sec, handler), pc, cpu.xpsr).1.sec == cpu.sec
  {
    hide StacksOk, SpsInside, Room, Enter, EntryXpsr;
    HandlerRegisters(l, st, cpu, ram, HardFault(cpu.sec, handler), pc);
    HandlerRegisters(l, st, cpu, ram, UsageFault(cpu.sec, handler), pc);
  }

  // ---------------------------------------------------------------- return

  /** Where the frame of a return with this value is looked for. */
  function FrameSp(c: Cpu, value: u32): u32
    requires c.Valid()
  {
    var sec := if value / 0x40 % 2 == 1 then Secure else NonSecure;
    if c.depth > 0 && c.exc[c.depth - 1].sec == sec then c.exc[c.depth - 1].sp
    else if value / 4 % 2 == 1 then (if sec == NonSecure then c.psp.ns else c.psp.s)
    else (if sec == NonSecure then c.msp.ns else c.msp.s)
  }

  /** Return: what each word of the frame becomes, and where SP, mode and security state go. */
  lemma ReturnRegisters(l: Layout, cpu: Cpu, ram: seq<u8>, value: u32, a: Area)
    requires l.Shaped() && cpu.Valid() && value / 0x100 == 0xFF_FFFF
    requires Mapped(l, if value / 0x40 % 2 == 1 then Secure else NonSecure, a, |ram|)
    requires a.lo <= FrameSp(cpu, value) && FrameSp(cpu, value) + 32 <= a.hi
    ensures var r := Unstack(l, cpu, ram, value);
            var c := r.1;
            var sp := FrameSp(cpu, value);
            var at := a.off + (sp - a.lo);
            var thread := value / 8 % 2 == 1;
            && r.0 && at + 32 <= |ram|
            && c.r[0] == WordAt(ram, at) && c.r[1] == WordAt(ram, at + 4) && c.r[2] == WordAt(ram, at + 8)
            && c.r[3] == WordAt(ram, at + 12) && c.r[12] == WordAt(ram, at + 16) && c.r[14] == WordAt(ram, at + 20)
            && c.r[15] == WordAt(ram, at + 24) + (1 - WordAt(ram, at + 24) % 2)
            && c.xpsr == WordAt(ram, at + 28) - (if thread then WordAt(ram, at + 28) % 0x200 else 0)
            && c.r[13] == sp + 32 && c.r[4..12] == cpu.r[4..12]
            && c.mode == (if thread then Thread else Handler)
            && c.sec == (if value / 0x40 % 2 == 1 then Secure else NonSecure)
            && c.depth == (if cpu.depth > 0 then cpu.depth - 1 else 0)
  {
    hide Mapped, WordAt;
    var info := ReturnMeans(cpu, value);
    var sp := FrameSp(cpu, value);
    var f := FrameWords(l, ram, info.sec, a, sp);
    hide ReadWords, ReturnSp, FrameSp, Decode;
  }

  /** The fields of an EXC_RETURN value. */
  lemma ReturnMeans(cpu: Cpu, value: u32) returns (info: ReturnInfo)
    requires cpu.Valid() && value / 0x100 == 0xFF_FFFF
    ensures info == Decode(value) && info.valid && ReturnSp(cpu, info) == FrameSp(cpu, value)
    ensures info.sec == (if value / 0x40 % 2 == 1 then Secure else NonSecure)
    ensures info.usePsp == (value / 4 % 2 == 1) && info.toThread == (value / 8 % 2 == 1)
  {
    info := Decode(value);
  }

  /** Return: the selected stack pointer, and no other, ends above the frame. */
  lemma ReturnStackPointers(l: Layout, cpu: Cpu, ram: seq<u8>, value: u32, a: Area)
    requires l.Shaped() && cpu.Valid() && value / 0x100 == 0xFF_FFFF
    requires Mapped(l, if value / 0x40 % 2 == 1 then Secure else NonSecure, a, |ram|)
    requires a.lo <= FrameSp(cpu, value) && FrameSp(cpu, value) + 32 <= a.hi
    ensures var c := Unstack(l, cpu, ram, value).1;
            var top := FrameSp(cpu, value) + 32;
            var secure, psp := value / 0x40 % 2 == 1, value / 4 % 2 == 1;
            && c.msp.s == (if secure && !psp then top else cpu.msp.s)
            && c.msp.ns == (if !secure && !psp then top else cpu.msp.ns)
            && c.psp.s == (if secure && psp then top else cpu.psp.s)
            && c.psp.ns == (if !secure && psp then top else cpu.psp.ns)
            && c.control == cpu.control && c.exc == cpu.exc
  {
    hide Mapped, WordAt;
    var info := ReturnMeans(cpu, value);
    var f := FrameWords(l, ram, info.sec, a, FrameSp(cpu, value));
    hide ReadWords, ReturnSp, FrameSp, Decode;
  }

  /** Other values are not returns and change nothing. */
  lemma NotReturn(l: Layout, cpu: Cpu, ram: seq<u8>, value: u32)
    requires l.Shaped() && cpu.Valid() && value / 0x100 != 0xFF_FFFF
    ensures Unstack(l, cpu, ram, value) == (false, cpu)
  {
    hide ReadWords;
  }

  /** The words of a frame in a mapped stack. */
  lemma FrameWords(l: Layout, ram: seq<u8>, sec: Security, a: Area, sp: u32) returns (f: seq<u32>)
    requires l.Shaped() && Mapped(l, sec, a, |ram|) && a.lo <= sp && sp + 32 <= a.hi
    ensures ReadWords(l, ram, sec, sp, 8) == Some(f) && |f| == 8 && a.off + (sp - a.lo) + 32 <= |ram|
    ensures forall k :: 0 <= k < 8 ==> f[k] == WordAt(ram, a.off + (sp - a.lo) + 4 * k)
  {
    var at := a.off + (sp - a.lo);
    assert at + 32 <= |ram|;
    hide Mapped, WordAt, ReadWords;
    f := seq(8, k requires 0 <= k < 8 => WordAt(ram, at + 4 * k));
    assert HoldsWords(ram, at, f);
    ReadFromArea(l, ram, sec, a, sp, f, 8);
    assert f[..8] == f;
  }
}
