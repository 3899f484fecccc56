/** The mutable processor: exception entry and return as the emulator performs them. */
module Core {
  import opened Words
  import opened Memmap
  import opened Processor
  import opened Exceptions

  class Core {
    var r: seq<u32>
    var xpsr: u32
    var sec: Security
    var mode: Mode
    var msp: Banked
    var psp: Banked
    var msplim: Banked
    var psplim: Banked
    var control: Banked
    var exc: seq<Record>
    var depth: nat
    var sleeping: bool
    var eventReg: bool
    const mem: Map

    ghost function State(): Cpu
      reads this
    {
      Cpu(r, xpsr, sec, mode, msp, psp, msplim, psplim, control, exc, depth, sleeping, eventReg)
    }

    ghost predicate Valid()
      reads this, mem
    {
      State().Valid() && mem.layout.Shaped()
    }

    constructor (c: Cpu, m: Map)
      ensures State() == c && mem == m
    {
      r, xpsr, sec, mode := c.r, c.xpsr, c.sec, c.mode;
      msp, psp, msplim, psplim, control := c.msp, c.psp, c.msplim, c.psplim, c.control;
      exc, depth, sleeping, eventReg := c.exc, c.depth, c.sleeping, c.eventReg;
      mem := m;
    }

    method SelectSp(s: Security, usePsp: bool) returns (sp: u32)
      ensures sp == State().Sp(s, usePsp)
    {
      sp := if usePsp then (if s.NonSecure? then psp.ns else psp.s) else (if s.NonSecure? then msp.ns else msp.s);
    }

    method AssignSp(s: Security, usePsp: bool, v: u32)
      modifies this
      ensures State() == old(State()).SetSp(s, usePsp, v)
    {
      if usePsp {
        if s.NonSecure? { psp := psp.(ns := v); } else { psp := psp.(s := v); }
      } else {
        if s.NonSecure? { msp := msp.(ns := v); } else { msp := msp.(s := v); }
      }
    }

    /** The stacking loop: words 7 down to 0, SP lowered before each store. */
    method PushFrame(s: Security, top: u32, frame: seq<u32>) returns (ok: bool, sp: u32)
      requires Valid()
      modifies mem.ram
      ensures (ok, mem.ram[..], sp) == PushWords(mem.layout, old(mem.ram[..]), s, top, frame)
    {
      hide Write;
      sp := top;
      var i := |frame|;
      ghost var was := mem.ram[..];
      assert frame[..i] == frame;
      while i > 0
        invariant 0 <= i <= |frame|
        invariant PushWords(mem.layout, was, s, top, frame) == PushWords(mem.layout, mem.ram[..], s, sp, frame[..i])
      {
        i := i - 1;
        sp := Wrap(sp - 4);
        assert frame[..i + 1][..i] == frame[..i];
        var o := mem.Store(s, sp, 4, frame[i]);
        if !o.Done? { return false, sp; }
      }
      ok := true;
    }

    /** Moves the stack pointer to the new frame and records it if a slot is free. */
    method RecordFrame(usePsp: bool, sp: u32)
      requires Valid() && usePsp == State().UsesPsp()
      modifies this
      ensures State() == Recorded(old(State()), sp)
    {
      AssignSp(sec, usePsp, sp);
      if depth < EXC_STACK_MAX {
        exc := exc[depth := Record(sp, usePsp, sec)];
        depth := depth + 1;
      }
    }

    method BecomeHandler(ghost pre: Cpu, e: Entry, excRet: u32, xpsrIn: u32)
      requires Valid() && excRet == Encode(pre.sec, pre.UsesPsp(), pre.mode.Thread?)
      modifies this
      ensures State() == HandlerState(pre, old(State()), e, xpsrIn)
    {
      hide Encode, EntryXpsr;
      var main := SelectSp(e.handlerSec, false);
      r := r[13 := main][14 := excRet][15 := OrBit0(e.handler)];
      xpsr := EntryXpsr(xpsrIn, e.excNum);
      mode := Handler;
      sec := e.handlerSec;
      if e.wakes {
        sleeping := false;
        eventReg := false;
      }
    }

    /** `enter_exception_ex`; HardFault and UsageFault entry are the same steps with the entry
        descriptors `HardFault` and `UsageFault`. */
    method EnterException(e: Entry, returnPc: u32, xpsrIn: u32) returns (ok: bool)
      requires Valid()
      modifies this, mem.ram
      ensures (ok, State(), mem.ram[..]) == Enter(mem.layout, old(State()), old(mem.ram[..]), e, returnPc, xpsrIn)
    {
      hide PushWords, Encode, EntryXpsr, Recorded, HandlerState;
      var usePsp := mode.Thread? && control.Get(sec) / 2 % 2 == 1;
      var excRet := Encode(sec, usePsp, mode.Thread?);
      var top := SelectSp(sec, usePsp);
      var sp;
      ok, sp := PushFrame(sec, top, [r[0], r[1], r[2], r[3], r[12], r[14], OrBit0(returnPc), SetThumb(xpsrIn)]);
      if ok {
        RecordFrame(usePsp, sp);
        BecomeHandler(old(State()), e, excRet, xpsrIn);
      }
    }

    /** `raise_hard_fault`, once the handler address is known. */
    method RaiseHardFault(handler: u32, faultPc: u32, faultXpsr: u32) returns (ok: bool)
      requires Valid()
      modifies this, mem.ram
      ensures (ok, State(), mem.ram[..]) ==
              Enter(mem.layout, old(State()), old(mem.ram[..]), HardFault(old(sec), handler), faultPc, faultXpsr)
    {
      ok := EnterException(HardFault(sec, handler), faultPc, faultXpsr);
    }

    /** `raise_usage_fault`; nothing is stacked when the emulator stops at faults. */
    method RaiseUsageFault(handler: u32, faultPc: u32, faultXpsr: u32, quitOnFaults: bool) returns (ok: bool)
      requires Valid()
      modifies this, mem.ram
      ensures quitOnFaults ==> !ok && State() == old(State()) && mem.ram[..] == old(mem.ram[..])
      ensures !quitOnFaults ==>
                (ok, State(), mem.ram[..]) ==
                Enter(mem.layout, old(State()), old(mem.ram[..]), UsageFault(old(sec), handler), faultPc, faultXpsr)
    {
      if quitOnFaults { return false; }
      ok := EnterException(UsageFault(sec, handler), faultPc, faultXpsr);
    }

    /** The unstacking loop. */
    method ReadFrame(s: Security, sp: u32) returns (f: Option<seq<u32>>)
      requires Valid()
      ensures f == ReadWords(mem.layout, mem.ram[..], s, sp, 8)
    {
      hide Read;
      var words: seq<u32> := [];
      var i := 0;
      while i < 8
        invariant 0 <= i <= 8 && ReadWords(mem.layout, mem.ram[..], s, sp, i) == Some(words)
      {
        var o := mem.Load(s, Wrap(sp + 4 * i), 4);
        if !o.Done? {
          ReadWordsStops(mem.layout, mem.ram[..], s, sp, i + 1, 8);
          return None;
        }
        words := words + [o.value];
        i := i + 1;
      }
      f := Some(words);
    }

    /** Pops the innermost record and chooses the stack pointer to unstack from. */
    method PopRecord(info: ReturnInfo) returns (sp: u32)
      requires Valid()
      modifies this
      ensures State() == Popped(old(State())) && sp == ReturnSp(old(State()), info)
    {
      if depth > 0 {
        depth := depth - 1;
        sp := exc[depth].sp;
        if exc[depth].sec != info.sec {
          sp := SelectSp(info.sec, info.usePsp);
        }
      } else {
        sp := SelectSp(info.sec, info.usePsp);
      }
    }

    method RestoreFrame(info: ReturnInfo, sp: u32, frame: seq<u32>)
      requires Valid() && |frame| == 8
      modifies this
      ensures State() == Restored(old(State()), info, sp, frame)
    {
      var top := Wrap(sp as int + 32);
      AssignSp(info.sec, info.usePsp, top);
      r := r[0 := frame[0]][1 := frame[1]][2 := frame[2]][3 := frame[3]][12 := frame[4]][13 := top][14 := frame[5]][15 := OrBit0(frame[6])];
      xpsr := if info.toThread then ClearIpsr(frame[7]) else frame[7];
      sec := info.sec;
      mode := if info.toThread then Thread else Handler;
    }

    method ExcReturnUnstack(excRet: u32) returns (ok: bool)
      requires Valid()
      modifies this
      ensures (ok, State()) == Unstack(mem.layout, old(State()), mem.ram[..], excRet)
    {
      hide ReadWords, Restored, Popped, ReturnSp, Decode;
      var info := Decode(excRet);
      if !info.valid { return false; }
      var sp := PopRecord(info);
      var f := ReadFrame(info.sec, sp);
      if f == None { return false; }
      RestoreFrame(info, sp, f.value);
      ok := true;
    }
  }

  lemma {:induction false} ReadWordsStops(l: Layout, ram: seq<u8>, sec: Security, sp: u32, i: nat, n: nat)
    requires l.Shaped() && i <= n && ReadWords(l, ram, sec, sp, i) == None
    ensures ReadWords(l, ram, sec, sp, n) == None
  {
    if i < n {
      ReadWordsStops(l, ram, sec, sp, i, n - 1);
    }
  }
}
