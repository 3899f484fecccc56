/** Processor state (include/m33mu/cpu.h), banked stack pointers (src/m33mu/cpu.c) and the
    EXC_RETURN encoding (src/main.c, src/exc_return.c). */
module Processor {
  import opened Words

  datatype Mode = Thread | Handler

  /** A register with a Secure and a Non-secure copy. */
  datatype Banked = Banked(s: u32, ns: u32) {
    function Get(sec: Security): u32 { if sec.NonSecure? then ns else s }

    function Set(sec: Security, v: u32): Banked {
      if sec.NonSecure? then this.(ns := v) else this.(s := v)
    }
  }

  const EXC_STACK_MAX := 64

  /** What exception entry remembers about the frame it pushed. */
  datatype Record = Record(sp: u32, usePsp: bool, sec: Security)

  datatype Cpu = Cpu(
    r: seq<u32>,
    xpsr: u32,
    sec: Security,
    mode: Mode,
    msp: Banked,
    psp: Banked,
    msplim: Banked,
    psplim: Banked,
    control: Banked,
    exc: seq<Record>,
    depth: nat,
    sleeping: bool,
    eventReg: bool
  ) {
    ghost predicate Valid() { |r| == 16 && |exc| == EXC_STACK_MAX && depth <= EXC_STACK_MAX }

    function Sp(sec: Security, usePsp: bool): u32 {
      if usePsp then psp.Get(sec) else msp.Get(sec)
    }

    function SetSp(sec: Security, usePsp: bool, v: u32): Cpu {
      if usePsp then this.(psp := psp.Set(sec, v)) else this.(msp := msp.Set(sec, v))
    }

    /** Thread mode with CONTROL.SPSEL set; Handler mode always uses MSP. */
    predicate UsesPsp() { mode.Thread? && control.Get(sec) / 2 % 2 == 1 }

    function ActiveSp(): u32 { Sp(sec, UsesPsp()) }

    function ActiveSplim(): u32 { if UsesPsp() then psplim.Get(sec) else msplim.Get(sec) }

    /** `mm_cpu_set_active_sp`: the bank and its mirror in r13. */
    function SetActiveSp(v: u32): Cpu
      requires |r| == 16
    {
      SetSp(sec, UsesPsp(), v).(r := r[13 := v])
    }
  }

  // ---------------------------------------------------------------- EXC_RETURN

  function Encode(sec: Security, usePsp: bool, toThread: bool): u32 {
    var base := if toThread then (if sec.NonSecure? then 0xFFFF_FFB9 else 0xFFFF_FFF9)
                else (if sec.NonSecure? then 0xFFFF_FFB1 else 0xFFFF_FFF1);
    if toThread && usePsp then base + 4 else base
  }

  datatype ReturnInfo = ReturnInfo(valid: bool, usePsp: bool, basicFrame: bool, toThread: bool, sec: Security)

  /** The top 24 bits mark an EXC_RETURN value. */
  predicate IsExcReturn(v: u32) { v / 0x100 == 0xFF_FFFF }

  function Decode(v: u32): ReturnInfo {
    if !IsExcReturn(v) then ReturnInfo(false, false, true, true, Secure)
    else ReturnInfo(true, v / 4 % 2 == 1, v / 0x10 % 2 == 1, v / 8 % 2 == 1,
                    if v / 0x40 % 2 == 1 then Secure else NonSecure)
  }

  /** Decoding inverts encoding; the PSP choice is forgotten for Handler returns. */
  lemma DecodeEncode(sec: Security, usePsp: bool, toThread: bool)
    ensures Decode(Encode(sec, usePsp, toThread)) == ReturnInfo(true, usePsp && toThread, true, toThread, sec)
  {
    var cases := [0xFFFF_FFB9, 0xFFFF_FFBD, 0xFFFF_FFB1, 0xFFFF_FFF9, 0xFFFF_FFFD, 0xFFFF_FFF1];
    assert Encode(sec, usePsp, toThread) in cases;
  }

  /** Re-encoding a decoded value returns it exactly for the six values the emulator emits. */
  lemma EncodeDecodeIff(v: u32)
    requires Decode(v).valid
    ensures Encode(Decode(v).sec, Decode(v).usePsp, Decode(v).toThread) == v
       <==> v in {0xFFFF_FFB9, 0xFFFF_FFBD, 0xFFFF_FFB1, 0xFFFF_FFF9, 0xFFFF_FFFD, 0xFFFF_FFF1}
  {
    if v in {0xFFFF_FFB9, 0xFFFF_FFBD, 0xFFFF_FFB1, 0xFFFF_FFF9, 0xFFFF_FFFD, 0xFFFF_FFF1} {
      var sec := if v in {0xFFFF_FFB9, 0xFFFF_FFBD, 0xFFFF_FFB1} then NonSecure else Secure;
      var usePsp := v in {0xFFFF_FFBD, 0xFFFF_FFFD};
      var toThread := v !in {0xFFFF_FFB1, 0xFFFF_FFF1};
      assert v == Encode(sec, usePsp, toThread);
      DecodeEncode(sec, usePsp, toThread);
    }
  }
}
