/** Writes to the System Control Space (src/scs.c:382-878): banked system registers, the SAU and
    the NVIC registers, split between Secure and Non-secure state. */
module Scs {
  import opened Words
  import opened Nvic
  import opened Bits32

  const PAGE_SIZE := 0x1000
  const SCB_OFFSET := 0xD00

  /** Registers with one copy per security state, besides ICSR, AIRCR and the MPU regions. */
  datatype BankReg = Vtor | Scr | Shpr1 | Shpr2 | Shpr3 | Shcsr | MpuCtrl | MpuRnr | MpuRbar | MpuRlar | Mair0 | Mair1

  /** `plain` holds every `BankReg` but MPU_RBAR and MPU_RLAR, which show one of eight regions. */
  datatype Bank = Bank(icsr: bv32, aircr: bv32, plain: map<BankReg, bv32>, mpuRbar: seq<bv32>, mpuRlar: seq<bv32>) {
    ghost predicate Valid() {
      |mpuRbar| == 8 && |mpuRlar| == 8 && forall k: BankReg :: k in plain
    }
  }

  /** `legacy` is the register layout the SAU writes have revealed. */
  datatype Sau = Sau(ctrl: bv32, rnr: bv32, rbar: seq<bv32>, rlar: seq<bv32>, sfsr: bv32, sfar: bv32, legacy: bool) {
    ghost predicate Valid() { |rbar| == 8 && |rlar| == 8 }
  }

  /** Registers with one copy for both states. */
  datatype SharedReg = Ccr | Cfsr | Hfsr | Dfsr | Mmfar | Bfar | Afsr

  datatype SysTick = SysTick(ctrl: bv32, load: bv32, value: bv32, countFlag: bool)

  datatype Shared = Shared(
    cpuid: bv32, plain: map<SharedReg, bv32>, systick: SysTick, pendSv: bool, pendSt: bool, resetRequested: bool
  ) {
    ghost predicate Valid() { forall k: SharedReg :: k in plain }
  }

  const MPU_TYPE: bv32 := 0x800
  const SAU_TYPE: bv32 := 7

  datatype Regs = Regs(s: Bank, ns: Bank, sau: Sau, shared: Shared, nvic: Nvic.State) {
    ghost predicate Valid() { s.Valid() && ns.Valid() && sau.Valid() && shared.Valid() && nvic.Valid() }

    function BankOf(sec: Security): Bank { if sec.NonSecure? then ns else s }
  }

  /** `initiator` is the state the protection layer saw; `window` is the address alias. */
  datatype Access = Access(initiator: Security, window: Security, offset: u32, size: nat, value: bv32) {
    /** The Non-secure window is always Non-secure; the other banks by initiator. */
    function Effective(): Security { if window.NonSecure? then NonSecure else initiator }
  }

  function Index(x: bv32): (i: nat)
    ensures i < 8
  {
    var k := x & 7;
    if k == 0 then 0 else if k == 1 then 1 else if k == 2 then 2 else if k == 3 then 3
    else if k == 4 then 4 else if k == 5 then 5 else if k == 6 then 6 else 7
  }

  // ---------------------------------------------------------------- sub-word merging

  function Shift(lane: nat): bv32 {
    if lane == 0 then 0 else if lane == 1 then 8 else if lane == 2 then 16 else 24
  }

  function LaneMask(lane: nat, size: nat): bv32
    ensures Shift(lane) < 32
  {
    (if size == 1 then 0xFF else 0xFFFF) << Shift(lane)
  }

  function Moved(value: bv32, lane: nat): bv32 {
    if lane == 0 then value else if lane == 1 then value << 8 else if lane == 2 then value << 16 else value << 24
  }

  /** The stored bytes at their place in the word. */
  function Placed(value: bv32, lane: nat, size: nat): bv32 { Both(Moved(value, lane), LaneMask(lane, size)) }

  /** Replaces the addressed bytes of `cur`. */
  function Merge(cur: bv32, lane: nat, size: nat, value: bv32): bv32 {
    Either(Without(cur, LaneMask(lane, size)), Placed(value, lane, size))
  }

  // ---------------------------------------------------------------- banked registers

  /** The banked register at an offset relative to the SCB. */
  function BankedAt(reg: nat): Option<BankReg> {
    if reg == 0x08 then Some(Vtor) else if reg == 0x10 then Some(Scr)
    else if reg == 0x18 then Some(Shpr1) else if reg == 0x1C then Some(Shpr2) else if reg == 0x20 then Some(Shpr3)
    else if reg == 0x24 then Some(Shcsr)
    else if reg == 0x94 then Some(MpuCtrl) else if reg == 0x98 then Some(MpuRnr)
    else if reg == 0x9C then Some(MpuRbar) else if reg == 0xA0 then Some(MpuRlar)
    else if reg == 0xC0 then Some(Mair0) else if reg == 0xC4 then Some(Mair1)
    else None
  }

  predicate IsBanked(reg: nat) { BankedAt(reg).Some? }

  function BankRead(b: Bank, k: BankReg): bv32
    requires b.Valid()
  {
    if k == MpuRbar then b.mpuRbar[Index(b.plain[MpuRnr])]
    else if k == MpuRlar then b.mpuRlar[Index(b.plain[MpuRnr])]
    else b.plain[k]
  }

  /** MPU_RNR keeps three bits. */
  function Kept(k: BankReg, v: bv32): bv32 { if k == MpuRnr then v & 7 else v }

  function BankWrite(b: Bank, k: BankReg, v: bv32): (b': Bank)
    requires b.Valid()
    ensures b'.Valid() && b'.icsr == b.icsr && b'.aircr == b.aircr
  {
    if k == MpuRbar then b.(mpuRbar := b.mpuRbar[Index(b.plain[MpuRnr]) := v])
    else if k == MpuRlar then b.(mpuRlar := b.mpuRlar[Index(b.plain[MpuRnr]) := v])
    else b.(plain := b.plain[k := Kept(k, v)])
  }

  // ---------------------------------------------------------------- SAU

  predicate IsSau(reg: nat) {
    reg == 0xD0 || reg == 0xD4 || reg == 0xD8 || reg == 0xDC || reg == 0xE0 || reg == 0xE4 || reg == 0xE8
  }

  function SauRead(u: Sau, reg: nat): bv32
    requires u.Valid() && IsSau(reg)
  {
    var i := Index(u.rnr);
    if reg == 0xD0 then u.ctrl else if reg == 0xD4 then u.rnr
    else if reg == 0xD8 then (if u.legacy then u.rnr else u.rbar[i])
    else if reg == 0xDC then (if u.legacy then u.rbar[i] else u.rlar[i])
    else if reg == 0xE0 then (if u.legacy then u.rlar[i] else u.sfsr)
    else if reg == 0xE4 then (if u.legacy then u.sfsr else u.sfar)
    else u.sfar
  }

  /** The layout is guessed from the written value, as in the source. */
  function SauWrite(u: Sau, reg: nat, v: bv32): (u': Sau)
    requires u.Valid() && IsSau(reg)
    ensures u'.Valid()
  {
    var i := Index(u.rnr);
    if reg == 0xD0 then u.(ctrl := v)
    else if reg == 0xD4 then u.(rnr := v & 7)
    else if reg == 0xD8 then (if v & !7 == 0 then u.(rnr := v & 7, legacy := true) else u.(rbar := u.rbar[i := v]))
    else if reg == 0xDC then (if v & 0x1F == 0 then u.(rbar := u.rbar[i := v], legacy := true) else u.(rlar := u.rlar[i := v]))
    else if reg == 0xE0 then (if v <= 0xFF then u.(sfsr := v) else u.(rlar := u.rlar[i := v], legacy := true))
    else if reg == 0xE4 then (if v <= 0xFF then u.(sfsr := v, legacy := true) else u.(sfar := v))
    else u.(sfar := v, legacy := true)
  }

  // ---------------------------------------------------------------- unbanked registers

  function SharedAt(reg: nat): Option<SharedReg> {
    if reg == 0x14 then Some(Ccr) else if reg == 0x28 then Some(Cfsr) else if reg == 0x2C then Some(Hfsr)
    else if reg == 0x30 then Some(Dfsr) else if reg == 0x34 then Some(Mmfar) else if reg == 0x38 then Some(Bfar)
    else if reg == 0x3C then Some(Afsr) else None
  }

  predicate IsShared(reg: nat) { SharedAt(reg).Some? }

  /** CFSR bits are cleared by writing ones. */
  function SharedWrite(h: Shared, k: SharedReg, v: bv32): (h': Shared)
    requires h.Valid()
    ensures h'.Valid()
  {
    h.(plain := h.plain[k := if k == Cfsr then Without(h.plain[k], v) else v])
  }

  /** Pending bits set and cleared through ICSR; clearing wins. */
  function PendWrite(h: Shared, v: bv32): Shared {
    h.(pendSv := if v & 0x0800_0000 != 0 then false else (v & 0x1000_0000 != 0 || h.pendSv),
       pendSt := if v & 0x0200_0000 != 0 then false else (v & 0x0400_0000 != 0 || h.pendSt))
  }

  /** ICSR as read: the stored word with the two pending bits laid over it. */
  function IcsrWord(stored: bv32, sv: bool, st: bool): bv32 {
    stored | (if sv then 0x1000_0000 else 0) | (if st then 0x0400_0000 else 0)
  }

  /** The LOAD value a store leaves; a narrow one merges into zero. */
  function LoadWord(lane: nat, size: nat, v: bv32): bv32 {
    Low24(if size == 4 then v else Merge(0, lane, size, v))
  }

  function SysTickWrite(t: SysTick, a: Access): SysTick {
    var reg, lane := a.offset - a.offset % 4, a.offset % 4;
    if reg == 0x10 then
      t.(ctrl := (if Narrow(a) then Merge(t.ctrl, lane, a.size, a.value) else a.value) & 7)
    else if reg == 0x14 then
      t.(load := LoadWord(lane, a.size, a.value))
    else t.(value := 0, countFlag := false)
  }

  // ---------------------------------------------------------------- NVIC registers

  predicate BitOf(v: bv32, i: nat)
    requires i < 32
  {
    (v >> i) & 1 == 1
  }

  /** Least significant bit first. */
  function ToBits(v: bv32): Bits { seq(32, i requires 0 <= i < 32 => BitOf(v, i)) }

  function And(a: Bits, b: Bits): Bits { seq(32, i requires 0 <= i < 32 => a[i] && b[i]) }

  function Or(a: Bits, b: Bits): Bits { seq(32, i requires 0 <= i < 32 => a[i] || b[i]) }

  function AndNot(a: Bits, b: Bits): Bits { seq(32, i requires 0 <= i < 32 => a[i] && !b[i]) }

  /** Which bits of a mask register a write may touch. */
  function Reach(n: Nvic.State, eff: Security, idx: nat, v: Bits): Bits
    requires idx < MASK_WORDS
  {
    if eff.NonSecure? then And(v, n.itns[idx]) else v
  }

  /** ISER, ICER, ISPR, ICPR and ITNS words. */
  predicate IsNvicWord(reg: nat) {
    0x100 <= reg < 0x110 || 0x180 <= reg < 0x190 || 0x200 <= reg < 0x210 || 0x280 <= reg < 0x290 || 0x380 <= reg < 0x390
  }

  function NvicWrite(n: Nvic.State, eff: Security, reg: nat, v: Bits): (n': Nvic.State)
    requires n.Valid() && IsNvicWord(reg)
    ensures n'.Valid()
  {
    if reg < 0x110 then
      var i := (reg - 0x100) / 4;
      n.(enable := n.enable[i := Or(n.enable[i], Reach(n, eff, i, v))])
    else if reg < 0x190 then
      var i := (reg - 0x180) / 4;
      n.(enable := n.enable[i := AndNot(n.enable[i], Reach(n, eff, i, v))])
    else if reg < 0x210 then
      var i := (reg - 0x200) / 4;
      n.(pending := n.pending[i := Or(n.pending[i], Reach(n, eff, i, v))])
    else if reg < 0x290 then
      var i := (reg - 0x280) / 4;
      n.(pending := n.pending[i := AndNot(n.pending[i], Reach(n, eff, i, v))])
    else if eff.Secure? then n.(itns := n.itns[(reg - 0x380) / 4 := v])
    else n
  }

  function Byte(v: bv32, lane: nat): u8 { ((v >> Shift(lane)) & 0xFF) as int }

  function SetPriority(n: Nvic.State, irq: nat, p: u8): (n': Nvic.State)
    requires n.Valid()
    ensures n'.Valid() && n' == n.(priority := n'.priority)
  {
    if irq < MAX_IRQ then n.(priority := n.priority[irq := p]) else n
  }

  /** IPR bytes; the source does not look at the security state here. */
  function PriorityWrite(n: Nvic.State, a: Access): (n': Nvic.State)
    requires n.Valid() && 0x400 <= a.offset < 0x500
    ensures n'.Valid() && n' == n.(priority := n'.priority)
  {
    var irq := a.offset - 0x400;
    if a.size == 1 then SetPriority(n, irq, Byte(a.value, 0))
    else if a.size == 4 && irq % 4 == 0 then
      SetPriority(SetPriority(SetPriority(SetPriority(n, irq, Byte(a.value, 0)), irq + 1, Byte(a.value, 1)),
                              irq + 2, Byte(a.value, 2)), irq + 3, Byte(a.value, 3))
    else n
  }

  // ---------------------------------------------------------------- the whole write

  /** The current word of an SCB register, as the read-modify-write of narrow stores sees it. */
  function ScbRead(r: Regs, window: Security, eff: Security, reg: nat): bv32
    requires r.Valid()
  {
    if reg == 0x00 then r.shared.cpuid
    else if reg == 0x04 then
      IcsrWord(r.BankOf(window).icsr, r.shared.pendSv, r.shared.pendSt)
    else if reg == 0x0C then r.BankOf(eff).aircr
    else if IsBanked(reg) then BankRead(r.BankOf(eff), BankedAt(reg).value)
    else if IsShared(reg) then r.shared.plain[SharedAt(reg).value]
    else if reg == 0x90 then MPU_TYPE
    else if reg == 0xCC then (if eff.Secure? then SAU_TYPE else 0)
    else if IsSau(reg) then (if eff.Secure? then SauRead(r.sau, reg) else 0)
    else 0
  }

  function WithBank(r: Regs, sec: Security, b: Bank): (r': Regs)
    requires r.Valid() && b.Valid()
    ensures r'.Valid()
  {
    if sec.NonSecure? then r.(ns := b) else r.(s := b)
  }

  /** ICSR does not store its two SysTick pending bits. */
  function IcsrKept(v: bv32): bv32 { Without(v, 0x0600_0000) }

  function IcsrWrite(r: Regs, window: Security, v: bv32): (r': Regs)
    requires r.Valid()
    ensures r'.Valid()
  {
    WithBank(r.(shared := PendWrite(r.shared, v)), window, r.BankOf(window).(icsr := IcsrKept(v)))
  }

  /** The VECTKEY value in the upper half. */
  predicate Keyed(v: bv32) { v >> 16 == 0x05FA }

  /** SYSRESETREQ. */
  predicate AsksReset(v: bv32) { v & 4 != 0 }

  /** Ignored without the 0x05FA key; SYSRESETREQ asks for a reset. */
  function AircrWrite(r: Regs, window: Security, v: bv32): (o: (Regs, bool))
    requires r.Valid()
    ensures o.0.Valid()
  {
    if !Keyed(v) then (r, false)
    else
      var asked := r.shared.resetRequested || AsksReset(v);
      (WithBank(r.(shared := r.shared.(resetRequested := asked)), window, r.BankOf(window).(aircr := v)), true)
  }

  function ScbWrite(r: Regs, window: Security, eff: Security, reg: nat, v: bv32): (o: (Regs, bool))
    requires r.Valid()
    ensures o.0.Valid()
  {
    if reg == 0x04 then (IcsrWrite(r, window, v), true)
    else if reg == 0x0C then AircrWrite(r, window, v)
    else if IsBanked(reg) then (WithBank(r, eff, BankWrite(r.BankOf(eff), BankedAt(reg).value, v)), true)
    else if IsShared(reg) then (r.(shared := SharedWrite(r.shared, SharedAt(reg).value, v)), true)
    else if IsSau(reg) && eff.Secure? then (r.(sau := SauWrite(r.sau, reg, v)), true)
    else (r, true)
  }

  function LowWrite(r: Regs, a: Access): (r': Regs)
    requires r.Valid() && a.offset < SCB_OFFSET
    ensures r'.Valid()
  {
    var reg := a.offset - a.offset % 4;
    if reg == 0x10 || reg == 0x14 || reg == 0x18 then r.(shared := r.shared.(systick := SysTickWrite(r.shared.systick, a)))
    else if a.size == 4 && IsNvicWord(reg) then r.(nvic := NvicWrite(r.nvic, a.Effective(), reg, ToBits(a.value)))
    else if 0x400 <= a.offset < 0x500 then r.(nvic := PriorityWrite(r.nvic, a))
    else r
  }

  /** The SCB register an access addresses. */
  function ScbReg(a: Access): int { a.offset - a.offset % 4 - SCB_OFFSET }

  predicate Narrow(a: Access) { a.size == 1 || a.size == 2 }

  /** The access is a store to the SCB register `reg`, of a width the source accepts. */
  predicate Addresses(a: Access, reg: int) {
    SCB_OFFSET <= a.offset < PAGE_SIZE && (Narrow(a) || a.size == 4) && ScbReg(a) == reg
  }

  /** The word such a store writes: narrow ones merge into the current word. */
  function Written(r: Regs, a: Access): bv32
    requires r.Valid() && SCB_OFFSET <= a.offset
  {
    if Narrow(a) then Merge(ScbRead(r, a.window, a.Effective(), ScbReg(a)), a.offset % 4, a.size, a.value) else a.value
  }

  /** `scs_write`: the registers afterwards and whether the access was accepted. */
  function Write(r: Regs, a: Access): (o: (Regs, bool))
    requires r.Valid()
    ensures o.0.Valid()
  {
    if a.offset >= PAGE_SIZE then (r, false)
    else if a.offset < SCB_OFFSET then (LowWrite(r, a), true)
    else if Narrow(a) || a.size == 4 then ScbWrite(r, a.window, a.Effective(), ScbReg(a), Written(r, a))
    else (r, false)
  }

  // ---------------------------------------------------------------- isolation

  /** Interrupts not handed to the Non-secure state keep their enable and pending bits. */
  ghost predicate SecureIrqsKept(n: Nvic.State, n': Nvic.State) {
    && n'.itns == n.itns
    && forall irq :: 0 <= irq < MAX_IRQ && !Bit(n.itns, irq) ==>
         Bit(n'.enable, irq) == Bit(n.enable, irq) && Bit(n'.pending, irq) == Bit(n.pending, irq)
  }

  /** The Secure bank except ICSR and AIRCR, the whole SAU, ITNS and Secure interrupts. */
  ghost predicate SecureKept(r: Regs, r': Regs) {
    && r'.s == r.s.(icsr := r'.s.icsr, aircr := r'.s.aircr)
    && r'.sau == r.sau
    && SecureIrqsKept(r.nvic, r'.nvic)
  }

  lemma MaskUpdateKeeps(m: Masks, itns: Masks, i: nat, w: Bits, irq: nat)
    requires i < MASK_WORDS && irq < MAX_IRQ && !Bit(itns, irq)
    requires forall k :: 0 <= k < 32 && !itns[i][k] ==> w[k] == m[i][k]
    ensures Bit(m[i := w], irq) == Bit(m, irq)
  {
  }

  lemma NvicWriteIsolated(n: Nvic.State, reg: nat, v: Bits)
    requires n.Valid() && IsNvicWord(reg)
    ensures SecureIrqsKept(n, NvicWrite(n, NonSecure, reg, v))
  {
    hide Bit;
    var n' := NvicWrite(n, NonSecure, reg, v);
    forall irq | 0 <= irq < MAX_IRQ && !Bit(n.itns, irq)
      ensures Bit(n'.enable, irq) == Bit(n.enable, irq) && Bit(n'.pending, irq) == Bit(n.pending, irq)
    {
      var i := if reg < 0x110 then (reg - 0x100) / 4 else if reg < 0x190 then (reg - 0x180) / 4
               else if reg < 0x210 then (reg - 0x200) / 4 else if reg < 0x290 then (reg - 0x280) / 4 else 0;
      if reg < 0x190 {
        MaskUpdateKeeps(n.enable, n.itns, i, n'.enable[i], irq);
      } else if reg < 0x290 {
        MaskUpdateKeeps(n.pending, n.itns, i, n'.pending[i], irq);
      }
    }
  }

  /** One write whose effective security is Non-secure, of any width at any offset. */
  lemma NonSecureWriteIsolated(r: Regs, a: Access)
    requires r.Valid() && a.Effective().NonSecure?
    ensures SecureKept(r, Write(r, a).0)
  {
    hide LowWrite, ScbWrite, Written, SecureKept;
    if a.offset < SCB_OFFSET {
      LowWriteIsolated(r, a);
    } else if a.offset < PAGE_SIZE && (Narrow(a) || a.size == 4) {
      ScbWriteIsolated(r, a.window, ScbReg(a), Written(r, a));
    } else {
      KeptRefl(r);
    }
  }

  lemma LowWriteIsolated(r: Regs, a: Access)
    requires r.Valid() && a.offset < SCB_OFFSET && a.Effective().NonSecure?
    ensures SecureKept(r, LowWrite(r, a))
  {
    hide ToBits, Merge, NvicWrite, PriorityWrite, SysTickWrite, SecureIrqsKept, IsNvicWord;
    IrqsKeptRefl(r.nvic);
    var reg := a.offset - a.offset % 4;
    if a.size == 4 && IsNvicWord(reg) {
      NvicWriteIsolated(r.nvic, reg, ToBits(a.value));
    } else if 0x400 <= a.offset < 0x500 {
      PriorityKeepsMasks(r.nvic, a);
    }
  }

  lemma ScbWriteIsolated(r: Regs, window: Security, reg: nat, v: bv32)
    requires r.Valid()
    ensures SecureKept(r, ScbWrite(r, window, NonSecure, reg, v).0)
  {
    hide BankWrite, SauWrite, SharedWrite, SecureIrqsKept, PendWrite;
    IrqsKeptRefl(r.nvic);
  }

  lemma IrqsKeptRefl(n: Nvic.State)
    ensures SecureIrqsKept(n, n)
  {
  }

  lemma PriorityKeepsMasks(n: Nvic.State, a: Access)
    requires n.Valid() && 0x400 <= a.offset < 0x500
    ensures SecureIrqsKept(n, PriorityWrite(n, a))
  {
    hide PriorityWrite;
  }

  ghost function WriteAll(r: Regs, accesses: seq<Access>): (r': Regs)
    requires r.Valid()
    ensures r'.Valid()
    decreases |accesses|
  {
    if accesses == [] then r else WriteAll(Write(r, accesses[0]).0, accesses[1..])
  }

  lemma SecureKeptTrans(a: Regs, b: Regs, c: Regs)
    requires SecureKept(a, b) && SecureKept(b, c)
    ensures SecureKept(a, c)
  {
  }

  /** In every run of Non-secure accesses the Secure state stays as it was. */
  lemma {:induction false} NonSecureRunIsolated(r: Regs, accesses: seq<Access>)
    requires r.Valid()
    requires forall i :: 0 <= i < |accesses| ==> accesses[i].Effective().NonSecure?
    ensures SecureKept(r, WriteAll(r, accesses))
    decreases |accesses|
  {
    hide Write, SecureKept;
    if accesses == [] {
      assert SecureKept(r, r) by { KeptRefl(r); }
    } else {
      var r1 := Write(r, accesses[0]).0;
      NonSecureWriteIsolated(r, accesses[0]);
      NonSecureRunIsolated(r1, accesses[1..]);
      SecureKeptTrans(r, r1, WriteAll(r1, accesses[1..]));
    }
  }

  lemma KeptRefl(r: Regs)
    ensures SecureKept(r, r)
  {
  }

  /** The store reaches the Secure ICSR or AIRCR with another value than it holds. */
  predicate ChangesIcsr(r: Regs, a: Access)
    requires r.Valid()
  {
    Addresses(a, 0x04) && IcsrKept(Written(r, a)) != r.s.icsr
  }

  predicate ChangesAircr(r: Regs, a: Access)
    requires r.Valid()
  {
    Addresses(a, 0x0C) && Keyed(Written(r, a)) && Written(r, a) != r.s.aircr
  }

  /** ICSR and AIRCR bank by window, not by initiator: a store of effective Non-secure security keeps
      the whole Secure bank exactly when it comes through the Non-secure window or changes neither. */
  lemma SecureBankKeptIff(r: Regs, a: Access)
    requires r.Valid() && a.Effective().NonSecure?
    ensures Write(r, a).0.s == r.s <==> a.window.NonSecure? || (!ChangesIcsr(r, a) && !ChangesAircr(r, a))
  {
    hide LowWrite, ScbWrite, Written, Keyed, IcsrKept;
    if a.offset < SCB_OFFSET {
      LowKeepsBanks(r, a);
    } else if a.offset < PAGE_SIZE && (Narrow(a) || a.size == 4) {
      ScbBankKeptIff(r, a.window, ScbReg(a), Written(r, a));
    }
  }

  lemma LowKeepsBanks(r: Regs, a: Access)
    requires r.Valid() && a.offset < SCB_OFFSET
    ensures LowWrite(r, a).s == r.s && LowWrite(r, a).ns == r.ns && LowWrite(r, a).sau == r.sau
    ensures LowWrite(r, a).shared.resetRequested == r.shared.resetRequested
  {
    hide ToBits, NvicWrite, PriorityWrite, Merge, LoadWord;
  }

  lemma ScbBankKeptIff(r: Regs, window: Security, reg: nat, v: bv32)
    requires r.Valid()
    ensures ScbWrite(r, window, NonSecure, reg, v).0.s == r.s
       <==> || window.NonSecure?
            || (!(reg == 0x04 && IcsrKept(v) != r.s.icsr) && !(reg == 0x0C && Keyed(v) && v != r.s.aircr))
  {
    hide BankWrite, SauWrite, SharedWrite, PendWrite, Keyed, IcsrKept, AsksReset;
  }

  /** A Non-secure initiator sets the Secure VECTKEY-protected register through the Secure alias. */
  lemma SecureAircrExample(r: Regs)
    requires r.Valid() && r.s.aircr == 0
    ensures Write(r, Access(NonSecure, Secure, 0xD0C, 4, 0x05FA_0000)).0.s.aircr == 0x05FA_0000
  {
    hide BankWrite, SauWrite, SharedWrite, IcsrWrite, LowWrite;
  }

  // ---------------------------------------------------------------- priorities

  /** The priority byte an access gives interrupt `irq`, if any. */
  function PriorityByte(a: Access, irq: nat): Option<u8> {
    var at := 0x400 + irq;
    if a.size == 1 && a.offset == at then Some(Byte(a.value, 0))
    else if a.size == 4 && a.offset % 4 == 0 && a.offset <= at < a.offset + 4 then Some(Byte(a.value, at - a.offset))
    else None
  }

  /** Priorities are not protected: whoever writes, an interrupt's priority is kept exactly when no byte
      or aligned word store covers it, or the byte stored is the old one. */
  lemma PriorityKeptIff(r: Regs, a: Access, irq: nat)
    requires r.Valid() && irq < MAX_IRQ
    ensures Write(r, a).0.nvic.priority[irq] == r.nvic.priority[irq]
       <==> PriorityByte(a, irq) == None || PriorityByte(a, irq) == Some(r.nvic.priority[irq])
  {
    hide Write, PriorityByte;
    PriorityAfter(r, a, irq);
  }

  lemma PriorityAfter(r: Regs, a: Access, irq: nat)
    requires r.Valid() && irq < MAX_IRQ
    ensures Write(r, a).0.nvic.priority[irq] ==
            if PriorityByte(a, irq).Some? then PriorityByte(a, irq).value else r.nvic.priority[irq]
  {
    hide LowWrite, ScbWrite, Written, Byte;
    if a.offset < SCB_OFFSET {
      LowPriority(r, a, irq);
    } else if a.offset < PAGE_SIZE && (Narrow(a) || a.size == 4) {
      ScbKeepsNvic(r, a.window, a.Effective(), ScbReg(a), Written(r, a));
    }
  }

  lemma ScbKeepsNvic(r: Regs, window: Security, eff: Security, reg: nat, v: bv32)
    requires r.Valid()
    ensures ScbWrite(r, window, eff, reg, v).0.nvic == r.nvic
  {
    hide BankWrite, SauWrite, SharedWrite, PendWrite, Keyed;
  }

  lemma LowPriority(r: Regs, a: Access, irq: nat)
    requires r.Valid() && irq < MAX_IRQ && a.offset < SCB_OFFSET
    ensures LowWrite(r, a).nvic.priority[irq] ==
            if PriorityByte(a, irq).Some? then PriorityByte(a, irq).value else r.nvic.priority[irq]
  {
    hide Byte, ToBits, SysTickWrite, PriorityByte, NvicWrite, PriorityWrite, IsNvicWord;
    LowDispatch(r, a);
    if 0x400 <= a.offset < 0x500 {
      IprPriority(r.nvic, a, irq);
    } else {
      NoPriorityByte(a, irq);
      var reg := a.offset - a.offset % 4;
      if a.size == 4 && IsNvicWord(reg) {
        MasksKeepPriority(r.nvic, a.Effective(), reg, ToBits(a.value));
      }
    }
  }

  lemma LowDispatch(r: Regs, a: Access)
    requires r.Valid() && a.offset < SCB_OFFSET
    ensures 0x400 <= a.offset < 0x500 ==> LowWrite(r, a).nvic == PriorityWrite(r.nvic, a)
  {
    hide ToBits, SysTickWrite, PriorityWrite, NvicWrite;
  }

  lemma NoPriorityByte(a: Access, irq: nat)
    requires irq < MAX_IRQ && !(0x400 <= a.offset < 0x500)
    ensures PriorityByte(a, irq) == None
  {
    hide Byte;
  }

  lemma IprPriority(n: Nvic.State, a: Access, irq: nat)
    requires n.Valid() && irq < MAX_IRQ && 0x400 <= a.offset < 0x500
    ensures PriorityWrite(n, a).priority[irq] ==
            if PriorityByte(a, irq).Some? then PriorityByte(a, irq).value else n.priority[irq]
  {
    hide Byte;
    assert (a.offset - 0x400) % 4 == a.offset % 4;
  }

  lemma MasksKeepPriority(n: Nvic.State, eff: Security, reg: nat, v: Bits)
    requires n.Valid() && IsNvicWord(reg)
    ensures NvicWrite(n, eff, reg, v).priority == n.priority
  {
    hide Reach, Or, AndNot;
  }

  /** The last priority byte a run gives interrupt `irq`. */
  function LastPriority(accesses: seq<Access>, irq: nat): Option<u8>
    decreases |accesses|
  {
    if accesses == [] then None
    else if LastPriority(accesses[1..], irq).Some? then LastPriority(accesses[1..], irq)
    else PriorityByte(accesses[0], irq)
  }

  /** After any run, by any mixture of initiators, each interrupt has the last priority stored for it,
      so its priority survives exactly when that is none or the old one. */
  lemma {:induction false} PriorityAfterRun(r: Regs, accesses: seq<Access>, irq: nat)
    requires r.Valid() && irq < MAX_IRQ
    ensures var last := LastPriority(accesses, irq);
            && WriteAll(r, accesses).nvic.priority[irq] == (if last.Some? then last.value else r.nvic.priority[irq])
            && (WriteAll(r, accesses).nvic.priority[irq] == r.nvic.priority[irq] <==>
                  last == None || last == Some(r.nvic.priority[irq]))
    decreases |accesses|
  {
    hide Write, PriorityByte;
    if accesses != [] {
      PriorityAfter(r, accesses[0], irq);
      PriorityAfterRun(Write(r, accesses[0]).0, accesses[1..], irq);
    }
  }

  /** A Non-secure byte store changes the priority of a Secure interrupt. */
  lemma PriorityExample(r: Regs)
    requires r.Valid() && r.nvic.priority[0] == 0 && !Bit(r.nvic.itns, 0)
    ensures Write(r, Access(NonSecure, NonSecure, 0x400, 1, 0x80)).0.nvic.priority[0] == 0x80
  {
    hide Write;
    PriorityAfter(r, Access(NonSecure, NonSecure, 0x400, 1, 0x80), 0);
  }

  // ---------------------------------------------------------------- reset requests

  /** What a store to AIRCR means: it needs the key in the word it writes, then is kept in the bank of
      its window, may add a reset request, and changes nothing else. */
  lemma AircrStores(r: Regs, a: Access)
    requires r.Valid() && Addresses(a, 0x0C)
    ensures var v := Written(r, a);
            var o := Write(r, a);
            && (o.1 <==> Keyed(v))
            && (!o.1 ==> o.0 == r)
            && (o.1 ==> o.0.BankOf(a.window).aircr == v)
            && (o.1 ==> (o.0.shared.resetRequested <==> r.shared.resetRequested || AsksReset(v)))
            && SameButAircr(r, o.0, a.window)
  {
    hide Written, Keyed, AsksReset, AircrWrite, BankWrite, SauWrite, SharedWrite, IcsrWrite, LowWrite, SameButAircr;
    AircrWriteEffect(r, a.window, Written(r, a));
  }

  /** The registers agree but for one AIRCR and the reset request. */
  ghost predicate SameButAircr(r: Regs, r': Regs, window: Security) {
    && r'.shared == r.shared.(resetRequested := r'.shared.resetRequested)
    && r'.nvic == r.nvic && r'.sau == r.sau
    && r'.BankOf(window) == r.BankOf(window).(aircr := r'.BankOf(window).aircr)
    && r'.BankOf(Other(window)) == r.BankOf(Other(window))
  }

  function Other(sec: Security): Security { if sec.NonSecure? then Secure else NonSecure }

  lemma AircrWriteEffect(r: Regs, window: Security, v: bv32)
    requires r.Valid()
    ensures var o := AircrWrite(r, window, v);
            && (o.1 <==> Keyed(v))
            && (!o.1 ==> o.0 == r)
            && (o.1 ==> o.0.BankOf(window).aircr == v)
            && (o.1 ==> (o.0.shared.resetRequested <==> r.shared.resetRequested || AsksReset(v)))
            && SameButAircr(r, o.0, window)
  {
    hide Keyed, AsksReset;
  }

  /** A narrow store to the low half does not supply the key: it is accepted exactly when the bank it
      merges from still shows the key of an earlier store. */
  lemma NarrowAircrIff(r: Regs, a: Access)
    requires r.Valid() && Addresses(a, 0x0C) && Narrow(a) && a.offset % 4 + a.size <= 2
    ensures Write(r, a).1 <==> Keyed(r.BankOf(a.Effective()).aircr)
  {
    hide Written, Keyed, BankRead, SauRead, ScbWrite, LowWrite, Merge;
    AircrStores(r, a);
    var cur := r.BankOf(a.Effective()).aircr;
    WrittenNarrow(r, a);
    LowHalfKeepsKey(cur, a.offset % 4, a.size, a.value);
  }

  lemma WrittenNarrow(r: Regs, a: Access)
    requires r.Valid() && Addresses(a, 0x0C) && Narrow(a)
    ensures Written(r, a) == Merge(r.BankOf(a.Effective()).aircr, a.offset % 4, a.size, a.value)
  {
    hide Merge, BankRead, SauRead;
  }

  lemma LowHalfKeepsKey(cur: bv32, lane: nat, size: nat, value: bv32)
    requires (size == 1 || size == 2) && lane + size <= 2
    ensures Keyed(Merge(cur, lane, size, value)) <==> Keyed(cur)
  {
  }

  /** A byte store of 4 resets a machine whose AIRCR was written before. */
  lemma NarrowAircrExample(r: Regs)
    requires r.Valid() && r.s.aircr == 0x05FA_0000
    ensures Write(r, Access(Secure, Secure, 0xD0C, 1, 4)).0.shared.resetRequested
  {
    var a := Access(Secure, Secure, 0xD0C, 1, 4);
    assert Addresses(a, 0x0C);
    hide Write, Written;
    AircrStores(r, a);
    WrittenNarrow(r, a);
    assert Merge(0x05FA_0000, 0, 1, 4) == 0x05FA_0004;
  }

  /** The store is a keyed AIRCR write with SYSRESETREQ. */
  predicate RequestsReset(r: Regs, a: Access)
    requires r.Valid()
  {
    Addresses(a, 0x0C) && Keyed(Written(r, a)) && AsksReset(Written(r, a))
  }

  lemma ResetStep(r: Regs, a: Access)
    requires r.Valid()
    ensures Write(r, a).0.shared.resetRequested <==> r.shared.resetRequested || RequestsReset(r, a)
  {
    hide LowWrite, ScbWrite, Written, Keyed, AsksReset;
    if a.offset < SCB_OFFSET {
      LowKeepsBanks(r, a);
    } else if Addresses(a, 0x0C) {
      AircrStores(r, a);
    } else if a.offset < PAGE_SIZE && (Narrow(a) || a.size == 4) {
      ScbKeepsRequest(r, a.window, a.Effective(), ScbReg(a), Written(r, a));
    }
  }

  lemma ScbKeepsRequest(r: Regs, window: Security, eff: Security, reg: nat, v: bv32)
    requires r.Valid() && reg != 0x0C
    ensures ScbWrite(r, window, eff, reg, v).0.shared.resetRequested == r.shared.resetRequested
  {
    hide BankWrite, SauWrite, AircrWrite, IcsrWrite, Without;
    IcsrKeepsRequest(r, window, v);
  }

  lemma IcsrKeepsRequest(r: Regs, window: Security, v: bv32)
    requires r.Valid()
    ensures IcsrWrite(r, window, v).shared.resetRequested == r.shared.resetRequested
  {
    hide IcsrKept;
  }

  /** Store `i` of the run is such a write in the state it meets. */
  ghost predicate RequestedAt(r: Regs, accesses: seq<Access>, i: nat)
    requires r.Valid()
  {
    i < |accesses| && RequestsReset(WriteAll(r, accesses[..i]), accesses[i])
  }

  lemma RequestedShift(r: Regs, accesses: seq<Access>, i: nat)
    requires r.Valid() && accesses != []
    ensures RequestedAt(r, accesses, 0) <==> RequestsReset(r, accesses[0])
    ensures RequestedAt(r, accesses, i + 1) <==> RequestedAt(Write(r, accesses[0]).0, accesses[1..], i)
  {
    hide Write, RequestsReset;
    assert accesses[..0] == [];
    if i + 1 < |accesses| {
      assert accesses[..i + 1][1..] == accesses[1..][..i];
    }
  }

  /** In every run a reset has been requested exactly when some store of the run was a keyed one with
      SYSRESETREQ, or it had been before. */
  lemma {:induction false} ResetRequestedIff(r: Regs, accesses: seq<Access>)
    requires r.Valid()
    ensures WriteAll(r, accesses).shared.resetRequested <==>
            r.shared.resetRequested || exists i: nat :: RequestedAt(r, accesses, i)
    decreases |accesses|
  {
    hide Write, RequestsReset, RequestedAt;
    if accesses == [] {
      assert forall i: nat :: !RequestedAt(r, accesses, i) by { NothingRequested(r); }
    } else {
      var r1, rest := Write(r, accesses[0]).0, accesses[1..];
      ResetStep(r, accesses[0]);
      ResetRequestedIff(r1, rest);
      RequestedShift(r, accesses, 0);
      if i: nat :| RequestedAt(r1, rest, i) {
        RequestedShift(r, accesses, i);
        assert RequestedAt(r, accesses, i + 1);
      }
      if j: nat :| RequestedAt(r, accesses, j) {
        if j > 0 {
          RequestedShift(r, accesses, j - 1);
        }
      }
    }
  }

  lemma NothingRequested(r: Regs)
    requires r.Valid()
    ensures forall i: nat :: !RequestedAt(r, [], i)
  {
  }

  // ---------------------------------------------------------------- what a write stores

  /** A word written to a banked register is read back by the same security state, and the other
      state's bank, the SAU, the NVIC and the unbanked registers do not change. */
  lemma BankedWriteReadsBack(r: Regs, a: Access)
    requires r.Valid() && a.size == 4 && a.offset % 4 == 0 && SCB_OFFSET <= a.offset < PAGE_SIZE
    requires IsBanked(a.offset - SCB_OFFSET)
    ensures var reg := a.offset - SCB_OFFSET;
            var eff := a.Effective();
            var o := Write(r, a);
            && o.1
            && ScbRead(o.0, a.window, eff, reg) == Kept(BankedAt(reg).value, a.value)
            && o.0 == WithBank(r, eff, o.0.BankOf(eff))
  {
    hide BankRead, BankWrite, ToBits, Merge, IcsrWrite, AircrWrite, SharedWrite, SauWrite, LowWrite, Kept;
    BankReadWrite(r.BankOf(a.Effective()), BankedAt(a.offset - SCB_OFFSET).value, a.value);
  }

  lemma BankReadWrite(b: Bank, k: BankReg, v: bv32)
    requires b.Valid()
    ensures BankRead(BankWrite(b, k, v), k) == Kept(k, v)
  {
    hide Index;
  }

  /** Writing one banked register leaves every other one alone, except that MPU_RNR decides
      which region RBAR and RLAR show. */
  lemma BankReadOther(b: Bank, k: BankReg, v: bv32, other: BankReg)
    requires b.Valid() && other != k
    requires k == MpuRnr ==> other != MpuRbar && other != MpuRlar
    ensures BankRead(BankWrite(b, k, v), other) == BankRead(b, other)
  {
    hide Index, Kept;
  }

  /** The bit of `irq` in a written mask word `i`, as far as the writer may touch it. */
  predicate Selected(n: Nvic.State, eff: Security, i: nat, v: Bits, irq: nat)
    requires irq < MAX_IRQ
  {
    irq / 32 == i && v[irq % 32] && (eff.Secure? || Bit(n.itns, irq))
  }

  lemma ReachBit(n: Nvic.State, eff: Security, i: nat, v: Bits, irq: nat)
    requires i < MASK_WORDS && irq < MAX_IRQ && irq / 32 == i
    ensures Reach(n, eff, i, v)[irq % 32] <==> Selected(n, eff, i, v, irq)
  {
  }

  /** Set-enable and set-pending raise exactly the selected bits, clear-enable and clear-pending
      drop exactly those, and neither touches the other mask. */
  lemma MaskWrites(n: Nvic.State, eff: Security, i: nat, v: Bits, irq: nat)
    requires n.Valid() && i < MASK_WORDS && irq < MAX_IRQ
    ensures var n' := NvicWrite(n, eff, 0x100 + 4 * i, v);
            n' == n.(enable := n'.enable) && (Bit(n'.enable, irq) <==> Bit(n.enable, irq) || Selected(n, eff, i, v, irq))
    ensures var n' := NvicWrite(n, eff, 0x180 + 4 * i, v);
            n' == n.(enable := n'.enable) && (Bit(n'.enable, irq) <==> Bit(n.enable, irq) && !Selected(n, eff, i, v, irq))
    ensures var n' := NvicWrite(n, eff, 0x200 + 4 * i, v);
            n' == n.(pending := n'.pending) && (Bit(n'.pending, irq) <==> Bit(n.pending, irq) || Selected(n, eff, i, v, irq))
    ensures var n' := NvicWrite(n, eff, 0x280 + 4 * i, v);
            n' == n.(pending := n'.pending) && (Bit(n'.pending, irq) <==> Bit(n.pending, irq) && !Selected(n, eff, i, v, irq))
    ensures var n' := NvicWrite(n, eff, 0x380 + 4 * i, v);
            && n' == n.(itns := n'.itns)
            && (Bit(n'.itns, irq) <==> if eff.Secure? && irq / 32 == i then v[irq % 32] else Bit(n.itns, irq))
  {
    if irq / 32 == i { ReachBit(n, eff, i, v, irq); }
    hide Reach;
  }

  // ---------------------------------------------------------------- what a store means, written out

  /** An access is Non-secure if its window or its initiator is. */
  lemma EffectiveMeans(a: Access)
    ensures a.Effective() == NonSecure <==> a.window == NonSecure || a.initiator == NonSecure
  {
  }

  predicate BitSet(v: bv32, i: nat)
    requires i < 32
  {
    (v >> i) & 1 == 1
  }

  lemma BitsAre(v: bv32, i: nat)
    requires i < 32
    ensures ToBits(v)[i] == BitSet(v, i)
  {
    assert BitOf(v, i) == BitSet(v, i);
    hide BitOf, BitSet;
  }

  /** The store has interrupt `irq`'s bit set and lies in the registers that start at `base`. */
  predicate Names(a: Access, base: nat, irq: nat)
    requires irq < 128
  {
    base <= a.offset < base + 16 && (a.offset - base) / 4 == irq / 32 && BitSet(a.value, irq % 32)
  }

  /** A Non-secure store may name only the interrupts handed to the Non-secure state. */
  predicate MayTouch(r: Regs, a: Access, irq: nat)
    requires irq < 128
  {
    (a.window != NonSecure && a.initiator != NonSecure) || r.nvic.itns[irq / 32][irq % 32]
  }

  /** Word stores to ISER and ICER (offsets 0x100 and 0x180): the enable bit of every interrupt afterwards. */
  lemma EnableStores(r: Regs, a: Access, irq: nat)
    requires r.Valid() && a.size == 4 && irq < 128
    ensures 0x100 <= a.offset < 0x110 ==>
              (Write(r, a).0.nvic.enable[irq / 32][irq % 32] <==>
                 r.nvic.enable[irq / 32][irq % 32] || (Names(a, 0x100, irq) && MayTouch(r, a, irq)))
    ensures 0x180 <= a.offset < 0x190 ==>
              (Write(r, a).0.nvic.enable[irq / 32][irq % 32] <==>
                 r.nvic.enable[irq / 32][irq % 32] && !(Names(a, 0x180, irq) && MayTouch(r, a, irq)))
  {
    hide NvicWrite, BitOf, Selected, Reach;
    if 0x100 <= a.offset < 0x110 {
      WordDispatch(r, a);
      SelectedMeans(r, a, 0x100, irq);
      MaskWrites(r.nvic, a.Effective(), (a.offset - 0x100) / 4, ToBits(a.value), irq);
    } else if 0x180 <= a.offset < 0x190 {
      WordDispatch(r, a);
      SelectedMeans(r, a, 0x180, irq);
      MaskWrites(r.nvic, a.Effective(), (a.offset - 0x180) / 4, ToBits(a.value), irq);
    }
  }

  /** To ISPR and ICPR (0x200 and 0x280): the pending bits. */
  lemma PendingStores(r: Regs, a: Access, irq: nat)
    requires r.Valid() && a.size == 4 && irq < 128
    ensures 0x200 <= a.offset < 0x210 ==>
              (Write(r, a).0.nvic.pending[irq / 32][irq % 32] <==>
                 r.nvic.pending[irq / 32][irq % 32] || (Names(a, 0x200, irq) && MayTouch(r, a, irq)))
    ensures 0x280 <= a.offset < 0x290 ==>
              (Write(r, a).0.nvic.pending[irq / 32][irq % 32] <==>
                 r.nvic.pending[irq / 32][irq % 32] && !(Names(a, 0x280, irq) && MayTouch(r, a, irq)))
  {
    hide NvicWrite, BitOf, Selected, Reach;
    if 0x200 <= a.offset < 0x210 {
      WordDispatch(r, a);
      SelectedMeans(r, a, 0x200, irq);
      MaskWrites(r.nvic, a.Effective(), (a.offset - 0x200) / 4, ToBits(a.value), irq);
    } else if 0x280 <= a.offset < 0x290 {
      WordDispatch(r, a);
      SelectedMeans(r, a, 0x280, irq);
      MaskWrites(r.nvic, a.Effective(), (a.offset - 0x280) / 4, ToBits(a.value), irq);
    }
  }

  /** To ITNS (0x380): a Secure store replaces one mask word, any other store does nothing. */
  lemma TargetStores(r: Regs, a: Access, irq: nat)
    requires r.Valid() && a.size == 4 && irq < 128 && 0x380 <= a.offset < 0x390
    ensures Write(r, a).0.nvic.itns[irq / 32][irq % 32] <==>
              if a.window != NonSecure && a.initiator != NonSecure && (a.offset - 0x380) / 4 == irq / 32
              then BitSet(a.value, irq % 32) else r.nvic.itns[irq / 32][irq % 32]
  {
    hide NvicWrite, Selected, Reach, BitSet, BitOf, ToBits;
    BitsAre(a.value, irq % 32);
    WordDispatch(r, a);
    MaskWrites(r.nvic, a.Effective(), (a.offset - 0x380) / 4, ToBits(a.value), irq);
  }

  /** A word store changes only the mask its register stands for. */
  lemma MasksApart(r: Regs, a: Access)
    requires r.Valid() && a.size == 4 && a.offset < 0x400
    ensures var n := Write(r, a).0.nvic;
            && (n.enable == r.nvic.enable || 0x100 <= a.offset < 0x110 || 0x180 <= a.offset < 0x190)
            && (n.pending == r.nvic.pending || 0x200 <= a.offset < 0x210 || 0x280 <= a.offset < 0x290)
            && (n.itns == r.nvic.itns || 0x380 <= a.offset < 0x390)
            && n.active == r.nvic.active && n.priority == r.nvic.priority
  {
    hide ToBits, SysTickWrite, Reach, Or, AndNot, ScbWrite, Written;
  }

  lemma WordDispatch(r: Regs, a: Access)
    requires r.Valid() && a.size == 4 && IsNvicWord(a.offset)
    ensures IsNvicWord(a.offset - a.offset % 4)
    ensures Write(r, a).0.nvic == NvicWrite(r.nvic, a.Effective(), a.offset - a.offset % 4, ToBits(a.value))
  {
    hide NvicWrite, ToBits, ScbWrite, Written;
  }

  lemma SelectedMeans(r: Regs, a: Access, base: nat, irq: nat)
    requires irq < 128 && base <= a.offset < base + 16
    ensures Selected(r.nvic, a.Effective(), (a.offset - base) / 4, ToBits(a.value), irq) <==>
            Names(a, base, irq) && MayTouch(r, a, irq)
  {
    BitsAre(a.value, irq % 32);
    hide BitSet, BitOf, ToBits;
  }

  /** Secure word store of 1 to ISER0: interrupt 0 is enabled, 1 is as before. */
  lemma EnableExample(r: Regs)
    requires r.Valid()
    ensures var n := Write(r, Access(Secure, Secure, 0x100, 4, 1)).0.nvic;
            n.enable[0][0] && n.enable[0][1] == r.nvic.enable[0][1]
  {
    hide Write;
    EnableStores(r, Access(Secure, Secure, 0x100, 4, 1), 0);
    EnableStores(r, Access(Secure, Secure, 0x100, 4, 1), 1);
  }

  /** ICSR: bit 28 sets PendSV and bit 27 clears it, bits 26 and 25 do so for SysTick; clearing wins. */
  lemma PendStores(r: Regs, a: Access)
    requires r.Valid() && a.size == 4 && 0xD04 <= a.offset < 0xD08
    ensures var h := Write(r, a).0.shared;
            && (h.pendSv <==> (r.shared.pendSv || a.value & 0x1000_0000 != 0) && a.value & 0x0800_0000 == 0)
            && (h.pendSt <==> (r.shared.pendSt || a.value & 0x0400_0000 != 0) && a.value & 0x0200_0000 == 0)
            && h == r.shared.(pendSv := h.pendSv, pendSt := h.pendSt)
  {
    assert ScbReg(a) == 0x04;
    hide ScbRead, LowWrite, AircrWrite, BankWrite, SauWrite, SharedWrite, IcsrKept;
  }

  /** It also keeps the word without bits 25 and 26 in the bank of the window, not of the initiator. */
  lemma IcsrStored(r: Regs, a: Access)
    requires r.Valid() && a.size == 4 && 0xD04 <= a.offset < 0xD08
    ensures var r' := Write(r, a).0;
            if a.window == NonSecure then r'.ns == r.ns.(icsr := Without(a.value, 0x0600_0000)) && r'.s == r.s
            else r'.s == r.s.(icsr := Without(a.value, 0x0600_0000)) && r'.ns == r.ns
  {
    assert ScbReg(a) == 0x04;
    hide ScbRead, LowWrite, AircrWrite, BankWrite, SauWrite, SharedWrite, PendWrite, Without;
  }

  /** The offset of each banked register. */
  lemma BankedOffsets(r: Regs, a: Access)
    requires r.Valid() && a.size == 4 && a.offset % 4 == 0 && 0xD00 <= a.offset < 0x1000
    ensures var b := Write(r, a).0.BankOf(a.Effective());
            && (a.offset == 0xD08 ==> b.plain[Vtor] == a.value) && (a.offset == 0xD10 ==> b.plain[Scr] == a.value)
            && (a.offset == 0xD18 ==> b.plain[Shpr1] == a.value) && (a.offset == 0xD1C ==> b.plain[Shpr2] == a.value)
            && (a.offset == 0xD20 ==> b.plain[Shpr3] == a.value) && (a.offset == 0xD24 ==> b.plain[Shcsr] == a.value)
            && (a.offset == 0xD94 ==> b.plain[MpuCtrl] == a.value) && (a.offset == 0xD98 ==> b.plain[MpuRnr] == Both(a.value, 7))
            && (a.offset == 0xDC0 ==> b.plain[Mair0] == a.value) && (a.offset == 0xDC4 ==> b.plain[Mair1] == a.value)
  {
    hide Write, BankWrite, Both;
    if IsBanked(a.offset - SCB_OFFSET) {
      BankedStore(r, a);
      BankWriteKeeps(r.BankOf(a.Effective()), BankedAt(a.offset - SCB_OFFSET).value, a.value);
    }
  }

  /** A narrow store to a banked register merges into what that register holds. */
  lemma NarrowBankedStore(r: Regs, a: Access)
    requires r.Valid() && Narrow(a) && 0xD00 <= a.offset < 0x1000 && IsBanked(ScbReg(a))
    ensures var b := r.BankOf(a.Effective());
            var k := BankedAt(ScbReg(a)).value;
            Write(r, a).0.BankOf(a.Effective()) == BankWrite(b, k, Merge(BankRead(b, k), a.offset % 4, a.size, a.value))
  {
    hide Merge, BankRead, BankWrite, LowWrite, IcsrWrite, AircrWrite, SauWrite, SharedWrite, SauRead, IcsrWord;
  }

  lemma BankWriteKeeps(b: Bank, k: BankReg, v: bv32)
    requires b.Valid()
    ensures k != MpuRbar && k != MpuRlar ==> BankWrite(b, k, v).plain[k] == if k == MpuRnr then Both(v, 7) else v
  {
    hide Index;
  }

  lemma BankedStore(r: Regs, a: Access)
    requires r.Valid() && a.size == 4 && a.offset % 4 == 0 && 0xD00 <= a.offset < 0x1000 && IsBanked(a.offset - SCB_OFFSET)
    ensures Write(r, a).0.BankOf(a.Effective()) ==
            BankWrite(r.BankOf(a.Effective()), BankedAt(a.offset - SCB_OFFSET).value, a.value)
  {
    hide BankWrite, LowWrite, IcsrWrite, AircrWrite, SauWrite, SharedWrite;
  }

  /** MPU_RBAR and MPU_RLAR write the region that MPU_RNR selects. */
  lemma RegionStores(r: Regs, a: Access, k: nat)
    requires r.Valid() && a.size == 4 && k < 8 && r.BankOf(a.Effective()).plain[MpuRnr] & 7 == Small(k)
    ensures a.offset == 0xD9C ==> Write(r, a).0.BankOf(a.Effective()).mpuRbar == r.BankOf(a.Effective()).mpuRbar[k := a.value]
    ensures a.offset == 0xDA0 ==> Write(r, a).0.BankOf(a.Effective()).mpuRlar == r.BankOf(a.Effective()).mpuRlar[k := a.value]
  {
    IndexSmall(r.BankOf(a.Effective()).plain[MpuRnr], k);
    hide Index, Small;
    if a.offset == 0xD9C || a.offset == 0xDA0 { BankedStore(r, a); }
    hide Write;
  }

  function Small(k: nat): bv32
    requires k < 8
  {
    if k == 0 then 0 else Small(k - 1) + 1
  }

  lemma IndexSmall(x: bv32, k: nat)
    requires k < 8 && x & 7 == Small(k)
    ensures Index(x) == k
  {
    assert Small(0) == 0 && Small(1) == 1 && Small(2) == 2 && Small(3) == 3;
    assert Small(4) == 4 && Small(5) == 5 && Small(6) == 6 && Small(7) == 7;
  }

  /** The offset of each register both states share. */
  lemma SharedOffsets(r: Regs, a: Access)
    requires r.Valid() && a.size == 4 && a.offset % 4 == 0 && 0xD00 <= a.offset < 0x1000
    ensures var p := Write(r, a).0.shared.plain;
            && (a.offset == 0xD14 ==> p[Ccr] == a.value) && (a.offset == 0xD28 ==> p[Cfsr] == Without(r.shared.plain[Cfsr], a.value))
            && (a.offset == 0xD2C ==> p[Hfsr] == a.value) && (a.offset == 0xD30 ==> p[Dfsr] == a.value)
            && (a.offset == 0xD34 ==> p[Mmfar] == a.value) && (a.offset == 0xD38 ==> p[Bfar] == a.value)
            && (a.offset == 0xD3C ==> p[Afsr] == a.value)
  {
    if IsShared(a.offset - SCB_OFFSET) {
      SharedStore(r, a);
    }
    hide Write;
  }

  lemma SharedStore(r: Regs, a: Access)
    requires r.Valid() && a.size == 4 && a.offset % 4 == 0 && 0xD00 <= a.offset < 0x1000 && IsShared(a.offset - SCB_OFFSET)
    ensures Write(r, a).0.shared == SharedWrite(r.shared, SharedAt(a.offset - SCB_OFFSET).value, a.value)
  {
    hide BankWrite, LowWrite, IcsrWrite, AircrWrite, SauWrite, SharedWrite;
  }

  /** SysTick: CTRL keeps three bits, LOAD 24, and any VAL store clears the count and COUNTFLAG. */
  lemma SysTickStores(r: Regs, a: Access)
    requires r.Valid() && a.size == 4
    ensures var t := Write(r, a).0.shared.systick;
            && (0x10 <= a.offset < 0x14 ==> t == r.shared.systick.(ctrl := Both(a.value, 7)))
            && (0x14 <= a.offset < 0x18 ==> t == r.shared.systick.(load := Both(a.value, 0xFF_FFFF)))
            && (0x18 <= a.offset < 0x1C ==> t == r.shared.systick.(value := 0, countFlag := false))
  {
    hide ToBits, NvicWrite, PriorityWrite, ScbWrite, Written, Merge;
  }

  /** Secure stores to the SAU, before the legacy layout has been inferred, as the new layout has them. */
  lemma SauControlStores(u: Sau, v: bv32)
    requires u.Valid()
    ensures SauWrite(u, 0xD0, v) == u.(ctrl := v) && SauWrite(u, 0xD4, v) == u.(rnr := Both(v, 7))
  {
  }

  lemma SauRegionStores(u: Sau, v: bv32, k: nat)
    requires u.Valid() && k < 8 && u.rnr & 7 == Small(k)
    ensures v & !7 != 0 ==> SauWrite(u, 0xD8, v) == u.(rbar := u.rbar[k := v])
    ensures v & 0x1F != 0 ==> SauWrite(u, 0xDC, v) == u.(rlar := u.rlar[k := v])
  {
    IndexSmall(u.rnr, k);
    hide Index, Small;
  }

  lemma SauStatusStores(u: Sau, v: bv32)
    requires u.Valid()
    ensures v <= 0xFF ==> SauWrite(u, 0xE0, v) == u.(sfsr := v)
    ensures v > 0xFF ==> SauWrite(u, 0xE4, v) == u.(sfar := v)
  {
    hide Index;
  }

  /** Where narrow stores put their bytes. */
  lemma ByteLanes(v: bv32, cur: bv32)
    ensures Merge(cur, 0, 1, v) == Either(Without(cur, 0x0000_00FF), Both(v, 0x0000_00FF))
    ensures Merge(cur, 1, 1, v) == Either(Without(cur, 0x0000_FF00), Both(v << 8, 0x0000_FF00))
    ensures Merge(cur, 2, 1, v) == Either(Without(cur, 0x00FF_0000), Both(v << 16, 0x00FF_0000))
    ensures Merge(cur, 3, 1, v) == Either(Without(cur, 0xFF00_0000), Both(v << 24, 0xFF00_0000))
    ensures Merge(cur, 0, 2, v) == Either(Without(cur, 0x0000_FFFF), Both(v, 0x0000_FFFF))
    ensures Merge(cur, 2, 2, v) == Either(Without(cur, 0xFFFF_0000), Both(v << 16, 0xFFFF_0000))
  {
    LaneMasks();
    MovedBy(v);
    hide LaneMask, Moved, Either, Both, Without;
  }

  lemma LaneMasks()
    ensures LaneMask(0, 1) == 0x0000_00FF && LaneMask(1, 1) == 0x0000_FF00
    ensures LaneMask(2, 1) == 0x00FF_0000 && LaneMask(3, 1) == 0xFF00_0000
    ensures LaneMask(0, 2) == 0x0000_FFFF && LaneMask(2, 2) == 0xFFFF_0000
  {
  }

  lemma MovedBy(v: bv32)
    ensures Moved(v, 0) == v && Moved(v, 1) == v << 8 && Moved(v, 2) == v << 16 && Moved(v, 3) == v << 24
  {
  }

  lemma ByteExamples()
    ensures Byte(0x4433_2211, 0) == 0x11 && Byte(0x4433_2211, 1) == 0x22
    ensures Byte(0x4433_2211, 2) == 0x33 && Byte(0x4433_2211, 3) == 0x44
  {
  }

  /** Beyond the page nothing is accepted; within it every store but an unkeyed AIRCR or odd width is. */
  lemma AcceptedIff(r: Regs, a: Access)
    requires r.Valid()
    ensures a.offset >= 0x1000 ==> Write(r, a) == (r, false)
    ensures a.offset < 0x1000 ==>
              (Write(r, a).1 <==>
                 || a.offset < 0xD00
                 || ((a.size == 1 || a.size == 2 || a.size == 4) && !(0xD0C <= a.offset < 0xD10 && !Keyed(Written(r, a)))))
  {
    hide LowWrite, IcsrWrite, BankWrite, SauWrite, SharedWrite, Written, Keyed;
  }

  /** What ICSR reads as once PendSV has perhaps been taken after a write ... */
  lemma IcsrReadAfterWrite(r: Regs, window: Security, eff: Security, v: bv32, taken: bool)
    requires r.Valid()
    ensures var r1 := IcsrWrite(r, window, v);
            var r2 := if taken then r1.(shared := r1.shared.(pendSv := false)) else r1;
            ScbRead(r2, window, eff, 0x04) == IcsrWord(IcsrKept(v), r2.shared.pendSv, r2.shared.pendSt)
  {
    hide IcsrWord, PendWrite, BankRead, SauRead, Index;
  }

  /** ... so the SysTick pending bit reads as it is, but the PendSV bit reads as set whenever it was
      written as one, even once PendSV has been taken. */
  lemma IcsrBits(v: bv32, sv: bool, st: bool)
    ensures var x := IcsrWord(IcsrKept(v), sv, st);
            && (x & 0x0400_0000 != 0 <==> st)
            && ((x & 0x1000_0000 != 0 <==> sv) <==> sv || v & 0x1000_0000 == 0)
  {
  }

  /** PENDSVSET written, PendSV taken: ICSR still shows it pending. */
  lemma IcsrExample(r: Regs)
    requires r.Valid()
    ensures var r1 := IcsrWrite(r, Secure, 0x1000_0000);
            ScbRead(r1.(shared := r1.shared.(pendSv := false)), Secure, Secure, 0x04) & 0x1000_0000 != 0
  {
    hide IcsrWrite, ScbRead, IcsrWord, IcsrKept;
    IcsrReadAfterWrite(r, Secure, Secure, 0x1000_0000, true);
    IcsrBits(0x1000_0000, false, IcsrWrite(r, Secure, 0x1000_0000).shared.pendSt);
  }

  /** A narrow LOAD store does not merge, it zeroes the rest: it leaves what a merging store would
      exactly when the old LOAD had nothing outside the addressed bytes, and nothing is there after. */
  lemma NarrowLoadIff(r: Regs, a: Access, lane: nat)
    requires r.Valid() && Narrow(a) && lane < 4 && a.offset == 0x14 + lane
    ensures Write(r, a).0.shared.systick.load == Low24(Merge(r.shared.systick.load, lane, a.size, a.value))
       <==> Low24(Without(r.shared.systick.load, LaneMask(lane, a.size))) == 0
    ensures Without(Write(r, a).0.shared.systick.load, LaneMask(lane, a.size)) == 0
  {
    hide Merge, LoadWord, LaneMask, Low24, Without, Write;
    LoadStored(r, a, lane);
    LoadWordIff(r.shared.systick.load, lane, a.size, a.value);
  }

  lemma LoadStored(r: Regs, a: Access, lane: nat)
    requires r.Valid() && lane < 4 && a.offset == 0x14 + lane
    ensures Write(r, a).0.shared.systick.load == LoadWord(lane, a.size, a.value)
  {
    hide Merge, LoadWord, ToBits, NvicWrite, PriorityWrite;
    assert a.offset % 4 == lane;
  }

  lemma LoadWordIff(load: bv32, lane: nat, size: nat, v: bv32)
    requires size == 1 || size == 2
    ensures LoadWord(lane, size, v) == Low24(Merge(load, lane, size, v)) <==> Low24(Without(load, LaneMask(lane, size))) == 0
    ensures Without(LoadWord(lane, size, v), LaneMask(lane, size)) == 0
  {
    var mask, x := LaneMask(lane, size), Moved(v, lane);
    hide LaneMask, Shift, Moved, Low24, Without, Both, Either;
    LoadBits(load, mask, x);
    MergedZero(mask, x);
  }

  /** LOAD 0x1234, byte store of 0x56: 0x56 is left, not 0x1256. */
  lemma NarrowLoadExample(r: Regs)
    requires r.Valid() && r.shared.systick.load == 0x1234
    ensures Write(r, Access(Secure, Secure, 0x14, 1, 0x56)).0.shared.systick.load == 0x56
  {
    hide Write;
    LoadStored(r, Access(Secure, Secure, 0x14, 1, 0x56), 0);
  }

  /** When a Secure SAU write reads back, for each register: RNR keeps three bits, and once the legacy
      layout has been inferred a value the source takes for the other register of a pair does not. */
  lemma SauReadsBackIff(u: Sau, reg: nat, v: bv32)
    requires u.Valid() && IsSau(reg)
    ensures var i := Index(u.rnr);
            SauRead(SauWrite(u, reg, v), reg) == v <==>
              if reg == 0xD4 then v & !7 == 0
              else
                || !u.legacy || reg == 0xD0 || reg == 0xE8
                || (reg == 0xD8 && (v & !7 == 0 || u.rnr == v))
                || (reg == 0xDC && (v & 0x1F == 0 || u.rbar[i] == v))
                || (reg == 0xE0 && (v > 0xFF || u.rlar[i] == v))
                || (reg == 0xE4 && (v <= 0xFF || u.sfsr == v))
  {
    hide Index;
    assert v & !7 == 0 <==> v & 7 == v;
  }

  /** In the legacy layout 0x100 stored at offset 0xE4 goes to SFAR and the register still shows SFSR. */
  lemma SauExample(u: Sau)
    requires u.Valid() && u.legacy && u.sfsr == 0
    ensures SauRead(SauWrite(u, 0xE4, 0x100), 0xE4) == 0
  {
  }

  /** Narrow stores to CFSR feed the other flags back into a write-one-to-clear register. */
  lemma NarrowCfsrWrite(r: Regs, a: Access, lane: nat)
    requires r.Valid() && (a.size == 1 || a.size == 2) && lane < 4 && a.offset == 0xD28 + lane
    ensures Write(r, a).0.shared.plain[Cfsr] == Without(r.shared.plain[Cfsr], Merge(r.shared.plain[Cfsr], lane, a.size, a.value))
  {
    hide Merge, Without, IcsrWrite, AircrWrite, BankRead, BankWrite, SauRead, SauWrite, WithBank, LowWrite;
    assert a.offset - a.offset % 4 == 0xD28 && a.offset % 4 == lane;
  }

  /** Such a store clears just the flags it names exactly when no flag outside its bytes was set; none survives there. */
  lemma NarrowCfsrIff(r: Regs, a: Access, lane: nat)
    requires r.Valid() && Narrow(a) && lane < 4 && a.offset == 0xD28 + lane
    ensures Write(r, a).0.shared.plain[Cfsr] == Without(r.shared.plain[Cfsr], Placed(a.value, lane, a.size))
       <==> Without(r.shared.plain[Cfsr], LaneMask(lane, a.size)) == 0
    ensures Without(Write(r, a).0.shared.plain[Cfsr], LaneMask(lane, a.size)) == 0
  {
    hide Write, Merge, LaneMask, Shift, Placed, Without;
    NarrowCfsrWrite(r, a, lane);
    CfsrMeantIff(r.shared.plain[Cfsr], lane, a.size, a.value);
  }

  lemma CfsrMeantIff(cur: bv32, lane: nat, size: nat, value: bv32)
    ensures Without(cur, Merge(cur, lane, size, value)) == Without(cur, Placed(value, lane, size))
       <==> Without(cur, LaneMask(lane, size)) == 0
    ensures Without(Without(cur, Merge(cur, lane, size, value)), LaneMask(lane, size)) == 0
  {
    var mask, x := LaneMask(lane, size), Moved(value, lane);
    hide LaneMask, Shift, Moved, Without, Both, Either;
    ClearBits(cur, mask, x);
    ClearsOutside(cur, mask, Both(x, mask));
  }

  /** A byte store of zero to UFSR, meant to clear nothing, clears a MemManage flag. */
  lemma NarrowCfsrExample(r: Regs)
    requires r.Valid() && r.shared.plain[Cfsr] == 0x82
    ensures Write(r, Access(Secure, Secure, 0xD2A, 1, 0)).0.shared.plain[Cfsr] == 0
  {
    hide Write;
    NarrowCfsrWrite(r, Access(Secure, Secure, 0xD2A, 1, 0), 2);
  }

  // ---------------------------------------------------------------- the mutable block

  class Block {
    var s: Bank
    var ns: Bank
    var sau: Sau
    var shared: Shared
    var nvic: Nvic.State

    function View(): Regs
      reads this
    {
      Regs(s, ns, sau, shared, nvic)
    }

    method StoreIcsr(window: Security, v: bv32)
      requires View().Valid()
      modifies this
      ensures View() == IcsrWrite(old(View()), window, v)
    {
      shared := PendWrite(shared, v);
      if window.NonSecure? { ns := ns.(icsr := IcsrKept(v)); } else { s := s.(icsr := IcsrKept(v)); }
    }

    method StoreAircr(window: Security, v: bv32) returns (ok: bool)
      requires View().Valid()
      modifies this
      ensures (View(), ok) == AircrWrite(old(View()), window, v)
    {
      if !Keyed(v) { return false; }
      if window.NonSecure? { ns := ns.(aircr := v); } else { s := s.(aircr := v); }
      if AsksReset(v) { shared := shared.(resetRequested := true); }
      ok := true;
    }

    method StoreScb(window: Security, eff: Security, reg: nat, v: bv32) returns (ok: bool)
      requires View().Valid()
      modifies this
      ensures (View(), ok) == ScbWrite(old(View()), window, eff, reg, v)
    {
      hide BankWrite, SauWrite, SharedWrite, IcsrWrite, AircrWrite;
      ok := true;
      if reg == 0x04 {
        StoreIcsr(window, v);
      } else if reg == 0x0C {
        ok := StoreAircr(window, v);
      } else if IsBanked(reg) {
        if eff.NonSecure? { ns := BankWrite(ns, BankedAt(reg).value, v); } else { s := BankWrite(s, BankedAt(reg).value, v); }
      } else if IsShared(reg) {
        shared := SharedWrite(shared, SharedAt(reg).value, v);
      } else if IsSau(reg) {
        if eff.Secure? { sau := SauWrite(sau, reg, v); }
      }
    }

    method Store(a: Access) returns (ok: bool)
      requires View().Valid()
      modifies this
      ensures (View(), ok) == Write(old(View()), a)
    {
      hide ScbWrite, Merge, NvicWrite, PriorityWrite, SysTickWrite, ScbRead, ToBits, IsNvicWord;
      if a.offset >= PAGE_SIZE { return false; }
      var aligned := a.offset - a.offset % 4;
      if a.offset < SCB_OFFSET {
        if aligned == 0x10 || aligned == 0x14 || aligned == 0x18 {
          shared := shared.(systick := SysTickWrite(shared.systick, a));
        } else if a.size == 4 && IsNvicWord(aligned) {
          nvic := NvicWrite(nvic, a.Effective(), aligned, ToBits(a.value));
        } else if 0x400 <= a.offset < 0x500 {
          nvic := PriorityWrite(nvic, a);
        }
        return true;
      }
      var value := a.value;
      if a.size == 1 || a.size == 2 {
        var cur := ScbRead(View(), a.window, a.Effective(), aligned - SCB_OFFSET);
        value := Merge(cur, a.offset % 4, a.size, a.value);
      } else if a.size != 4 {
        return false;
      }
      ok := StoreScb(a.window, a.Effective(), aligned - SCB_OFFSET, value);
    }
  }
}
