/** The STM32H563 flash controller (cpu/stm32h563/stm32h563_mmio.c:563-746, 1098-1138): key unlock,
    programming and erasing, over the bytes of its register block. */
module Flash {
  import opened Words
  import opened Processor

  const KEY1: u32 := 0x4567_0123
  const KEY2: u32 := 0xCDEF_89AB
  const REG_SIZE := 0x400

  function KeyReg(side: Security): nat { if side.NonSecure? then 0x04 else 0x08 }
  function StatusReg(side: Security): nat { if side.NonSecure? then 0x20 else 0x24 }
  function ControlReg(side: Security): nat { if side.NonSecure? then 0x28 else 0x2C }
  function ClearReg(side: Security): nat { if side.NonSecure? then 0x30 else 0x34 }

  /** Bits of a control word or of its low byte. */
  predicate Lock(x: int) { x % 2 == 1 }
  predicate Pg(x: int) { x / 2 % 2 == 1 }
  predicate Ser(x: int) { x / 4 % 2 == 1 }
  predicate Ber(x: int) { x / 8 % 2 == 1 }
  predicate Strt(x: int) { x / 0x20 % 2 == 1 }

  /** Sector number and bank of a control word, from its bytes. */
  function Snb(cr: seq<u8>): nat
    requires |cr| == 4
  {
    ((cr[0] as int) / 0x40 + 4 * (cr[1] as int)) % 0x80
  }

  predicate Bksel(cr: seq<u8>)
    requires |cr| == 4
  {
    cr[3] >= 0x80
  }

  function Even(b: u8): u8 { b - b % 2 }
  function Odd(b: u8): u8 { b - b % 2 + 1 }
  function ClearStrt(b: u8): u8 { if Strt(b) then b - 0x20 else b }

  /** `regs` is the register block; `stage` counts accepted keys per side. */
  datatype Ctl = Ctl(regs: seq<u8>, stage: Banked, flash: seq<u8>, baseS: u32, baseNs: u32, writeOnce: bool) {
    ghost predicate Valid() {
      && |regs| == REG_SIZE
      && 0 < |flash| < 0x8000_0000
      && baseS + |flash| < U32 && baseNs + |flash| < U32
      && stage.s <= 1 && stage.ns <= 1
    }

    function Low(side: Security): u8
      requires |regs| == REG_SIZE
    {
      regs[ControlReg(side)]
    }

    /** The control word. */
    function Cr(side: Security): (cr: seq<u8>)
      requires |regs| == REG_SIZE
      ensures |cr| == 4 && cr[0] == Low(side)
    {
      regs[ControlReg(side)..ControlReg(side) + 4]
    }

    predicate Locked(side: Security)
      requires |regs| == REG_SIZE
    {
      Lock(Low(side))
    }
  }

  // ---------------------------------------------------------------- geometry

  /** 128 sectors in each of two banks; a single bank if the size is odd. */
  function SectorSize(n: nat): nat {
    if n % 2 != 0 then n / 128 else n / 2 / 128
  }

  function SectorStart(n: nat, bank: nat, snb: nat): nat { snb * SectorSize(n) + bank * (n / 2) }

  /** Start and length of the erase a control word selects. */
  function EraseRange(cr: seq<u8>, n: nat): (r: Option<(nat, nat)>)
    requires |cr| == 4
    ensures r.Some? ==> r.value.0 + r.value.1 <= n
  {
    var ss := SectorSize(n);
    if n == 0 || ss == 0 then None
    else if Ber(cr[0]) then Some((0, n))
    else if Ser(cr[0]) then
      var start := SectorStart(n, if Bksel(cr) then 1 else 0, Snb(cr));
      if start >= n then None
      else Some((start, if start + ss > n then n - start else ss))
    else None
  }

  predicate InRange(range: Option<(nat, nat)>, k: int) {
    range.Some? && range.value.0 <= k < range.value.0 + range.value.1
  }

  function Filled(flash: seq<u8>, start: nat, len: nat): (r: seq<u8>)
    requires start + len <= |flash|
    ensures |r| == |flash|
    ensures forall k :: 0 <= k < |flash| ==> r[k] == if start <= k < start + len then 0xFF else flash[k]
  {
    seq(|flash|, k requires 0 <= k < |flash| => if start <= k < start + len then 0xFF else flash[k])
  }

  // ---------------------------------------------------------------- register writes

  function KeyWrite(c: Ctl, side: Security, value: u32): (c': Ctl)
    requires c.Valid()
    ensures c'.Valid()
  {
    if c.stage.Get(side) == 0 then c.(stage := c.stage.Set(side, if value == KEY1 then 1 else 0))
    else if value == KEY2 then
      c.(stage := c.stage.Set(side, 0), regs := c.regs[ControlReg(side) := Even(c.Low(side))])
    else c.(stage := c.stage.Set(side, 0))
  }

  /** BSY cleared and EOP set. */
  function Done(regs: seq<u8>, side: Security): (r: seq<u8>)
    requires |regs| == REG_SIZE
    ensures |r| == REG_SIZE
  {
    var sr := StatusReg(side);
    regs[sr := Even(regs[sr])][sr + 2 := Odd(regs[sr + 2])]
  }

  function Erase(c: Ctl, side: Security): (c': Ctl)
    requires c.Valid()
    ensures c'.Valid()
  {
    match EraseRange(c.Cr(side), |c.flash|)
    case None => c
    case Some(range) => c.(flash := Filled(c.flash, range.0, range.1), regs := Done(c.regs, side))
  }

  predicate Width(size: nat) { 0 < size <= 4 }

  /** memcpy of the low bytes of `value` into the register block. */
  function Copied(regs: seq<u8>, offset: nat, size: nat, value: u32): (r: seq<u8>)
    requires |regs| == REG_SIZE && offset + size <= REG_SIZE
    ensures |r| == REG_SIZE
  {
    Splice(regs, offset, ToLe(value, size))
  }

  /** Control writes are ignored while locked, unless they keep LOCK set. */
  predicate Ignored(c: Ctl, side: Security, value: u32)
    requires c.Valid()
  {
    c.Locked(side) && !Lock(value)
  }

  /** The control word a store of `size` bytes leaves before any erase. */
  function Merged(c: Ctl, side: Security, size: nat, value: u32): (cr: seq<u8>)
    requires c.Valid() && Width(size)
    ensures |cr| == 4
  {
    Splice(c.Cr(side), 0, ToLe(value, size))
  }

  function ControlWrite(c: Ctl, side: Security, size: nat, value: u32): (c': Ctl)
    requires c.Valid() && Width(size)
    ensures c'.Valid()
  {
    if Ignored(c, side, value) then c
    else
      var c1 := c.(regs := Copied(c.regs, ControlReg(side), size, value));
      if !Strt(value) then c1
      else
        var c2 := Erase(c1, side);
        c2.(regs := c2.regs[ControlReg(side) := ClearStrt(c2.Low(side))])
  }

  function RegWrite(c: Ctl, offset: u32, size: nat, value: u32): (r: (Ctl, bool))
    requires c.Valid()
    ensures r.0.Valid()
  {
    if !Width(size) || offset + size > REG_SIZE then (c, false)
    else if offset == 0x04 then (KeyWrite(c, NonSecure, value), true)
    else if offset == 0x08 then (KeyWrite(c, Secure, value), true)
    else if offset == 0x30 then (EopCleared(c, NonSecure, value), true)
    else if offset == 0x34 then (EopCleared(c, Secure, value), true)
    else if offset == 0x28 then (ControlWrite(c, NonSecure, size, value), true)
    else if offset == 0x2C then (ControlWrite(c, Secure, size, value), true)
    else (c.(regs := Copied(c.regs, offset, size, value)), true)
  }

  function EopCleared(c: Ctl, side: Security, value: u32): (c': Ctl)
    requires c.Valid()
    ensures c'.Valid()
  {
    var at := StatusReg(side) + 2;
    if value / 0x1_0000 % 2 == 1 then c.(regs := c.regs[at := Even(c.regs[at])]) else c
  }

  // ---------------------------------------------------------------- programming

  function FlashOffset(c: Ctl, addr: u32): Option<nat> {
    if c.baseS <= addr < c.baseS + |c.flash| then Some(addr - c.baseS)
    else if c.baseNs <= addr < c.baseNs + |c.flash| then Some(addr - c.baseNs)
    else None
  }

  /** First byte of the sector holding `off`, and the byte after its last. */
  function SectorBase(n: nat, off: nat): nat {
    var ss := SectorSize(n);
    if ss == 0 then 0 else Quot(off, ss) * ss
  }

  function SectorEnd(n: nat, off: nat): nat { SectorBase(n, off) + SectorSize(n) }

  /** Every byte of the sector holding `off` is erased. */
  predicate SectorBlank(flash: seq<u8>, off: nat) {
    forall k :: 0 <= k < |flash| && SectorBase(|flash|, off) <= k < SectorEnd(|flash|, off) ==> flash[k] == 0xFF
  }

  predicate MayProgram(c: Ctl, sec: Security, off: nat)
    requires c.Valid()
  {
    && !c.Locked(sec) && Pg(c.Low(sec))
    && (c.writeOnce && SectorSize(|c.flash|) != 0 ==> SectorBlank(c.flash, off))
  }

  predicate BusSize(size: nat) { size == 1 || size == 2 || size == 4 }

  function EopSet(regs: seq<u8>, side: Security): (r: seq<u8>)
    requires |regs| == REG_SIZE
    ensures |r| == REG_SIZE
  {
    var at := StatusReg(side) + 2;
    regs[at := Odd(regs[at])]
  }

  /** `flash_write_cb`: refused stores outside the flash, ignored ones while not permitted. */
  function Store(c: Ctl, sec: Security, addr: u32, size: nat, value: u32): (r: (Ctl, bool))
    requires c.Valid()
    ensures r.0.Valid()
  {
    match FlashOffset(c, addr)
    case None => (c, false)
    case Some(off) =>
      if off + size > |c.flash| then (c, false)
      else if !MayProgram(c, sec, off) then (c, true)
      else if !BusSize(size) then (c, false)
      else (c.(flash := Splice(c.flash, off, ToLe(value, size)), regs := EopSet(c.regs, sec)), true)
  }

  // ---------------------------------------------------------------- runs

  datatype Event = Reg(offset: u32, size: nat, value: u32) | Program(sec: Security, addr: u32, size: nat, value: u32)

  function Step(c: Ctl, ev: Event): (c': Ctl)
    requires c.Valid()
    ensures c'.Valid()
  {
    match ev
    case Reg(offset, size, value) => RegWrite(c, offset, size, value).0
    case Program(sec, addr, size, value) => Store(c, sec, addr, size, value).0
  }

  function Run(c: Ctl, evs: seq<Event>): (c': Ctl)
    requires c.Valid()
    ensures c'.Valid()
  {
    if evs == [] then c else Step(Run(c, evs[..|evs| - 1]), evs[|evs| - 1])
  }

  /** A register store that starts at `reg`. */
  predicate At(ev: Event, reg: nat) { ev.Reg? && Width(ev.size) && ev.offset == reg }

  predicate IsKey(ev: Event, side: Security) { At(ev, KeyReg(side)) }

  /** A store that starts below the control register and runs over its low byte. */
  predicate Overruns(ev: Event, side: Security) {
    ev.Reg? && Width(ev.size) && ev.offset < ControlReg(side) < ev.offset + ev.size
  }

  /** The byte it puts there. */
  function Spill(ev: Event, side: Security): u8
    requires Overruns(ev, side)
  {
    ToLe(ev.value, ev.size)[ControlReg(side) - ev.offset]
  }

  predicate IsLock(ev: Event, side: Security) {
    (At(ev, ControlReg(side)) && Lock(ev.value)) || (Overruns(ev, side) && Lock(Spill(ev, side)))
  }

  predicate IsForced(ev: Event, side: Security) { Overruns(ev, side) && !Lock(Spill(ev, side)) }

  /** How many of the latest key writes to `side` were KEY1. */
  function KeyOnes(evs: seq<Event>, side: Security): nat {
    if evs == [] then 0
    else
      var pre, ev := evs[..|evs| - 1], evs[|evs| - 1];
      if !IsKey(ev, side) then KeyOnes(pre, side)
      else if ev.value == KEY1 then KeyOnes(pre, side) + 1
      else 0
  }

  /** Event `j` is a KEY2 after an odd number of KEY1s. */
  predicate Unlocks(evs: seq<Event>, side: Security, j: nat)
    requires j < |evs|
  {
    IsKey(evs[j], side) && evs[j].value == KEY2 && KeyOnes(evs[..j], side) % 2 == 1
  }

  /** Event `j` unlocks the side or overwrites LOCK with zero, and LOCK was not set since. */
  ghost predicate OpenedBy(evs: seq<Event>, side: Security, j: nat) {
    && j < |evs| && (Unlocks(evs, side, j) || IsForced(evs[j], side))
    && (forall k :: j < k < |evs| ==> !IsLock(evs[k], side))
  }

  ghost predicate Opened(evs: seq<Event>, side: Security) {
    exists j: nat :: OpenedBy(evs, side, j)
  }

  /** After reset both sides are locked and no key has been accepted. */
  ghost predicate AfterReset(c: Ctl) {
    c.Valid() && c.Locked(Secure) && c.Locked(NonSecure) && c.stage.s == 0 && c.stage.ns == 0
  }

  /** The key stage is the parity of the latest KEY1s; a side is unlocked exactly when it was opened. */
  ghost predicate KeysExplain(c: Ctl, evs: seq<Event>, side: Security)
    requires c.Valid()
  {
    && c.stage.Get(side) == KeyOnes(evs, side) % 2
    && (!c.Locked(side) <==> Opened(evs, side))
  }

  // ---------------------------------------------------------------- one event and the lock

  lemma LowByte(value: u32, size: nat)
    requires Width(size)
    ensures ToLe(value, size)[0] == value % 0x100
    ensures (Lock(value % 0x100) <==> Lock(value)) && (Strt(value % 0x100) <==> Strt(value))
  {
    var q, b := value / 0x100, value % 0x100;
    LowBits(q, b);
  }

  lemma LowBits(q: nat, b: u8)
    ensures Lock(0x100 * q + b) == Lock(b) && Strt(0x100 * q + b) == Strt(b)
  {
    var d := b / 0x20;
    EuclidUnique(0x100 * q + b, 2, 0x80 * q + b / 2, b % 2);
    EuclidUnique(0x100 * q + b, 0x20, 8 * q + d, b % 0x20);
    EuclidUnique(8 * q + d, 2, 4 * q + d / 2, d % 2);
  }

  lemma StrtBit(b: u8)
    ensures Lock(ClearStrt(b)) == Lock(b) && !Lock(Even(b)) && Lock(Odd(b)) && Even(Odd(b)) == Even(b)
  {
  }

  lemma ControlLock(c: Ctl, side: Security, size: nat, value: u32, other: Security)
    requires c.Valid() && Width(size)
    ensures var c' := ControlWrite(c, side, size, value);
            c'.stage == c.stage && (c'.Locked(other) <==> c.Locked(other) || (other == side && Lock(value)))
  {
    LowByte(value, size);
    hide Filled, EraseRange, ToLe, Lock, Strt, ClearStrt, Even, Odd;
    if !Ignored(c, side, value) {
      var c1 := c.(regs := Copied(c.regs, ControlReg(side), size, value));
      assert c1.Low(other) == if other == side then value % 0x100 else c.Low(other);
      var c2 := Erase(c1, side);
      EraseKeepsControl(c1, side);
      assert c2.Low(other) == c1.Low(other);
      StrtBit(c2.Low(side));
    }
  }

  lemma EraseKeepsControl(c: Ctl, side: Security)
    requires c.Valid()
    ensures var c' := Erase(c, side);
            && c'.stage == c.stage && c'.baseS == c.baseS && c'.baseNs == c.baseNs && c'.writeOnce == c.writeOnce
            && (forall other :: c'.Low(other) == c.Low(other))
  {
    hide Filled, EraseRange, Even, Odd;
  }

  lemma KeyLock(c: Ctl, side: Security, value: u32, other: Security)
    requires c.Valid()
    ensures var c' := KeyWrite(c, side, value);
            && (other != side ==> c'.stage.Get(other) == c.stage.Get(other) && c'.Locked(other) == c.Locked(other))
            && (other == side ==>
                  && c'.stage.Get(side) == (if c.stage.Get(side) == 0 && value == KEY1 then 1 else 0)
                  && (c'.Locked(side) <==> c.Locked(side) && !(c.stage.Get(side) == 1 && value == KEY2)))
  {
    StrtBit(c.Low(side));
    hide Lock, Even;
  }

  lemma CopyLock(c: Ctl, offset: nat, size: nat, value: u32, side: Security)
    requires c.Valid() && Width(size) && offset + size <= REG_SIZE
    ensures var c' := c.(regs := Copied(c.regs, offset, size, value));
            c'.Low(side) == if offset <= ControlReg(side) < offset + size then ToLe(value, size)[ControlReg(side) - offset] else c.Low(side)
  {
    hide ToLe;
  }

  lemma StoreKeepsControl(c: Ctl, sec: Security, addr: u32, size: nat, value: u32)
    requires c.Valid()
    ensures var c' := Store(c, sec, addr, size, value).0;
            && c'.stage == c.stage && (forall side :: c'.Low(side) == c.Low(side))
            && |c'.flash| == |c.flash| && c'.baseS == c.baseS && c'.baseNs == c.baseNs && c'.writeOnce == c.writeOnce
  {
    hide MayProgram, ToLe, Odd;
  }

  lemma EopKeepsControl(c: Ctl, side: Security, value: u32, other: Security)
    requires c.Valid()
    ensures var c' := EopCleared(c, side, value);
            c'.stage == c.stage && c'.Low(other) == c.Low(other) && c' == c.(regs := c'.regs)
  {
    hide Even;
  }

  /** Effect of one event on the lock and key stage of one side. */
  lemma StepLock(c: Ctl, ev: Event, side: Security)
    requires c.Valid()
    ensures var c' := Step(c, ev);
            && (IsKey(ev, side) ==>
                  && c'.stage.Get(side) == (if c.stage.Get(side) == 0 && ev.value == KEY1 then 1 else 0)
                  && (c'.Locked(side) <==> c.Locked(side) && !(c.stage.Get(side) == 1 && ev.value == KEY2)))
            && (!IsKey(ev, side) ==>
                  && c'.stage.Get(side) == c.stage.Get(side)
                  && (!c'.Locked(side) <==> (!c.Locked(side) && !IsLock(ev, side)) || IsForced(ev, side)))
  {
    hide Store, ControlWrite, KeyWrite, EopCleared, Copied, ToLe, Lock;
    match ev {
      case Program(sec, addr, size, value) => StoreKeepsControl(c, sec, addr, size, value);
      case Reg(offset, size, value) =>
        if Width(size) && offset + size <= REG_SIZE {
          if offset == 0x04 || offset == 0x08 {
            KeyLock(c, if offset == 0x04 then NonSecure else Secure, value, side);
          } else if offset == 0x30 || offset == 0x34 {
            EopKeepsControl(c, if offset == 0x30 then NonSecure else Secure, value, side);
          } else if offset == 0x28 || offset == 0x2C {
            ControlLock(c, if offset == 0x28 then NonSecure else Secure, size, value, side);
          } else {
            CopyLock(c, offset, size, value, side);
          }
        }
    }
  }

  // ---------------------------------------------------------------- runs and the lock

  /** In every run from reset a side is unlocked exactly when it was opened. */
  lemma {:induction false} KeysExplainRuns(c: Ctl, evs: seq<Event>, side: Security)
    requires AfterReset(c)
    ensures KeysExplain(Run(c, evs), evs, side)
    decreases |evs|
  {
    hide Step, Opened, KeyOnes, IsKey, IsLock, IsForced, Lock;
    if evs == [] {
      NothingLogged(side);
    } else {
      var n := |evs| - 1;
      var pre, ev := evs[..n], evs[n];
      KeysExplainRuns(c, pre, side);
      StepLock(Run(c, pre), ev, side);
      assert evs == pre + [ev];
      KeyOnesLogged(pre, ev, side);
      OpenedLogged(pre, ev, side);
    }
  }

  lemma NothingLogged(side: Security)
    ensures KeyOnes([], side) == 0 && !Opened([], side)
  {
  }

  lemma KeyOnesLogged(pre: seq<Event>, ev: Event, side: Security)
    ensures KeyOnes(pre + [ev], side) ==
            if !IsKey(ev, side) then KeyOnes(pre, side) else if ev.value == KEY1 then KeyOnes(pre, side) + 1 else 0
  {
    assert (pre + [ev])[..|pre|] == pre;
  }

  /** A key write neither sets LOCK nor overruns it. */
  lemma KeyIsNoLock(ev: Event, side: Security)
    requires IsKey(ev, side)
    ensures !IsLock(ev, side) && !IsForced(ev, side)
  {
    hide ToLe;
  }

  /** One more event opens the side, locks it, or leaves it as it was. */
  lemma OpenedLogged(pre: seq<Event>, ev: Event, side: Security)
    ensures Opened(pre + [ev], side) <==>
            || (IsKey(ev, side) && ev.value == KEY2 && KeyOnes(pre, side) % 2 == 1)
            || IsForced(ev, side)
            || (Opened(pre, side) && !IsLock(ev, side))
    ensures IsKey(ev, side) ==> !IsLock(ev, side) && !IsForced(ev, side)
  {
    if IsKey(ev, side) { KeyIsNoLock(ev, side); }
    hide KeyOnes, IsKey, IsLock, IsForced;
    var evs := pre + [ev];
    assert evs[..|pre|] == pre;
    assert OpenedBy(evs, side, |pre|) <==>
             (IsKey(ev, side) && ev.value == KEY2 && KeyOnes(pre, side) % 2 == 1) || IsForced(ev, side);
    forall j: nat | j < |pre|
      ensures OpenedBy(evs, side, j) <==> OpenedBy(pre, side, j) && !IsLock(ev, side)
    {
      assert evs[..j] == pre[..j] && evs[j] == pre[j] && evs[|pre|] == ev;
      assert forall k :: j < k < |pre| ==> evs[k] == pre[k];
    }
  }

  /** Event `i` is KEY1 and event `j` the next key write and KEY2. */
  ghost predicate Keys(evs: seq<Event>, side: Security, i: nat, j: nat) {
    && i < j < |evs| && IsKey(evs[i], side) && evs[i].value == KEY1 && IsKey(evs[j], side) && evs[j].value == KEY2
    && forall k :: i < k < j ==> !IsKey(evs[k], side)
  }

  /** An opened side had LOCK overwritten with zero, or KEY1 then KEY2 as consecutive key writes; either
      way LOCK was not set since. */
  lemma OpenedIsConsecutive(evs: seq<Event>, side: Security) returns (i: nat, j: nat)
    requires Opened(evs, side)
    ensures j < |evs| && (IsForced(evs[j], side) || Keys(evs, side, i, j))
    ensures forall k :: j < k < |evs| ==> !IsLock(evs[k], side)
  {
    hide KeyOnes, IsKey, IsLock, IsForced;
    j :| OpenedBy(evs, side, j);
    i := 0;
    if !IsForced(evs[j], side) {
      i := LastKeyOne(evs[..j], side);
    }
  }

  lemma {:induction false} LastKeyOne(evs: seq<Event>, side: Security) returns (i: nat)
    requires KeyOnes(evs, side) > 0
    ensures i < |evs| && IsKey(evs[i], side) && evs[i].value == KEY1
    ensures forall k :: i < k < |evs| ==> !IsKey(evs[k], side)
    decreases |evs|
  {
    var n := |evs| - 1;
    if IsKey(evs[n], side) {
      i := n;
    } else {
      i := LastKeyOne(evs[..n], side);
    }
  }

  /** Stores at aligned offsets never overrun the control register. */
  lemma AlignedNeverForced(ev: Event, side: Security)
    requires ev.Reg? ==> ev.offset % 4 == 0
    ensures !IsForced(ev, side)
  {
    hide ToLe;
  }

  /** A zero word stored two bytes below NSCR unlocks the Non-secure side without a key. */
  lemma OverrunUnlocks(c: Ctl)
    requires AfterReset(c)
    ensures !Run(c, [Reg(0x26, 4, 0)]).Locked(NonSecure)
  {
    var evs := [Reg(0x26, 4, 0)];
    KeysExplainRuns(c, evs, NonSecure);
    assert ToLe(0, 4)[2] == ToLe(0, 3)[1] == ToLe(0, 2)[0] == 0;
    assert OpenedBy(evs, NonSecure, 0);
  }

  /** A store changes flash only on an unlocked side with PG set. */
  lemma StoreNeedsUnlock(c: Ctl, sec: Security, addr: u32, size: nat, value: u32)
    requires c.Valid() && Store(c, sec, addr, size, value).0.flash != c.flash
    ensures !c.Locked(sec) && Pg(c.Low(sec))
  {
    hide Splice, ToLe, SectorBlank;
  }

  /** A permitted store is readable afterwards, little-endian, and touches only its own bytes. */
  lemma ProgramReadsBack(c: Ctl, sec: Security, addr: u32, size: nat, value: u32)
    requires c.Valid() && BusSize(size)
    requires FlashOffset(c, addr).Some? && FlashOffset(c, addr).value + size <= |c.flash|
    requires MayProgram(c, sec, FlashOffset(c, addr).value)
    ensures var off := FlashOffset(c, addr).value;
            var r := Store(c, sec, addr, size, value);
            && r.1 && FromLe(r.0.flash[off..off + size]) == value % Pow256(size)
            && forall k :: 0 <= k < |c.flash| && !(off <= k < off + size) ==> r.0.flash[k] == c.flash[k]
  {
    hide MayProgram, ToLe, FromLe, Pow256;
    var off := FlashOffset(c, addr).value;
    var r := Store(c, sec, addr, size, value);
    assert r.0.flash[off..off + size] == ToLe(value, size);
    LeRoundTrip(value, size);
  }

  /** After any run from reset a store is programmed exactly when its side was opened, PG is set and
      the write-once check passes. */
  lemma ProgrammableIffOpened(c: Ctl, evs: seq<Event>, sec: Security, off: nat)
    requires AfterReset(c)
    ensures var c' := Run(c, evs);
            MayProgram(c', sec, off) <==>
              && Opened(evs, sec) && Pg(c'.Low(sec))
              && (c'.writeOnce && SectorSize(|c'.flash|) != 0 ==> SectorBlank(c'.flash, off))
  {
    hide Run, Opened, SectorBlank, Lock, Pg;
    KeysExplainRuns(c, evs, sec);
  }

  /** So a store that changes flash, after a run whose register stores are aligned, was preceded by KEY1
      and KEY2 as consecutive key writes on its side, with LOCK not set since, and PG is set. */
  lemma ProgrammingNeedsKeys(c: Ctl, evs: seq<Event>, sec: Security, addr: u32, size: nat, value: u32) returns (i: nat, j: nat)
    requires AfterReset(c) && forall k :: 0 <= k < |evs| ==> !IsForced(evs[k], sec)
    requires Store(Run(c, evs), sec, addr, size, value).0.flash != Run(c, evs).flash
    ensures Pg(Run(c, evs).Low(sec)) && Keys(evs, sec, i, j)
    ensures forall k :: j < k < |evs| ==> !IsLock(evs[k], sec)
  {
    hide Store, Run, Opened, IsKey, IsLock, IsForced, Keys, Lock, Pg;
    KeysExplainRuns(c, evs, sec);
    StoreNeedsUnlock(Run(c, evs), sec, addr, size, value);
    i, j := OpenedIsConsecutive(evs, sec);
  }

  /** From a settled key stage the two keys do unlock the side. */
  lemma KeysUnlock(c: Ctl, side: Security)
    requires c.Valid() && c.stage.Get(side) == 0
    ensures !KeyWrite(KeyWrite(c, side, KEY1), side, KEY2).Locked(side)
  {
  }

  /** A repeated KEY1 uses up the stage: KEY1 KEY1 KEY2 leaves the side locked. */
  lemma RepeatedKeyStaysLocked(c: Ctl, side: Security)
    requires c.Valid() && c.stage.Get(side) == 0 && c.Locked(side)
    ensures KeyWrite(KeyWrite(KeyWrite(c, side, KEY1), side, KEY1), side, KEY2).Locked(side)
  {
  }

  // ---------------------------------------------------------------- erasing

  lemma MergedIsCopied(c: Ctl, side: Security, size: nat, value: u32)
    requires c.Valid() && Width(size)
    ensures c.(regs := Copied(c.regs, ControlReg(side), size, value)).Cr(side) == Merged(c, side, size, value)
  {
    hide ToLe;
    var cr := ControlReg(side);
    var c1 := c.(regs := Copied(c.regs, cr, size, value));
    forall k | 0 <= k < 4
      ensures c1.Cr(side)[k] == Merged(c, side, size, value)[k]
    {
      CrByte(c, side, k);
      CrByte(c1, side, k);
    }
  }

  lemma CrByte(c: Ctl, side: Security, k: nat)
    requires |c.regs| == REG_SIZE && k < 4
    ensures c.Cr(side)[k] == c.regs[ControlReg(side) + k]
  {
  }

  /** What a control store does to the flash. */
  lemma ControlErases(c: Ctl, side: Security, size: nat, value: u32)
    requires c.Valid() && Width(size)
    ensures var c' := ControlWrite(c, side, size, value);
            var range := EraseRange(Merged(c, side, size, value), |c.flash|);
            && |c'.flash| == |c.flash| && c'.baseS == c.baseS && c'.baseNs == c.baseNs && c'.writeOnce == c.writeOnce
            && forall k :: 0 <= k < |c.flash| ==>
                 c'.flash[k] == if !Ignored(c, side, value) && Strt(value) && InRange(range, k) then 0xFF else c.flash[k]
  {
    hide EraseRange, ToLe, Lock, Strt, ClearStrt, Even, Odd, Merged, Copied;
    MergedIsCopied(c, side, size, value);
  }

  /** The lock does not cover erasing: a control store to a locked side leaves the flash as it was exactly
      when it does not set LOCK, or does not set STRT, or selects nothing, or only erased bytes. */
  lemma LockedEraseIff(c: Ctl, side: Security, size: nat, value: u32)
    requires c.Valid() && Width(size) && c.Locked(side)
    ensures var range := EraseRange(Merged(c, side, size, value), |c.flash|);
            ControlWrite(c, side, size, value).flash == c.flash <==>
              || !(Lock(value) && Strt(value) && range.Some?)
              || forall k :: range.value.0 <= k < range.value.0 + range.value.1 ==> c.flash[k] == 0xFF
  {
    hide ControlWrite, EraseRange, Merged, Lock, Strt;
    ControlErases(c, side, size, value);
    var range := EraseRange(Merged(c, side, size, value), |c.flash|);
    if Lock(value) && Strt(value) && range.Some? {
      var f := ControlWrite(c, side, size, value).flash;
      assert f == c.flash ==> forall k :: range.value.0 <= k < range.value.0 + range.value.1 ==> f[k] == c.flash[k];
    }
  }

  /** LOCK, BER and STRT together erase the whole flash of a locked controller and leave it locked. */
  lemma LockedMassErase(c: Ctl, side: Security)
    requires c.Valid() && c.Locked(side) && SectorSize(|c.flash|) != 0
    ensures var c' := ControlWrite(c, side, 4, 0x29);
            c'.Locked(side) && forall k :: 0 <= k < |c.flash| ==> c'.flash[k] == 0xFF
  {
    assert Strt(0x29) && Lock(0x29);
    MassEraseRange(c, side);
    hide ControlWrite, EraseRange, Merged, Lock, Strt;
    ControlLock(c, side, 4, 0x29, side);
    ControlErases(c, side, 4, 0x29);
  }

  lemma MassEraseRange(c: Ctl, side: Security)
    requires c.Valid() && SectorSize(|c.flash|) != 0
    ensures EraseRange(Merged(c, side, 4, 0x29), |c.flash|) == Some((0, |c.flash|))
  {
    LowByte(0x29, 4);
    assert Ber(0x29) && Merged(c, side, 4, 0x29)[0] == 0x29;
    hide ToLe, Merged;
  }

  // ---------------------------------------------------------------- write once

  lemma OffsetInSector(n: nat, off: nat)
    requires SectorSize(n) > 0
    ensures SectorBase(n, off) <= off < SectorEnd(n, off)
  {
    hide Quot, Mod;
    QuotMod(off, SectorSize(n));
  }

  /** Every programmed byte has the same value in both. */
  ghost predicate ProgrammedKept(flash: seq<u8>, flash': seq<u8>) {
    |flash'| == |flash| && forall k :: 0 <= k < |flash| && flash[k] != 0xFF ==> flash'[k] == flash[k]
  }

  /** Each of `bytes` that falls beyond the sector of `off` meets an erased byte or its own value. */
  ghost predicate TailHarmless(flash: seq<u8>, off: nat, bytes: seq<u8>)
    requires off + |bytes| <= |flash|
  {
    forall k :: off <= k < off + |bytes| && SectorEnd(|flash|, off) <= k ==> flash[k] == 0xFF || flash[k] == bytes[k - off]
  }

  /** Only the sector of the first byte is checked: a permitted store keeps every programmed byte exactly
      when the part of it beyond that sector does no harm. */
  lemma StoreWritesOnceIff(c: Ctl, sec: Security, addr: u32, size: nat, value: u32)
    requires c.Valid() && c.writeOnce && SectorSize(|c.flash|) > 0 && BusSize(size)
    requires FlashOffset(c, addr).Some? && FlashOffset(c, addr).value + size <= |c.flash|
    requires MayProgram(c, sec, FlashOffset(c, addr).value)
    ensures ProgrammedKept(c.flash, Store(c, sec, addr, size, value).0.flash)
       <==> TailHarmless(c.flash, FlashOffset(c, addr).value, ToLe(value, size))
  {
    hide ToLe, SectorBlank, Lock, Pg, ProgrammedKept, TailHarmless, Splice;
    SpliceOverBlank(c.flash, FlashOffset(c, addr).value, ToLe(value, size));
  }

  lemma SpliceOverBlank(flash: seq<u8>, off: nat, bytes: seq<u8>)
    requires SectorSize(|flash|) > 0 && off + |bytes| <= |flash| && SectorBlank(flash, off)
    ensures ProgrammedKept(flash, Splice(flash, off, bytes)) <==> TailHarmless(flash, off, bytes)
  {
    OffsetInSector(|flash|, off);
    hide SectorBase, SectorSize;
    var f := Splice(flash, off, bytes);
    if ProgrammedKept(flash, f) {
      forall k | off <= k < off + |bytes| && SectorEnd(|flash|, off) <= k
        ensures flash[k] == 0xFF || flash[k] == bytes[k - off]
      {
        assert f[k] == bytes[k - off];
      }
    }
  }

  /** The halfword at the last byte of the first 8 KB sector of a 2 MB flash rewrites the first byte of
      the second. */
  lemma CrossingStoreRewrites(c: Ctl)
    requires c.Valid() && c.writeOnce && |c.flash| == 0x20_0000 && c.baseS == 0x0C00_0000
    requires !c.Locked(Secure) && Pg(c.Low(Secure))
    requires (forall k :: 0 <= k < 0x2000 ==> c.flash[k] == 0xFF) && c.flash[0x2000] == 0x12
    ensures Store(c, Secure, 0x0C00_1FFF, 2, 0x3400).0.flash[0x2000] == 0x34
  {
    assert SectorSize(0x20_0000) == 0x2000;
    assert SectorBase(0x20_0000, 0x1FFF) == 0;
    assert MayProgram(c, Secure, 0x1FFF);
    assert ToLe(0x3400, 2)[1] == ToLe(0x34, 1)[0] == 0x34;
    hide ToLe, SectorBlank;
  }

  /** The store stays inside one sector. */
  ghost predicate WithinSector(c: Ctl, ev: Event) {
    ev.Program? && BusSize(ev.size) ==>
      match FlashOffset(c, ev.addr)
      case None => true
      case Some(off) => off + ev.size <= SectorEnd(|c.flash|, off)
  }

  /** The event erases byte `k`. */
  ghost predicate Covers(c: Ctl, ev: Event, k: nat)
    requires c.Valid()
  {
    exists side ::
      && At(ev, ControlReg(side)) && !Ignored(c, side, ev.value) && Strt(ev.value)
      && InRange(EraseRange(Merged(c, side, ev.size, ev.value), |c.flash|), k)
  }

  /** Register stores and flash stores keep the geometry. */
  ghost predicate SameShape(c: Ctl, c': Ctl) {
    |c'.flash| == |c.flash| && c'.baseS == c.baseS && c'.baseNs == c.baseNs && c'.writeOnce == c.writeOnce
  }

  lemma RegFlash(c: Ctl, offset: u32, size: nat, value: u32, k: nat)
    requires c.Valid() && k < |c.flash|
    ensures var c' := RegWrite(c, offset, size, value).0;
            && SameShape(c, c')
            && (!Covers(c, Reg(offset, size, value), k) ==> c'.flash[k] == c.flash[k])
  {
    hide ControlWrite, EraseRange, Merged, Lock, Strt, ToLe, Even;
    if Width(size) && (offset == 0x28 || offset == 0x2C) {
      var side := if offset == 0x28 then NonSecure else Secure;
      ControlErases(c, side, size, value);
      assert At(Reg(offset, size, value), ControlReg(side));
    }
  }

  /** A store inside one sector changes no programmed byte. */
  lemma StoreFlash(c: Ctl, ev: Event, k: nat)
    requires c.Valid() && ev.Program? && c.writeOnce && SectorSize(|c.flash|) > 0 && WithinSector(c, ev)
    requires k < |c.flash| && c.flash[k] != 0xFF
    ensures Step(c, ev).flash[k] == c.flash[k]
  {
    hide ToLe, SectorBase, Lock, Pg;
    var o := FlashOffset(c, ev.addr);
    if o.Some? {
      OffsetInSector(|c.flash|, o.value);
    }
  }

  lemma StepFlash(c: Ctl, ev: Event, k: nat)
    requires c.Valid() && c.writeOnce && SectorSize(|c.flash|) > 0 && WithinSector(c, ev)
    requires k < |c.flash| && c.flash[k] != 0xFF && !Covers(c, ev, k)
    ensures SameShape(c, Step(c, ev)) && Step(c, ev).flash[k] == c.flash[k]
  {
    hide RegWrite, Covers, WithinSector, SectorSize;
    match ev {
      case Reg(offset, size, value) => RegFlash(c, offset, size, value, k);
      case Program(sec, addr, size, value) =>
        StoreFlash(c, ev, k);
        StoreKeepsControl(c, sec, addr, size, value);
    }
  }

  lemma SameShapeWithin(c: Ctl, c': Ctl, ev: Event)
    requires SameShape(c, c') && WithinSector(c, ev)
    ensures WithinSector(c', ev)
  {
    hide SectorEnd;
  }

  /** No event of the run erases byte `k`. */
  ghost predicate Spares(c: Ctl, evs: seq<Event>, k: nat)
    requires c.Valid()
  {
    forall i :: 0 <= i < |evs| ==> !Covers(Run(c, evs[..i]), evs[i], k)
  }

  lemma PrefixSpares(c: Ctl, evs: seq<Event>, k: nat)
    requires c.Valid() && evs != [] && Spares(c, evs, k)
    ensures Spares(c, evs[..|evs| - 1], k) && !Covers(Run(c, evs[..|evs| - 1]), evs[|evs| - 1], k)
  {
    hide Run, Covers;
    var pre := evs[..|evs| - 1];
    forall i | 0 <= i < |pre|
      ensures !Covers(Run(c, pre[..i]), pre[i], k)
    {
      assert pre[..i] == evs[..i] && pre[i] == evs[i];
    }
  }

  /** In a write-once flash a programmed byte keeps its value through every run of stores inside sectors
      and register stores of any kind, until an erase covers it. */
  lemma {:induction false} WrittenBytesStay(c: Ctl, evs: seq<Event>, k: nat)
    requires c.Valid() && c.writeOnce && SectorSize(|c.flash|) > 0
    requires k < |c.flash| && c.flash[k] != 0xFF
    requires forall i :: 0 <= i < |evs| ==> WithinSector(c, evs[i])
    requires Spares(c, evs, k)
    ensures SameShape(c, Run(c, evs)) && Run(c, evs).flash[k] == c.flash[k]
    decreases |evs|
  {
    hide Step, SectorSize, Covers, WithinSector, Spares;
    if evs != [] {
      var n := |evs| - 1;
      var pre := evs[..n];
      PrefixSpares(c, evs, k);
      WrittenBytesStay(c, pre, k);
      SameShapeWithin(c, Run(c, pre), evs[n]);
      StepFlash(Run(c, pre), evs[n], k);
    }
  }

  /** Naturally aligned stores; other widths are refused. */
  predicate NaturallyAligned(ev: Event) {
    ev.Program? && BusSize(ev.size) ==> if ev.size == 4 then ev.addr % 4 == 0 else ev.size == 2 ==> ev.addr % 2 == 0
  }

  /** So with word-aligned windows and sectors, in every run whose stores are naturally aligned. */
  lemma AlignedRunKeepsBytes(c: Ctl, evs: seq<Event>, k: nat)
    requires c.Valid() && c.writeOnce && SectorSize(|c.flash|) > 0 && SectorSize(|c.flash|) % 4 == 0
    requires c.baseS % 4 == 0 && c.baseNs % 4 == 0
    requires k < |c.flash| && c.flash[k] != 0xFF
    requires forall i :: 0 <= i < |evs| ==> NaturallyAligned(evs[i])
    requires Spares(c, evs, k)
    ensures SameShape(c, Run(c, evs)) && Run(c, evs).flash[k] == c.flash[k]
  {
    hide Run, Covers, NaturallyAligned, WithinSector, SectorSize, Spares;
    forall i | 0 <= i < |evs|
      ensures WithinSector(c, evs[i])
    {
      AlignedStoreWithinSector(c, evs[i]);
    }
    WrittenBytesStay(c, evs, k);
  }

  /** The STM32H563 geometry of cpu/stm32h563/cpu_config.h meets those conditions. */
  lemma H563Geometry()
    ensures SectorSize(0x20_0000) == 0x2000 && 0x0C00_0000 % 4 == 0 && 0x0800_0000 % 4 == 0
  {
  }

  lemma AlignedStoreWithinSector(c: Ctl, ev: Event)
    requires c.Valid() && SectorSize(|c.flash|) > 0 && SectorSize(|c.flash|) % 4 == 0
    requires c.baseS % 4 == 0 && c.baseNs % 4 == 0 && NaturallyAligned(ev)
    ensures WithinSector(c, ev)
  {
    hide Quot, SectorSize, SectorBase;
    if ev.Program? && BusSize(ev.size) && FlashOffset(c, ev.addr).Some? {
      var off, ss := FlashOffset(c, ev.addr).value, SectorSize(|c.flash|);
      OffsetInSector(|c.flash|, off);
      SectorStartsAligned(|c.flash|, off);
      OffsetAligned(ev.addr, c.baseS);
      OffsetAligned(ev.addr, c.baseNs);
      hide FlashOffset;
      AlignedFits(off, ev.size, SectorBase(|c.flash|, off), ss);
    }
  }

  lemma SectorStartsAligned(n: nat, off: nat)
    requires SectorSize(n) > 0 && SectorSize(n) % 4 == 0
    ensures SectorBase(n, off) % 4 == 0
  {
    hide Quot, SectorSize;
    SectorBaseMultiple(Quot(off, SectorSize(n)), SectorSize(n));
  }

  lemma OffsetAligned(addr: int, base: int)
    requires base % 4 == 0
    ensures addr % 4 == 0 ==> (addr - base) % 4 == 0
    ensures addr % 2 == 0 ==> (addr - base) % 2 == 0
  {
    var a, b := addr / 4, base / 4;
    if addr % 4 == 0 { EuclidUnique(addr - base, 4, a - b, 0); }
    if addr % 2 == 0 { EuclidUnique(addr - base, 2, addr / 2 - 2 * b, 0); }
  }

  lemma AlignedFits(off: int, size: int, base: int, ss: int)
    requires size == 1 || size == 2 || size == 4
    requires (size == 2 ==> off % 2 == 0) && (size == 4 ==> off % 4 == 0)
    requires base % 4 == 0 && ss % 4 == 0 && base <= off < base + ss
    ensures off + size <= base + ss
  {
    if size == 4 { FourFit(off, base + ss); }
    if size == 2 { TwoFit(off, base + ss); }
  }

  lemma FourFit(off: int, end: int)
    requires off % 4 == 0 && end % 4 == 0 && off < end
    ensures off + 4 <= end
  {
  }

  lemma TwoFit(off: int, end: int)
    requires off % 2 == 0 && end % 4 == 0 && off < end
    ensures off + 2 <= end
  {
    var e := end / 4;
    assert end == 2 * (2 * e);
  }

  lemma SectorBaseMultiple(q: int, ss: int)
    requires ss % 4 == 0
    ensures q * ss % 4 == 0
  {
    var m := ss / 4;
    assert q * ss == 4 * (q * m);
  }

  // ---------------------------------------------------------------- sectors tile the flash

  lemma MulLe(a: int, b: int, m: int)
    requires a <= b && m >= 0
    ensures a * m <= b * m
  {
  }

  lemma SectorBounds(n: nat, bank: nat, snb: nat)
    requires n > 0 && n % 256 == 0 && bank < 2 && snb < 128
    ensures SectorSize(n) == n / 256 && n == 256 * SectorSize(n)
    ensures SectorStart(n, bank, snb) == (128 * bank + snb) * SectorSize(n)
    ensures SectorStart(n, bank, snb) + SectorSize(n) == (128 * bank + snb + 1) * SectorSize(n) <= n
  {
    var ss := SectorSize(n);
    SizeSplits(n);
    SectorNumber(bank, snb, ss);
    MulLe(128 * bank + snb + 1, 256, ss);
  }

  lemma SizeSplits(n: nat)
    requires n > 0 && n % 256 == 0
    ensures SectorSize(n) == n / 256 && n == 256 * SectorSize(n) && n / 2 == 128 * SectorSize(n)
  {
    var k := n / 256;
    assert n == 256 * k;
    assert n % 2 == 0 && n / 2 == 128 * k;
    assert 128 * k / 128 == k;
  }

  lemma SectorNumber(bank: int, snb: int, ss: int)
    ensures snb * ss + bank * (128 * ss) == (128 * bank + snb) * ss
    ensures (128 * bank + snb) * ss + ss == (128 * bank + snb + 1) * ss
  {
  }

  /** For sizes divisible by 256 the 256 (bank, sector) ranges cover every offset exactly once. */
  lemma SectorsTile(n: nat, off: nat)
    requires n > 0 && n % 256 == 0 && off < n
    ensures exists bank, snb :: 0 <= bank < 2 && 0 <= snb < 128
              && SectorStart(n, bank, snb) <= off < SectorStart(n, bank, snb) + SectorSize(n)
  {
    hide Quot, Mod, SectorStart, SectorSize;
    var ss := SectorSize(n);
    SectorBounds(n, 0, 0);
    var q := Quot(off, ss);
    QuotMod(off, ss);
    assert q < 256 by { if q >= 256 { MulLe(256, q, ss); } }
    var bank, snb := q / 128, q % 128;
    assert 128 * bank + snb == q;
    SectorBounds(n, bank, snb);
    assert SectorStart(n, bank, snb) <= off < SectorStart(n, bank, snb) + SectorSize(n);
  }

  lemma SectorsDisjoint(n: nat, bank: nat, snb: nat, bank': nat, snb': nat)
    requires n > 0 && n % 256 == 0 && bank < 2 && snb < 128 && bank' < 2 && snb' < 128
    requires 128 * bank + snb < 128 * bank' + snb'
    ensures SectorStart(n, bank, snb) + SectorSize(n) <= SectorStart(n, bank', snb')
  {
    var ss := SectorSize(n);
    SectorBounds(n, bank, snb);
    SectorBounds(n, bank', snb');
    MulLe(128 * bank + snb + 1, 128 * bank' + snb', ss);
  }

  /** A sector erase sets exactly the selected sector to 0xFF. */
  lemma SectorEraseExact(c: Ctl, side: Security, size: nat, value: u32)
    requires c.Valid() && Width(size) && |c.flash| % 256 == 0
    requires var cr := Merged(c, side, size, value); Ser(cr[0]) && !Ber(cr[0])
    requires Strt(value) && !Ignored(c, side, value)
    ensures var c' := ControlWrite(c, side, size, value);
            var cr := Merged(c, side, size, value);
            var start := SectorStart(|c.flash|, if Bksel(cr) then 1 else 0, Snb(cr));
            && |c'.flash| == |c.flash|
            && forall k :: 0 <= k < |c.flash| ==>
                 c'.flash[k] == if start <= k < start + SectorSize(|c.flash|) then 0xFF else c.flash[k]
  {
    var cr := Merged(c, side, size, value);
    SectorBounds(|c.flash|, if Bksel(cr) then 1 else 0, Snb(cr));
    ControlErases(c, side, size, value);
    hide SectorStart, SectorSize, Strt, Ser, Ber, Lock, Snb, Bksel, Merged, ControlWrite;
  }

  // ---------------------------------------------------------------- the registers, written out

  /** NSCR and SECCR. */
  function ControlAt(side: Security): nat { if side == NonSecure then 40 else 44 }

  /** The four bytes of a word. */
  lemma WordBytes(b0: u8, b1: u8, b2: u8, b3: u8)
    ensures var w: u32 := (b0 as int) + 0x100 * (b1 as int) + 0x1_0000 * (b2 as int) + 0x100_0000 * (b3 as int);
            ToLe(w, 4) == [b0, b1, b2, b3]
  {
    var w3: nat := b3;
    var w2: nat := (b2 as int) + 0x100 * w3;
    var w1: nat := (b1 as int) + 0x100 * w2;
    var w0: nat := (b0 as int) + 0x100 * w1;
    EuclidUnique(w0, 0x100, w1, b0);
    EuclidUnique(w1, 0x100, w2, b1);
    EuclidUnique(w2, 0x100, w3, b2);
    EuclidUnique(w3, 0x100, 0, b3);
    assert ToLe(w3, 1) == [b3];
    assert ToLe(w2, 2) == [b2] + ToLe(w3, 1);
    assert ToLe(w1, 3) == [b1] + ToLe(w2, 2);
    assert ToLe(w0, 4) == [b0] + ToLe(w1, 3);
  }

  /** The word that erases a sector, byte by byte. */
  lemma EraseWordBytes(bank: nat, snb: nat)
    requires bank < 2 && snb < 128
    ensures ToLe(0x24 + 0x40 * snb + 0x8000_0000 * bank, 4) == [0x24 + 0x40 * (snb % 4), snb / 4, 0, 0x80 * bank]
  {
    var low, high := snb % 4, snb / 4;
    assert 0x40 * snb == 0x40 * low + 0x100 * high;
    WordBytes(0x24 + 0x40 * low, high, 0, 0x80 * bank);
  }

  lemma EraseWordFields(bank: nat, snb: nat)
    requires bank < 2 && snb < 128
    ensures var cr: seq<u8> := [0x24 + 0x40 * (snb % 4), snb / 4, 0, 0x80 * bank];
            && Ser(cr[0]) && !Ber(cr[0]) && Strt(cr[0]) && !Lock(cr[0]) && Snb(cr) == snb && (Bksel(cr) <==> bank == 1)
  {
    var low := snb % 4;
    assert low == 0 || low == 1 || low == 2 || low == 3;
    assert (0x24 + 0x40 * low) / 0x40 == low;
  }

  /** A word store with SER, STRT, a sector number and a bank to an unlocked side erases exactly the
      (128 * bank + snb)-th of 256 equal parts of the flash. */
  lemma SectorEraseWord(c: Ctl, side: Security, bank: nat, snb: nat)
    requires c.Valid() && |c.flash| % 256 == 0 && !c.Locked(side) && bank < 2 && snb < 128
    ensures var n := |c.flash|;
            var r := RegWrite(c, ControlAt(side), 4, 0x24 + 0x40 * snb + (if bank == 1 then 0x8000_0000 else 0));
            && r.1 && |r.0.flash| == n
            && forall k :: 0 <= k < n ==>
                 r.0.flash[k] == if (128 * bank + snb) * (n / 256) <= k < (128 * bank + snb) * (n / 256) + n / 256
                                 then 0xFF else c.flash[k]
  {
    var ss := |c.flash| / 256;
    SectorBounds(|c.flash|, bank, snb);
    assert SectorStart(|c.flash|, bank, snb) == (128 * bank + snb) * ss && SectorSize(|c.flash|) == ss;
    hide *;
    SectorEraseBytes(c, side, bank, snb, 0x24 + 0x40 * snb + (if bank == 1 then 0x8000_0000 else 0));
  }

  lemma SectorEraseBytes(c: Ctl, side: Security, bank: nat, snb: nat, value: u32)
    requires c.Valid() && |c.flash| % 256 == 0 && !c.Locked(side) && bank < 2 && snb < 128
    requires value == 0x24 + 0x40 * snb + (if bank == 1 then 0x8000_0000 else 0)
    ensures var r := RegWrite(c, ControlAt(side), 4, value);
            var start := SectorStart(|c.flash|, bank, snb);
            && r.1 && |r.0.flash| == |c.flash|
            && forall k :: 0 <= k < |c.flash| ==>
                 r.0.flash[k] == if start <= k < start + SectorSize(|c.flash|) then 0xFF else c.flash[k]
  {
    assert value == 0x24 + 0x40 * snb + 0x8000_0000 * bank;
    EraseWordBytes(bank, snb);
    EraseWordFields(bank, snb);
    WholeWord(c, side, value);
    LowByte(value, 4);
    ControlDispatch(c, side, 4, value);
    hide ToLe, Snb, Bksel, Ser, Ber, Strt, Lock, Merged, ControlWrite, RegWrite, SectorStart, SectorSize;
    SectorEraseExact(c, side, 4, value);
  }

  lemma ControlDispatch(c: Ctl, side: Security, size: nat, value: u32)
    requires c.Valid() && Width(size)
    ensures RegWrite(c, ControlAt(side), size, value) == (ControlWrite(c, side, size, value), true)
  {
    hide ControlWrite, KeyWrite, EopCleared, Copied;
  }

  /** A word store replaces the control word. */
  lemma WholeWord(c: Ctl, side: Security, value: u32)
    requires c.Valid()
    ensures Merged(c, side, 4, value) == ToLe(value, 4)
  {
    hide ToLe;
  }

  /** BER and STRT erase everything. */
  lemma MassEraseWord(c: Ctl, side: Security)
    requires c.Valid() && !c.Locked(side) && |c.flash| >= 256
    ensures var r := RegWrite(c, ControlAt(side), 4, 0x28);
            r.1 && |r.0.flash| == |c.flash| && forall k :: 0 <= k < |c.flash| ==> r.0.flash[k] == 0xFF
  {
    WordBytes(0x28, 0, 0, 0);
    WholeWord(c, side, 0x28);
    assert Ber(0x28) && Strt(0x28) && SectorSize(|c.flash|) > 0;
    assert EraseRange(ToLe(0x28, 4), |c.flash|) == Some((0, |c.flash|));
    hide ToLe, EraseRange, Merged, ControlWrite, Strt, Lock;
    ControlErases(c, side, 4, 0x28);
  }

  /** After an erase the side's status register shows EOP and not BSY, and its control register the word
      stored without STRT. */
  lemma EraseStatus(c: Ctl, side: Security, value: u32)
    requires c.Valid() && !c.Locked(side) && value / 32 % 2 == 1 && EraseRange(ToLe(value, 4), |c.flash|).Some?
    ensures var c' := RegWrite(c, ControlAt(side), 4, value).0;
            var status, control := if side == NonSecure then 32 else 36, ControlAt(side);
            && c'.regs[status] % 2 == 0 && c'.regs[status + 2] % 2 == 1
            && c'.regs[control] == value % 256 - 32
            && c'.regs[control + 1..control + 4] == ToLe(value, 4)[1..]
  {
    var regs := Copied(c.regs, ControlReg(side), 4, value);
    LowByte(value, 4);
    LowByteErases(value);
    ControlBytes(c, side, value);
    DoneBits(regs, side);
    EraseRegs(c, side, value);
    ControlDispatch(c, side, 4, value);
    assert ControlReg(side) == ControlAt(side) && |regs| == REG_SIZE && |ToLe(value, 4)| == 4;
    hide *;
    SliceSame(regs, Done(regs, side), ControlAt(side), if side == NonSecure then 32 else 36, ClearStrt(regs[ControlAt(side)]));
  }

  lemma EraseRegs(c: Ctl, side: Security, value: u32)
    requires c.Valid() && !c.Locked(side) && Strt(value) && EraseRange(ToLe(value, 4), |c.flash|).Some?
    ensures var done := Done(Copied(c.regs, ControlReg(side), 4, value), side);
            ControlWrite(c, side, 4, value).regs == done[ControlReg(side) := ClearStrt(done[ControlReg(side)])]
  {
    WholeWord(c, side, value);
    MergedIsCopied(c, side, 4, value);
    hide ToLe, EraseRange, Filled, Merged, Strt, Lock, Copied, Done, ClearStrt;
  }

  lemma SliceSame(regs: seq<u8>, after: seq<u8>, control: nat, status: nat, b: u8)
    requires |regs| == |after| == REG_SIZE && status + 4 <= control && control + 4 <= REG_SIZE
    requires forall k :: 0 <= k < REG_SIZE && k != status && k != status + 2 ==> after[k] == regs[k]
    ensures after[control := b][control + 1..control + 4] == regs[control + 1..control + 4]
    ensures after[control] == regs[control]
    ensures after[control := b][status] == after[status] && after[control := b][status + 2] == after[status + 2]
  {
  }

  /** The bytes a word store leaves in the control register. */
  lemma ControlBytes(c: Ctl, side: Security, value: u32)
    requires c.Valid()
    ensures var regs := Copied(c.regs, ControlReg(side), 4, value);
            var control := ControlAt(side);
            regs[control] == ToLe(value, 4)[0] && regs[control + 1..control + 4] == ToLe(value, 4)[1..]
  {
    hide ToLe;
  }

  /** Only two bits of the status register change when an erase is done. */
  lemma DoneBits(regs: seq<u8>, side: Security)
    requires |regs| == REG_SIZE
    ensures var status := if side == NonSecure then 32 else 36;
            var after := Done(regs, side);
            && after[status] % 2 == 0 && after[status + 2] % 2 == 1
            && (forall k :: 0 <= k < REG_SIZE && k != status && k != status + 2 ==> after[k] == regs[k])
  {
  }

  lemma LowByteErases(value: u32)
    requires value / 32 % 2 == 1
    ensures Strt(value) && Strt(value % 256) && ClearStrt(value % 256) == value % 256 - 32
  {
    LowByte(value, 4);
  }

  /** After the two keys at the side's own key register and a control word with just PG, from a reset
      controller, ... */
  function Opening(c: Ctl, side: Security): (c': Ctl)
    requires c.Valid()
    ensures c'.Valid()
  {
    var key := if side == NonSecure then 4 else 8;
    RegWrite(RegWrite(RegWrite(c, key, 4, 0x4567_0123).0, key, 4, 0xCDEF_89AB).0, ControlAt(side), 4, 2).0
  }

  lemma OpeningUnlocks(c: Ctl, side: Security)
    requires AfterReset(c)
    ensures var c' := Opening(c, side);
            && c'.flash == c.flash && c'.baseS == c.baseS && c'.baseNs == c.baseNs && c'.writeOnce == c.writeOnce
            && !c'.Locked(side) && Pg(c'.Low(side)) && c'.Locked(if side == NonSecure then Secure else NonSecure)
  {
    var key := if side == NonSecure then 4 else 8;
    var other := if side == NonSecure then Secure else NonSecure;
    var c1 := RegWrite(c, key, 4, 0x4567_0123).0;
    var c2 := RegWrite(c1, key, 4, 0xCDEF_89AB).0;
    WordBytes(2, 0, 0, 0);
    assert Pg(2) && !Strt(2) && !Lock(2);
    hide ToLe, Pg, Strt;
    KeyLock(c, side, 0x4567_0123, side);
    KeyLock(c, side, 0x4567_0123, other);
    KeyLock(c1, side, 0xCDEF_89AB, side);
    KeyLock(c1, side, 0xCDEF_89AB, other);
    KeyKeepsFlash(c, side, 0x4567_0123);
    KeyKeepsFlash(c1, side, 0xCDEF_89AB);
    hide KeyWrite, Lock;
    assert !c2.Locked(side) && c2.Locked(other);
  }

  lemma KeyKeepsFlash(c: Ctl, side: Security, value: u32)
    requires c.Valid()
    ensures var c' := KeyWrite(c, side, value);
            c'.flash == c.flash && c'.baseS == c.baseS && c'.baseNs == c.baseNs && c'.writeOnce == c.writeOnce
  {
    hide Even;
  }

  /** ... a byte stored through the Secure window is programmed, and EOP (bit 16 of the side's status
      register) is set until 1 is written to that bit of its clear register. */
  lemma OpenedByteProgrammed(c: Ctl, side: Security, off: nat, value: u32)
    requires AfterReset(c) && off < |c.flash|
    requires !c.writeOnce || forall k :: 0 <= k < |c.flash| ==> c.flash[k] == 0xFF
    ensures var r := Store(Opening(c, side), side, c.baseS + off, 1, value);
            var status := if side == NonSecure then 32 else 36;
            var cleared := RegWrite(r.0, status + 16, 4, 0x1_0000).0;
            && r.1 && r.0.flash == c.flash[off := value % 256]
            && r.0.regs[status + 2] % 2 == 1 && cleared.regs[status + 2] % 2 == 0 && cleared.flash == r.0.flash
  {
    OpeningUnlocks(c, side);
    assert ToLe(value, 1) == [value % 256];
    var c1 := Opening(c, side);
    hide ToLe, Opening, Pg, Lock, EopSet, RegWrite, SectorBlank;
    if c1.writeOnce { ErasedBlank(c1.flash, off); }
    var r := Store(c1, side, c.baseS + off, 1, value);
    assert r == (c1.(flash := Splice(c1.flash, off, [value % 256]), regs := EopSet(c1.regs, side)), true);
    EopBits(c1, r.0, side);
  }

  lemma ErasedBlank(flash: seq<u8>, off: nat)
    requires forall k :: 0 <= k < |flash| ==> flash[k] == 0xFF
    ensures SectorBlank(flash, off)
  {
  }

  lemma EopBits(c: Ctl, c1: Ctl, side: Security)
    requires c.Valid() && c1.Valid() && c1.regs == EopSet(c.regs, side)
    ensures var status := if side == NonSecure then 32 else 36;
            var cleared := RegWrite(c1, status + 16, 4, 0x1_0000).0;
            c1.regs[status + 2] % 2 == 1 && cleared.regs[status + 2] % 2 == 0 && cleared.flash == c1.flash
  {
  }

  /** Sectors are a 256th of an even flash and a 128th of an odd one. */
  lemma SectorSizes(n: nat)
    ensures SectorSize(n) == if n % 2 == 0 then n / 256 else n / 128
  {
    var q, r := n / 256, n % 256;
    EuclidUnique(n / 2, 128, q, r / 2);
  }

  /** Both windows show the same flash. */
  lemma FlashWindowsAgree(c: Ctl, off: nat)
    requires c.Valid() && off < |c.flash| && c.baseNs + |c.flash| <= c.baseS
    ensures FlashOffset(c, c.baseS + off) == Some(off) == FlashOffset(c, c.baseNs + off)
  {
  }

  /** A store to a locked side, or without PG, is accepted and ignored. */
  lemma IgnoredStores(c: Ctl, side: Security, addr: u32, size: nat, value: u32)
    requires c.Valid() && (c.Locked(side) || !Pg(c.Low(side)))
    requires FlashOffset(c, addr).Some? && FlashOffset(c, addr).value + size <= |c.flash|
    ensures Store(c, side, addr, size, value) == (c, true)
  {
    hide Pg, Lock;
  }

  /** Refused: register stores of no byte or more than four, or beyond the block, and flash stores outside
      the flash or, once permitted, of other widths than 1, 2 and 4. */
  lemma RefusedStores(c: Ctl, side: Security, at: u32, size: nat, value: u32)
    requires c.Valid()
    ensures RegWrite(c, at, size, value).1 <==> 1 <= size <= 4 && at + size <= 1024
    ensures !RegWrite(c, at, size, value).1 ==> RegWrite(c, at, size, value).0 == c
    ensures !Store(c, side, at, size, value).1 <==>
              || FlashOffset(c, at) == None || FlashOffset(c, at).value + size > |c.flash|
              || (MayProgram(c, side, FlashOffset(c, at).value) && size != 1 && size != 2 && size != 4)
    ensures !Store(c, side, at, size, value).1 ==> Store(c, side, at, size, value).0 == c
  {
    hide MayProgram, ControlWrite, KeyWrite, EopCleared, Copied, ToLe;
  }

  // ---------------------------------------------------------------- the mutable controller

  class Controller {
    const regs: array<u8>
    var stage: Banked
    const flash: array<u8>
    const baseS: u32
    const baseNs: u32
    const writeOnce: bool

    constructor (memory: array<u8>, s: u32, ns: u32, once: bool)
      ensures fresh(regs) && regs.Length == REG_SIZE && flash == memory && baseS == s && baseNs == ns && writeOnce == once
      ensures View().Locked(Secure) && View().Locked(NonSecure) && stage == Banked(0, 0)
    {
      regs := new u8[REG_SIZE](i => if i == 0x00 then 0x13 else if i == 0x28 || i == 0x2C then 1 else 0);
      stage, flash, baseS, baseNs, writeOnce := Banked(0, 0), memory, s, ns, once;
    }

    ghost predicate Valid()
      reads this, regs, flash
    {
      regs != flash && View().Valid()
    }

    ghost function View(): Ctl
      reads this, regs, flash
    {
      Ctl(regs[..], stage, flash[..], baseS, baseNs, writeOnce)
    }

    method HandleKey(side: Security, value: u32)
      requires Valid()
      modifies this, regs
      ensures Valid() && View() == KeyWrite(old(View()), side, value)
    {
      if stage.Get(side) == 0 {
        stage := stage.Set(side, if value == KEY1 then 1 else 0);
        return;
      }
      if value == KEY2 {
        regs[ControlReg(side)] := Even(regs[ControlReg(side)]);
      }
      stage := stage.Set(side, 0);
    }

    method ApplyErase(side: Security)
      requires Valid()
      modifies regs, flash
      ensures Valid() && View() == Erase(old(View()), side)
    {
      hide EraseRange, Filled, Even, Odd;
      var cr := ControlReg(side);
      var range := EraseRange(regs[cr..cr + 4], flash.Length);
      assert regs[cr..cr + 4] == View().Cr(side);
      if range == None { return; }
      var sr := StatusReg(side);
      StrtBit(regs[sr]);
      regs[sr] := Odd(regs[sr]);
      Fill(flash, range.value.0, range.value.1);
      regs[sr] := Even(regs[sr]);
      regs[sr + 2] := Odd(regs[sr + 2]);
    }

    method ControlStore(side: Security, size: nat, value: u32)
      requires Valid() && Width(size)
      modifies regs, flash
      ensures Valid() && View() == ControlWrite(old(View()), side, size, value)
    {
      LowByte(value, size);
      var cr := ControlReg(side);
      if Lock(regs[cr]) && !Lock(value) { return; }
      PutBytes(regs, cr, size, value);
      if Lock(value) { regs[cr] := Odd(regs[cr]); }
      if Strt(value) {
        ApplyErase(side);
        regs[cr] := ClearStrt(regs[cr]);
      }
    }

    /** `flash_write`. */
    method RegStore(offset: u32, size: nat, value: u32) returns (ok: bool)
      requires Valid()
      modifies this, regs, flash
      ensures Valid() && (View(), ok) == RegWrite(old(View()), offset, size, value)
    {
      hide ControlWrite, KeyWrite, Even, ToLe;
      if !Width(size) || offset + size > REG_SIZE { return false; }
      ok := true;
      if offset == 0x04 {
        HandleKey(NonSecure, value);
      } else if offset == 0x08 {
        HandleKey(Secure, value);
      } else if offset == 0x30 {
        if value / 0x1_0000 % 2 == 1 { regs[0x22] := Even(regs[0x22]); }
      } else if offset == 0x34 {
        if value / 0x1_0000 % 2 == 1 { regs[0x26] := Even(regs[0x26]); }
      } else if offset == 0x28 {
        ControlStore(NonSecure, size, value);
      } else if offset == 0x2C {
        ControlStore(Secure, size, value);
      } else {
        PutBytes(regs, offset, size, value);
      }
    }

    /** The write-once scan. */
    method ScanSector(off: nat) returns (blank: bool)
      requires SectorSize(flash.Length) > 0
      ensures blank <==> SectorBlank(flash[..], off)
    {
      hide SectorSize, SectorBase;
      var ss := SectorSize(flash.Length);
      var base := SectorBase(flash.Length, off);
      var i := 0;
      while i < ss
        invariant 0 <= i <= ss
        invariant forall k :: 0 <= k < flash.Length && base <= k < base + i ==> flash[k] == 0xFF
      {
        if base + i >= flash.Length { break; }
        if flash[base + i] != 0xFF {
          assert flash[..][base + i] != 0xFF;
          return false;
        }
        i := i + 1;
      }
      blank := true;
    }

    method Program(sec: Security, addr: u32, size: nat, value: u32) returns (ok: bool)
      requires Valid()
      modifies regs, flash
      ensures Valid() && (View(), ok) == Store(old(View()), sec, addr, size, value)
    {
      hide SectorBlank, Odd, ToLe, SectorSize, Pg, Lock;
      var off: nat;
      if baseS <= addr < baseS + flash.Length { off := addr - baseS; }
      else if baseNs <= addr < baseNs + flash.Length { off := addr - baseNs; }
      else { return false; }
      if off + size > flash.Length { return false; }
      var cr, sr := ControlReg(sec), StatusReg(sec);
      if Lock(regs[cr]) { return true; }
      if !Pg(regs[cr]) { return true; }
      if writeOnce && SectorSize(flash.Length) != 0 {
        var blank := ScanSector(off);
        if !blank { return true; }
      }
      if !BusSize(size) { return false; }
      PutBytes(flash, off, size, value);
      regs[sr + 2] := Odd(regs[sr + 2]);
      ok := true;
    }
  }

  /** memset to 0xFF. */
  method Fill(a: array<u8>, start: nat, len: nat)
    requires start + len <= a.Length
    modifies a
    ensures a[..] == Filled(old(a[..]), start, len)
  {
    var i := 0;
    while i < len
      invariant 0 <= i <= len
      invariant forall k :: 0 <= k < a.Length ==> a[k] == if start <= k < start + i then 0xFF else old(a[k])
    {
      a[start + i] := 0xFF;
      i := i + 1;
    }
  }

  /** Copies the low bytes of `value`, least significant first. */
  method PutBytes(a: array<u8>, off: nat, size: nat, value: u32)
    requires off + size <= a.Length
    modifies a
    ensures a[..] == Splice(old(a[..]), off, ToLe(value, size))
  {
    ghost var bytes := ToLe(value, size);
    var i, v: nat := 0, value;
    while i < size
      invariant 0 <= i <= size && bytes[i..] == ToLe(v, size - i)
      invariant forall k :: 0 <= k < a.Length ==> a[k] == if off <= k < off + i then bytes[k - off] else old(a[k])
    {
      assert bytes[i] == bytes[i..][0] == v % 0x100;
      assert bytes[i..][1..] == bytes[i + 1..];
      a[off + i] := v % 0x100;
      v := v / 0x100;
      i := i + 1;
    }
  }
}
