/** SysTick in virtual time (src/scs.c:880-991): a closed-form jump over many cycles. */
module SysTick {
  import opened Words

  const COUNTER_RANGE := 0x100_0000

  /** `wraps` is a 64-bit running total. */
  datatype State = State(enable: bool, tickInt: bool, load: u32, val: u32, countFlag: bool, wraps: u64, pending: bool)

  predicate Counting(s: State) { s.enable && s.load % COUNTER_RANGE != 0 }

  /** The 24-bit counter about to be decremented: zero means "reload first". */
  function Current(s: State): nat {
    var cur := s.val % COUNTER_RANGE;
    if cur == 0 then s.load % COUNTER_RANGE else cur
  }

  /** Raises COUNTFLAG and, if enabled, the SysTick exception, when there were wraps. */
  function Settle(s: State, val: u32, wraps: nat): State {
    if wraps == 0 then s.(val := val)
    else s.(val := val, wraps := (s.wraps + wraps) % U64, countFlag := true, pending := s.pending || s.tickInt)
  }

  /** `mm_scs_systick_advance`: the state after `n` cycles and the number of wraps. */
  function Advance(s: State, n: nat): (r: (State, nat)) {
    if n == 0 || !Counting(s) then (s, 0)
    else
      var load := s.load % COUNTER_RANGE;
      var cur := Current(s);
      if n < cur then (Settle(s, cur - n, 0), 0)
      else
        var rest := n - cur;
        QuotMod(rest, load);
        var wraps := 1 + Quot(rest, load);
        (Settle(s, load - Mod(rest, load), wraps), wraps)
  }

  // ---------------------------------------------------------------- the simple form

  /** One cycle of a down-counter that reloads when it reaches zero. */
  function Step(s: State): State {
    if !Counting(s) then s
    else if Current(s) == 1 then Settle(s, s.load % COUNTER_RANGE, 1)
    else s.(val := Current(s) - 1)
  }

  function Steps(s: State, n: nat): State
    decreases n
  {
    if n == 0 then s else Steps(Step(s), n - 1)
  }

  lemma StepIsAdvance(s: State)
    ensures Advance(s, 1).0 == Step(s)
  {
    hide Quot, Mod, Settle;
    if Counting(s) && Current(s) == 1 {
      ModSmall(0, s.load % COUNTER_RANGE);
    } else if Counting(s) {
      SettleNone(s, Current(s) - 1);
    }
  }

  lemma SettleNone(s: State, v: u32)
    ensures Settle(s, v, 0) == s.(val := v)
  {
  }

  /** Division step used when the jump crosses one more reload. */
  lemma PeelReload(rest: nat, load: nat)
    requires load > 0 && rest >= load
    ensures Quot(rest, load) == 1 + Quot(rest - load, load) && Mod(rest, load) == Mod(rest - load, load)
  {
    hide Quot, Mod;
    QuotMod(rest - load, load);
    QuotModUnique(rest, load, 1 + Quot(rest - load, load), Mod(rest - load, load));
  }

  /** Wrap totals add up modulo 2^64, so settling twice is settling once. */
  lemma SettleTwice(s: State, v: u32, a: nat, w: u32, b: nat)
    ensures Settle(Settle(s, v, a), w, b) == Settle(s, w, a + b)
  {
    if a > 0 && b > 0 {
      ModAdd(s.wraps, a, b);
    }
  }

  lemma ModAdd(x: nat, a: nat, b: nat)
    ensures ((x + a) % U64 + b) % U64 == (x + a + b) % U64
  {
    var q, r := (x + a) / U64, (x + a) % U64;
    var q', r' := (r + b) / U64, (r + b) % U64;
    assert x + a + b == U64 * (q + q') + r';
    EuclidUnique(x + a + b, U64, q + q', r');
  }

  /** Settling keeps the configuration. */
  lemma SettleConfig(s: State, v: u32, w: nat)
    ensures var t := Settle(s, v, w);
            t.enable == s.enable && t.tickInt == s.tickInt && t.load == s.load && t.val == v && Counting(t) == Counting(s)
  {
  }

  /** A jump of n+1 cycles is one cycle and then a jump of n. */
  lemma AdvanceSplitsFirst(s: State, n: nat)
    ensures Advance(s, n + 1).0 == Advance(Step(s), n).0
    ensures Advance(s, n + 1).1 == Advance(s, 1).1 + Advance(Step(s), n).1
  {
    hide Quot, Mod, Settle;
    StepIsAdvance(s);
    if Counting(s) && n > 0 {
      var cur := Current(s);
      if cur == 1 {
        FirstWraps(s, n);
      } else {
        var t := Step(s);
        assert Current(t) == cur - 1 && Counting(t);
        SettleNone(s, cur - 1);
        if n + 1 < cur {
          SettleTwice(s, cur - 1, 0, cur - n - 1, 0);
        } else {
          var load, rest := s.load % COUNTER_RANGE, n + 1 - cur;
          QuotMod(rest, load);
          SettleTwice(s, cur - 1, 0, ValueAfter(load, rest), 1 + Quot(rest, load));
        }
      }
    }
  }

  /** The count left after `rest` cycles of counting from the reload value. */
  function ValueAfter(load: nat, rest: nat): (v: u32)
    requires 0 < load < COUNTER_RANGE
  {
    load - Mod(rest, load)
  }

  lemma FirstWraps(s: State, n: nat)
    requires Counting(s) && Current(s) == 1 && n > 0
    ensures Advance(s, n + 1).0 == Advance(Step(s), n).0
    ensures Advance(s, n + 1).1 == 1 + Advance(Step(s), n).1
    ensures Advance(s, 1).1 == 1
  {
    hide Settle, Quot, Mod;
    var load := s.load % COUNTER_RANGE;
    var t := Step(s);
    SettleConfig(s, load, 1);
    assert Current(t) == load;
    ModSmall(0, load);
    if n < load {
      ModSmall(n, load);
      SettleTwice(s, load, 1, load - n, 0);
    } else {
      PeelReload(n, load);
      QuotMod(n - load, load);
      SettleTwice(s, load, 1, ValueAfter(load, n - load), 1 + Quot(n - load, load));
    }
  }

  /** The jump equals `n` single cycles: value, wrap total, COUNTFLAG and pending bit, for every
      reload value and every starting count. */
  lemma {:induction false} AdvanceIsSteps(s: State, n: nat)
    ensures Advance(s, n).0 == Steps(s, n)
    decreases n
  {
    if n > 0 {
      AdvanceSplitsFirst(s, n - 1);
      AdvanceIsSteps(Step(s), n - 1);
    }
  }

  lemma {:induction false} StepsAdd(s: State, a: nat, b: nat)
    ensures Steps(s, a + b) == Steps(Steps(s, a), b)
    decreases a
  {
    if a > 0 {
      StepsAdd(Step(s), a - 1, b);
    }
  }

  /** Splitting a jump changes nothing. */
  lemma AdvanceAdds(s: State, a: nat, b: nat)
    ensures Advance(s, a + b).0 == Advance(Advance(s, a).0, b).0
  {
    AdvanceIsSteps(s, a + b);
    AdvanceIsSteps(s, a);
    AdvanceIsSteps(Advance(s, a).0, b);
    StepsAdd(s, a, b);
  }

  // ---------------------------------------------------------------- the registers, written out

  /** Cycles until the first reload: the count, or the reload value if the count is zero. */
  function FirstReload(s: State): nat { if s.val % 0x100_0000 == 0 then s.load % 0x100_0000 else s.val % 0x100_0000 }

  /** An enabled counter counts 24 bits down from the first reload on, and each reload sets COUNTFLAG and,
      with TICKINT, pends SysTick. */
  lemma AdvanceRegisters(s: State, n: nat)
    requires s.enable && s.load % 0x100_0000 > 0 && n > 0
    ensures var l, first := s.load % 0x100_0000, FirstReload(s);
            var t := Advance(s, n).0;
            && t.val == (if n < first then first - n else l - Mod(n - first, l))
            && (t.countFlag <==> s.countFlag || n >= first)
            && (t.pending <==> s.pending || (n >= first && s.tickInt))
            && t.enable == s.enable && t.tickInt == s.tickInt && t.load == s.load
            && t.wraps == (s.wraps + Advance(s, n).1) % 0x1_0000_0000_0000_0000
  {
    hide Mod, Quot;
    if n >= FirstReload(s) { QuotMod(n - FirstReload(s), s.load % 0x100_0000); }
  }

  /** Reloads happen at the first one and then every LOAD cycles, and at no other cycle. */
  lemma ReloadsExactlyAt(s: State, n: nat)
    requires s.enable && s.load % 0x100_0000 > 0 && n > 0
    ensures var l, first := s.load % 0x100_0000, FirstReload(s);
            Advance(s, n).1 == Advance(s, n - 1).1 + (if n >= first && Mod(n - first, l) == 0 then 1 else 0)
  {
    var l, first := s.load % 0x100_0000, FirstReload(s);
    hide Mod, Quot;
    if n == first {
      ModSmall(0, l);
    } else if n > first {
      QuotNext(n - 1 - first, l);
    }
  }

  lemma QuotNext(x: nat, d: nat)
    requires d > 0
    ensures Quot(x + 1, d) == Quot(x, d) + (if Mod(x + 1, d) == 0 then 1 else 0)
  {
    hide Mod, Quot;
    QuotMod(x, d);
    if Mod(x, d) + 1 < d {
      QuotModUnique(x + 1, d, Quot(x, d), Mod(x, d) + 1);
    } else {
      QuotModUnique(x + 1, d, Quot(x, d) + 1, 0);
    }
  }

  /** A disabled counter, or one with a zero reload value, stands still. */
  lemma StandsStill(s: State, n: nat)
    requires !s.enable || s.load % 0x100_0000 == 0
    ensures Advance(s, n) == (s, 0) && CyclesUntilFire(s) == None
  {
  }

  // ---------------------------------------------------------------- waking from WFI

  /** `mm_scs_systick_cycles_until_fire`; `None` stands for the all-ones answer. */
  function CyclesUntilFire(s: State): Option<nat> {
    if Counting(s) then Some(Current(s)) else None
  }

  /** The answer is the earliest wrap: a shorter jump makes none, this one makes exactly one and
      leaves the reload value; without an answer no jump ever wraps. */
  lemma FireIsEarliestWrap(s: State, n: nat)
    ensures CyclesUntilFire(s) == None ==> Advance(s, n) == (s, 0)
    ensures CyclesUntilFire(s).Some? && n < CyclesUntilFire(s).value ==> Advance(s, n).1 == 0
    ensures CyclesUntilFire(s).Some? ==>
              var r := Advance(s, CyclesUntilFire(s).value);
              && r.1 == 1 && r.0.val == s.load % COUNTER_RANGE && r.0.countFlag
              && (r.0.pending <==> s.pending || s.tickInt)
  {
    hide Quot, Mod;
    if Counting(s) {
      ModSmall(0, s.load % COUNTER_RANGE);
    }
  }

  /** The sleep loop's jump is the run of single cycles up to and including the first one that
      pends SysTick: none of the earlier cycles does. */
  lemma SleepJumpIsExact(s: State, n: nat)
    requires CyclesUntilFire(s).Some? && s.tickInt && !s.pending && n < CyclesUntilFire(s).value
    ensures !Steps(s, n).pending
    ensures Advance(s, CyclesUntilFire(s).value).0 == Steps(s, CyclesUntilFire(s).value)
    ensures Steps(s, CyclesUntilFire(s).value).pending
  {
    AdvanceIsSteps(s, n);
    AdvanceIsSteps(s, CyclesUntilFire(s).value);
    FireIsEarliestWrap(s, n);
  }

  // ---------------------------------------------------------------- the mutable timer

  class Timer {
    var enable: bool
    var tickInt: bool
    var load: u32
    var val: u32
    var countFlag: bool
    var wrapTotal: u64
    var pending: bool

    function View(): State
      reads this
    {
      State(enable, tickInt, load, val, countFlag, wrapTotal, pending)
    }

    /** The result is the wrap count truncated to 32 bits, as in the source. */
    method AdvanceBy(cycles: u64) returns (r: u32)
      modifies this
      ensures View() == Advance(old(View()), cycles).0
      ensures r == Wrap(Advance(old(View()), cycles).1)
    {
      hide Settle, Quot, Mod;
      r := 0;
      if cycles == 0 || !enable { return; }
      var reload := load % COUNTER_RANGE;
      if reload == 0 { return; }
      var cur: int := val % COUNTER_RANGE;
      if cur == 0 { cur := reload; }
      var wraps: int := 0;
      if cycles < cur {
        cur := cur - cycles;
      } else {
        var remaining := cycles - cur;
        QuotMod(remaining, reload);
        wraps := 1 + Quot(remaining, reload);
        var rem := Mod(remaining, reload);
        cur := if rem == 0 then reload else reload - rem;
      }
      Account(cur, wraps);
      r := Wrap(wraps);
    }

    method Account(v: u32, wraps: nat)
      modifies this
      ensures View() == Settle(old(View()), v, wraps)
    {
      val := v;
      if wraps > 0 {
        wrapTotal := (wrapTotal + wraps) % U64;
        countFlag := true;
        if tickInt { pending := true; }
      }
    }

    method UntilFire() returns (r: Option<nat>)
      ensures r == CyclesUntilFire(View())
    {
      if !enable { return None; }
      var reload := load % COUNTER_RANGE;
      if reload == 0 { return None; }
      var cur := val % COUNTER_RANGE;
      if cur == 0 { cur := reload; }
      r := Some(cur);
    }
  }
}
