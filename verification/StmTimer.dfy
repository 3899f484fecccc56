/** STM32 general-purpose timers (cpu/stm32h563/stm32h563_timers.c:100-203): many prescaled ticks
    applied at once, counting up or down. */
module StmTimer {
  import opened Words

  /** CR1 bits, DIER.UIE, SR.UIF, the pending interrupt and the counter registers. `wide` tells
      a 32-bit `arr_mask` from a 16-bit one; `clock` is the RCC gate. */
  datatype Tim = Tim(
    cen: bool, udis: bool, opm: bool, down: bool, uie: bool, uif: bool, pending: bool,
    cnt: u32, psc: u32, arr: u32, wide: bool, accum: u64, clock: bool
  ) {
    ghost predicate Valid() { psc <= 0xFFFF }

    /** `x & arr_mask`. */
    function Masked(x: u32): u32 { if wide then x else x % 0x1_0000 }

    function Arr(): nat { Masked(arr) }

    function Period(): nat { Arr() + 1 }

    /** The counter, pulled back to the reload value if it lies above it. */
    function Clamped(): nat { if Masked(cnt) > Arr() then Arr() else Masked(cnt) }
  }

  /** `tim_raise_update`: an update event, unless updates are disabled. */
  function Raise(t: Tim): Tim {
    if t.udis then t
    else t.(uif := true, pending := t.pending || t.uie, cen := if t.opm then false else t.cen)
  }

  function Settle(t: Tim, cnt: u32, wrapped: bool): Tim {
    if wrapped then Raise(t.(cnt := cnt)) else t.(cnt := cnt)
  }

  function TickUp(t: Tim, ticks: nat): Tim
    requires t.Valid()
  {
    if ticks == 0 then t
    else
      var arr, cnt := t.Arr(), t.Clamped();
      var toOverflow := arr - cnt + 1;
      if ticks >= toOverflow then
        var rest := ticks - toOverflow;
        Settle(t, if rest >= t.Period() then Mod(rest, t.Period()) else rest, true)
      else Settle(t, cnt + ticks, false)
  }

  function TickDown(t: Tim, ticks: nat): Tim
    requires t.Valid()
  {
    if ticks == 0 then t
    else
      var arr, cnt := t.Arr(), t.Clamped();
      var toUnderflow := cnt + 1;
      if ticks >= toUnderflow then
        var rest := ticks - toUnderflow;
        var rem := if rest >= t.Period() then Mod(rest, t.Period()) else rest;
        Settle(t, if rem == 0 then arr else arr - rem, true)
      else Settle(t, cnt - ticks, false)
  }

  predicate Runs(t: Tim) { t.cen && t.clock }

  function Div(t: Tim): nat { t.psc + 1 }

  /** Counter ticks in `cycles`, and the prescaler remainder they leave. */
  function Ticks(t: Tim, cycles: nat): nat { Quot(t.accum + cycles, Div(t)) }

  function Rest(t: Tim, cycles: nat): (r: u64)
    requires t.Valid()
    ensures r < Div(t)
  {
    Mod(t.accum + cycles, Div(t))
  }

  /** `tim_tick`: the 64-bit cycle accumulator feeds the prescaler. */
  function Tick(t: Tim, cycles: u64): Tim
    requires t.Valid()
  {
    if !Runs(t) then t
    else
      var total := (t.accum + cycles) % U64;
      var t0 := t.(accum := total);
      var t1 := t.(accum := Rest(t0, 0));
      if t.down then TickDown(t1, Ticks(t0, 0)) else TickUp(t1, Ticks(t0, 0))
  }

  // ---------------------------------------------------------------- what ticking computes

  /** The counter moves by `ticks` modulo the period, in its direction; an update event happens
      exactly when it leaves [0, ARR]. */
  function Moved(t: Tim, ticks: int): int
    requires t.Valid()
  {
    if t.down then t.Clamped() - ticks else t.Clamped() + ticks
  }

  predicate Leaves(t: Tim, ticks: int)
    requires t.Valid()
  {
    Moved(t, ticks) < 0 || Moved(t, ticks) > t.Arr()
  }

  function Closed(t: Tim, ticks: nat): Tim
    requires t.Valid()
  {
    if ticks == 0 then t else Settle(t, Mod(Moved(t, ticks), t.Period()), Leaves(t, ticks))
  }

  function TickBy(t: Tim, ticks: nat): Tim
    requires t.Valid()
  {
    if t.down then TickDown(t, ticks) else TickUp(t, ticks)
  }

  /** The code's case analysis is modular arithmetic. */
  lemma TickIsModular(t: Tim, ticks: nat)
    requires t.Valid()
    ensures TickBy(t, ticks) == Closed(t, ticks)
  {
    hide Settle, Mod;
    if ticks > 0 {
      if t.down { DownIsModular(t, ticks); } else { UpIsModular(t, ticks); }
    }
  }

  lemma UpIsModular(t: Tim, ticks: nat)
    requires t.Valid() && ticks > 0 && !t.down
    ensures TickUp(t, ticks) == Closed(t, ticks)
  {
    hide Settle, Mod;
    var p, c := t.Period(), t.Clamped();
    if c + ticks < p {
      ModSmall(c + ticks, p);
    } else {
      var rest := c + ticks - p;
      if rest < p { ModSmall(rest, p); }
      WholePeriod(rest, p);
    }
  }

  /** A whole period more or less leaves the remainder alone. */
  lemma WholePeriod(x: int, p: int)
    requires p > 0
    ensures Mod(x + p, p) == Mod(x, p)
  {
    QuotModUnique(p, p, 1, 0);
    ModReturns(x, p, p);
  }

  lemma DownIsModular(t: Tim, ticks: nat)
    requires t.Valid() && ticks > 0 && t.down
    ensures TickDown(t, ticks) == Closed(t, ticks)
  {
    hide Settle, Mod;
    var p, c := t.Period(), t.Clamped();
    if ticks <= c {
      ModSmall(c - ticks, p);
    } else {
      var rest := ticks - c - 1;
      if rest < p { ModSmall(rest, p); }
      Mirror(rest, p);
    }
  }

  /** Counting down from the top mirrors counting up from zero. */
  lemma Mirror(x: int, p: int)
    requires p > 0
    ensures Mod(-x - 1, p) == p - 1 - Mod(x, p)
  {
    hide Mod, Quot;
    QuotMod(x, p);
    assert -x - 1 == p * (-Quot(x, p) - 1) + (p - 1 - Mod(x, p));
    QuotModUnique(-x - 1, p, -Quot(x, p) - 1, p - 1 - Mod(x, p));
  }

  // ---------------------------------------------------------------- batches add up

  /** An update event stops a running one-pulse counter. */
  predicate StopsOnUpdate(t: Tim) { t.opm && !t.udis }

  /** Settling twice is settling once: flags only ever get set. */
  lemma SettleTwice(t: Tim, a: u32, w: bool, b: u32, w': bool)
    ensures Settle(Settle(t, a, w), b, w') == Settle(t, b, w || w')
  {
  }

  lemma SettleFields(t: Tim, a: u32, w: bool)
    requires t.Valid()
    ensures var s := Settle(t, a, w);
            && s.Valid() && s.cnt == a && s.arr == t.arr && s.wide == t.wide && s.down == t.down
            && s.psc == t.psc && s.accum == t.accum && s.clock == t.clock && s.opm == t.opm && s.udis == t.udis
            && (s.cen == if w && StopsOnUpdate(t) then false else t.cen)
  {
  }

  lemma ClosedAdds(t: Tim, x: nat, y: nat)
    requires t.Valid()
    ensures Closed(t, x).Valid() && Closed(t, x + y) == Closed(Closed(t, x), y)
  {
    hide Settle, Mod;
    if x > 0 {
      SettleFields(t, Mod(Moved(t, x), t.Period()), Leaves(t, x));
      if y > 0 {
        var p, m, t1 := t.Period(), Moved(t, x), Closed(t, x);
        var dir: int := if t.down then -1 else 1;
        ModShift(m, dir * y, p);
        if !Leaves(t, x) { ModSmall(m, p); }
        assert t1.Arr() == t.Arr() && t1.Clamped() == Mod(m, p) && t1.down == t.down;
        assert Moved(t1, y) == Mod(m, p) + dir * y && Moved(t, x + y) == m + dir * y;
        LeavesJoin(t, t1, x, y);
        SettleTwice(t, Mod(m, p), Leaves(t, x), Mod(Moved(t, x + y), p), Leaves(t1, y));
      }
    }
  }

  /** The joined batch leaves the range exactly when one of its parts does. */
  lemma LeavesJoin(t: Tim, t1: Tim, x: nat, y: nat)
    requires t.Valid() && t1.Valid() && t1.Arr() == t.Arr() && t1.down == t.down
    requires !Leaves(t, x) ==> t1.Clamped() == Moved(t, x)
    ensures Leaves(t, x + y) <==> Leaves(t, x) || Leaves(t1, y)
  {
  }

  /** Does the first batch contain an update event? */
  predicate WrapsWithin(t: Tim, cycles: nat)
    requires t.Valid()
  {
    Ticks(t, cycles) > 0 && Leaves(t, Ticks(t, cycles))
  }

  lemma TickClosed(t: Tim, a: u64)
    requires t.Valid() && Runs(t) && t.accum + a < U64
    ensures Tick(t, a) == Closed(t.(accum := Rest(t, a)), Ticks(t, a))
  {
    hide TickUp, TickDown, Closed, Mod, Quot;
    assert (t.accum + a) % U64 == t.accum + a;
    TickIsModular(t.(accum := Rest(t, a)), Ticks(t, a));
  }

  /** The accumulator is not read by the counter. */
  lemma ClosedAccum(t: Tim, acc: u64, ticks: nat)
    requires t.Valid()
    ensures Closed(t.(accum := acc), ticks) == Closed(t, ticks).(accum := acc)
  {
    hide Settle, Mod;
    if ticks > 0 {
      MovedAccum(t, acc, ticks);
      SettleAccum(t, acc, Mod(Moved(t, ticks), t.Period()), Leaves(t, ticks));
    }
  }

  lemma MovedAccum(t: Tim, acc: u64, ticks: int)
    requires t.Valid()
    ensures var u := t.(accum := acc);
            u.Period() == t.Period() && Moved(u, ticks) == Moved(t, ticks) && Leaves(u, ticks) == Leaves(t, ticks)
  {
  }

  lemma SettleAccum(t: Tim, acc: u64, cnt: u32, w: bool)
    ensures Settle(t.(accum := acc), cnt, w) == Settle(t, cnt, w).(accum := acc)
  {
  }

  lemma ClosedFields(t: Tim, ticks: nat)
    requires t.Valid()
    ensures var s := Closed(t, ticks);
            && s.Valid() && s.psc == t.psc && s.clock == t.clock && s.accum == t.accum
            && (s.cen == if ticks > 0 && Leaves(t, ticks) && StopsOnUpdate(t) then false else t.cen)
  {
    hide Settle, Mod;
    if ticks > 0 { SettleFields(t, Mod(Moved(t, ticks), t.Period()), Leaves(t, ticks)); }
  }

  /** While the counter keeps running, two batches are one. */
  lemma TickAdds(t: Tim, a: u64, b: u64)
    requires t.Valid() && t.accum + a + b < U64
    requires !(Runs(t) && StopsOnUpdate(t) && WrapsWithin(t, a))
    ensures Tick(t, a).Valid() && Tick(t, a + b) == Tick(Tick(t, a), b)
  {
    hide Closed, Tick, TickUp, TickDown, Leaves, Mod, Quot, Ticks, Rest;
    if Runs(t) {
      var x := Ticks(t, a);
      var t1 := t.(accum := Rest(t, a));
      TickClosed(t, a);
      ClosedFields(t1, x);
      MovedAccum(t, Rest(t, a), x);
      TickClosed(t, a + b);
      PrescalerCarries(t, t1, a, b);
      PrescalerCarries(t, Tick(t, a), a, b);
      TickClosed(Tick(t, a), b);
      JoinBatches(t, t1, x, Ticks(t1, b), Rest(t, a + b));
    } else {
      Stopped(t, a);
      Stopped(t, b);
      Stopped(t, a + b);
    }
  }

  /** Prescaler remainders carry over into the next batch. */
  lemma PrescalerCarries(t: Tim, u: Tim, a: nat, b: nat)
    requires t.Valid() && u.Valid() && u.psc == t.psc && u.accum == Rest(t, a)
    ensures Ticks(t, a) >= 0 && Ticks(u, b) >= 0
    ensures Ticks(t, a + b) == Ticks(t, a) + Ticks(u, b) && Rest(u, b) == Rest(t, a + b)
    ensures u.accum <= t.accum + a
  {
    hide Mod, Quot;
    QuotMod(t.accum + a, Div(t));
    QuotMod(u.accum + b, Div(t));
    ModShift(t.accum + a, b, Div(t));
  }

  lemma Stopped(t: Tim, a: u64)
    requires t.Valid() && !Runs(t)
    ensures Tick(t, a) == t
  {
  }

  lemma JoinBatches(t: Tim, t1: Tim, x: nat, y: nat, acc: u64)
    requires t.Valid() && t1 == t.(accum := t1.accum)
    ensures Closed(t1, x).Valid()
    ensures Closed(Closed(t1, x).(accum := acc), y) == Closed(t.(accum := acc), x + y)
  {
    hide Closed;
    ClosedFields(t1, x);
    ClosedAccum(Closed(t1, x), acc, y);
    ClosedAdds(t1, x, y);
    ClosedAccum(t, t1.accum, x + y);
    ClosedAccum(t, acc, x + y);
  }

  /** A running timer's registers after a batch, written out: the counter moves by the prescaled ticks modulo
      ARR+1; when it leaves [0, ARR] an update event sets UIF, pends the interrupt with UIE and stops the
      counter with OPM, unless UDIS is set. */
  lemma TickRegisters(t: Tim, cycles: u64)
    requires t.Valid() && t.cen && t.clock && t.accum + cycles < U64
    ensures var arr: int := if t.wide then t.arr else t.arr % 0x1_0000;
            var cnt: int := if t.wide then t.cnt else t.cnt % 0x1_0000;
            var n := Quot(t.accum + cycles, t.psc + 1);
            var from := if cnt > arr then arr else cnt;
            var to := if t.down then from - n else from + n;
            var update := n > 0 && !(0 <= to <= arr) && !t.udis;
            var u := Tick(t, cycles);
            && u.cnt == (if n == 0 then t.cnt else Mod(to, arr + 1))
            && u.accum == Mod(t.accum + cycles, t.psc + 1)
            && (u.uif <==> t.uif || update)
            && (u.pending <==> t.pending || (update && t.uie))
            && (u.cen <==> !(update && t.opm))
            && u == t.(cnt := u.cnt, accum := u.accum, uif := u.uif, pending := u.pending, cen := u.cen)
  {
    hide Tick, Quot, Mod;
    TickClosed(t, cycles);
    QuotMod(t.accum + cycles, t.psc + 1);
  }

  /** A stopped or unclocked one does not change. */
  lemma TickStands(t: Tim, cycles: u64)
    requires t.Valid() && (!t.cen || !t.clock)
    ensures Tick(t, cycles) == t
  {
  }

  // ---------------------------------------------------------------- one-pulse mode: the exact limit

  /** `b` cycles bring prescaler and counter back to where they were. */
  predicate Neutral(t: Tim, b: nat)
    requires t.Valid()
  {
    Mod(b, Div(t)) == 0 && Mod(Quot(b, Div(t)), t.Period()) == 0
  }

  lemma StoppedBatches(t: Tim, a: u64, b: u64)
    requires t.Valid() && t.accum + a + b < U64
    requires Runs(t) && StopsOnUpdate(t) && WrapsWithin(t, a)
    ensures Tick(t, a).Valid() && Tick(Tick(t, a), b) == Tick(t, a)
    ensures Tick(t, a + b) == Tick(t, a).(cnt := Tick(t, a + b).cnt, accum := Rest(t, a + b))
    ensures Tick(t, a).accum == Rest(t, a)
    ensures Tick(t, a).cnt == Mod(Moved(t, Ticks(t, a)), t.Period())
    ensures Tick(t, a + b).cnt == Mod(Moved(t, Ticks(t, a + b)), t.Period())
  {
    hide Closed, Tick, Moved, Ticks, Rest, Runs, Mod;
    TickClosed(t, a);
    TickClosed(t, a + b);
    MoreTicks(t, a, b);
    assert Leaves(t, Ticks(t, a));
    StaysOut(t, Ticks(t, a), Ticks(t, a + b) - Ticks(t, a));
    ClosedStops(t, Rest(t, a), Ticks(t, a));
    ClosedStops(t, Rest(t, a + b), Ticks(t, a + b));
    Stopped(Tick(t, a), b) by { NotRunning(Tick(t, a)); }
  }

  lemma NotRunning(t: Tim)
    requires !t.cen
    ensures !Runs(t)
  {
  }

  lemma MoreTicks(t: Tim, a: nat, b: nat)
    requires t.Valid()
    ensures 0 <= Ticks(t, a) <= Ticks(t, a + b)
  {
    hide Mod, Quot;
    QuotMod(Mod(t.accum + a, Div(t)) + b, Div(t));
    ModShift(t.accum + a, b, Div(t));
  }

  /** A batch with an update event, in one-pulse mode. */
  lemma ClosedStops(t: Tim, acc: u64, ticks: nat)
    requires t.Valid() && StopsOnUpdate(t) && ticks > 0 && Leaves(t, ticks)
    ensures Closed(t.(accum := acc), ticks) ==
            t.(accum := acc, cnt := Mod(Moved(t, ticks), t.Period()), uif := true, pending := t.pending || t.uie, cen := false)
  {
    hide Moved, Mod;
    ClosedAccum(t, acc, ticks);
  }

  lemma StaysOut(t: Tim, x: nat, y: nat)
    requires t.Valid() && Leaves(t, x)
    ensures Leaves(t, x + y)
  {
  }

  lemma NeutralIff(t: Tim, a: u64, b: u64)
    requires t.Valid()
    ensures && Mod(Moved(t, Ticks(t, a + b)), t.Period()) == Mod(Moved(t, Ticks(t, a)), t.Period())
            && Rest(t, a + b) == Rest(t, a)
            <==> Neutral(t, b)
  {
    hide Moved, Mod, Quot;
    ModReturns(t.accum + a, b, Div(t));
    if Mod(b, Div(t)) == 0 {
      CounterReturns(t, Ticks(t, a), Quot(b, Div(t)));
    }
  }

  lemma CounterReturns(t: Tim, x: int, y: int)
    requires t.Valid()
    ensures Mod(Moved(t, x + y), t.Period()) == Mod(Moved(t, x), t.Period()) <==> Mod(y, t.Period()) == 0
  {
    hide Mod;
    ModReturns(Moved(t, x), if t.down then -y else y, t.Period());
    ModReturns(0, y, t.Period());
  }

  /** Splitting a batch changes nothing, except when the first part stops a one-pulse counter and
      the second part would have moved it. */
  lemma SplitIff(t: Tim, a: u64, b: u64)
    requires t.Valid() && t.accum + a + b < U64
    ensures Tick(t, a).Valid()
    ensures Tick(t, a + b) == Tick(Tick(t, a), b)
       <==> !(Runs(t) && StopsOnUpdate(t) && WrapsWithin(t, a)) || Neutral(t, b)
  {
    hide Tick, WrapsWithin, Neutral, Moved, Runs, StopsOnUpdate, Ticks, Rest;
    if !(Runs(t) && StopsOnUpdate(t) && WrapsWithin(t, a)) {
      TickAdds(t, a, b);
    } else {
      StoppedBatches(t, a, b);
      NeutralIff(t, a, b);
    }
  }

  /** One pulse of four ticks, split in the middle of a longer batch: the unsplit batch runs past the
      stop. */
  lemma OnePulseExample()
    ensures var t := Tim(true, false, true, false, false, false, false, 0, 0, 3, false, 0, true);
            Tick(t, 6).cnt == 2 && Tick(Tick(t, 4), 2).cnt == 0
  {
    var t := Tim(true, false, true, false, false, false, false, 0, 0, 3, false, 0, true);
    assert Ticks(t.(accum := 6), 0) == 6 && Ticks(t.(accum := 4), 0) == 4;
  }

  // ---------------------------------------------------------------- the mutable timer

  class Instance {
    var t: Tim

    method RaiseUpdate()
      modifies this
      ensures t == Raise(old(t))
    {
      if t.udis { return; }
      t := t.(uif := true);
      if t.uie { t := t.(pending := true); }
      if t.opm { t := t.(cen := false); }
    }

    method MoveTo(cnt: u32, wrapped: bool)
      modifies this
      ensures t == Settle(old(t), cnt, wrapped)
    {
      t := t.(cnt := cnt);
      if wrapped { RaiseUpdate(); }
    }

    method ApplyTickUp(ticks: nat)
      requires t.Valid()
      modifies this
      ensures t == TickUp(old(t), ticks)
    {
      hide Mod, Settle;
      if ticks == 0 { return; }
      var arr := t.Masked(t.arr);
      var cnt := t.Masked(t.cnt);
      var period := arr + 1;
      if cnt > arr { cnt := arr; }
      assert arr == t.Arr() && cnt == t.Clamped();
      hide Tim.Arr, Tim.Clamped, Tim.Masked;
      var toOverflow := arr - cnt + 1;
      if ticks >= toOverflow {
        var remaining := ticks - toOverflow;
        if remaining >= period { remaining := Mod(remaining, period); }
        MoveTo(remaining, true);
      } else {
        MoveTo(cnt + ticks, false);
      }
    }

    method ApplyTickDown(ticks: nat)
      requires t.Valid()
      modifies this
      ensures t == TickDown(old(t), ticks)
    {
      hide Mod, Settle;
      if ticks == 0 { return; }
      var arr := t.Masked(t.arr);
      var cnt := t.Masked(t.cnt);
      var period := arr + 1;
      if cnt > arr { cnt := arr; }
      assert arr == t.Arr() && cnt == t.Clamped();
      hide Tim.Arr, Tim.Clamped, Tim.Masked;
      var toUnderflow := cnt + 1;
      if ticks >= toUnderflow {
        var remaining := ticks - toUnderflow;
        if remaining >= period { remaining := Mod(remaining, period); }
        MoveTo(if remaining == 0 then arr else arr - remaining, true);
      } else {
        MoveTo(cnt - ticks, false);
      }
    }

    method Advance(cycles: u64)
      requires t.Valid()
      modifies this
      ensures t == Tick(old(t), cycles)
    {
      hide Mod, Quot, TickUp, TickDown;
      if !t.cen { return; }
      if !t.clock { return; }
      var div: nat := t.psc + 1;
      var total := (t.accum + cycles) % U64;
      QuotMod(total, div);
      t := t.(accum := Mod(total, div));
      if t.down { ApplyTickDown(Quot(total, div)); } else { ApplyTickUp(Quot(total, div)); }
    }
  }
}
