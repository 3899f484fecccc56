/** nRF5340 timers (cpu/nrf5340/nrf5340_timers.c:49-56, 191-232): compare events found by interval
    tests after a jump of many ticks. */
module NrfTimer {
  import opened Words

  const CHANNELS := 6

  datatype Timer = Timer(
    running: bool, hfClock: bool, prescaler: nat, bitMode: nat, counter: u32, accum: u64,
    cc: seq<u32>, events: seq<u32>, inten: seq<bool>, pending: bool
  ) {
    ghost predicate Valid() {
      prescaler <= 15 && bitMode <= 3 && |cc| == CHANNELS && |events| == CHANNELS && |inten| == CHANNELS
    }

    /** One more than `timer_bitmask`. */
    function Range(): (r: int)
      ensures 0 < r <= U32
    {
      if bitMode == 0 then 0x1_0000 else if bitMode == 1 then 0x100 else if bitMode == 2 then 0x100_0000 else U32
    }

    function Div(): (d: nat)
      ensures d > 0
    {
      Pow2(prescaler)
    }

    /** The compare value as the counter sees it. */
    function Compare(ch: nat): u32
      requires ch < |cc|
    {
      Mod(cc[ch], Range())
    }
  }

  function Pow2(n: nat): (p: nat)
    ensures p > 0
  {
    if n == 0 then 1 else 2 * Pow2(n - 1)
  }

  /** The interval test of the source. */
  predicate Hit(old_: u32, now: u32, cc: u32) {
    if old_ <= now then old_ < cc <= now else cc > old_ || cc <= now
  }

  /** `timer_set_event` on the first `n` channels that are hit. */
  function Channels(t: Timer, old_: u32, now: u32, n: nat): (t': Timer)
    requires t.Valid() && n <= CHANNELS
    ensures t'.Valid() && t' == t.(events := t'.events, pending := t'.pending)
    ensures forall ch :: 0 <= ch < CHANNELS ==>
              t'.events[ch] == if ch < n && Hit(old_, now, t.Compare(ch)) then 1 else t.events[ch]
    ensures t'.pending <==> t.pending || exists ch :: 0 <= ch < n && Hit(old_, now, t.Compare(ch)) && t.inten[ch]
  {
    if n == 0 then t
    else
      var t1 := Channels(t, old_, now, n - 1);
      if Hit(old_, now, t.Compare(n - 1))
      then t1.(events := t1.events[n - 1 := 1], pending := t1.pending || t.inten[n - 1])
      else t1
  }

  /** The 32-bit sum, masked to the counter width. */
  function NextCounter(t: Timer, ticks: nat): u32 {
    Mod(Wrap(t.counter + Wrap(ticks)), t.Range())
  }

  function Jump(t: Timer, ticks: nat): (t': Timer)
    requires t.Valid()
    ensures t'.Valid()
  {
    if ticks == 0 then t
    else
      var now := NextCounter(t, ticks);
      Channels(t.(counter := now), t.counter, now, CHANNELS)
  }

  /** The accumulator after feeding the prescaler. */
  function Carry(t: Timer, total: u64): u64 {
    QuotMod(total, t.Div());
    Mod(total, t.Div())
  }

  function Tick(t: Timer, cycles: u64): (t': Timer)
    requires t.Valid()
    ensures t'.Valid()
  {
    if !t.running || !t.hfClock then t
    else
      var total := (t.accum + cycles) % U64;
      QuotMod(total, t.Div());
      Jump(t.(accum := Carry(t, total)), Quot(total, t.Div()))
  }

  // ---------------------------------------------------------------- single ticks

  /** The counter after `j` single ticks. */
  function Successor(t: Timer, j: int): int { Mod(t.counter + j, t.Range()) }

  /** Ticks until the counter first shows `c`; between 1 and the range. */
  function Distance(t: Timer, c: int): int {
    if c > t.counter then c - t.counter else c - t.counter + t.Range()
  }

  lemma SuccessorHits(t: Timer, j: int, c: int)
    requires t.counter < t.Range() && 0 <= c < t.Range()
    ensures Successor(t, j) == c <==> Mod(j - Distance(t, c), t.Range()) == 0
  {
    hide Mod, Quot;
    var p, d := t.Range(), Distance(t, c);
    ModReturns(t.counter + d, j - d, p);
    if c > t.counter {
      ModSmall(c, p);
    } else {
      QuotModUnique(c + p, p, 1, c);
    }
  }

  lemma FirstMultiple(x: int, p: int)
    requires p > 0 && -p < x < p
    ensures Mod(x, p) == 0 <==> x == 0
  {
    hide Mod, Quot;
    if x >= 0 { ModSmall(x, p); } else { QuotModUnique(x, p, -1, x + p); }
  }

  /** Some single tick among the first `ticks` shows `c`. */
  ghost predicate Visits(t: Timer, ticks: nat, c: int) {
    exists j :: 1 <= j <= ticks && Successor(t, j) == c
  }

  lemma VisitsIff(t: Timer, ticks: nat, c: int)
    requires t.counter < t.Range() && 0 <= c < t.Range()
    ensures Visits(t, ticks, c) <==> Distance(t, c) <= ticks
  {
    hide Mod, Successor;
    var p, d := t.Range(), Distance(t, c);
    if d <= ticks {
      SuccessorHits(t, d, c);
      FirstMultiple(0, p);
      assert Successor(t, d) == c;
    }
    if Visits(t, ticks, c) {
      var j :| 1 <= j <= ticks && Successor(t, j) == c;
      SuccessorHits(t, j, c);
      if j < d { FirstMultiple(j - d, p); }
    }
  }

  /** Masking the wrapped 32-bit sum is reducing the true sum. */
  lemma NextIsSuccessor(t: Timer, ticks: nat)
    ensures NextCounter(t, ticks) == Successor(t, ticks)
    ensures t.counter < t.Range() ==> NextCounter(t, ticks) == Successor(t, Mod(ticks, t.Range()))
  {
    hide Mod, Quot;
    var p := t.Range();
    WrapMod(ticks, p);
    WrapMod(t.counter + Wrap(ticks), p);
    ModShift(Wrap(ticks), t.counter, p);
    ModShift(ticks, t.counter, p);
  }

  lemma WrapMod(x: int, p: int)
    requires p == 0x100 || p == 0x1_0000 || p == 0x100_0000 || p == U32
    ensures Mod(Wrap(x), p) == Mod(x, p)
  {
    hide Mod, Quot;
    var w, k := Wrap(x), x / U32;
    assert x == U32 * k + w;
    QuotMod(w, p);
    var q, r := Quot(w, p), Mod(w, p);
    var m := if p == 0x100 then 0x100_0000 else if p == 0x1_0000 then 0x1_0000 else if p == 0x100_0000 then 0x100 else 1;
    assert p * (m * k) == U32 * k;
    QuotModUnique(x, p, m * k + q, r);
  }

  /** The interval test compares the distance with the jump reduced to the range. */
  lemma HitIsDistance(t: Timer, ticks: nat, c: u32)
    requires t.counter < t.Range() && c < t.Range()
    ensures Hit(t.counter, NextCounter(t, ticks), c) <==> Distance(t, c) <= Mod(ticks, t.Range())
  {
    hide Mod, NextCounter;
    var p, m := t.Range(), Mod(ticks, t.Range());
    NextIsSuccessor(t, ticks);
    if t.counter + m < p {
      ModSmall(t.counter + m, p);
    } else {
      QuotModUnique(t.counter + m, p, 1, t.counter + m - p);
    }
  }

  /** A jump shorter than the counter range raises a compare event exactly when one of the
      single ticks it stands for shows the compare value, across wrap-around too. */
  lemma EventIffVisited(t: Timer, ticks: nat, ch: nat)
    requires t.Valid() && ch < CHANNELS && t.counter < t.Range() && 0 < ticks < t.Range()
    ensures Jump(t, ticks).events[ch] == if Visits(t, ticks, t.Compare(ch)) then 1 else t.events[ch]
  {
    hide Mod, NextCounter, Hit;
    var c := t.Compare(ch);
    HitIsDistance(t, ticks, c);
    VisitsIff(t, ticks, c);
    ModSmall(ticks, t.Range());
    assert t.(counter := NextCounter(t, ticks)).Compare(ch) == c;
  }

  /** For longer jumps the event is raised exactly when it is visited within the reduced jump, so
      events are lost exactly when the distance exceeds that remainder. */
  lemma LongJumpIff(t: Timer, ticks: nat, ch: nat)
    requires t.Valid() && ch < CHANNELS && t.counter < t.Range() && 0 < ticks
    ensures var c := t.Compare(ch);
            (Hit(t.counter, NextCounter(t, ticks), c) <==> Visits(t, ticks, c))
            <==> ticks < Distance(t, c) || Distance(t, c) <= Mod(ticks, t.Range())
  {
    hide Mod, NextCounter, Hit, Quot;
    var c := t.Compare(ch);
    HitIsDistance(t, ticks, c);
    VisitsIff(t, ticks, c);
    QuotMod(ticks, t.Range());
  }

  /** An 8-bit timer at 0 with a compare at 5: a jump of 0x100 ticks passes it and raises nothing. */
  lemma LongJumpExample(t: Timer)
    requires t.Valid() && t.bitMode == 1 && t.counter == 0 && t.cc[0] == 5 && t.events[0] == 0
    ensures Visits(t, 0x100, 5) && Jump(t, 0x100).events[0] == 0 && Jump(t, 0x100).counter == 0
  {
    assert Successor(t, 5) == 5;
  }

  // ---------------------------------------------------------------- split batches

  /** After a first jump the remaining distance shrinks by it, unless it was reached. */
  lemma DistanceAfter(t: Timer, u: Timer, x: nat, c: int)
    requires u.bitMode == t.bitMode && t.counter < t.Range() && 0 <= c < t.Range() && x < t.Range()
    requires u.counter == Successor(t, x)
    ensures u.counter < u.Range()
    ensures Distance(t, c) > x ==> Distance(u, c) == Distance(t, c) - x
    ensures Distance(t, c) <= x ==> Distance(u, c) == Distance(t, c) - x + t.Range()
  {
    hide Mod;
    var p := t.Range();
    if t.counter + x < p {
      ModSmall(t.counter + x, p);
    } else {
      QuotModUnique(t.counter + x, p, 1, t.counter + x - p);
    }
  }

  lemma JumpEvent(t: Timer, ticks: nat, ch: nat)
    requires t.Valid() && ch < CHANNELS && t.counter < t.Range() && ticks < t.Range()
    ensures Jump(t, ticks).events[ch] == if ticks > 0 && Distance(t, t.Compare(ch)) <= ticks then 1 else t.events[ch]
  {
    hide Mod, NextCounter, Hit, Visits, Distance;
    if ticks > 0 {
      EventIffVisited(t, ticks, ch);
      VisitsIff(t, ticks, t.Compare(ch));
    }
  }

  ghost predicate RaisesIrq(t: Timer, ticks: nat)
    requires t.Valid()
  {
    exists ch :: 0 <= ch < CHANNELS && Distance(t, t.Compare(ch)) <= ticks && t.inten[ch]
  }

  lemma JumpPending(t: Timer, ticks: nat)
    requires t.Valid() && t.counter < t.Range() && 0 < ticks < t.Range()
    ensures Jump(t, ticks).pending <==> t.pending || RaisesIrq(t, ticks)
  {
    hide Mod, NextCounter, Hit, Distance;
    var now := NextCounter(t, ticks);
    var u := t.(counter := now);
    ModSmall(ticks, t.Range());
    forall ch | 0 <= ch < CHANNELS
      ensures Hit(t.counter, now, u.Compare(ch)) <==> Distance(t, t.Compare(ch)) <= ticks
    {
      HitIsDistance(t, ticks, t.Compare(ch));
      assert u.Compare(ch) == t.Compare(ch);
    }
  }

  lemma JumpCounter(t: Timer, ticks: nat)
    requires t.Valid() && t.counter < t.Range() && ticks < t.Range()
    ensures var u := Jump(t, ticks);
            && u.counter == Successor(t, ticks) && u.counter < u.Range()
            && u == t.(counter := u.counter, events := u.events, pending := u.pending)
  {
    hide Mod, NextCounter, Hit;
    NextIsSuccessor(t, ticks);
    if ticks == 0 { ModSmall(t.counter, t.Range()); }
  }

  /** Two jumps that together stay within the range raise what one jump raises. */
  lemma JumpAdds(t: Timer, x: nat, y: nat)
    requires t.Valid() && t.counter < t.Range() && x + y < t.Range()
    ensures Jump(t, x + y) == Jump(Jump(t, x), y)
  {
    hide Jump, Successor, Distance, Mod;
    if x > 0 && y > 0 {
      var u := Jump(t, x);
      var v, w := Jump(u, y), Jump(t, x + y);
      JumpCounter(t, x);
      JumpCounter(u, y);
      JumpCounter(t, x + y);
      assert v.counter == w.counter by { SuccessorTwice(t, u, x, y); }
      forall ch | 0 <= ch < CHANNELS
        ensures v.events[ch] == w.events[ch]
      {
        JumpEvent(t, x, ch);
        JumpEvent(u, y, ch);
        JumpEvent(t, x + y, ch);
        DistanceAfter(t, u, x, t.Compare(ch));
        assert u.Compare(ch) == t.Compare(ch);
      }
      assert v.events == w.events;
      PendingAdds(t, u, x, y);
    } else {
      JumpZero(t);
      if y == 0 { JumpZero(Jump(t, x)); }
    }
  }

  lemma JumpZero(t: Timer)
    requires t.Valid()
    ensures Jump(t, 0) == t
  {
  }

  lemma SuccessorTwice(t: Timer, u: Timer, x: nat, y: nat)
    requires u.bitMode == t.bitMode && u.counter == Successor(t, x)
    ensures Successor(u, y) == Successor(t, x + y)
  {
    ModShift(t.counter + x, y, t.Range());
  }

  lemma PendingAdds(t: Timer, u: Timer, x: nat, y: nat)
    requires t.Valid() && t.counter < t.Range() && x > 0 && y > 0 && x + y < t.Range() && u == Jump(t, x)
    ensures Jump(u, y).pending == Jump(t, x + y).pending
  {
    hide Jump, Successor, Distance, Mod;
    JumpCounter(t, x);
    JumpPending(t, x);
    JumpPending(u, y);
    JumpPending(t, x + y);
    forall ch | 0 <= ch < CHANNELS
      ensures Distance(t, t.Compare(ch)) <= x + y <==>
              Distance(t, t.Compare(ch)) <= x || Distance(u, u.Compare(ch)) <= y
    {
      DistanceAfter(t, u, x, t.Compare(ch));
      assert u.Compare(ch) == t.Compare(ch);
    }
  }

  /** Splitting a batch of cycles changes nothing while its ticks stay within the range. */
  lemma TickAdds(t: Timer, a: u64, b: u64)
    requires t.Valid() && t.counter < t.Range() && t.accum + a + b < U64
    requires Quot(t.accum + a + b, t.Div()) < t.Range()
    ensures Tick(t, a + b) == Tick(Tick(t, a), b)
  {
    hide Mod, Quot, Jump, Tick;
    if t.running && t.hfClock {
      var d, m := t.Div(), t.accum + a;
      var x, y := Quot(m, d), Quot(Mod(m, d) + b, d);
      QuotMod(m, d);
      QuotMod(Mod(m, d) + b, d);
      ModShift(m, b, d);
      var t1 := t.(accum := Mod(m, d));
      JumpCounter(t1, x);
      var u := Jump(t1, x);
      TickIsJump(t, a);
      TickIsJump(t, a + b);
      TickIsJump(u, b);
      JumpAdds(t1, x, y);
      JumpAccum(u, Mod(m + b, d), y);
      JumpAccum(t1, Mod(m + b, d), x + y);
    } else {
      TickStopped(t, a);
      TickStopped(t, b);
      TickStopped(t, a + b);
    }
  }

  lemma TickIsJump(t: Timer, a: u64)
    requires t.Valid() && t.running && t.hfClock && t.accum + a < U64
    ensures 0 <= Mod(t.accum + a, t.Div()) < U64 && 0 <= Quot(t.accum + a, t.Div())
    ensures Tick(t, a) == Jump(t.(accum := Mod(t.accum + a, t.Div())), Quot(t.accum + a, t.Div()))
  {
    hide Mod, Quot, Jump;
    QuotMod(t.accum + a, t.Div());
    assert (t.accum + a) % U64 == t.accum + a;
  }

  lemma TickStopped(t: Timer, a: u64)
    requires t.Valid() && !(t.running && t.hfClock)
    ensures Tick(t, a) == t
  {
  }

  /** The accumulator plays no part in a jump. */
  lemma JumpAccum(t: Timer, acc: u64, ticks: nat)
    requires t.Valid()
    ensures Jump(t.(accum := acc), ticks) == Jump(t, ticks).(accum := acc)
  {
    hide Hit, Mod;
    var u := t.(accum := acc);
    if ticks > 0 {
      var now := NextCounter(t, ticks);
      assert NextCounter(u, ticks) == now;
      ChannelsAccum(t.(counter := now), acc, t.counter, now, CHANNELS);
    }
  }

  lemma {:induction false} ChannelsAccum(t: Timer, acc: u64, old_: u32, now: u32, n: nat)
    requires t.Valid() && n <= CHANNELS
    ensures Channels(t.(accum := acc), old_, now, n) == Channels(t, old_, now, n).(accum := acc)
  {
    hide Hit, Mod;
    if n > 0 {
      ChannelsAccum(t, acc, old_, now, n - 1);
    }
  }

  // ---------------------------------------------------------------- the registers, written out

  /** BITMODE 0 to 3 is 16, 8, 24 and 32 bits. */
  function CounterRange(mode: nat): int {
    if mode == 0 then 65536 else if mode == 1 then 256 else if mode == 2 then 16777216 else 4294967296
  }

  lemma RangeOfMode(t: Timer)
    ensures t.Range() == CounterRange(t.bitMode)
  {
  }

  /** The prescaler divides by powers of two. */
  lemma PrescalerDivides(t: Timer)
    ensures t.prescaler == 0 ==> t.Div() == 1
    ensures t.prescaler == 4 ==> t.Div() == 16
    ensures t.prescaler == 9 ==> t.Div() == 512
    ensures t.(prescaler := t.prescaler + 1).Div() == 2 * t.Div()
  {
    assert Pow2(4) == 2 * Pow2(3) && Pow2(3) == 8;
    assert Pow2(9) == 2 * Pow2(8) && Pow2(8) == 2 * Pow2(7) && Pow2(7) == 2 * Pow2(6) && Pow2(6) == 2 * Pow2(5) && Pow2(5) == 32;
  }

  /** The counter after `j` more ticks. */
  function CounterAfter(t: Timer, j: int): int { Mod(t.counter + j, CounterRange(t.bitMode)) }

  /** The counter shows the compare value of `ch` after one of the next `n` ticks. */
  ghost predicate Shown(t: Timer, ch: nat, n: nat)
    requires t.Valid() && ch < CHANNELS
  {
    exists j :: 1 <= j <= n && CounterAfter(t, j) == Mod(t.cc[ch], CounterRange(t.bitMode))
  }

  /** A running timer's registers after a batch of less than one range: the counter moves by the prescaled
      ticks, exactly the compare events that were shown are set, and the interrupt is pended exactly when
      one of them is enabled. */
  lemma TickRegisters(t: Timer, cycles: u64)
    requires t.Valid() && t.running && t.hfClock && t.accum + cycles < U64
    requires t.counter < CounterRange(t.bitMode) && Quot(t.accum + cycles, t.Div()) < CounterRange(t.bitMode)
    ensures var n := Quot(t.accum + cycles, t.Div());
            var u := Tick(t, cycles);
            && n >= 0 && u.Valid()
            && u.counter == Mod(t.counter + n, CounterRange(t.bitMode)) && u.accum == Mod(t.accum + cycles, t.Div())
            && (forall ch :: 0 <= ch < CHANNELS ==> u.events[ch] == if Shown(t, ch, n) then 1 else t.events[ch])
            && (u.pending <==> t.pending || exists ch :: 0 <= ch < CHANNELS && Shown(t, ch, n) && t.inten[ch])
            && u == t.(counter := u.counter, accum := u.accum, events := u.events, pending := u.pending)
  {
    hide Mod, Quot, Jump, Tick, Shown, Distance, Timer.Range, Timer.Div, CounterRange;
    RangeOfMode(t);
    QuotMod(t.accum + cycles, t.Div());
    var n := Quot(t.accum + cycles, t.Div());
    var t1 := t.(accum := Mod(t.accum + cycles, t.Div()));
    RangeOfMode(t1);
    TickIsJump(t, cycles);
    JumpCounter(t1, n);
    forall ch | 0 <= ch < CHANNELS
      ensures Shown(t, ch, n) <==> n > 0 && Distance(t1, t1.Compare(ch)) <= n
      ensures Jump(t1, n).events[ch] == if Shown(t, ch, n) then 1 else t.events[ch]
    {
      ShownIff(t, t1.accum, ch, n);
      JumpEvent(t1, n, ch);
    }
    if n > 0 { JumpPending(t1, n); } else { JumpZero(t1); }
  }

  lemma ShownIff(t: Timer, acc: u64, ch: nat, n: nat)
    requires t.Valid() && ch < CHANNELS && t.counter < t.Range()
    ensures var t1 := t.(accum := acc);
            Shown(t, ch, n) <==> n > 0 && Distance(t1, t1.Compare(ch)) <= n
  {
    hide Mod;
    RangeOfMode(t);
    VisitsIff(t, n, t.Compare(ch));
    assert Visits(t, n, t.Compare(ch)) <==> Shown(t, ch, n) by {
      assert forall j :: Successor(t, j) == CounterAfter(t, j);
    }
  }

  // ---------------------------------------------------------------- the mutable timer

  class Instance {
    var t: Timer

    method RaiseHits(old_: u32, now: u32)
      requires t.Valid()
      modifies this
      ensures t == Channels(old(t), old_, now, CHANNELS)
    {
      hide Hit, Mod;
      var ch := 0;
      while ch < CHANNELS
        invariant 0 <= ch <= CHANNELS
        invariant t == Channels(old(t), old_, now, ch)
      {
        var cc := t.Compare(ch);
        assert cc == old(t).Compare(ch);
        if Hit(old_, now, cc) {
          t := t.(events := t.events[ch := 1]);
          if t.inten[ch] { t := t.(pending := true); }
        }
        ch := ch + 1;
      }
    }

    method Advance(cycles: u64)
      requires t.Valid()
      modifies this
      ensures t == Tick(old(t), cycles)
    {
      hide Mod, Quot, Channels;
      if !t.running { return; }
      if !t.hfClock { return; }
      var total := (t.accum + cycles) % U64;
      var div := t.Div();
      QuotMod(total, div);
      t := t.(accum := Mod(total, div));
      var ticks := Quot(total, div);
      if ticks == 0 { return; }
      var was := t.counter;
      var now := NextCounter(t, ticks);
      t := t.(counter := now);
      RaiseHits(was, now);
    }
  }
}
