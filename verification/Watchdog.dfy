/** The STM32H563 watchdogs (cpu/stm32h563/stm32h563_mmio.c:1429-1480): loops over prescaled
    ticks with an early exit at the reset. */
module Watchdog {
  import opened Words

  // ---------------------------------------------------------------- independent watchdog

  datatype Iwdg = Iwdg(running: bool, counter: u32, prescaler: nat, accum: u64)

  function IwdgDivider(pr: nat): nat {
    if pr == 0 then 4 else if pr == 1 then 8 else if pr == 2 then 16 else if pr == 3 then 32
    else if pr == 4 then 64 else if pr == 5 then 128 else 256
  }

  /** CPU cycles in one tick of the 32 kHz oscillator after its prescaler; never zero. */
  function CyclesPerTick(cpuHz: u64, pr: nat): (c: nat)
    ensures c > 0
  {
    var hz := if cpuHz == 0 then 1 else cpuHz;
    var perSec: nat := 32000 / IwdgDivider(pr);
    var c := Quot(hz, perSec);
    QuotMod(hz, perSec);
    if c == 0 then 1 else c
  }

  /** The tick at which the reset comes: a zero counter still waits for one tick. */
  function Deadline(w: Iwdg): nat { if w.counter == 0 then 1 else w.counter }

  /** State and reset request after a batch whose accumulated total is `total`. */
  function IwdgAfter(w: Iwdg, total: u64, cpt: nat): (r: (Iwdg, bool))
    requires cpt > 0
  {
    QuotMod(total, cpt);
    var n := Quot(total, cpt);
    if n >= Deadline(w) then (w.(counter := 0, accum := Leftover(total, Deadline(w), cpt)), true)
    else (w.(counter := w.counter - n, accum := Mod(total, cpt)), false)
  }

  /** The accumulator when the loop stops after `n` ticks. */
  function Leftover(total: u64, n: nat, step: nat): (r: u64)
    requires step > 0 && Quot(total, step) >= n
    ensures r == total - n * step
  {
    hide Quot;
    DeadlineFits(total, step, n);
    total - n * step
  }

  lemma DeadlineFits(total: nat, cpt: nat, n: nat)
    requires cpt > 0 && Quot(total, cpt) >= n
    ensures n * cpt <= total
  {
    hide Quot, Mod;
    QuotMod(total, cpt);
    var q := Quot(total, cpt);
    assert cpt * q >= cpt * n;
  }

  function IwdgTick(w: Iwdg, cpuHz: u64, cycles: u64): (r: (Iwdg, bool)) {
    if !w.running then (w, false)
    else IwdgAfter(w, (w.accum + cycles) % U64, CyclesPerTick(cpuHz, w.prescaler))
  }

  /** The reset is requested exactly when the elapsed ticks reach the counter, or one if it was
      zero. */
  lemma IwdgResetIff(w: Iwdg, cpuHz: u64, cycles: u64)
    requires w.running && w.accum + cycles < U64
    ensures IwdgTick(w, cpuHz, cycles).1 <==>
            Quot(w.accum + cycles, CyclesPerTick(cpuHz, w.prescaler)) >= (if w.counter > 1 then w.counter else 1)
  {
    hide Quot, Mod, CyclesPerTick;
    assert (w.accum + cycles) % U64 == w.accum + cycles;
  }

  /** While the first part causes no reset, splitting a batch changes nothing. */
  lemma IwdgSplit(w: Iwdg, cpuHz: u64, a: u64, b: u64)
    requires w.accum + a + b < U64
    requires !IwdgTick(w, cpuHz, a).1
    ensures IwdgTick(w, cpuHz, a + b) == IwdgTick(IwdgTick(w, cpuHz, a).0, cpuHz, b)
  {
    hide Quot, Mod, CyclesPerTick, IwdgAfter;
    if w.running {
      var c := CyclesPerTick(cpuHz, w.prescaler);
      assert (w.accum + a) % U64 == w.accum + a && (w.accum + a + b) % U64 == w.accum + a + b;
      IwdgKeeps(w, w.accum + a, c);
      var w1 := IwdgAfter(w, w.accum + a, c).0;
      assert (w1.accum + b) % U64 == w1.accum + b;
      IwdgSplitTotal(w, w.accum + a, b, c);
    }
  }

  lemma IwdgKeeps(w: Iwdg, total: u64, c: nat)
    requires c > 0 && !IwdgAfter(w, total, c).1
    ensures var w1 := IwdgAfter(w, total, c).0;
            w1.accum <= total && w1.running == w.running && w1.prescaler == w.prescaler
  {
    hide Quot, Mod;
    QuotMod(total, c);
  }

  lemma IwdgSplitTotal(w: Iwdg, m: u64, b: u64, c: nat)
    requires c > 0 && m + b < U64 && !IwdgAfter(w, m, c).1
    ensures var w1 := IwdgAfter(w, m, c).0;
            w1.accum + b < U64 && IwdgAfter(w, m + b, c) == IwdgAfter(w1, w1.accum + b, c)
  {
    hide Quot, Mod;
    QuotMod(m, c);
    ModShift(m, b, c);
    var q, rest := Quot(m, c), Mod(m, c);
    var w1 := IwdgAfter(w, m, c).0;
    assert q < Deadline(w) && w1 == w.(counter := w.counter - q, accum := rest);
    if Quot(m + b, c) >= Deadline(w) {
      LateReset(m, b, c, q, rest, Deadline(w));
      assert IwdgAfter(w, m + b, c) == (w.(counter := 0, accum := m + b - Deadline(w) * c), true);
    } else {
      assert IwdgAfter(w, m + b, c) == (w.(counter := w.counter - Quot(m + b, c), accum := Mod(m + b, c)), false);
    }
  }

  lemma LateReset(m: int, b: int, c: int, q: int, r: int, deadline: int)
    requires m == c * q + r
    ensures m + b - deadline * c == r + b - (deadline - q) * c
  {
  }

  /** `iwdg_apply_key`: 0xAAAA refreshes from the reload register, 0xCCCC also starts the counter. */
  function IwdgKey(w: Iwdg, reload: u32, key: u32): Iwdg {
    if key == 0xAAAA then w.(counter := reload % 0x1000)
    else if key == 0xCCCC then w.(running := true, counter := reload % 0x1000)
    else w
  }

  /** Refresh, let `batch` cycles pass, refresh, and so on; the flag tells whether a reset came. */
  function Kicked(w: Iwdg, cpuHz: u64, reload: u32, batches: seq<u64>): (r: (Iwdg, bool))
    decreases |batches|
  {
    if batches == [] then (w, false)
    else
      var t := IwdgTick(IwdgKey(w, reload, 0xAAAA), cpuHz, batches[0]);
      if t.1 then t else Kicked(t.0, cpuHz, reload, batches[1..])
  }

  lemma FewTicks(total: nat, c: nat, limit: nat)
    requires c > 0 && total < limit * c
    ensures Quot(total, c) < limit
  {
    hide Quot, Mod;
    QuotMod(total, c);
    var q := Quot(total, c);
    assert q >= limit ==> c * q >= c * limit;
  }

  /** A watchdog refreshed at least once every reload-1 ticks never resets, however long the run. */
  lemma {:induction false} KickedNeverResets(w: Iwdg, cpuHz: u64, reload: u32, batches: seq<u64>)
    requires w.running && reload % 0x1000 > 0
    requires w.accum < CyclesPerTick(cpuHz, w.prescaler) && CyclesPerTick(cpuHz, w.prescaler) * 0x1001 < U64
    requires forall i :: 0 <= i < |batches| ==>
               batches[i] <= (reload % 0x1000 - 1) * CyclesPerTick(cpuHz, w.prescaler)
    ensures !Kicked(w, cpuHz, reload, batches).1
    decreases |batches|
  {
    hide Quot, Mod, CyclesPerTick, IwdgTick;
    if batches != [] {
      KickLasts(w, cpuHz, reload, batches[0]);
      KickedNeverResets(IwdgTick(IwdgKey(w, reload, 0xAAAA), cpuHz, batches[0]).0, cpuHz, reload, batches[1..]);
    }
  }

  lemma KickLasts(w: Iwdg, cpuHz: u64, reload: u32, b: u64)
    requires w.running && reload % 0x1000 > 0
    requires w.accum < CyclesPerTick(cpuHz, w.prescaler) && CyclesPerTick(cpuHz, w.prescaler) * 0x1001 < U64
    requires b <= (reload % 0x1000 - 1) * CyclesPerTick(cpuHz, w.prescaler)
    ensures var t := IwdgTick(IwdgKey(w, reload, 0xAAAA), cpuHz, b);
            !t.1 && t.0.running && t.0.prescaler == w.prescaler && t.0.accum < CyclesPerTick(cpuHz, w.prescaler)
  {
    hide Quot, Mod, CyclesPerTick;
    var c, n := CyclesPerTick(cpuHz, w.prescaler), reload % 0x1000;
    KickArithmetic(w.accum, b, n, c);
    FewTicks(w.accum + b, c, n);
    assert (w.accum + b) % U64 == w.accum + b;
  }

  lemma KickArithmetic(acc: nat, b: nat, n: nat, c: nat)
    requires acc < c && 0 < n < 0x1000 && b <= (n - 1) * c && c * 0x1001 < U64
    ensures acc + b < n * c && n * c < U64
  {
    assert n * c <= 0x1000 * c;
    assert (n - 1) * c + c == n * c;
  }

  // ---------------------------------------------------------------- window watchdog

  /** `active` is CR.WDGA, `ewi` CFR.EWI, `flag` SR.EWIF; the low CR bits mirror `counter`. */
  datatype Wwdg = Wwdg(clock: bool, active: bool, ewi: bool, timebase: nat, counter: u32, crCounter: u32,
                       flag: bool, pending: bool, accum: u64)

  function StepCycles(timebase: nat): (s: nat)
    ensures s > 0
  {
    4096 * (if timebase == 0 then 1 else if timebase == 1 then 2 else if timebase == 2 then 4 else if timebase == 3 then 8
            else if timebase == 4 then 16 else if timebase == 5 then 32 else if timebase == 6 then 64 else 128)
  }

  predicate Ticking(w: Wwdg) { w.clock && w.counter != 0 && w.active }

  /** One tick of the loop body. */
  function WwdgDecrement(w: Wwdg): Wwdg {
    if w.counter == 0 then w
    else
      var c := w.counter - 1;
      var warn := c == 0x40 && w.ewi;
      w.(counter := c, crCounter := c % 0x80, flag := w.flag || warn, pending := w.pending || warn)
  }

  predicate ResetNow(w: Wwdg) { w.counter == 0x3F }

  /** State after `n` ticks taken without a reset. */
  function After(w: Wwdg, n: nat): Wwdg {
    var c: u32 := if n >= w.counter then 0 else w.counter - n;
    var warn := w.ewi && w.counter > 0x40 && n >= w.counter - 0x40;
    w.(counter := c,
       crCounter := if n == 0 || w.counter == 0 then w.crCounter else c % 0x80,
       flag := w.flag || warn, pending := w.pending || warn)
  }

  /** The tick count at which the reset comes, for a counter above 0x3F. */
  predicate Resets(w: Wwdg, n: nat) { w.counter > 0x3F && n >= w.counter - 0x3F }

  function WwdgAfter(w: Wwdg, total: u64, step: nat): (r: (Wwdg, bool))
    requires step > 0
  {
    QuotMod(total, step);
    var n := Quot(total, step);
    if Resets(w, n) then (After(w, w.counter - 0x3F).(accum := Leftover(total, w.counter - 0x3F, step)), true)
    else (After(w, n).(accum := Mod(total, step)), false)
  }

  function WwdgTick(w: Wwdg, cycles: u64): (r: (Wwdg, bool)) {
    if !Ticking(w) then (w, false)
    else WwdgAfter(w, (w.accum + cycles) % U64, StepCycles(w.timebase))
  }

  /** A running window watchdog requests a reset exactly when it starts above 0x3F and the elapsed
      ticks bring it down to 0x3F; the warning is raised exactly when enabled and 0x40 is reached. */
  lemma WwdgDeadlines(w: Wwdg, cycles: u64)
    requires Ticking(w) && w.accum + cycles < U64
    ensures var n := Quot(w.accum + cycles, StepCycles(w.timebase));
            var r := WwdgTick(w, cycles);
            && (r.1 <==> w.counter > 0x3F && n >= w.counter - 0x3F)
            && (r.0.flag <==> w.flag || (w.ewi && w.counter > 0x40 && n >= w.counter - 0x40))
            && (r.0.pending <==> w.pending || (w.ewi && w.counter > 0x40 && n >= w.counter - 0x40))
            && (r.1 ==> r.0.counter == 0x3F)
  {
    hide Quot, Mod, StepCycles;
    assert (w.accum + cycles) % U64 == w.accum + cycles;
  }

  lemma AfterAdds(w: Wwdg, x: nat, y: nat)
    requires !Resets(w, x) && w.counter != 0
    ensures After(w, x + y) == After(After(w, x), y)
    ensures Resets(w, x + y) <==> Resets(After(w, x), y)
  {
  }

  /** Splitting a batch before the reset changes nothing, unless the counter ran out in the first
      part, after which the accumulator stands still. */
  lemma WwdgSplitIff(w: Wwdg, a: u64, b: u64)
    requires Ticking(w) && w.accum + a + b < U64 && !WwdgTick(w, a).1
    ensures WwdgTick(w, a + b) == WwdgTick(WwdgTick(w, a).0, b)
       <==> Quot(w.accum + a, StepCycles(w.timebase)) < w.counter || Mod(b, StepCycles(w.timebase)) == 0
  {
    hide Quot, Mod, StepCycles, WwdgAfter;
    var s := StepCycles(w.timebase);
    assert (w.accum + a) % U64 == w.accum + a && (w.accum + a + b) % U64 == w.accum + a + b;
    WwdgKeeps(w, w.accum + a, s);
    var w1 := WwdgAfter(w, w.accum + a, s).0;
    assert (w1.accum + b) % U64 == w1.accum + b;
    WwdgCounter(w, w.accum + a, s);
    if w1.counter != 0 {
      WwdgSplitRunning(w, w.accum + a, b, s);
    } else {
      WwdgSplitExhausted(w, w.accum + a, b, s);
    }
  }

  lemma WwdgKeeps(w: Wwdg, total: u64, s: nat)
    requires s > 0 && !WwdgAfter(w, total, s).1
    ensures var w1 := WwdgAfter(w, total, s).0;
            w1.accum <= total && w1.clock == w.clock && w1.active == w.active && w1.timebase == w.timebase
  {
    hide Quot, Mod;
    QuotMod(total, s);
  }

  lemma WwdgCounter(w: Wwdg, total: u64, s: nat)
    requires s > 0 && !WwdgAfter(w, total, s).1
    ensures WwdgAfter(w, total, s).0.counter != 0 <==> Quot(total, s) < w.counter
  {
    hide Quot, Mod;
  }

  /** A counter of one, timebase 0: one tick and a spare cycle leave 1 in the accumulator at once,
      but 0 when the tick came first. */
  lemma WwdgSplitExample(w: Wwdg)
    requires Ticking(w) && w.counter == 1 && w.timebase == 0 && w.accum == 0
    ensures WwdgTick(w, 4096 + 1).0.accum == 1
    ensures WwdgTick(WwdgTick(w, 4096).0, 1).0.accum == 0
  {
    hide Quot, Mod;
    QuotModUnique(4096, 4096, 1, 0);
    QuotModUnique(4097, 4096, 1, 1);
  }

  lemma WwdgSplitRunning(w: Wwdg, m: u64, b: u64, s: nat)
    requires s > 0 && m + b < U64 && w.counter != 0 && !WwdgAfter(w, m, s).1 && WwdgAfter(w, m, s).0.counter != 0
    ensures var w1 := WwdgAfter(w, m, s).0;
            w1.accum + b < U64 && WwdgAfter(w, m + b, s) == WwdgAfter(w1, w1.accum + b, s)
  {
    hide Quot, Mod, After;
    QuotMod(m, s);
    QuotMod(Mod(m, s) + b, s);
    ModShift(m, b, s);
    var x, y := Quot(m, s), Quot(Mod(m, s) + b, s);
    var w1 := WwdgAfter(w, m, s).0;
    AfterAccum(w, x, Mod(m, s));
    AfterCounter(w, x);
    AfterAdds(w, x, y);
    if Resets(w, x + y) {
      AfterAdds(w, x, w.counter - 0x3F - x);
      AfterAccum(After(w, x), w.counter - 0x3F - x, Mod(m, s));
      LateReset(m, b, s, x, Mod(m, s), w.counter - 0x3F);
    } else {
      AfterAccum(After(w, x), y, Mod(m, s));
    }
  }

  lemma AfterAccum(w: Wwdg, n: nat, acc: u64)
    ensures After(w.(accum := acc), n) == After(w, n).(accum := acc)
    ensures Resets(w.(accum := acc), n) == Resets(w, n)
  {
  }

  lemma AfterCounter(w: Wwdg, n: nat)
    ensures After(w, n).counter == if n >= w.counter then 0 else w.counter - n
  {
  }

  lemma WwdgSplitExhausted(w: Wwdg, m: u64, b: u64, s: nat)
    requires s > 0 && m + b < U64 && w.counter != 0 && !WwdgAfter(w, m, s).1 && WwdgAfter(w, m, s).0.counter == 0
    ensures WwdgAfter(w, m + b, s) == (WwdgAfter(w, m, s).0, false) <==> Mod(b, s) == 0
  {
    hide Quot, Mod;
    QuotMod(m, s);
    QuotMod(m + b, s);
    QuotMod(Mod(m, s) + b, s);
    ModShift(m, b, s);
    ModReturns(m, b, s);
    assert Quot(m, s) >= w.counter && w.counter <= 0x3F;
  }

  // ---------------------------------------------------------------- the registers, written out

  /** Ticks a second of the 32 kHz oscillator behind each prescaler setting. */
  function TicksPerSecond(pr: nat): nat {
    if pr == 0 then 8000 else if pr == 1 then 4000 else if pr == 2 then 2000 else if pr == 3 then 1000
    else if pr == 4 then 500 else if pr == 5 then 250 else 125
  }

  /** One tick is the processor clock divided by that, rounded down, and never less than one cycle. */
  lemma TickLength(cpuHz: u64, pr: nat)
    ensures var c, t := CyclesPerTick(cpuHz, pr), TicksPerSecond(pr);
            if cpuHz < t then c == 1 else c * t <= cpuHz < (c + 1) * t
  {
    var hz := if cpuHz == 0 then 1 else cpuHz;
    assert TicksPerSecond(pr) == 32000 / IwdgDivider(pr);
    hide Quot, Mod, IwdgDivider, TicksPerSecond;
    var t := TicksPerSecond(pr);
    assert t > 0 by { TicksPositive(pr); }
    QuotMod(hz, t);
    if cpuHz < t { ModSmall(hz, t); }
    assert t * (Quot(hz, t) + 1) == t * Quot(hz, t) + t;
  }

  lemma TicksPositive(pr: nat)
    ensures 125 <= TicksPerSecond(pr)
  {
  }

  /** The window watchdog ticks every 4096 cycles, twice that for each step of its timebase. */
  lemma StepLength(timebase: nat)
    ensures timebase < 7 ==> StepCycles(timebase + 1) == 2 * StepCycles(timebase)
    ensures StepCycles(0) == 4096 && StepCycles(3) == 32768
  {
  }

  /** Watchdogs that do not run, or have run out, do not change or reset. */
  lemma Stopped(w: Iwdg, v: Wwdg, cpuHz: u64, cycles: u64)
    ensures !w.running ==> IwdgTick(w, cpuHz, cycles) == (w, false)
    ensures !v.clock || !v.active || v.counter == 0 ==> WwdgTick(v, cycles) == (v, false)
  {
  }

  /** 0xAAAA reloads the counter, 0xCCCC also starts it, other keys do neither. */
  lemma Keys(w: Iwdg, reload: u32, key: u32)
    ensures var k := IwdgKey(w, reload, key);
            && (k.running <==> w.running || key == 0xCCCC)
            && k.counter == (if key == 0xAAAA || key == 0xCCCC then reload % 0x1000 else w.counter)
            && k.prescaler == w.prescaler && k.accum == w.accum
  {
  }

  /** Counter and accumulator after a batch without a reset. */
  lemma IwdgMoves(w: Iwdg, cpuHz: u64, cycles: u64)
    requires w.running && w.accum + cycles < U64 && !IwdgTick(w, cpuHz, cycles).1
    ensures var c, u := CyclesPerTick(cpuHz, w.prescaler), IwdgTick(w, cpuHz, cycles).0;
            u.counter == w.counter - Quot(w.accum + cycles, c) && u.accum == Mod(w.accum + cycles, c)
  {
    hide Quot, Mod, CyclesPerTick;
    QuotMod(w.accum + cycles, CyclesPerTick(cpuHz, w.prescaler));
  }

  lemma WwdgMoves(v: Wwdg, cycles: u64)
    requires v.clock && v.active && v.counter != 0 && v.accum + cycles < U64 && !WwdgTick(v, cycles).1
    ensures var n, u := Quot(v.accum + cycles, StepCycles(v.timebase)), WwdgTick(v, cycles).0;
            && u.counter == (if n >= v.counter then 0 else v.counter - n)
            && u.accum == Mod(v.accum + cycles, StepCycles(v.timebase))
            && (n > 0 ==> u.crCounter == u.counter % 128)
  {
    hide Quot, Mod, StepCycles;
    QuotMod(v.accum + cycles, StepCycles(v.timebase));
  }

  // ---------------------------------------------------------------- the mutable watchdogs

  class Unit {
    var iwdg: Iwdg
    var wwdg: Wwdg

    method TickIwdg(cpuHz: u64, cycles: u64) returns (reset: bool)
      modifies this`iwdg
      ensures (iwdg, reset) == IwdgTick(old(iwdg), cpuHz, cycles)
    {
      hide Quot, Mod, CyclesPerTick, Spent, Leftover;
      reset := false;
      if !iwdg.running { return; }
      var c := CyclesPerTick(cpuHz, iwdg.prescaler);
      var total := (iwdg.accum + cycles) % U64;
      ghost var w, k := iwdg, 0;
      SpentMore(0, c);
      iwdg := iwdg.(accum := total);
      while iwdg.accum >= c
        invariant k >= 0 && k < Deadline(w) && Spent(k, c) + iwdg.accum == total
        invariant iwdg == w.(counter := iwdg.counter, accum := iwdg.accum)
        invariant iwdg.counter == w.counter - (if w.counter == 0 then 0 else k)
        decreases iwdg.accum
      {
        iwdg := iwdg.(accum := iwdg.accum - c);
        SpentMore(k, c);
        k := k + 1;
        if iwdg.counter > 0 {
          iwdg := iwdg.(counter := iwdg.counter - 1);
        }
        if iwdg.counter == 0 {
          reset := true;
          EnoughTicks(total, c, k, iwdg.accum);
          return;
        }
      }
      AllTicks(total, c, k, iwdg.accum);
    }

    method TickWwdg(cycles: u64) returns (reset: bool)
      modifies this`wwdg
      ensures (wwdg, reset) == WwdgTick(old(wwdg), cycles)
    {
      hide Quot, Mod, StepCycles, After, Spent, Leftover;
      reset := false;
      AfterNone(wwdg);
      if !(wwdg.clock && wwdg.counter != 0 && wwdg.active) { return; }
      var step := StepCycles(wwdg.timebase);
      var total := (wwdg.accum + cycles) % U64;
      ghost var w, k := wwdg, 0;
      SpentMore(0, step);
      wwdg := wwdg.(accum := total);
      while wwdg.accum >= step
        invariant k >= 0 && Spent(k, step) + wwdg.accum == total && !Resets(w, k)
        invariant wwdg == After(w, k).(accum := wwdg.accum)
        decreases wwdg.accum
      {
        wwdg := wwdg.(accum := wwdg.accum - step);
        SpentMore(k, step);
        DecrementIsAfter(w, k, wwdg.accum);
        AfterCounter(w, k + 1);
        wwdg := WwdgDecrement(wwdg);
        k := k + 1;
        if ResetNow(wwdg) {
          reset := true;
          EnoughTicks(total, step, k, wwdg.accum);
          return;
        }
      }
      AllTicks(total, step, k, wwdg.accum);
    }
  }

  lemma AfterNone(w: Wwdg)
    ensures After(w, 0) == w
  {
  }

  /** Cycles used up by `k` ticks. */
  function Spent(k: int, c: int): int { k * c }

  lemma SpentMore(k: int, c: int)
    ensures Spent(0, c) == 0 && Spent(k + 1, c) == Spent(k, c) + c
  {
  }

  lemma AllTicks(total: int, c: int, k: int, rest: int)
    requires c > 0 && Spent(k, c) + rest == total && 0 <= rest < c
    ensures Quot(total, c) == k && Mod(total, c) == rest
  {
    QuotModUnique(total, c, k, rest);
  }

  lemma EnoughTicks(total: u64, c: nat, k: nat, rest: int)
    requires c > 0 && Spent(k, c) + rest == total && rest >= 0
    ensures Quot(total, c) >= k && Leftover(total, k, c) == rest
  {
    hide Quot, Mod;
    QuotMod(total, c);
    var q := Quot(total, c);
    assert c * q + Mod(total, c) == c * k + rest;
    assert q <= k - 1 ==> c * q <= c * (k - 1);
  }

  lemma DecrementIsAfter(w: Wwdg, k: nat, acc: u64)
    requires w.counter != 0 && !Resets(w, k)
    ensures WwdgDecrement(After(w, k).(accum := acc)) == After(w, k + 1).(accum := acc)
  {
  }
}
