/** Interrupt arbitration (src/nvic.c, src/main.c:2089-2104). */
module Nvic {
  import opened Words

  const MAX_IRQ := 128
  const MASK_WORDS := 4

  /** A 32-bit mask register, bit 0 first. */
  type Bits = b: seq<bool> | |b| == 32 witness seq(32, i => false)

  /** Mask registers of all interrupts. */
  type Masks = m: seq<Bits> | |m| == 4 witness seq(4, j => seq(32, i => false))

  predicate Bit(m: Masks, irq: nat)
    requires irq < MAX_IRQ
  {
    m[irq / 32][irq % 32]
  }

  function SetBit(m: Masks, irq: nat, v: bool): Masks
    requires irq < MAX_IRQ
  {
    m[irq / 32 := m[irq / 32][irq % 32 := v]]
  }

  /** Changing one bit changes that bit only. */
  lemma BitAfterSet(m: Masks, irq: nat, v: bool, other: nat)
    requires irq < MAX_IRQ && other < MAX_IRQ
    ensures Bit(SetBit(m, irq, v), other) == if other == irq then v else Bit(m, other)
  {
    if irq / 32 == other / 32 && irq % 32 == other % 32 {
      assert irq == 32 * (irq / 32) + irq % 32;
      assert other == 32 * (other / 32) + other % 32;
    }
  }

  datatype State = State(enable: Masks, pending: Masks, active: Masks, itns: Masks, priority: seq<u8>) {
    ghost predicate Valid() { |priority| == MAX_IRQ }
  }

  /** PRIMASK of each security state. */
  datatype Primask = Primask(s: bool, ns: bool)

  function Target(n: State, irq: nat): Security
    requires irq < MAX_IRQ
  {
    if Bit(n.itns, irq) then NonSecure else Secure
  }

  predicate Blocked(p: Primask, sec: Security) { if sec.NonSecure? then p.ns else p.s }

  /** Enabled, pending and not masked for its target state. */
  predicate Eligible(n: State, p: Primask, irq: nat) {
    irq < MAX_IRQ && Bit(n.enable, irq) && Bit(n.pending, irq) && !Blocked(p, Target(n, irq))
  }

  /** Smaller priority value first, then smaller number. */
  predicate Before(n: State, a: nat, b: nat)
    requires n.Valid() && a < MAX_IRQ && b < MAX_IRQ
  {
    n.priority[a] < n.priority[b] || (n.priority[a] == n.priority[b] && a < b)
  }

  /** The eligible interrupt that precedes all other eligible ones. */
  ghost predicate IsChoice(n: State, p: Primask, irq: nat)
    requires n.Valid()
  {
    && Eligible(n, p, irq)
    && forall other :: Eligible(n, p, other) && other != irq ==> Before(n, irq, other)
  }

  /** What makes an interrupt eligible, from the mask words and the PRIMASK of its own target. */
  lemma EligibleMeans(n: State, p: Primask, irq: nat)
    ensures Eligible(n, p, irq) <==>
              && irq < 128 && n.enable[irq / 32][irq % 32] && n.pending[irq / 32][irq % 32]
              && (if n.itns[irq / 32][irq % 32] then !p.ns else !p.s)
  {
  }

  /** Nothing eligible has a smaller priority value than the choice, nor the same one with a smaller number. */
  lemma ChoiceIsMostUrgent(n: State, p: Primask, irq: nat, other: nat)
    requires n.Valid() && IsChoice(n, p, irq) && Eligible(n, p, other)
    ensures irq < 128 && other < 128
    ensures n.priority[irq] < n.priority[other] || (n.priority[irq] == n.priority[other] && irq <= other)
  {
    assert irq < MAX_IRQ && other < MAX_IRQ;
    hide Eligible;
    assert other != irq ==> Before(n, irq, other);
  }

  /** `mm_nvic_select_routed`. */
  method Select(n: State, p: Primask) returns (choice: Option<(nat, Security)>)
    requires n.Valid()
    ensures choice == None <==> forall irq :: !Eligible(n, p, irq)
    ensures choice.Some? ==> IsChoice(n, p, choice.value.0) && choice.value.1 == Target(n, choice.value.0)
  {
    var best: Option<nat> := None;
    var bestPrio: u8 := 0xFF;
    var irq := 0;
    while irq < MAX_IRQ
      invariant 0 <= irq <= MAX_IRQ
      invariant best == None ==> forall k :: 0 <= k < irq ==> !Eligible(n, p, k)
      invariant best.Some? ==>
                  && best.value < irq && Eligible(n, p, best.value) && bestPrio == n.priority[best.value]
                  && forall k :: 0 <= k < irq && k != best.value && Eligible(n, p, k) ==> Before(n, best.value, k)
    {
      if Bit(n.enable, irq) && Bit(n.pending, irq) && !Blocked(p, Target(n, irq)) {
        if best == None || n.priority[irq] < bestPrio {
          bestPrio := n.priority[irq];
          best := Some(irq);
        }
      }
      irq := irq + 1;
    }
    choice := if best == None then None else Some((best.value, Target(n, best.value)));
  }

  // ---------------------------------------------------------------- accepting until nothing is left

  /** The order in which interrupts are accepted, each with its target. */
  ghost predicate Ordered(n: State, log: seq<(nat, Security)>)
    requires n.Valid()
  {
    && (forall i :: 0 <= i < |log| ==> log[i].0 < MAX_IRQ && log[i].1 == Target(n, log[i].0))
    && (forall i, j :: 0 <= i < j < |log| ==> Before(n, log[i].0, log[j].0))
  }

  ghost function Accepted(log: seq<(nat, Security)>): set<nat> { set i | 0 <= i < |log| :: log[i].0 }

  ghost function AllEligible(n: State, p: Primask): set<nat> { set irq | 0 <= irq < MAX_IRQ && Eligible(n, p, irq) }

  /** After accepting, only the accepted interrupt stops being eligible. */
  lemma EligibleAfterAccept(n: State, p: Primask, irq: nat, other: nat)
    requires n.Valid() && irq < MAX_IRQ
    ensures Eligible(n.(pending := SetBit(n.pending, irq, false)), p, other) <==> Eligible(n, p, other) && other != irq
  {
    if other < MAX_IRQ {
      BitAfterSet(n.pending, irq, false, other);
    }
  }

  lemma AllEligibleAfterAccept(n: State, p: Primask, irq: nat)
    requires n.Valid() && Eligible(n, p, irq)
    ensures AllEligible(n.(pending := SetBit(n.pending, irq, false)), p) == AllEligible(n, p) - {irq}
  {
    assert irq < MAX_IRQ;
    hide Eligible;
    var n' := n.(pending := SetBit(n.pending, irq, false));
    forall other
      ensures Eligible(n', p, other) <==> Eligible(n, p, other) && other != irq
    {
      EligibleAfterAccept(n, p, irq, other);
    }
  }

  /** Appending an interrupt that follows everything logged keeps the log ordered. */
  lemma OrderedExtend(n: State, log: seq<(nat, Security)>, irq: nat)
    requires n.Valid() && Ordered(n, log) && irq < MAX_IRQ
    requires forall i :: 0 <= i < |log| ==> Before(n, log[i].0, irq)
    ensures Ordered(n, log + [(irq, Target(n, irq))])
    ensures Accepted(log + [(irq, Target(n, irq))]) == Accepted(log) + {irq}
  {
    hide Before, Target;
    var log' := log + [(irq, Target(n, irq))];
    assert log'[|log|].0 == irq;
    forall x | x in Accepted(log)
      ensures x in Accepted(log')
    {
      var i :| 0 <= i < |log| && log[i].0 == x;
      assert log'[i].0 == x;
    }
  }

  /** What remains of the eligible interrupts while they are being accepted in order. */
  ghost predicate Draining(n: State, cur: State, p: Primask, log: seq<(nat, Security)>)
    requires n.Valid()
  {
    && cur.Valid() && cur == n.(pending := cur.pending)
    && Ordered(n, log)
    && AllEligible(cur, p) == AllEligible(n, p) - Accepted(log)
    && Accepted(log) <= AllEligible(n, p)
    && (forall i, irq :: 0 <= i < |log| && irq in AllEligible(cur, p) ==> Before(n, log[i].0, irq))
  }

  lemma DrainStep(n: State, cur: State, p: Primask, log: seq<(nat, Security)>, irq: nat)
    requires n.Valid() && Draining(n, cur, p, log) && IsChoice(cur, p, irq)
    ensures irq < MAX_IRQ
    ensures Draining(n, cur.(pending := SetBit(cur.pending, irq, false)), p, log + [(irq, Target(cur, irq))])
  {
    var cur' := cur.(pending := SetBit(cur.pending, irq, false));
    var log' := log + [(irq, Target(cur, irq))];
    assert irq in AllEligible(cur, p);
    AllEligibleAfterAccept(cur, p, irq);
    OrderedExtend(n, log, irq);
    hide Before, Eligible, Target;
    forall i, other | 0 <= i < |log'| && other in AllEligible(cur', p)
      ensures Before(n, log'[i].0, other)
    {
      assert Before(cur, irq, other) by { assert Eligible(cur, p, other) && other != irq; }
      BeforeSame(n, cur, irq, other);
    }
  }

  lemma BeforeSame(n: State, cur: State, a: nat, b: nat)
    requires n.Valid() && cur.priority == n.priority && a < MAX_IRQ && b < MAX_IRQ
    ensures Before(n, a, b) == Before(cur, a, b)
  {
  }

  class Controller {
    var state: State

    /** `mm_nvic_set_pending`; out-of-range numbers are ignored. */
    method SetPending(irq: u32, v: bool)
      requires state.Valid()
      modifies this
      ensures state == if irq < MAX_IRQ then old(state).(pending := SetBit(old(state).pending, irq, v)) else old(state)
    {
      if irq / 32 < MASK_WORDS {
        state := state.(pending := state.pending[irq / 32 := state.pending[irq / 32][irq % 32 := v]]);
      }
    }

    /** Repeated selection and acceptance with fixed masks and priorities: every eligible interrupt
        is accepted exactly once, in strictly increasing (priority, number) order, routed to
        its ITNS target, and selection then finds nothing. */
    method DrainAll(p: Primask) returns (log: seq<(nat, Security)>)
      requires state.Valid()
      modifies this
      ensures state.Valid() && state == old(state).(pending := state.pending)
      ensures Ordered(old(state), log)
      ensures Accepted(log) == AllEligible(old(state), p)
      ensures forall irq :: !Eligible(state, p, irq)
    {
      hide Eligible, Ordered, IsChoice;
      log := [];
      ghost var n := state;
      assert Draining(n, state, p, log) by { DrainStart(n, p); }
      while true
        invariant Draining(n, state, p, log)
        decreases AllEligible(state, p)
      {
        var c := Select(state, p);
        if c == None { break; }
        assert IsChoice(state, p, c.value.0);
        DrainStep(n, state, p, log, c.value.0);
        ChoiceCounts(state, p, c.value.0);
        SetPending(c.value.0, false);
        log := log + [c.value];
      }
      assert AllEligible(state, p) == {};
      assert forall irq :: irq in AllEligible(n, p) ==> irq in Accepted(log) || irq in AllEligible(state, p);
    }
  }

  lemma DrainStart(n: State, p: Primask)
    requires n.Valid()
    ensures Draining(n, n, p, [])
  {
    assert Accepted([]) == {};
  }

  lemma ChoiceCounts(n: State, p: Primask, irq: nat)
    requires n.Valid() && IsChoice(n, p, irq)
    ensures irq in AllEligible(n, p)
    ensures AllEligible(n.(pending := SetBit(n.pending, irq, false)), p) == AllEligible(n, p) - {irq}
  {
    AllEligibleAfterAccept(n, p, irq);
  }

  /** No two positions of an ordered log name the same interrupt. */
  lemma OrderedDistinct(n: State, log: seq<(nat, Security)>, i: nat, j: nat)
    requires n.Valid() && Ordered(n, log) && i < j < |log|
    ensures log[i].0 != log[j].0
  {
    assert Before(n, log[i].0, log[j].0);
  }
}
