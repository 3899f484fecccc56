/** What the sixteen conditions mean (src/main.c:2274-2291): after a comparison of two words, with the
    flags that AddWithCarry(x, NOT(y), 1) of the Armv8-M Architecture Reference Manual gives. */
module Comparisons {
  import opened Words
  import opened ItBlocks

  function Signed(x: u32): int { if x < 0x8000_0000 then x else x - U32 }

  function Not(y: u32): u32 { 0xFFFF_FFFF - y }

  /** The flags of x - y. */
  function Compare(x: u32, y: u32): Flags {
    var sum := x + Not(y) + 1;
    var result := Wrap(sum);
    Flags(result >= 0x8000_0000, result == 0, sum >= U32, Signed(result) != Signed(x) + Signed(Not(y)) + 1)
  }

  /** The difference as the flags see it. */
  lemma Difference(x: u32, y: u32)
    ensures var sum := x + Not(y) + 1;
            Wrap(sum) == if x >= y then x - y else x - y + U32
  {
    EuclidUnique(x + Not(y) + 1, U32, if x >= y then 1 else 0, if x >= y then x - y else x - y + U32);
  }

  /** Equality and the unsigned order. */
  lemma UnsignedConditions(x: u32, y: u32)
    ensures var f := Compare(x, y);
            && (CondHolds(0, f) <==> x == y) && (CondHolds(1, f) <==> x != y)
            && (CondHolds(2, f) <==> x >= y) && (CondHolds(3, f) <==> x < y)
            && (CondHolds(8, f) <==> x > y) && (CondHolds(9, f) <==> x <= y)
  {
    Difference(x, y);
    hide Wrap;
  }

  /** The signed order, the sign of the wrapped difference, and signed overflow. */
  lemma SignedConditions(x: u32, y: u32)
    ensures var f := Compare(x, y);
            && (CondHolds(10, f) <==> Signed(x) >= Signed(y)) && (CondHolds(11, f) <==> Signed(x) < Signed(y))
            && (CondHolds(12, f) <==> Signed(x) > Signed(y)) && (CondHolds(13, f) <==> Signed(x) <= Signed(y))
            && (CondHolds(4, f) <==> Signed(Wrap(x - y)) < 0) && (CondHolds(5, f) <==> Signed(Wrap(x - y)) >= 0)
            && (CondHolds(6, f) <==> !(-0x8000_0000 <= Signed(x) - Signed(y) < 0x8000_0000))
            && (CondHolds(7, f) <==> -0x8000_0000 <= Signed(x) - Signed(y) < 0x8000_0000)
  {
    Difference(x, y);
    EuclidUnique(x - y, U32, if x >= y then 0 else -1, if x >= y then x - y else x - y + U32);
    hide Wrap;
  }

  /** AL always holds; the sixteenth code never does. */
  lemma ConstantConditions(f: Flags)
    ensures CondHolds(14, f) && !CondHolds(15, f)
  {
  }

  /** The relation that a condition code names. */
  predicate Means(cond: bv8, x: u32, y: u32) {
    match cond
    case 0 => x == y
    case 1 => x != y
    case 2 => x >= y
    case 3 => x < y
    case 4 => Signed(Wrap(x - y)) < 0
    case 5 => Signed(Wrap(x - y)) >= 0
    case 6 => !(-0x8000_0000 <= Signed(x) - Signed(y) < 0x8000_0000)
    case 7 => -0x8000_0000 <= Signed(x) - Signed(y) < 0x8000_0000
    case 8 => x > y
    case 9 => x <= y
    case 10 => Signed(x) >= Signed(y)
    case 11 => Signed(x) < Signed(y)
    case 12 => Signed(x) > Signed(y)
    case 13 => Signed(x) <= Signed(y)
    case 14 => true
    case _ => false
  }

  lemma ConditionsMean(cond: bv8, x: u32, y: u32)
    ensures CondHolds(cond, Compare(x, y)) <==> Means(cond, x, y)
  {
    UnsignedConditions(x, y);
    SignedConditions(x, y);
    hide Compare, Signed, Wrap;
  }

  /** The condition of instruction `k` of a block: the first has the block's, each later one the block's
      with its low bit replaced by the mask bit that belongs to it. */
  function ConditionAt(it: bv8, k: nat): bv8
    requires k < 4
  {
    if k == 0 then it >> 4
    else if k == 1 then ((it >> 4) & 0xe) | ((it >> 3) & 1)
    else if k == 2 then ((it >> 4) & 0xe) | ((it >> 2) & 1)
    else ((it >> 4) & 0xe) | ((it >> 1) & 1)
  }

  lemma EffectiveConditions(it: bv8)
    ensures var c := Sync(it);
            && (c.remaining > 0 ==> Effective(c) == ConditionAt(it, 0))
            && (c.remaining > 1 ==> Effective(Shifted(c)) == ConditionAt(it, 1))
            && (c.remaining > 2 ==> Effective(Shifted(Shifted(c))) == ConditionAt(it, 2))
            && (c.remaining > 3 ==> Effective(Shifted(Shifted(Shifted(c)))) == ConditionAt(it, 3))
  {
  }

  /** Instruction `k` of a block is executed, from the cache, exactly when the last comparison stands in
      the relation its condition names. */
  lemma BlockDecides(it: bv8, k: nat, x: u32, y: u32)
    requires Inside(it, k)
    ensures k < 4 && (Executes(At(it, k), Compare(x, y)) <==> Means(ConditionAt(it, k), x, y))
  {
    hide At, Remaining, Effective, CondHolds, Compare, Means, ConditionAt, Takes, Sync;
    CountInside(it, k);
    CondKept(it, k);
    Nibbles(it);
    CacheAt(it, k);
    TakesEffective(At(it, k).cache, Compare(x, y));
    ConditionsMean(ConditionAt(it, k), x, y);
  }

  lemma CacheAt(it: bv8, k: nat)
    requires Inside(it, k) && k < 4
    ensures Effective(At(it, k).cache) == ConditionAt(it, k)
  {
    EffectiveConditions(it);
    SyncRemaining(it);
    hide Advance, Effective, ConditionAt, PatternBelow, Remaining, High, Low;
    assert At(it, 0).cache == Sync(it);
    if k > 0 { assert At(it, 1).cache == Shifted(Sync(it)); }
    if k > 1 { assert At(it, 2).cache == Shifted(Shifted(Sync(it))); }
    if k > 2 { assert At(it, 3).cache == Shifted(Shifted(Shifted(Sync(it)))); }
  }

  /** IT GE after comparing 5 with 3, and with 7. */
  lemma GreaterOrEqualExample()
    ensures Executes(At(0xa8, 0), Compare(5, 3)) && !Executes(At(0xa8, 0), Compare(5, 7))
  {
  }
}
