/** IT-block state, kept packed in xPSR and cached as condition, pattern and count
    (src/execute.c:88-177, src/main.c:2266-2361). */
module ItBlocks {
  import opened Words
  import opened ItPacking

  // ---------------------------------------------------------------- the packed form

  /** The first condition and the mask. */
  function High(it: bv8): bv8 { it >> 4 }
  function Low(it: bv8): bv8 { it & 0x0f }
  function Join(cond: bv8, mask: bv8): bv8 { (cond << 4) | mask }

  /** Bit 1 and bit 0 of the first condition. */
  predicate Bit5(it: bv8) { it & 0x20 != 0 }
  predicate Bit4(it: bv8) { it & 0x10 != 0 }

  lemma Nibbles(it: bv8)
    ensures High(it) <= 15 && Low(it) <= 0x0f && Join(High(it), Low(it)) == it
    ensures High(it) & 2 != 0 <==> Bit5(it)
  {
  }

  /** The emulator's advance: bit 4 is shifted into bit 5, which keeps its old value as well. */
  function Advance(it: bv8): bv8 {
    if it & 0x0f == 0 then 0
    else
      var next := (it & 0xe0) | ((it & 0x1f) << 1);
      if next & 0x0f == 0 then 0 else next
  }

  /** ITAdvance() of the Armv8-M Architecture Reference Manual (DDI0553): a 5-bit shift. */
  function ArchAdvance(it: bv8): bv8 {
    if it & 0x07 == 0 then 0 else (it & 0xe0) | ((it << 1) & 0x1f)
  }

  // ---------------------------------------------------------------- the cached form

  datatype Cache = Cache(cond: bv8, pattern: bv8, remaining: bv8)

  /** Instructions left in a block whose mask is the low nibble. */
  function Remaining(mask: bv8): bv8 {
    if mask & 1 != 0 then 4 else if mask & 2 != 0 then 3 else if mask & 4 != 0 then 2 else if mask & 8 != 0 then 1 else 0
  }

  /** Whether instruction `i` of the block is a "then": the first always, later ones when their
      mask bit repeats the low condition bit. */
  predicate Then(cond: bv8, mask: bv8, i: bv8)
    requires i <= 3
  {
    i == 0 || (mask >> (4 - i)) & 1 == cond & 1
  }

  /** Pattern bits of the instructions before `n`. */
  function PatternBelow(cond: bv8, mask: bv8, n: bv8): bv8 {
    (if 0 < n then 1 else 0)
    | (if 1 < n && Then(cond, mask, 1) then 2 else 0)
    | (if 2 < n && Then(cond, mask, 2) then 4 else 0)
    | (if 3 < n && Then(cond, mask, 3) then 8 else 0)
  }

  function Sync(it: bv8): Cache {
    var cond, mask := High(it), Low(it);
    Cache(cond, PatternBelow(cond, mask, Remaining(mask)), Remaining(mask))
  }

  /** `it_mask_to_pattern`: find the lowest set mask bit, collect inverted mask bits, flip all
      but the first for an odd condition. */
  method ItMaskToPattern(cond: bv8, mask: bv8) returns (pattern: bv8, remaining: bv8)
    requires mask <= 0x0f
    ensures remaining == Remaining(mask)
    ensures pattern == PatternBelow(cond, mask, Remaining(mask))
  {
    pattern, remaining := 0, 0;
    if mask == 0 { return; }
    var i: bv8 := 0;
    while i < 4
      invariant i <= 4 && mask & ((1 << i) - 1) == 0
      decreases 4 - i
    {
      if mask & (1 << i) != 0 {
        remaining := 4 - i;
        break;
      }
      i := i + 1;
    }
    assert remaining == Remaining(mask) && remaining != 0;
    pattern := 1;
    i := 1;
    while i < remaining
      invariant 1 <= i <= remaining <= 4
      invariant pattern == PatternBelow(0, mask, i)
      decreases remaining - i
    {
      var bit := (mask >> (4 - i)) & 1;
      var patBit: bv8 := if bit != 0 then 0 else 1;
      pattern := pattern | (patBit << i);
      i := i + 1;
    }
    if cond & 1 != 0 && remaining > 1 {
      pattern := pattern ^ (((1 << remaining) - 1) & 0x0e);
    }
  }

  // ---------------------------------------------------------------- one instruction

  datatype Flags = Flags(n: bool, z: bool, c: bool, v: bool)

  predicate CondHolds(cond: bv8, f: Flags) {
    match cond
    case 0 => f.z
    case 1 => !f.z
    case 2 => f.c
    case 3 => !f.c
    case 4 => f.n
    case 5 => !f.n
    case 6 => f.v
    case 7 => !f.v
    case 8 => f.c && !f.z
    case 9 => !f.c || f.z
    case 10 => f.n == f.v
    case 11 => f.n != f.v
    case 12 => !f.z && f.n == f.v
    case 13 => f.z || f.n != f.v
    case 14 => true
    case _ => false
  }

  /** The main loop's decision, from the cache. */
  predicate Takes(c: Cache, f: Flags) {
    if c.pattern & 1 != 0 then CondHolds(c.cond, f) else !CondHolds(c.cond, f)
  }

  /** The architectural decision, from the condition field of ITSTATE. */
  predicate ItTakes(it: bv8, f: Flags) { CondHolds(High(it), f) }

  /** A point of a block: both forms side by side. */
  datatype Point = Point(it: bv8, cache: Cache)

  function Shifted(c: Cache): Cache
    requires c.remaining != 0
  {
    c.(pattern := c.pattern >> 1, remaining := c.remaining - 1)
  }

  /** The main loop after an instruction inside a block (src/main.c:2355-2361). */
  function Next(p: Point): Point {
    if p.cache.remaining == 0 then p else Point(Advance(p.it), Shifted(p.cache))
  }

  function At(it: bv8, k: nat): Point {
    if k == 0 then Point(it, Sync(it)) else Next(At(it, k - 1))
  }

  function ArchAt(it: bv8, k: nat): bv8 {
    if k == 0 then it else ArchAdvance(ArchAt(it, k - 1))
  }

  /** Point `k` lies inside the block that `it` starts. */
  predicate Inside(it: bv8, k: nat) { k < Remaining(Low(it)) as nat }

  lemma AdvanceCounts(it: bv8)
    requires Remaining(Low(it)) != 0
    ensures Remaining(Low(Advance(it))) == Remaining(Low(it)) - 1
  {
  }

  /** At every point of every block the cached count is the one ITSTATE implies. */
  lemma {:induction false} RemainingAgrees(it: bv8, k: nat)
    ensures At(it, k).cache.remaining == Remaining(Low(At(it, k).it))
    ensures k >= 4 ==> At(it, k).cache.remaining == 0
  {
    assert Remaining(Low(it)) <= 4;
    hide Advance, Remaining, Low;
    if k > 0 {
      RemainingAgrees(it, k - 1);
      var p := At(it, k - 1);
      if p.cache.remaining != 0 {
        AdvanceCounts(p.it);
      }
      CountDown(it, k);
    }
  }

  /** The count falls by one a step until it is zero. */
  lemma {:induction false} CountDown(it: bv8, k: nat)
    ensures var n := Remaining(Low(it)) as nat;
            At(it, k).cache.remaining as nat == if k <= n then n - k else 0
  {
    if k > 0 {
      CountDown(it, k - 1);
    }
  }

  lemma CountInside(it: bv8, k: nat)
    requires Inside(it, k)
    ensures k < 4 && At(it, k).cache.remaining != 0 && (At(it, k).cache.remaining > 1 <==> Inside(it, k + 1))
  {
    hide At;
    CountDown(it, k);
    CountDown(it, k + 1);
  }

  // ---------------------------------------------------------------- conditions as functions of the flags

  /** Two conditions that agree on all flags are the same condition. */
  lemma CondInjective(c: bv8, d: bv8)
    requires c <= 15 && d <= 15
    requires forall f :: CondHolds(c, f) == CondHolds(d, f)
    ensures c == d
  {
    assert CondHolds(c, Flags(false, false, false, false)) == CondHolds(d, Flags(false, false, false, false));
    assert CondHolds(c, Flags(false, false, false, true)) == CondHolds(d, Flags(false, false, false, true));
    assert CondHolds(c, Flags(false, false, true, false)) == CondHolds(d, Flags(false, false, true, false));
    assert CondHolds(c, Flags(false, true, false, false)) == CondHolds(d, Flags(false, true, false, false));
    assert CondHolds(c, Flags(true, false, false, false)) == CondHolds(d, Flags(true, false, false, false));
    assert CondHolds(c, Flags(false, true, true, false)) == CondHolds(d, Flags(false, true, true, false));
    assert CondHolds(c, Flags(true, false, false, true)) == CondHolds(d, Flags(true, false, false, true));
    assert CondHolds(c, Flags(true, false, true, false)) == CondHolds(d, Flags(true, false, true, false));
  }

  /** The condition a cache stands for. */
  function Effective(c: Cache): bv8 { if c.pattern & 1 != 0 then c.cond else c.cond ^ 1 }

  lemma TakesEffective(c: Cache, f: Flags)
    requires c.cond <= 15
    ensures Takes(c, f) == CondHolds(Effective(c), f)
  {
  }

  lemma EffectiveInRange(c: Cache)
    requires c.cond <= 15
    ensures Effective(c) <= 15 && Effective(c) & 2 == c.cond & 2
  {
  }

  ghost predicate SameOutcome(c: Cache, it: bv8) {
    forall f :: Takes(c, f) == ItTakes(it, f)
  }

  lemma SameOutcomeIff(c: Cache, it: bv8)
    requires c.cond <= 15
    ensures SameOutcome(c, it) <==> Effective(c) == High(it)
  {
    Nibbles(it);
    hide CondHolds, Effective, Takes, High;
    EffectiveInRange(c);
    forall f
      ensures Takes(c, f) == CondHolds(Effective(c), f)
    {
      TakesEffective(c, f);
    }
    if SameOutcome(c, it) {
      forall f
        ensures CondHolds(Effective(c), f) == CondHolds(High(it), f)
      {
        assert Takes(c, f) == ItTakes(it, f);
      }
      CondInjective(Effective(c), High(it));
    }
  }

  // ---------------------------------------------------------------- the instructions ahead

  const ALWAYS: bv8 := 14

  /** Whether the main loop executes the next instruction: outside a block it always does. */
  predicate Executes(p: Point, f: Flags) { p.cache.remaining == 0 || Takes(p.cache, f) }

  /** The point `i` instructions later. */
  function Steps(p: Point, i: nat): Point
    decreases i
  {
    if i == 0 then p else Steps(Next(p), i - 1)
  }

  /** From here on every instruction is decided alike, whatever the flags are by then. */
  ghost predicate SameDecisions(p: Point, q: Point) {
    forall i: nat, f :: Executes(Steps(p, i), f) == Executes(Steps(q, i), f)
  }

  /** The condition of the `i`-th instruction ahead; past the block, always. */
  function Named(c: Cache, i: nat): bv8
    decreases i
  {
    if c.remaining == 0 then ALWAYS else if i == 0 then Effective(c) else Named(Shifted(c), i - 1)
  }

  lemma {:induction false} ExecutesNamed(p: Point, i: nat, f: Flags)
    requires p.cache.cond <= 15
    ensures Executes(Steps(p, i), f) == CondHolds(Named(p.cache, i), f)
    decreases i
  {
    hide Advance, Takes, Effective;
    assert CondHolds(ALWAYS, f);
    hide CondHolds;
    if i == 0 {
      TakesEffective(p.cache, f);
    } else {
      ExecutesNamed(Next(p), i - 1, f);
      if p.cache.remaining == 0 && i > 1 {
        NamedEnd(p.cache, i - 1);
      }
    }
  }

  lemma {:induction false} NamedInRange(c: Cache, i: nat)
    requires c.cond <= 15
    ensures Named(c, i) <= 15
    ensures i < c.remaining as nat ==> Named(c, i) & 2 == c.cond & 2
    decreases i
  {
    hide Effective;
    EffectiveInRange(c);
    if i > 0 && c.remaining != 0 {
      NamedInRange(Shifted(c), i - 1);
    }
  }

  lemma {:induction false} NamedEnd(c: Cache, i: nat)
    requires i >= c.remaining as nat
    ensures Named(c, i) == ALWAYS
    decreases i
  {
    hide Effective;
    if i > 0 && c.remaining != 0 {
      NamedEnd(Shifted(c), i - 1);
    }
  }

  ghost predicate SameNames(c: Cache, d: Cache) {
    forall i: nat :: Named(c, i) == Named(d, i)
  }

  /** Two points decide everything alike exactly when they name the same conditions. */
  lemma SameDecisionsIff(p: Point, q: Point)
    requires p.cache.cond <= 15 && q.cache.cond <= 15
    ensures SameDecisions(p, q) <==> SameNames(p.cache, q.cache)
  {
    hide Executes, Steps, Named, CondHolds;
    forall i: nat, f
      ensures Executes(Steps(p, i), f) == CondHolds(Named(p.cache, i), f)
      ensures Executes(Steps(q, i), f) == CondHolds(Named(q.cache, i), f)
    {
      ExecutesNamed(p, i, f);
      ExecutesNamed(q, i, f);
    }
    if SameNames(p.cache, q.cache) {
      forall i: nat, f
        ensures Executes(Steps(p, i), f) == Executes(Steps(q, i), f)
      {
        assert Named(p.cache, i) == Named(q.cache, i);
      }
    }
    if SameDecisions(p, q) {
      forall i: nat
        ensures Named(p.cache, i) == Named(q.cache, i)
      {
        NamedInRange(p.cache, i);
        NamedInRange(q.cache, i);
        forall f
          ensures CondHolds(Named(p.cache, i), f) == CondHolds(Named(q.cache, i), f)
        {
          assert Executes(Steps(p, i), f) == Executes(Steps(q, i), f);
        }
        CondInjective(Named(p.cache, i), Named(q.cache, i));
      }
    }
  }

  // ---------------------------------------------------------------- when the two forms agree

  /** Some advance before point `k` moved a set bit 4 into a clear bit 5. */
  predicate Corrupted(it: bv8, k: nat) {
    k > 0 && (Corrupted(it, k - 1) || (!Bit5(it) && Bit4(At(it, k - 1).it)))
  }

  /** The mask after one advance. */
  function Doubled(mask: bv8): bv8 { (mask & 0x07) << 1 }

  /** One advance, while more of the block is to come. */
  lemma AdvanceBits(x: bv8)
    requires Remaining(Low(x)) > 1
    ensures Advance(x) == ArchAdvance(x) <==> Bit5(x) || !Bit4(x)
    ensures Bit5(Advance(x)) <==> Bit5(x) || Bit4(x)
    ensures Low(Advance(x)) == Low(ArchAdvance(x)) == Doubled(Low(x))
    ensures Bit5(ArchAdvance(x)) <==> Bit5(x)
  {
  }

  /** The low bits go the same way in both advances, and the architecture's keeps bit 5. */
  lemma {:induction false} MasksAgree(it: bv8, k: nat)
    requires Inside(it, k)
    ensures Low(At(it, k).it) == Low(ArchAt(it, k)) && (Bit5(ArchAt(it, k)) <==> Bit5(it))
  {
    hide Advance, ArchAdvance, Remaining, Low, Doubled, Sync, Bit5, Bit4;
    if k > 0 {
      CountInside(it, k - 1);
      RemainingAgrees(it, k - 1);
      MasksAgree(it, k - 1);
      AdvanceBits(At(it, k - 1).it);
      AdvanceBits(ArchAt(it, k - 1));
    }
  }

  lemma {:induction false} CondKept(it: bv8, k: nat)
    ensures At(it, k).cache.cond == High(it)
  {
    hide High, Advance, Remaining, PatternBelow;
    if k > 0 {
      CondKept(it, k - 1);
    }
  }

  /** As many ones as there are instructions left. */
  function Ones(n: bv8): bv8 {
    if n == 0 then 0 else if n == 1 then 1 else if n == 2 then 3 else if n == 3 then 7 else 15
  }

  /** The same conditions, written with the same base condition or with its opposite. */
  predicate Alike(c: Cache, d: Cache) {
    && c.remaining == d.remaining <= 4
    && (|| (c.cond == d.cond && (c.pattern ^ d.pattern) & Ones(c.remaining) == 0)
        || (c.cond == d.cond ^ 1 && (c.pattern ^ d.pattern) & Ones(c.remaining) == Ones(c.remaining)))
  }

  lemma AlikeShifts(c: Cache, d: Cache)
    requires Alike(c, d) && c.remaining != 0
    ensures Effective(c) == Effective(d) && Alike(Shifted(c), Shifted(d))
  {
  }

  lemma {:induction false} AlikeNames(c: Cache, d: Cache, i: nat)
    requires Alike(c, d)
    ensures Named(c, i) == Named(d, i)
    decreases i
  {
    if c.remaining != 0 {
      AlikeShifts(c, d);
      hide Alike, Effective;
      if i > 0 {
        AlikeNames(Shifted(c), Shifted(d), i - 1);
      }
    }
  }

  /** Advancing without corruption shifts the conditions the packed form names. */
  lemma SyncShifts(x: bv8)
    requires Remaining(Low(x)) > 1 && (Bit5(x) || !Bit4(x))
    ensures Alike(Shifted(Sync(x)), Sync(Advance(x)))
  {
  }

  lemma SyncNames(x: bv8)
    requires Remaining(Low(x)) != 0
    ensures Effective(Sync(x)) == Sync(x).cond == High(x) <= 15
    ensures High(x) & 2 != 0 <==> Bit5(x)
  {
  }

  /** Until a corrupted advance, ITSTATE is the architectural one and names the cached conditions. */
  lemma {:induction false} UncorruptedAgrees(it: bv8, k: nat)
    requires Inside(it, k) && !Corrupted(it, k)
    ensures At(it, k).it == ArchAt(it, k) && (Bit5(At(it, k).it) <==> Bit5(it))
    ensures SameNames(At(it, k).cache, Sync(At(it, k).it))
  {
    hide Advance, ArchAdvance, Remaining, Sync, Alike, Effective, Bit5, Bit4, Low, Doubled;
    if k > 0 {
      UncorruptedAgrees(it, k - 1);
      CountInside(it, k - 1);
      RemainingAgrees(it, k - 1);
      var x := At(it, k - 1).it;
      AdvanceBits(x);
      SyncShifts(x);
      SyncRemaining(x);
      var c := At(it, k - 1).cache;
      forall i: nat
        ensures Named(Shifted(c), i) == Named(Sync(Advance(x)), i)
      {
        assert Named(c, i + 1) == Named(Sync(x), i + 1);
        AlikeNames(Shifted(Sync(x)), Sync(Advance(x)), i);
      }
    }
  }

  lemma SyncRemaining(x: bv8)
    ensures Sync(x).remaining == Remaining(Low(x)) <= 4
  {
  }

  /** From a corrupted advance on, bit 5 of ITSTATE is set where the block started with it clear. */
  lemma {:induction false} CorruptedDiffers(it: bv8, k: nat)
    requires Inside(it, k) && Corrupted(it, k)
    ensures !Bit5(it) && Bit5(At(it, k).it)
    decreases k
  {
    hide Advance, ArchAdvance, Remaining, Sync, Bit5, Bit4, Low, Doubled;
    CountInside(it, k - 1);
    RemainingAgrees(it, k - 1);
    var x := At(it, k - 1).it;
    AdvanceBits(x);
    if Corrupted(it, k - 1) {
      CorruptedDiffers(it, k - 1);
    }
  }

  /** What a point of a block names, in both forms, with and without corruption. */
  lemma CorruptedNames(it: bv8, k: nat, i: nat)
    requires Inside(it, k) && Corrupted(it, k) && i < At(it, k).cache.remaining as nat
    ensures Named(At(it, k).cache, i) != Named(Sync(At(it, k).it), i)
  {
    hide At, Remaining, Corrupted, Sync, Effective, Named;
    var x := At(it, k).it;
    CondKept(it, k);
    CorruptedDiffers(it, k);
    RemainingAgrees(it, k);
    SyncRemaining(x);
    SyncNames(x);
    Nibbles(it);
    NamedInRange(At(it, k).cache, i);
    NamedInRange(Sync(x), i);
  }

  /** The cached decision and the xPSR decision agree on all flags exactly when ITSTATE is what
      the architecture's advance gives, exactly when no advance was corrupted. */
  lemma DecisionsAgreeIff(it: bv8, k: nat)
    requires Inside(it, k)
    ensures SameOutcome(At(it, k).cache, At(it, k).it) <==> !Corrupted(it, k)
    ensures At(it, k).it == ArchAt(it, k) <==> !Corrupted(it, k)
  {
    hide At, SameOutcome, ArchAt, Corrupted, Effective, Remaining, Sync;
    var p := At(it, k);
    CountInside(it, k);
    RemainingAgrees(it, k);
    CondKept(it, k);
    Nibbles(it);
    SyncRemaining(p.it);
    SyncNames(p.it);
    SameOutcomeIff(p.cache, p.it);
    assert Named(p.cache, 0) == Effective(p.cache) && Named(Sync(p.it), 0) == High(p.it);
    if Corrupted(it, k) {
      CorruptedNames(it, k, 0);
      CorruptedDiffers(it, k);
      MasksAgree(it, k);
    } else {
      UncorruptedAgrees(it, k);
    }
  }

  /** A first condition with bit 1 set is never corrupted. */
  lemma {:induction false} NeverCorrupted(it: bv8, k: nat)
    requires Bit5(it)
    ensures !Corrupted(it, k)
  {
    if k > 0 {
      NeverCorrupted(it, k - 1);
    }
  }

  /** ITTE NE: by the third instruction the xPSR copy reads CS where the cache says EQ. */
  lemma CorruptionExample()
    ensures Corrupted(0x1a, 1) && Inside(0x1a, 2)
    ensures High(At(0x1a, 2).it) == 2 && Effective(At(0x1a, 2).cache) == 0
  {
    assert At(0x1a, 0) == Point(0x1a, Cache(1, 3, 3));
    assert At(0x1a, 1) == Point(0x34, Cache(1, 1, 2));
    assert At(0x1a, 2) == Point(0x28, Cache(1, 0, 1));
    assert !Corrupted(0x1a, 0);
  }

  // ---------------------------------------------------------------- exceptions inside a block

  /** Rebuilding the cache from the xPSR of point `k`, as exception return does. */
  function Resynced(it: bv8, k: nat): Point { Point(At(it, k).it, Sync(At(it, k).it)) }

  /** Facts about a point of a block and the one rebuilt from it. */
  lemma ResyncedShape(it: bv8, k: nat)
    requires Inside(it, k)
    ensures At(it, k).cache.cond == High(it) <= 15 && Resynced(it, k).cache.cond <= 15
    ensures At(it, k).cache.remaining == Resynced(it, k).cache.remaining != 0
    ensures At(it, k).cache.remaining <= 4
  {
    hide At, Remaining, Sync;
    CountInside(it, k);
    CondKept(it, k);
    Nibbles(it);
    RemainingAgrees(it, k);
    SyncRemaining(At(it, k).it);
    SyncNames(At(it, k).it);
  }

  /** Rebuilding the cache in mid-block keeps every remaining decision, for all flags, exactly when
      no advance so far was corrupted. */
  lemma ResyncTransparentIff(it: bv8, k: nat)
    requires Inside(it, k)
    ensures SameDecisions(At(it, k), Resynced(it, k)) <==> !Corrupted(it, k)
  {
    hide At, Corrupted, Remaining, Named, Sync, SameDecisions;
    ResyncedShape(it, k);
    SameDecisionsIff(At(it, k), Resynced(it, k));
    if Corrupted(it, k) {
      CorruptedNames(it, k, 0);
    } else {
      UncorruptedAgrees(it, k);
    }
  }

  /** Every instruction left in the block is unconditional. */
  predicate Unconditional(c: Cache) {
    || c.remaining == 0
    || (c.cond == 14 && c.pattern & Ones(c.remaining) == Ones(c.remaining))
    || (c.cond == 15 && c.pattern & Ones(c.remaining) == 0)
  }

  lemma UnconditionalShifts(c: Cache)
    requires c.cond <= 15 && 0 < c.remaining <= 4
    ensures Unconditional(c) <==> Effective(c) == ALWAYS && Unconditional(Shifted(c))
  {
  }

  lemma {:induction false} UnconditionalNames(c: Cache, i: nat)
    requires c.cond <= 15 && c.remaining <= 4 && Unconditional(c)
    ensures Named(c, i) == ALWAYS
    decreases i
  {
    if c.remaining != 0 {
      UnconditionalShifts(c);
      hide Unconditional, Effective;
      if i > 0 {
        UnconditionalNames(Shifted(c), i - 1);
      }
    }
  }

  lemma {:induction false} NamesUnconditional(c: Cache)
    requires c.cond <= 15 && c.remaining <= 4 && forall i: nat :: Named(c, i) == ALWAYS
    ensures Unconditional(c)
    decreases c.remaining
  {
    if c.remaining != 0 {
      UnconditionalShifts(c);
      hide Unconditional, Effective;
      assert Named(c, 0) == Effective(c);
      assert forall i: nat :: Named(Shifted(c), i) == Named(c, i + 1);
      NamesUnconditional(Shifted(c));
    }
  }

  /** An exception taken before instruction `k` returns through BX, POP or LDM: the cache is rebuilt
      from the stacked xPSR and the main loop then advances once more. The rest of the program is
      decided as without the exception exactly when the rest of the block is unconditional. */
  lemma ReturnTransparentIff(it: bv8, k: nat)
    ensures SameDecisions(At(it, k), Next(Resynced(it, k))) <==> Unconditional(At(it, k).cache)
  {
    hide At, Remaining, Sync, SameDecisions;
    if Inside(it, k) {
      ReturnInsideIff(it, k);
    } else {
      CountDown(it, k);
      RemainingAgrees(it, k);
      SyncRemaining(At(it, k).it);
      SameOutside(At(it, k), Resynced(it, k));
    }
  }

  lemma {:induction false} OutsideExecutes(p: Point, i: nat, f: Flags)
    requires p.cache.remaining == 0
    ensures Executes(Steps(p, i), f)
    decreases i
  {
    if i > 0 {
      OutsideExecutes(p, i - 1, f);
    }
  }

  lemma SameOutside(p: Point, q: Point)
    requires p.cache.remaining == 0 && q.cache.remaining == 0
    ensures SameDecisions(p, q)
  {
    hide Executes, Steps;
    forall i: nat, f
      ensures Executes(Steps(p, i), f) == Executes(Steps(q, i), f)
    {
      OutsideExecutes(p, i, f);
      OutsideExecutes(q, i, f);
    }
  }

  lemma ReturnInsideIff(it: bv8, k: nat)
    requires Inside(it, k)
    ensures SameDecisions(At(it, k), Next(Resynced(it, k))) <==> Unconditional(At(it, k).cache)
  {
    hide At, Corrupted, Remaining, Sync, SameDecisions, Unconditional, Effective, Advance, CondHolds;
    var c, d := At(it, k).cache, Resynced(it, k).cache;
    ResyncedShape(it, k);
    SameDecisionsIff(At(it, k), Next(Resynced(it, k)));
    assert forall i: nat :: Named(Shifted(d), i) == Named(d, i + 1);
    if Unconditional(c) {
      UnconditionalNames(c, 0);
      AlwaysUncorrupted(it, k, 0);
      UncorruptedAgrees(it, k);
      forall i: nat
        ensures Named(c, i) == Named(Shifted(d), i)
      {
        UnconditionalNames(c, i);
        UnconditionalNames(c, i + 1);
        assert Named(c, i + 1) == Named(d, i + 1);
      }
    }
    if SameNames(c, Shifted(d)) {
      var last := c.remaining as nat - 1;
      NamedEnd(d, last + 1);
      assert Named(c, last) == Named(Shifted(d), last) == ALWAYS;
      AlwaysUncorrupted(it, k, last);
      UncorruptedAgrees(it, k);
      forall i: nat
        ensures Named(c, i) == Named(c, i + 1)
      {
        assert Named(c, i) == Named(Shifted(d), i) == Named(d, i + 1) == Named(c, i + 1);
      }
      AllAlike(c, last);
      NamesUnconditional(c);
    }
  }

  /** An instruction that is unconditional shows that bit 1 of the condition is set. */
  lemma AlwaysUncorrupted(it: bv8, k: nat, i: nat)
    requires Inside(it, k) && i < At(it, k).cache.remaining as nat && Named(At(it, k).cache, i) == ALWAYS
    ensures !Corrupted(it, k)
  {
    hide At, Remaining, Named, Corrupted;
    CondKept(it, k);
    Nibbles(it);
    NamedInRange(At(it, k).cache, i);
    NeverCorrupted(it, k);
  }

  lemma {:induction false} AllAlike(c: Cache, last: nat)
    requires last + 1 >= c.remaining as nat && Named(c, last) == ALWAYS
    requires forall i: nat :: Named(c, i) == Named(c, i + 1)
    ensures forall i: nat :: Named(c, i) == ALWAYS
  {
    hide Named;
    forall i: nat
      ensures Named(c, i) == ALWAYS
    {
      if i > last {
        NamedEnd(c, i);
      } else {
        AllAlikeBelow(c, i, last);
      }
    }
  }

  lemma {:induction false} AllAlikeBelow(c: Cache, i: nat, last: nat)
    requires i <= last && Named(c, last) == ALWAYS
    requires forall j: nat :: Named(c, j) == Named(c, j + 1)
    ensures Named(c, i) == ALWAYS
    decreases last - i
  {
    hide Named;
    if i < last {
      AllAlikeBelow(c, i + 1, last);
    }
  }

  /** IT EQ: an interrupt before its only instruction makes that instruction unconditional. */
  lemma ReturnExample()
    ensures Inside(0x08, 0) && !Executes(At(0x08, 0), Flags(false, false, false, false))
    ensures Executes(Next(Resynced(0x08, 0)), Flags(false, false, false, false))
  {
  }

  /** SVC as instruction `k` stacks the state of point `k` but returns behind itself, so that the
      extra advance is the right one unless an earlier one was corrupted. */
  lemma SupervisorReturnIff(it: bv8, k: nat)
    requires Inside(it, k)
    ensures SameDecisions(At(it, k + 1), Next(Resynced(it, k))) <==> !Inside(it, k + 1) || !Corrupted(it, k)
  {
    hide At, Corrupted, Remaining, Sync, SameDecisions, Effective, Advance, CondHolds;
    var c, d := At(it, k).cache, Resynced(it, k).cache;
    ResyncedShape(it, k);
    AtNext(it, k);
    CountInside(it, k);
    SameDecisionsIff(At(it, k + 1), Next(Resynced(it, k)));
    assert forall i: nat :: Named(Shifted(c), i) == Named(c, i + 1);
    assert forall i: nat :: Named(Shifted(d), i) == Named(d, i + 1);
    if !Inside(it, k + 1) {
      assert c.remaining == 1;
    } else if Corrupted(it, k) {
      CorruptedNames(it, k, 1);
      assert Named(Shifted(c), 0) != Named(Shifted(d), 0);
    } else {
      UncorruptedAgrees(it, k);
    }
  }

  lemma AtNext(it: bv8, k: nat)
    ensures At(it, k + 1) == Next(At(it, k))
  {
  }

  /** Code that starts with an empty ITSTATE in what the cache holds of a block is decided as outside
      blocks exactly when that rest is unconditional. */
  lemma StaleCacheIff(it: bv8, k: nat)
    requires Inside(it, k)
    ensures SameDecisions(Next(Point(0, At(it, k).cache)), Point(0, Sync(0))) <==> Unconditional(At(it, k + 1).cache)
  {
    hide At, Remaining, Sync, SameDecisions, Unconditional, Effective, Advance, CondHolds;
    var c, none := At(it, k).cache, Sync(0);
    ResyncedShape(it, k);
    AtNext(it, k);
    EmptySync();
    SameDecisionsIff(Next(Point(0, c)), Point(0, none));
    if Unconditional(Shifted(c)) {
      forall i: nat
        ensures Named(Shifted(c), i) == Named(none, i)
      {
        UnconditionalNames(Shifted(c), i);
      }
    }
    if SameNames(Shifted(c), none) {
      assert forall i: nat :: Named(none, i) == ALWAYS;
      assert forall i: nat :: Named(Shifted(c), i) == Named(none, i);
      NamesUnconditional(Shifted(c));
    }
  }

  /** ITT EQ with SVC as its first instruction: the handler's first instruction depends on Z. ITTE NE with
      SVC as its second: the third instruction is decided wrongly after the return. */
  lemma SupervisorExample()
    ensures Inside(0x04, 1) && !Executes(Next(Point(0, At(0x04, 0).cache)), Flags(false, false, false, false))
    ensures !SameDecisions(At(0x1a, 2), Next(Resynced(0x1a, 1)))
  {
    CorruptionExample();
    SupervisorReturnIff(0x1a, 1);
    hide SameDecisions;
  }

  lemma EmptySync()
    ensures Sync(0) == Cache(0, 0, 0)
  {
  }

  // ---------------------------------------------------------------- the mutable unit

  class ItUnit {
    var xpsr: u32
    var pattern: bv8
    var remaining: bv8
    var cond: bv8

    function Cached(): Cache
      reads this
    {
      Cache(cond, pattern, remaining)
    }

    /** The cached count is the one packed in xPSR. */
    ghost predicate Valid()
      reads this
    {
      remaining == Remaining(Low(Get(xpsr)))
    }

    /** The IT instruction. */
    method StartBlock(imm: bv8)
      modifies this
      ensures Valid() && Get(xpsr) == imm && Cached() == Sync(imm)
      ensures Others(xpsr) == old(Others(xpsr))
    {
      hide Get, Set, PatternBelow, Remaining, High, Low, Join, Others;
      Nibbles(imm);
      cond := High(imm);
      pattern, remaining := ItMaskToPattern(cond, Low(imm));
      var raw := Join(cond, Low(imm));
      GetSet(xpsr, raw);
      SetKeeps(xpsr, raw);
      xpsr := Set(xpsr, raw);
    }

    /** After an instruction inside a block. */
    method FinishInstruction()
      requires Valid()
      modifies this
      ensures Valid()
      ensures old(remaining) == 0 ==> Cached() == old(Cached()) && xpsr == old(xpsr)
      ensures old(remaining) != 0 ==> Point(Get(xpsr), Cached()) == Next(Point(Get(old(xpsr)), old(Cached())))
      ensures Others(xpsr) == old(Others(xpsr))
    {
      assert remaining > 0 <==> remaining != 0;
      hide Get, Set, Advance, Remaining, Low, Others;
      if remaining > 0 {
        var raw := Get(xpsr);
        AdvanceCounts(raw);
        pattern, remaining := pattern >> 1, remaining - 1;
        GetSet(xpsr, Advance(raw));
        SetKeeps(xpsr, Advance(raw));
        xpsr := Set(xpsr, Advance(raw));
      }
    }

    /** `itstate_sync_from_xpsr`. */
    method SyncFromXpsr()
      modifies this
      ensures Valid() && xpsr == old(xpsr) && Cached() == Sync(Get(xpsr))
    {
      hide Get, PatternBelow, Remaining, High, Low;
      var raw := Get(xpsr);
      Nibbles(raw);
      pattern, remaining := ItMaskToPattern(High(raw), Low(raw));
      cond := High(raw);
    }
  }
}
