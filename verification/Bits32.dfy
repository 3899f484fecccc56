/** Bitwise operations on words as named functions, and the identities the register proofs need:
    plain equations, from which the equivalences follow without looking at bits. */
module Bits32 {

  function Both(x: bv32, y: bv32): bv32 { x & y }

  function Either(x: bv32, y: bv32): bv32 { x | y }

  function Without(x: bv32, mask: bv32): bv32 { x & !mask }

  function Low24(v: bv32): bv32 { v & 0xFF_FFFF }

  lemma EitherZero(mask: bv32, y: bv32)
    ensures Either(Without(0, mask), y) == y && Either(0, y) == y
  {
  }

  lemma Absorbs(a: bv32, y: bv32)
    ensures Both(a, Either(a, y)) == a
  {
  }

  lemma Low24Either(a: bv32, y: bv32)
    ensures Low24(Either(a, y)) == Either(Low24(a), Low24(y))
  {
  }

  lemma MaskedApart(a: bv32, mask: bv32, x: bv32)
    ensures Both(Low24(Without(a, mask)), Low24(Both(x, mask))) == 0
  {
  }

  /** Merging into zero and merging into `load` differ exactly by what `load` has outside the mask. */
  lemma LoadBits(load: bv32, mask: bv32, x: bv32)
    ensures Low24(Either(Without(0, mask), Both(x, mask))) == Low24(Either(Without(load, mask), Both(x, mask)))
       <==> Low24(Without(load, mask)) == 0
  {
    hide *;
    var a, y := Low24(Without(load, mask)), Low24(Both(x, mask));
    EitherZero(mask, Both(x, mask));
    Low24Either(Without(load, mask), Both(x, mask));
    MaskedApart(load, mask, x);
    Absorbs(a, y);
    EitherZero(mask, y);
  }

  lemma WithoutEither(c: bv32, a: bv32, b: bv32)
    ensures Without(c, Either(a, b)) == Without(Without(c, b), a)
  {
  }

  lemma OutsideSurvives(cur: bv32, mask: bv32, x: bv32)
    ensures Both(Without(cur, Both(x, mask)), Without(cur, mask)) == Without(cur, mask)
  {
  }

  lemma WithoutParts(y: bv32, a: bv32)
    ensures Both(Without(y, a), a) == 0 && Without(y, 0) == y
  {
  }

  /** Clearing the merged word leaves nothing outside the mask. */
  lemma ClearsOutside(cur: bv32, mask: bv32, y: bv32)
    ensures Without(Without(cur, Either(Without(cur, mask), y)), mask) == 0
  {
  }

  lemma MergedZero(mask: bv32, x: bv32)
    ensures Without(Low24(Either(Without(0, mask), Both(x, mask))), mask) == 0
  {
  }

  /** Clearing the merged word clears just the masked part exactly when nothing is outside the mask. */
  lemma ClearBits(cur: bv32, mask: bv32, x: bv32)
    ensures Without(cur, Either(Without(cur, mask), Both(x, mask))) == Without(cur, Both(x, mask))
       <==> Without(cur, mask) == 0
  {
    hide *;
    WithoutEither(cur, Without(cur, mask), Both(x, mask));
    OutsideSurvives(cur, mask, x);
    WithoutParts(Without(cur, Both(x, mask)), Without(cur, mask));
  }
}
