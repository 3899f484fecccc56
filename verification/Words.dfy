/** Fixed-width integers, the bit operations the emulator applies to them (written as
    arithmetic) and little-endian byte strings. */
module Words {

  const U32 := 0x1_0000_0000
  const U64 := 0x1_0000_0000_0000_0000

  type u8 = x: int | 0 <= x < 0x100
  type u32 = x: int | 0 <= x < 0x1_0000_0000
  type u64 = x: int | 0 <= x < 0x1_0000_0000_0000_0000

  datatype Option<+T> = None | Some(value: T)

  datatype Security = NonSecure | Secure

  /** Unsigned 32-bit wrap-around. */
  function Wrap(x: int): u32 { x % U32 }

  /** `x | 1`. */
  function OrBit0(x: u32): u32 { if x % 2 == 0 then x + 1 else x }

  /** Little-endian value of a byte string. */
  function FromLe(bytes: seq<u8>): nat {
    if bytes == [] then 0 else bytes[0] + 0x100 * FromLe(bytes[1..])
  }

  /** The low `n` bytes of `v`, least significant first. */
  function ToLe(v: nat, n: nat): (bytes: seq<u8>)
    ensures |bytes| == n
  {
    if n == 0 then [] else [v % 0x100] + ToLe(v / 0x100, n - 1)
  }

  function Pow256(n: nat): (p: nat)
    ensures p > 0
  {
    if n == 0 then 1 else 0x100 * Pow256(n - 1)
  }

  /** Decoding inverts encoding up to truncation to `n` bytes. */
  lemma {:induction false} LeRoundTrip(v: nat, n: nat)
    ensures FromLe(ToLe(v, n)) == v % Pow256(n)
  {
    if n > 0 {
      LeRoundTrip(v / 0x100, n - 1);
      assert ToLe(v, n)[1..] == ToLe(v / 0x100, n - 1);
      ModSplit(v, Pow256(n - 1));
    }
  }

  lemma ModSplit(v: nat, p: nat)
    requires p > 0
    ensures v % (0x100 * p) == v % 0x100 + 0x100 * ((v / 0x100) % p)
  {
    var q, r := v / 0x100, v % 0x100;
    var a, b := q / p, q % p;
    assert v == (0x100 * p) * a + (0x100 * b + r) by {
      assert q == p * a + b;
      assert 0x100 * (p * a) == (0x100 * p) * a;
    }
    EuclidUnique(v, 0x100 * p, a, 0x100 * b + r);
  }

  /** Quotient and remainder are determined by their defining equation. */
  lemma EuclidUnique(x: int, d: int, q: int, r: int)
    requires d > 0 && 0 <= r < d && x == d * q + r
    ensures x / d == q && x % d == r
  {
    var q', r' := x / d, x % d;
    assert d * (q - q') == r' - r;
    assert q - q' >= 1 ==> d * (q - q') >= d;
    assert q - q' <= -1 ==> d * (q - q') <= -d;
  }

  /** Remainder and quotient by a divisor that is not a constant. */
  function Mod(x: int, d: int): (r: int)
    requires d > 0
    ensures 0 <= r < d
  {
    x % d
  }

  function Quot(x: int, d: int): int
    requires d > 0
  {
    x / d
  }

  lemma QuotMod(x: int, d: int)
    requires d > 0
    ensures x == d * Quot(x, d) + Mod(x, d)
    ensures x >= 0 ==> 0 <= Quot(x, d) && Mod(x, d) <= x
  {
    var q, r := x / d, x % d;
    assert x == d * q + r;
    hide *;
    assert q <= -1 ==> d * q <= -d;
    assert q >= 0 ==> d * q >= 0;
  }

  /** The quotient and remainder are the only ones. */
  lemma QuotModUnique(x: int, d: int, q: int, r: int)
    requires d > 0 && 0 <= r < d && x == d * q + r
    ensures Quot(x, d) == q && Mod(x, d) == r
  {
    EuclidUnique(x, d, q, r);
  }

  /** Reducing first does not change a remainder. */
  lemma ModShift(x: int, y: int, d: int)
    requires d > 0
    ensures Mod(Mod(x, d) + y, d) == Mod(x + y, d)
    ensures Quot(x, d) + Quot(Mod(x, d) + y, d) == Quot(x + y, d)
  {
    hide Mod, Quot;
    var r := Mod(x, d);
    QuotMod(x, d);
    QuotMod(r + y, d);
    assert x + y == d * (Quot(x, d) + Quot(r + y, d)) + Mod(r + y, d);
    QuotModUnique(x + y, d, Quot(x, d) + Quot(r + y, d), Mod(r + y, d));
  }

  /** Adding `y` keeps the remainder exactly when `y` is a multiple. */
  lemma ModReturns(x: int, y: int, d: int)
    requires d > 0
    ensures Mod(x + y, d) == Mod(x, d) <==> Mod(y, d) == 0
    ensures Mod(y, d) == 0 ==> Quot(x + y, d) == Quot(x, d) + Quot(y, d)
    ensures Mod(-y, d) == 0 <==> Mod(y, d) == 0
  {
    hide Mod, Quot;
    QuotMod(x, d);
    QuotMod(y, d);
    QuotMod(-y, d);
    QuotMod(x + y, d);
    if Mod(y, d) == 0 {
      assert x + y == d * (Quot(x, d) + Quot(y, d)) + Mod(x, d);
      QuotModUnique(x + y, d, Quot(x, d) + Quot(y, d), Mod(x, d));
      assert -y == d * -Quot(y, d);
      QuotModUnique(-y, d, -Quot(y, d), 0);
    }
    if Mod(x + y, d) == Mod(x, d) {
      assert y == d * (Quot(x + y, d) - Quot(x, d));
      QuotModUnique(y, d, Quot(x + y, d) - Quot(x, d), 0);
    }
    if Mod(-y, d) == 0 {
      assert y == d * -Quot(-y, d);
      QuotModUnique(y, d, -Quot(-y, d), 0);
    }
  }

  lemma ModSmall(x: int, d: int)
    requires 0 <= x < d
    ensures Mod(x, d) == x && Quot(x, d) == 0
  {
    QuotModUnique(x, d, 0, x);
  }

  /** Writing `bytes` over `buf` at `off`. */
  function Splice(buf: seq<u8>, off: nat, bytes: seq<u8>): (r: seq<u8>)
    requires off + |bytes| <= |buf|
    ensures |r| == |buf|
    ensures forall k :: 0 <= k < |buf| ==> r[k] == if off <= k < off + |bytes| then bytes[k - off] else buf[k]
  {
    buf[..off] + bytes + buf[off + |bytes|..]
  }

  /** The 32-bit word stored at `off`. */
  function WordAt(buf: seq<u8>, off: nat): u32
    requires off + 4 <= |buf|
  {
    FourBytes(buf[off..off + 4]);
    FromLe(buf[off..off + 4])
  }

  lemma FourBytes(b: seq<u8>)
    requires |b| == 4
    ensures FromLe(b) == (b[0] as int) + 0x100 * (b[1] as int) + 0x1_0000 * (b[2] as int) + 0x100_0000 * (b[3] as int) < U32
  {
    assert FromLe(b[1..]) == b[1] + 0x100 * FromLe(b[2..]) by { assert b[1..][1..] == b[2..]; }
    assert FromLe(b[2..]) == b[2] + 0x100 * FromLe(b[3..]) by { assert b[2..][1..] == b[3..]; }
    assert FromLe(b[3..]) == b[3] + 0x100 * FromLe(b[4..]) by { assert b[3..][1..] == b[4..]; }
  }

  lemma TwoBytes(b: seq<u8>)
    requires |b| == 2
    ensures FromLe(b) == (b[0] as int) + 0x100 * (b[1] as int) < 0x1_0000
  {
    assert FromLe(b[1..]) == b[1] + 0x100 * FromLe(b[2..]) by { assert b[1..][1..] == b[2..]; }
  }

  /** A stored word reads back; words that do not overlap it are untouched. */
  lemma WordAfterSplice(buf: seq<u8>, off: nat, v: u32, at: nat)
    requires off + 4 <= |buf| && at + 4 <= |buf|
    requires at == off || at + 4 <= off || off + 4 <= at
    ensures WordAt(Splice(buf, off, ToLe(v, 4)), at) == if at == off then v else WordAt(buf, at)
  {
    var r := Splice(buf, off, ToLe(v, 4));
    if at == off {
      assert r[at..at + 4] == ToLe(v, 4);
      LeRoundTrip(v, 4);
      assert Pow256(4) == U32 by { assert Pow256(2) == 0x1_0000; }
    } else {
      assert r[at..at + 4] == buf[at..at + 4];
    }
  }
}
