/** ITSTATE as packed into xPSR (src/execute.c:131-144): ITSTATE<7:2> is xPSR<15:10> and ITSTATE<1:0>
    is xPSR<26:25>. */
module ItPacking {
  import opened Words

  function HighPart(x: u32): (h: nat)
    ensures h < 0x40
  {
    x / 0x400 % 0x40
  }

  function LowPart(x: u32): (l: nat)
    ensures l < 4
  {
    x / 0x200_0000 % 4
  }

  /** Numbers and bytes, nibble by nibble. */
  function Nibble(n: nat): bv4
    requires n < 0x10
  {
    n as bv4
  }

  function Digit(b: bv4): (n: nat)
    ensures n < 0x10
  {
    b as int
  }

  function Pair(a: bv4, b: bv4): bv8 { ((a as bv8) << 4) | (b as bv8) }

  function Upper(it: bv8): bv4 { (it >> 4) as bv4 }

  function Lower(it: bv8): bv4 { (it & 0x0f) as bv4 }

  function Byte(n: nat): bv8
    requires n < 0x100
  {
    Pair(Nibble(n / 0x10), Nibble(n % 0x10))
  }

  function Value(it: bv8): (n: nat)
    ensures n < 0x100
  {
    0x10 * Digit(Upper(it)) + Digit(Lower(it))
  }

  lemma DigitNibble(n: nat)
    requires n < 0x10
    ensures Digit(Nibble(n)) == n
  {
  }

  lemma NibbleDigit(b: bv4)
    ensures Nibble(Digit(b)) == b
  {
  }

  lemma PairParts(a: bv4, b: bv4)
    ensures Upper(Pair(a, b)) == a && Lower(Pair(a, b)) == b
  {
  }

  lemma PartsPair(it: bv8)
    ensures Pair(Upper(it), Lower(it)) == it
  {
  }

  lemma ByteValue(n: nat)
    requires n < 0x100
    ensures Value(Byte(n)) == n
  {
    hide Nibble, Digit, Pair, Upper, Lower;
    DigitNibble(n / 0x10);
    DigitNibble(n % 0x10);
    PairParts(Nibble(n / 0x10), Nibble(n % 0x10));
  }

  lemma ValueByte(it: bv8)
    ensures Byte(Value(it)) == it
  {
    hide Nibble, Digit, Pair, Upper, Lower;
    var a, b := Digit(Upper(it)), Digit(Lower(it));
    EuclidUnique(0x10 * a + b, 0x10, a, b);
    NibbleDigit(Upper(it));
    NibbleDigit(Lower(it));
    PartsPair(it);
  }

  lemma ZeroByte()
    ensures Byte(0) == 0
  {
  }

  /** `itstate_get`. */
  function Get(x: u32): bv8 { Byte(4 * HighPart(x) + LowPart(x)) }

  /** The number it is: six bits of xPSR from bit 10 above two from bit 25. */
  lemma GetValue(x: u32)
    ensures Value(Get(x)) == 4 * (x / 0x400 % 0x40) + x / 0x200_0000 % 4
  {
    hide Byte, Value;
    ByteValue(4 * HighPart(x) + LowPart(x));
  }

  /** The rest of xPSR: five flags, nine bits of Thumb and reserved fields, ten of IPSR and below. */
  function Others(x: u32): (nat, nat, nat) { (x / 0x800_0000, x / 0x1_0000 % 0x200, x % 0x400) }

  function Word(top: nat, low: nat, middle: nat, high: nat, bottom: nat): u32
    requires top < 0x20 && low < 4 && middle < 0x200 && high < 0x40 && bottom < 0x400
  {
    0x800_0000 * top + 0x200_0000 * low + 0x1_0000 * middle + 0x400 * high + bottom
  }

  /** `itstate_set`. */
  function Set(x: u32, it: bv8): u32 {
    var o := Others(x);
    Word(o.0, Value(it) % 4, o.1, Value(it) / 4, o.2)
  }

  /** The fields of a word put together from fields. */
  lemma WordFields(top: nat, low: nat, middle: nat, high: nat, bottom: nat)
    requires top < 0x20 && low < 4 && middle < 0x200 && high < 0x40 && bottom < 0x400
    ensures var x := Word(top, low, middle, high, bottom);
            HighPart(x) == high && LowPart(x) == low && Others(x) == (top, middle, bottom)
  {
    var x := Word(top, low, middle, high, bottom);
    var a := 0x200 * low + middle;
    var b := 0x40 * (0x800 * top + a) + high;
    EuclidUnique(x, 0x400, b, bottom);
    EuclidUnique(b, 0x40, 0x800 * top + a, high);
    EuclidUnique(x, 0x1_0000, 0x800 * top + a, 0x400 * high + bottom);
    EuclidUnique(0x800 * top + a, 0x200, 4 * top + low, middle);
    EuclidUnique(x, 0x200_0000, 4 * top + low, 0x1_0000 * middle + 0x400 * high + bottom);
    EuclidUnique(4 * top + low, 4, top, low);
    EuclidUnique(x, 0x800_0000, top, 0x200_0000 * low + 0x1_0000 * middle + 0x400 * high + bottom);
  }

  /** Every word is put together from its fields. */
  lemma WordOfFields(x: u32)
    ensures var o := Others(x); o.0 < 0x20 && x == Word(o.0, LowPart(x), o.1, HighPart(x), o.2)
  {
    var a, b, c := x / 0x400, x / 0x1_0000, x / 0x200_0000;
    assert x == 0x400 * a + x % 0x400;
    EuclidUnique(x, 0x1_0000, a / 0x40, 0x400 * (a % 0x40) + x % 0x400);
    EuclidUnique(x, 0x200_0000, b / 0x200, 0x1_0000 * (b % 0x200) + x % 0x1_0000);
    EuclidUnique(x, 0x800_0000, c / 4, 0x200_0000 * (c % 4) + x % 0x200_0000);
    assert c == 4 * (c / 4) + c % 4 && b == 0x200 * c + b % 0x200 && a == 0x40 * b + a % 0x40;
  }

  lemma GetSet(x: u32, it: bv8)
    ensures Get(Set(x, it)) == it
  {
    hide Byte, Value, Word, HighPart, LowPart, Others;
    FieldsSmall(x);
    var o := Others(x);
    WordFields(o.0, Value(it) % 4, o.1, Value(it) / 4, o.2);
    ValueByte(it);
  }

  /** Packing touches no other field of xPSR. */
  lemma SetKeeps(x: u32, it: bv8)
    ensures Others(Set(x, it)) == Others(x)
  {
    hide Byte, Value, Word, HighPart, LowPart, Others;
    FieldsSmall(x);
    var o := Others(x);
    WordFields(o.0, Value(it) % 4, o.1, Value(it) / 4, o.2);
  }

  lemma SetGet(x: u32)
    ensures Set(x, Get(x)) == x
  {
    hide Byte, Value, Word, HighPart, LowPart, Others;
    FieldsSmall(x);
    ByteValue(4 * HighPart(x) + LowPart(x));
    WordOfFields(x);
    QuarterSplit(HighPart(x), LowPart(x));
  }

  lemma QuarterSplit(h: nat, l: nat)
    requires l < 4
    ensures (4 * h + l) / 4 == h && (4 * h + l) % 4 == l
  {
  }

  lemma FieldsSmall(x: u32)
    ensures Others(x).0 < 0x20 && Others(x).1 < 0x200 && Others(x).2 < 0x400
  {
  }

  /** A word whose low 27 bits are Thumb and an exception number has an empty ITSTATE. */
  lemma EmptyState(x: u32, n: nat)
    requires n < 0x200 && x % 0x800_0000 == 0x100_0000 + n
    ensures Get(x) == 0
  {
    hide HighPart, LowPart, Others, Byte;
    ZeroByte();
    var top := x / 0x800_0000;
    assert x == Word(top, 0, 0x100, 0, n);
    WordFields(top, 0, 0x100, 0, n);
    hide Word;
  }
}
