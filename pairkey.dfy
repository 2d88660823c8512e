/** The text key under which the trainer counts an adjacent pair of token ids: the two ids
    printed with "%03d%03d", and the way the trainer reads a key back into two ids. */
module PairKey {
  import opened Common

  /** An ASCII decimal digit, `'0'..'9'`. */
  predicate IsDigitByte(c: Byte)
  {
    0x30 <= c <= 0x39
  }

  predicate AllDigits(s: seq<Byte>)
  {
    forall i :: 0 <= i < |s| ==> IsDigitByte(s[i])
  }

  /** The ASCII digits `'0'..'9'`, in order. */
  const DigitChars: seq<Byte> := [0x30, 0x31, 0x32, 0x33, 0x34, 0x35, 0x36, 0x37, 0x38, 0x39]

  /** The ASCII digit for `d`. */
  function Digit(d: nat): (c: Byte)
    requires d < 10
    ensures IsDigitByte(c)
  {
    DigitChars[d]
  }

  /** The numeric value of an ASCII digit. */
  function DigitValue(c: Byte): (d: nat)
    requires IsDigitByte(c)
    ensures d < 10
  {
    (c - 0x30) as nat
  }

  /** The decimal digits of `n`, most significant first, without padding. */
  function Decimal(n: nat): (s: seq<Byte>)
    ensures AllDigits(s) && |s| >= 1
    ensures n >= 10 ==> |s| >= 2
    ensures n >= 100 ==> |s| >= 3
    ensures n >= 1000 ==> |s| >= 4
    decreases n
  {
    if n < 10 then [Digit(n)] else Decimal(n / 10) + [Digit(n % 10)]
  }

  /** printf's "%03d" for a non-negative id: three digits, zero-padded on the left, for an id
      below 1000; all of its (four or more) digits for a larger one. */
  function Fmt03(n: nat): (s: seq<Byte>)
    ensures AllDigits(s) && |s| >= 3
    ensures |s| == 3 <==> n < 1000
  {
    if n < 1000 then [Digit(n / 100), Digit(n / 10 % 10), Digit(n % 10)] else Decimal(n)
  }

  /** The key of the pair (a, b): "%03d%03d". */
  function Key(a: nat, b: nat): seq<Byte>
  {
    Fmt03(a) + Fmt03(b)
  }

  /** A key is made of digits, at least six of them, and of exactly six when both ids are
      below 1000. */
  lemma KeyShape(a: nat, b: nat)
    ensures AllDigits(Key(a, b)) && |Key(a, b)| >= 6
    ensures |Key(a, b)| == 6 <==> a < 1000 && b < 1000
  {
  }

  /** atoi on a text made of digits only. */
  function DecimalValue(s: seq<Byte>): nat
    requires AllDigits(s)
  {
    if s == [] then 0 else DecimalValue(s[..|s| - 1]) * 10 + DigitValue(s[|s| - 1])
  }

  /** How the trainer reads a key back: the first three bytes and the next three bytes are
      copied into NUL-terminated buffers and each is read with atoi. Bytes past the sixth
      are ignored. */
  function Parse(key: seq<Byte>): (ab: (nat, nat))
    requires |key| >= 6 && AllDigits(key)
    ensures ab.0 < 1000 && ab.1 < 1000
  {
    ThreeDigits(key[..3]);
    ThreeDigits(key[3..6]);
    (DecimalValue(key[..3]), DecimalValue(key[3..6]))
  }

  /** Three digits read as a number stay below 1000. */
  lemma ThreeDigits(s: seq<Byte>)
    requires |s| == 3 && AllDigits(s)
    ensures DecimalValue(s) == (DigitValue(s[0]) * 10 + DigitValue(s[1])) * 10 + DigitValue(s[2])
    ensures DecimalValue(s) < 1000
  {
    assert s[..2][..1] == [s[0]];
    assert [s[0]][..0] == [];
    assert DecimalValue([s[0]]) == DigitValue(s[0]);
    assert DecimalValue(s[..2]) == DigitValue(s[0]) * 10 + DigitValue(s[1]);
    assert s[..3] == s;
  }

  /** Printing a digit and reading it back gives the digit. */
  lemma DigitRoundTrip(d: nat)
    requires d < 10
    ensures DigitValue(Digit(d)) == d
  {
  }

  /** The three decimal digits of an id below 1000 recombine to it. */
  lemma ThreeDigitSplit(n: nat)
    requires n < 1000
    ensures (n / 100 * 10 + n / 10 % 10) * 10 + n % 10 == n
  {
    var q := n / 10;
    assert n == 10 * q + n % 10;
    assert q == 10 * (q / 10) + q % 10;
    assert n / 100 == q / 10;
  }

  /** Three printed digits read back as the number they spell. */
  lemma DigitsValue(x: nat, y: nat, z: nat)
    requires x < 10 && y < 10 && z < 10
    ensures DecimalValue([Digit(x), Digit(y), Digit(z)]) == (x * 10 + y) * 10 + z
  {
    ThreeDigits([Digit(x), Digit(y), Digit(z)]);
    DigitRoundTrip(x);
    DigitRoundTrip(y);
    DigitRoundTrip(z);
  }

  /** An id below 1000 printed with "%03d" reads back as itself. */
  lemma Fmt03RoundTrip(n: nat)
    requires n < 1000
    ensures DecimalValue(Fmt03(n)) == n
  {
    DigitsValue(n / 100, n / 10 % 10, n % 10);
    ThreeDigitSplit(n);
  }

  /** For ids below 1000 the key reads back as the pair it was printed from. */
  lemma KeyRoundTrip(a: nat, b: nat)
    requires a < 1000 && b < 1000
    ensures Parse(Key(a, b)) == (a, b)
  {
    var k := Key(a, b);
    assert k[..3] == Fmt03(a);
    assert k[3..6] == Fmt03(b);
    Fmt03RoundTrip(a);
    Fmt03RoundTrip(b);
  }

  /** So below 1000 distinct pairs have distinct keys. */
  lemma KeyInjective(a: nat, b: nat, c: nat, d: nat)
    requires a < 1000 && b < 1000 && c < 1000 && d < 1000
    requires Key(a, b) == Key(c, d)
    ensures a == c && b == d
  {
    KeyRoundTrip(a, b);
    KeyRoundTrip(c, d);
  }

  /** From 1000 on the read-back is wrong: a pair with a wide id never parses to itself. */
  lemma WideIdBreaksRoundTrip(a: nat, b: nat)
    requires a >= 1000 || b >= 1000
    ensures Parse(Key(a, b)) != (a, b)
  {
  }

  /** The two three-byte halves the trainer copies out of the key of (1000, 5). */
  lemma Print1000()
    ensures Key(1000, 5)[..3] == [Digit(1), Digit(0), Digit(0)]
    ensures Key(1000, 5)[3..6] == [Digit(0), Digit(0), Digit(0)]
  {
    Decimal100();
    assert Decimal(1000) == [Digit(1), Digit(0), Digit(0), Digit(0)];
    assert Fmt03(5) == [Digit(0), Digit(0), Digit(5)];
  }

  /** (1000, 5) is printed "1000005" and read back as (100, 0). */
  lemma WideIdMisread()
    ensures Parse(Key(1000, 5)) == (100, 0)
  {
    Print1000();
    DigitsValue(1, 0, 0);
    DigitsValue(0, 0, 0);
  }

  /** The digits of 100. */
  lemma Decimal100()
    ensures Decimal(100) == [Digit(1), Digit(0), Digit(0)]
  {
    assert Decimal(10) == [Digit(1), Digit(0)];
  }

  /** The digits of 112. */
  lemma Decimal112()
    ensures Decimal(112) == [Digit(1), Digit(1), Digit(2)]
  {
    assert Decimal(11) == [Digit(1), Digit(1)];
  }

  /** "%03d" of 1001 is that of 100 followed by a `'1'`. */
  lemma WideLeft()
    ensures Fmt03(1001) == Fmt03(100) + [Digit(1)]
  {
    Decimal100();
    assert Fmt03(100) == [Digit(1), Digit(0), Digit(0)];
  }

  /** "%03d" of 1123 is a `'1'` followed by that of 123. */
  lemma WideRight()
    ensures Fmt03(1123) == [Digit(1)] + Fmt03(123)
  {
    Decimal112();
    assert Fmt03(123) == [Digit(1), Digit(2), Digit(3)];
  }

  /** The distinct pairs (1001, 123) and (100, 1123) are both printed "1001123". */
  lemma WideIdCollision()
    ensures Key(1001, 123) == Key(100, 1123)
  {
    WideLeft();
    WideRight();
    assert Key(1001, 123) == Fmt03(100) + [Digit(1)] + Fmt03(123);
  }
}
