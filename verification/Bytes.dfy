/** Octets as integers, and the big-endian reading and writing of naturals. */
module Bytes {
  import opened NumberTheory

  type byte = x: int | 0 <= x < 256
  type hexdigit = x: int | 0 <= x < 16

  /** The natural number whose big-endian octets are b. */
  function Value(b: seq<byte>): nat {
    if |b| == 0 then 0 else Value(b[..|b| - 1]) * 256 + b[|b| - 1]
  }

  /** The k low-order octets of x, big-endian. */
  function Digits(x: nat, k: nat): (b: seq<byte>)
    ensures |b| == k
  {
    if k == 0 then [] else Digits(x / 256, k - 1) + [x % 256]
  }

  /** The number of octets of x; zero takes one. */
  function ByteLen(x: nat): (k: nat)
    ensures k >= 1
    ensures x < Pow(256, k) && (k > 1 ==> Pow(256, k - 1) <= x)
  {
    if x < 256 then assert Pow(256, 1) == 256 * Pow(256, 0); 1 else 1 + ByteLen(x / 256)
  }

  lemma ByteLenUnique(x: nat, k: nat)
    requires k >= 1 && x < Pow(256, k) && (k > 1 ==> Pow(256, k - 1) <= x)
    ensures k == ByteLen(x)
  {
    if k < ByteLen(x) { PowMonotone(256, k, ByteLen(x) - 1); }
    if k > ByteLen(x) { PowMonotone(256, ByteLen(x), k - 1); }
  }

  /** The number of bits of x; zero takes one. */
  function BitLen(x: nat): (k: nat)
    ensures k >= 1
    ensures x < Pow(2, k) && (k > 1 ==> Pow(2, k - 1) <= x)
  {
    if x < 2 then assert Pow(2, 1) == 2 * Pow(2, 0); 1 else 1 + BitLen(x / 2)
  }

  lemma BitLenUnique(x: nat, k: nat)
    requires k >= 1 && x < Pow(2, k) && (k > 1 ==> Pow(2, k - 1) <= x)
    ensures k == BitLen(x)
  {
    if k < BitLen(x) { PowMonotone(2, k, BitLen(x) - 1); }
    if k > BitLen(x) { PowMonotone(2, BitLen(x), k - 1); }
  }

  lemma {:induction false} ValueBound(b: seq<byte>)
    ensures Value(b) < Pow(256, |b|)
  {
    if |b| > 0 { ValueBound(b[..|b| - 1]); }
  }

  lemma ModStep(x: nat, m: int)
    requires m > 0
    ensures x % (256 * m) == x / 256 % m * 256 + x % 256
  {
    var y := x / 256;
    assert y == m * (y / m) + y % m;
    DivModUnique(x, 256 * m, y / m, y % m * 256 + x % 256);
  }

  lemma {:induction false} ValueOfDigits(x: nat, k: nat)
    ensures Pow(256, k) > 0 && Value(Digits(x, k)) == x % Pow(256, k)
  {
    PowPositive(256, k);
    if k > 0 {
      ValueOfDigits(x / 256, k - 1);
      PowPositive(256, k - 1);
      assert Digits(x, k)[..k - 1] == Digits(x / 256, k - 1);
      ModStep(x, Pow(256, k - 1));
    }
  }

  lemma {:induction false} DigitsOfValue(b: seq<byte>)
    ensures Digits(Value(b), |b|) == b
  {
    if |b| > 0 {
      var front, last: nat := b[..|b| - 1], b[|b| - 1];
      DigitsOfValue(front);
      assert b == front + [b[|b| - 1]];
      DivModUnique(Value(front) * 256 + last, 256, Value(front), last);
    }
  }

  /** Writing a number in enough octets and reading it back gives the number. */
  lemma DigitsRoundTrip(x: nat, k: nat)
    requires x < Pow(256, k)
    ensures Value(Digits(x, k)) == x
  {
    ValueOfDigits(x, k);
    ModSmall(x, Pow(256, k));
  }

  lemma {:induction false} ValueLeadingZero(b: seq<byte>)
    requires |b| > 0 && b[0] == 0
    ensures Value(b) == Value(b[1..]) && Value(b) < Pow(256, |b| - 1)
  {
    ValueBound(b[1..]);
    if |b| > 1 {
      ValueLeadingZero(b[..|b| - 1]);
      assert b[1..][..|b| - 2] == b[..|b| - 1][1..];
    }
  }

  lemma ZeroValue()
    ensures Value([0, 0, 0, 0]) == 0
  {
    ValueLeadingZero([0, 0, 0, 0]);
    ValueLeadingZero([0, 0, 0]);
    ValueLeadingZero([0, 0]);
    ValueLeadingZero([0]);
    assert [0, 0, 0, 0][1..] == [0, 0, 0] && [0, 0, 0][1..] == [0, 0] && [0, 0][1..] == [0] && [0][1..] == [];
  }

  lemma Pow2Values()
    ensures Pow(2, 0) == 1 && Pow(2, 1) == 2 && Pow(2, 2) == 4 && Pow(2, 4) == 0x10 && Pow(2, 7) == 0x80
    ensures Pow(2, 8) == 0x100 && Pow(2, 16) == 0x1_0000
    ensures Pow(2, 23) == 0x80_0000 && Pow(2, 24) == 0x100_0000 && Pow(2, 32) == 0x1_0000_0000
  {
    assert Pow(2, 1) == 2 * Pow(2, 0);
    assert Pow(2, 2) == 2 * Pow(2, 1);
    PowAdd(2, 2, 2);
    PowAdd(2, 4, 4);
    PowAdd(2, 8, 8);
    PowAdd(2, 8, 16);
    PowAdd(2, 8, 24);
    assert Pow(2, 8) == 2 * Pow(2, 7);
    assert Pow(2, 24) == 2 * Pow(2, 23);
  }

  lemma Pow256Values()
    ensures Pow(256, 0) == 1 && Pow(256, 1) == 256 && Pow(256, 2) == 65536
    ensures Pow(256, 3) == 0x100_0000 && Pow(256, 4) == 0x1_0000_0000
  {
    assert Pow(256, 1) == 256 * Pow(256, 0);
    assert Pow(256, 2) == 256 * Pow(256, 1);
    assert Pow(256, 3) == 256 * Pow(256, 2);
    assert Pow(256, 4) == 256 * Pow(256, 3);
  }

  // ---------------------------------------------------------------- hexadecimal

  /** The hexadecimal digits of x, most significant first, as Number.toString(16) prints them. */
  function Hex(x: nat): (h: seq<hexdigit>)
    ensures |h| >= 1
  {
    if x < 16 then [x] else Hex(x / 16) + [x % 16]
  }

  /** The number that a string of hexadecimal digits denotes. */
  function ParseHex(h: seq<hexdigit>): nat {
    if |h| == 0 then 0 else ParseHex(h[..|h| - 1]) * 16 + h[|h| - 1]
  }

  /** Pad to an even number of digits. */
  function EvenHex(x: nat): (h: seq<hexdigit>)
    ensures |h| % 2 == 0
  {
    if |Hex(x)| % 2 == 1 then [0] + Hex(x) else Hex(x)
  }

  /** The octet that the i-th pair of digits denotes. */
  function HexPair(h: seq<hexdigit>, i: nat): (b: byte)
    requires 2 * i + 1 < |h|
  {
    var high: int, low: int := h[2 * i], h[2 * i + 1];
    high * 16 + low
  }

  /** The padded digits come in pairs, one pair for each octet of x. */
  lemma {:induction false} EvenHexPairs(x: nat)
    ensures |EvenHex(x)| == 2 * ByteLen(x)
    ensures forall i :: 0 <= i < ByteLen(x) ==>
      HexPair(EvenHex(x), i) == Digits(x, ByteLen(x))[i]
  {
    if x < 256 {
      OnePair(x);
    } else {
      hide EvenHex, HexPair, Digits;
      var y := x / 256;
      EvenHexPairs(y);
      OneMorePair(x);
      var h, k := EvenHex(y), ByteLen(x);
      forall i | 0 <= i < k
        ensures HexPair(EvenHex(x), i) == Digits(x, k)[i]
      {
        PairsStay(h, x / 16 % 16, x % 16, i);
      }
    }
  }

  lemma OnePair(x: nat)
    requires x < 256
    ensures |EvenHex(x)| == 2 && ByteLen(x) == 1 && HexPair(EvenHex(x), 0) == Digits(x, 1)[0]
  {
    assert Digits(x, 1) == Digits(0, 0) + [x];
    if x >= 16 { assert Hex(x) == [x / 16] + [x % 16]; }
  }

  lemma HexSnoc(x: nat)
    requires x >= 16
    ensures Hex(x) == Hex(x / 16) + [x % 16]
  {
  }

  lemma ByteLenSnoc(x: nat)
    requires x >= 256
    ensures ByteLen(x) == ByteLen(x / 256) + 1
  {
  }

  lemma DigitsSnoc(x: nat, k: nat)
    ensures Digits(x, k + 1) == Digits(x / 256, k) + [x % 256]
  {
  }

  lemma EvenHexSnoc(x: nat, q: nat, a: hexdigit, b: hexdigit)
    requires Hex(x) == Hex(q) + [a, b]
    ensures EvenHex(x) == EvenHex(q) + [a, b]
  {
    hide Hex;
    assert [0] + (Hex(q) + [a, b]) == ([0] + Hex(q)) + [a, b];
  }

  lemma OneMorePair(x: nat)
    requires x >= 256
    ensures ByteLen(x) == ByteLen(x / 256) + 1
    ensures EvenHex(x) == EvenHex(x / 256) + [x / 16 % 16, x % 16]
    ensures Digits(x, ByteLen(x)) == Digits(x / 256, ByteLen(x) - 1) + [x % 256]
    ensures x / 16 % 16 * 16 + x % 16 == x % 256
  {
    hide Hex, EvenHex, ByteLen, Digits;
    NibblesOf(x);
    HexSnoc(x);
    HexSnoc(x / 16);
    assert Hex(x / 256) + [x / 16 % 16] + [x % 16] == Hex(x / 256) + [x / 16 % 16, x % 16];
    EvenHexSnoc(x, x / 256, x / 16 % 16, x % 16);
    ByteLenSnoc(x);
    DigitsSnoc(x, ByteLen(x) - 1);
  }

  lemma NibblesOf(x: nat)
    ensures x / 16 / 16 == x / 256 && x / 16 % 16 * 16 + x % 16 == x % 256
  {
    var y, b := x / 16, x % 16;
    var q, a := y / 16, y % 16;
    assert x == 16 * y + b && y == 16 * q + a;
    DivModUnique(x, 256, q, 16 * a + b);
  }

  lemma PairsStay(h: seq<hexdigit>, a: hexdigit, b: hexdigit, i: nat)
    requires 2 * i < |h| + 2 && |h| % 2 == 0
    ensures var v: int, w: int := a, b;
      HexPair(h + [a, b], i) == if 2 * i < |h| then HexPair(h, i) else v * 16 + w
  {
  }

  lemma ParseHexPair(h: seq<hexdigit>, a: hexdigit, b: hexdigit)
    ensures ParseHex(h + [a, b]) == ParseHex(h) * 256 + a * 16 + b
  {
    assert (h + [a, b])[..|h| + 1] == h + [a];
    assert (h + [a])[..|h|] == h;
  }

  lemma {:induction false} ParseHexLeadingZero(h: seq<hexdigit>)
    ensures ParseHex([0] + h) == ParseHex(h)
  {
    if |h| == 0 {
      assert ([0] + h)[..0] == [];
    } else {
      ParseHexLeadingZero(h[..|h| - 1]);
      assert ([0] + h)[..|h|] == [0] + h[..|h| - 1];
    }
  }
}
