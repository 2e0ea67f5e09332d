/** Shifting octet strings by bits: doubling in the field of block masks, and shifting right in place. */
module Shifts {
  import opened NumberTheory
  import opened Bytes
  import opened Bits
  import opened Util

  // ---------------------------------------------------------------- values of slices

  lemma ValueSnoc(d: seq<byte>)
    requires |d| > 0
    ensures Value(d) == Value(d[..|d| - 1]) * 256 + d[|d| - 1]
  {
  }

  lemma NextPower256(n: nat)
    ensures Pow(256, n + 1) == 256 * Pow(256, n)
  {
  }

  lemma {:induction false} ValueConcat(a: seq<byte>, b: seq<byte>)
    ensures Value(a + b) == Value(a) * Pow(256, |b|) + Value(b)
  {
    if |b| == 0 {
      assert a + b == a;
      assert Pow(256, 0) == 1;
    } else {
      hide Value, Pow;
      var init := b[..|b| - 1];
      ValueConcat(a, init);
      assert (a + b)[..|a + b| - 1] == a + init;
      ValueSnoc(a + b);
      ValueSnoc(b);
      NextPower256(|init|);
      OneMoreOctet(Value(a), Pow(256, |init|), Value(init), b[|b| - 1]);
    }
  }

  lemma OneMoreOctet(v: int, p: int, w: int, l: int)
    ensures (v * p + w) * 256 + l == v * (256 * p) + (w * 256 + l)
  {
    MulRegroup(v, 1, 256, p);
    MulRegroup(v, 1, p, 256);
  }

  lemma ValueSlices(s: seq<byte>, i: nat)
    requires i <= |s|
    ensures Pow(256, |s| - i) > 0
    ensures Value(s[..i]) == Value(s) / Pow(256, |s| - i)
    ensures Value(s[i..]) == Value(s) % Pow(256, |s| - i)
  {
    hide Value, Pow;
    assert s == s[..i] + s[i..];
    PowPositive(256, |s| - i);
    ValueConcat(s[..i], s[i..]);
    ValueBound(s[i..]);
    DivModUnique(Value(s), Pow(256, |s| - i), Value(s[..i]), Value(s[i..]));
  }

  lemma SameValue(s: seq<byte>, t: seq<byte>)
    requires |s| == |t| && Value(s) == Value(t)
    ensures s == t
  {
    DigitsOfValue(s);
    DigitsOfValue(t);
  }

  lemma {:induction false} DigitsMod(x: nat, k: nat)
    ensures Pow(256, k) > 0 && Digits(x % Pow(256, k), k) == Digits(x, k)
  {
    hide Value, Digits;
    ValueOfDigits(x, k);
    var y := x % Pow(256, k);
    DigitsRoundTrip(y, k);
    SameValue(Digits(y, k), Digits(x, k));
  }

  lemma Pow256(k: nat)
    ensures Pow(256, k) == Pow(2, 8 * k)
  {
    Pow2Values();
    PowPow(2, 8, k);
  }

  // ---------------------------------------------------------------- doubling

  /** All octets moved up one bit, with the given bit entering at the bottom. */
  function ShiftedIn(d: seq<byte>, carry: nat): (r: seq<byte>)
    requires carry < 2
    ensures |r| == |d|
  {
    seq(|d|, k requires 0 <= k < |d| => LeftOctet(d[k], if k + 1 < |d| then d[k + 1] / 128 else carry))
  }

  function LeftOctet(x: byte, carry: nat): byte
    requires carry < 2
  {
    var v: int := x;
    DoubledOctet(v, carry);
    v * 2 % 256 + carry
  }

  lemma ShiftedInStep(v: nat, l: byte, carry: nat, m: int)
    requires m > 0 && carry < 2
    ensures var u: nat := l;
      (2 * (v * 256 + u) + carry) % (256 * m) == (2 * v + u / 128) % m * 256 + LeftOctet(l, carry)
  {
    var u: nat := l;
    var x := 2 * (v * 256 + u) + carry;
    DoubledOctet(u, carry);
    DivModUnique(x, 256, 2 * v + u / 128, LeftOctet(l, carry));
    ModStep(x, m);
  }

  lemma ShiftedInSnoc(d: seq<byte>, carry: nat)
    requires carry < 2 && |d| > 0
    ensures var n, l: nat := |d| - 1, d[|d| - 1];
      && ShiftedIn(d, carry)[..n] == ShiftedIn(d[..n], l / 128)
      && ShiftedIn(d, carry)[n] == LeftOctet(d[n], carry)
  {
    hide LeftOctet;
  }

  lemma ShiftedInCombine(d: seq<byte>, carry: nat, m: int)
    requires carry < 2 && |d| > 0 && m > 0
    requires var n, l: nat := |d| - 1, d[|d| - 1];
      Value(ShiftedIn(d[..n], l / 128)) == (2 * Value(d[..n]) + l / 128) % m
    ensures Value(ShiftedIn(d, carry)) == (2 * Value(d) + carry) % (256 * m)
  {
    hide LeftOctet, ShiftedIn, Value;
    var n := |d| - 1;
    ShiftedInSnoc(d, carry);
    ValueSnoc(d);
    ValueSnoc(ShiftedIn(d, carry));
    ShiftedInStep(Value(d[..n]), d[n], carry, m);
  }

  lemma {:induction false} ShiftedInValue(d: seq<byte>, carry: nat)
    requires carry < 2
    ensures Pow(256, |d|) > 0 && Value(ShiftedIn(d, carry)) == (2 * Value(d) + carry) % Pow(256, |d|)
  {
    hide LeftOctet, ShiftedIn, Value, Pow;
    PowPositive(256, |d|);
    if |d| > 0 {
      var n := |d| - 1;
      var init := d[..n];
      var l: nat := d[n];
      PowPositive(256, n);
      ShiftedInValue(init, l / 128);
      ShiftedInCombine(d, carry, Pow(256, n));
      NextPower256(n);
    } else {
      NothingShifted(d, carry);
    }
  }

  lemma NothingShifted(d: seq<byte>, carry: nat)
    requires carry < 2 && d == []
    ensures Pow(256, 0) == 1 && Value(d) == 0 && Value(ShiftedIn(d, carry)) == 0 && carry % 1 == 0
  {
  }

  /**
   Twice the value in the field of 2^128 elements (for 16 octets): shift out the top bit, and add the reduction
   constant if it was set.
   */
  function Doubled(d: seq<byte>): (r: seq<byte>)
    requires |d| > 0
    ensures |r| == |d|
  {
    PowPositive(256, |d|);
    Digits(Xor(2 * Value(d) % Pow(256, |d|), if d[0] >= 128 then 0x87 else 0), |d|)
  }

  /** The polynomial of the field of 2^128 elements, as a number: x^128 + x^7 + x^2 + x + 1. */
  function FieldPolynomial(): nat {
    Pow2Values();
    PowPositive(2, 128);
    Pow(2, 128) + Pow(2, 7) + Pow(2, 2) + Pow(2, 1) + Pow(2, 0)
  }

  /** Doubling is multiplication by x, reduced by the polynomial of the field if the degree gets to 128. */
  lemma DoubledIsProduct(d: seq<byte>)
    requires |d| == 16
    ensures Pow(2, 127) > 0
    ensures Value(Doubled(d)) == if Value(d) >= Pow(2, 127) then Xor(2 * Value(d), FieldPolynomial()) else 2 * Value(d)
  {
    hide Value, Xor, Pow, Digits;
    var v, m := Value(d), Pow(2, 128);
    Pow256(16);
    ValueBound(d);
    TopBitIff(d);
    Pow2Values();
    PowPositive(2, 127);
    PowAdd(2, 1, 127);
    var low := 2 * v % m;
    DivModUnique(2 * v, m, if v >= Pow(2, 127) then 1 else 0, if v >= Pow(2, 127) then 2 * v - m else 2 * v);
    PowMonotone(2, 8, 128);
    if v >= Pow(2, 127) {
      XorBound(low, 0x87, 128);
      XorConcat(1, low, 1, 0x87, 128);
      XorSelf(1);
      DigitsRoundTrip(Xor(low, 0x87), 16);
    } else {
      XorZero(low);
      DigitsRoundTrip(low, 16);
    }
  }

  lemma TopBitIff(d: seq<byte>)
    requires |d| == 16
    ensures Pow(2, 127) > 0 && (d[0] >= 128 <==> Value(d) >= Pow(2, 127))
  {
    hide Value, Pow;
    ValueSlices(d, 1);
    var m := Pow(256, 15);
    Pow256(15);
    Pow2Values();
    PowAdd(2, 7, 120);
    var h: nat := d[0];
    assert Value(d[..1]) == h by { OneOctet(d[..1]); }
    assert Value(d) == m * h + Value(d) % m;
    if h >= 128 { MulMono(m, 128, h); } else { MulMono(m, h, 127); }
  }

  lemma OneOctet(d: seq<byte>)
    requires |d| == 1
    ensures Value(d) == d[0]
  {
    assert d[..0] == [];
  }

  lemma ShiftXor(a: byte, b: nat)
    requires b < 2
    ensures var v: nat := a; Xor(2 * v, b) % 256 == LeftOctet(a, b)
  {
    hide Xor;
    var v: nat := a;
    XorTwice(v, 0, 0, b);
    XorZero(v);
    assert Xor(2 * v, b) == 2 * v + b;
    DoubledOctet(v, b);
  }

  lemma LastXor(init: seq<byte>, x: byte, y: byte)
    ensures Value(init + [XorByte(x, y)]) == Xor(Value(init + [x]), y)
  {
    hide Xor;
    var v := Value(init);
    Pow2Values();
    XorConcat(v, x, 0, y, 8);
    XorZero(v);
    assert (init + [x])[..|init|] == init && (init + [XorByte(x, y)])[..|init|] == init;
  }

  /** What the loop of doubling stores at place i. */
  lemma DoubledAt(data: seq<byte>, i: nat)
    requires i < |data|
    ensures var v: nat, next: nat := data[i], if i + 1 < |data| then data[i + 1] / 128 else 0;
      next < 2 && Xor(2 * v, next) % 256 == ShiftedIn(data, 0)[i]
  {
    hide Xor, LeftOctet;
    var next: nat := if i + 1 < |data| then data[i + 1] / 128 else 0;
    ShiftXor(data[i], next);
  }

  method Double(data: seq<byte>) returns (r: seq<byte>)
    ensures if |data| == 0 then r == [] else r == Doubled(data)
  {
    hide Xor, Value, Digits, ShiftedIn, LeftOctet;
    if |data| == 0 { return []; }
    var doubleVar := new byte[|data|](_ => 0);
    var last := |data| - 1;
    ghost var shifted := ShiftedIn(data, 0);
    for i := 0 to last
      invariant doubleVar[..i] == shifted[..i]
    {
      var v: nat, next: nat := data[i], data[i + 1];
      DoubledAt(data, i);
      doubleVar[i] := Xor(2 * v, next / 128) % 256;
      assert doubleVar[..i + 1] == doubleVar[..i] + [doubleVar[i]];
    }
    var v: nat, first: nat := data[last], data[0];
    var low: byte := first / 128 * 0x87;
    doubleVar[last] := Xor(2 * v, low) % 256;
    r := doubleVar[..];
    LastDoubled(data, low, r);
  }

  /** The last octet also takes the reduction constant. */
  lemma LastDoubled(data: seq<byte>, low: byte, r: seq<byte>)
    requires |r| == |data| > 0 && low == (if data[0] >= 128 then 0x87 else 0)
    requires r[..|r| - 1] == ShiftedIn(data, 0)[..|r| - 1]
    requires var v: nat := data[|r| - 1]; r[|r| - 1] == Xor(2 * v, low) % 256
    ensures r == Doubled(data)
  {
    hide Xor, Value, Digits, ShiftedIn, LeftOctet;
    var n := |r| - 1;
    var shifted := ShiftedIn(data, 0);
    ShiftedInSnoc(data, 0);
    LastOctet(data[n], low);
    LastXor(shifted[..n], shifted[n], low);
    assert shifted[..n] + [shifted[n]] == shifted;
    assert r == shifted[..n] + [r[n]];
    ShiftedInValue(data, 0);
    DigitsOfValue(r);
  }

  lemma LastOctet(a: byte, low: byte)
    ensures var v: nat := a; Xor(2 * v, low) % 256 == XorByte(LeftOctet(a, 0), low)
  {
    hide Xor;
    var v: nat := a;
    Pow2Values();
    XorDivMod(2 * v, low, 8);
    ModSmall(low, 256);
  }

  // ---------------------------------------------------------------- shifting right

  lemma {:induction false} OrDisjoint(x: nat, y: nat, j: nat)
    requires x < Pow(2, j)
    ensures y * Pow(2, j) >= 0 && BitOr(x, y * Pow(2, j)) == x + y * Pow(2, j)
  {
    if j == 0 {
      assert Pow(2, 0) == 1;
      OrZero(y);
    } else {
      DoubleScale(y, j);
      OrDisjoint(x / 2, y, j - 1);
    }
  }

  /** The octet v shifted right by b, with the low bits of its left neighbour u above it. */
  function RightOctet(u: byte, v: byte, b: nat): (r: byte)
    requires b <= 8
  {
    OctetSplit(u, v, b);
    v / Pow(2, b) + u % Pow(2, b) * Pow(2, 8 - b)
  }

  lemma OctetSplit(u: byte, v: byte, b: nat)
    requires b <= 8
    ensures Pow(2, b) > 0 && Pow(2, 8 - b) > 0 && Pow(2, b) * Pow(2, 8 - b) == 256
    ensures v / Pow(2, b) < Pow(2, 8 - b)
    ensures 0 <= u % Pow(2, b) * Pow(2, 8 - b) <= 256 - Pow(2, 8 - b)
  {
    PowPositive(2, b);
    PowPositive(2, 8 - b);
    PowAdd(2, b, 8 - b);
    Pow2Values();
    Quotient(v, Pow(2, b), Pow(2, 8 - b));
    MulBetween(Pow(2, 8 - b), u % Pow(2, b), Pow(2, b));
  }

  lemma Quotient(v: nat, p: int, q: int)
    requires p > 0 && q > 0 && v < p * q
    ensures v / p < q
  {
    assert v == p * (v / p) + v % p;
    assert p * (v / p) == p * q + p * (v / p - q);
    if v / p >= q { MulNonNeg(p, v / p - q); }
  }

  /** What the source computes for one octet. */
  lemma RightOctetIs(u: byte, v: byte, b: nat)
    requires b <= 8
    ensures Pow(2, b) > 0 && u * Pow(2, 8 - b) >= 0
    ensures BitOr(v / Pow(2, b), u * Pow(2, 8 - b)) % 256 == RightOctet(u, v, b)
  {
    hide BitOr, Pow;
    OctetSplit(u, v, b);
    var p, q := Pow(2, b), Pow(2, 8 - b);
    var x: nat, y: nat := v / p, u;
    OrDisjoint(x, y, 8 - b);
    ShiftedPast(y, x, p, q);
  }

  lemma ShiftedPast(u: nat, x: nat, p: int, q: int)
    requires p > 0 && q > 0 && p * q == 256 && x < q
    ensures u % p * q >= 0 && x + u % p * q < 256
    ensures (x + u * q) % 256 == x + u % p * q
  {
    MulBetween(q, u % p, p);
    assert u * q == u / p * 256 + u % p * q by {
      assert u == p * (u / p) + u % p;
      assert (p * (u / p)) * q == (p * q) * (u / p);
    }
    DivModUnique(x + u * q, 256, u / p, x + u % p * q);
  }

  function ShiftedOut(d: seq<byte>, b: nat): (r: seq<byte>)
    requires b <= 8
    ensures |r| == |d|
  {
    seq(|d|, k requires 0 <= k < |d| => RightOctet(if k > 0 then d[k - 1] else 0, d[k], b))
  }

  lemma ShiftDown(v: nat, l: nat, p: int, q: int)
    requires p > 0 && q > 0 && p * q == 256
    ensures (v * 256 + l) / p == v / p * 256 + (v % p * q + l / p)
  {
    assert v == p * (v / p) + v % p;
    assert v * q == v / p * 256 + v % p * q by { assert (p * (v / p)) * q == (p * q) * (v / p); }
    assert v * 256 + l == (v * q + l / p) * p + l % p by {
      assert l == p * (l / p) + l % p;
      assert (v * q) * p == v * (p * q);
    }
    DivModUnique(v * 256 + l, p, v * q + l / p, l % p);
  }

  lemma LastOctetMod(d: seq<byte>, p: int, q: int)
    requires p > 0 && q > 0 && p * q == 256
    ensures Value(d) % p == (if |d| > 0 then d[|d| - 1] else 0) % p
  {
    if |d| > 0 {
      var v := Value(d[..|d| - 1]);
      assert v * 256 == (v * q) * p by { assert (v * q) * p == v * (p * q); }
      CongIntro(Value(d), d[|d| - 1], p, v * q);
    }
  }

  lemma ShiftedOutSnoc(d: seq<byte>, b: nat)
    requires b <= 8 && |d| > 0
    ensures var n := |d| - 1;
      && ShiftedOut(d, b)[..n] == ShiftedOut(d[..n], b)
      && ShiftedOut(d, b)[n] == RightOctet(if n > 0 then d[n - 1] else 0, d[n], b)
  {
    hide RightOctet;
  }

  lemma RightOctetValue(u: byte, v: byte, b: nat)
    requires b <= 8
    ensures Pow(2, b) > 0 && Pow(2, 8 - b) > 0 && Pow(2, b) * Pow(2, 8 - b) == 256
    ensures RightOctet(u, v, b) == v / Pow(2, b) + u % Pow(2, b) * Pow(2, 8 - b)
  {
    hide Pow;
    OctetSplit(u, v, b);
  }

  lemma {:induction false} ShiftedOutValue(d: seq<byte>, b: nat)
    requires b <= 8
    ensures Pow(2, b) > 0 && Value(ShiftedOut(d, b)) == Value(d) / Pow(2, b)
  {
    hide Pow, Value, ShiftedOut, RightOctet;
    PowPositive(2, b);
    if |d| > 0 {
      var n := |d| - 1;
      var init := d[..n];
      var u: byte := if n > 0 then d[n - 1] else 0;
      ShiftedOutValue(init, b);
      ShiftedOutSnoc(d, b);
      ValueSnoc(d);
      ValueSnoc(ShiftedOut(d, b));
      RightOctetValue(u, d[n], b);
      LastOctetMod(init, Pow(2, b), Pow(2, 8 - b));
      ShiftDown(Value(init), d[n], Pow(2, b), Pow(2, 8 - b));
    } else {
      NothingLeft(d, b);
    }
  }

  lemma NothingLeft(d: seq<byte>, b: nat)
    requires b <= 8 && d == []
    ensures Pow(2, b) > 0 && Value(d) == 0 && Value(ShiftedOut(d, b)) == 0 && 0 / Pow(2, b) == 0
  {
    hide Pow;
    PowPositive(2, b);
    DivModUnique(0, Pow(2, b), 0, 0);
  }

  /** What the loop of shifting stores at place i. */
  lemma ShiftedAt(d: seq<byte>, b: nat, i: nat)
    requires b <= 8 && i < |d|
    ensures Pow(2, b) > 0 && 0 <= d[i] / Pow(2, b) < 256
    ensures i == 0 ==> d[i] / Pow(2, b) == ShiftedOut(d, b)[i]
    ensures i > 0 ==> d[i - 1] * Pow(2, 8 - b) >= 0
    ensures i > 0 ==> BitOr(d[i] / Pow(2, b), d[i - 1] * Pow(2, 8 - b)) % 256 == ShiftedOut(d, b)[i]
  {
    hide Pow, BitOr, RightOctet;
    FirstOctet(d[i], b);
    if i > 0 { RightOctetIs(d[i - 1], d[i], b); }
  }

  /** Shift in place; eight bits are allowed too, and shift by a whole octet. */
  method ShiftRight(a: array<byte>, bits: nat)
    requires bits <= 8
    modifies a
    ensures Pow(2, bits) > 0
    ensures a[..] == Digits(old(Value(a[..])) / Pow(2, bits), a.Length)
  {
    hide Pow, Value, Digits, BitOr, RightOctet, ShiftedOut;
    PowPositive(2, bits);
    ghost var before := a[..];
    ghost var goal := ShiftedOut(before, bits);
    ShiftedOutValue(before, bits);
    DigitsOfValue(goal);
    if bits == 0 {
      NoShift(before);
      return;
    }
    var i := a.Length - 1;
    while i >= 0
      invariant -1 <= i < a.Length
      invariant forall k :: 0 <= k <= i ==> a[k] == before[k]
      invariant forall k :: i < k < a.Length ==> a[k] == goal[k]
    {
      ShiftedAt(before, bits, i);
      a[i] := a[i] / Pow(2, bits);
      if i > 0 {
        a[i] := BitOr(a[i], a[i - 1] * Pow(2, 8 - bits)) % 256;
      }
      i := i - 1;
    }
    assert a[..] == goal;
  }

  lemma FirstOctet(v: byte, b: nat)
    requires b <= 8
    ensures Pow(2, b) > 0 && 0 <= v / Pow(2, b) < 256 && v / Pow(2, b) == RightOctet(0, v, b)
  {
    hide Pow;
    OctetSplit(0, v, b);
    ModSmall(0, Pow(2, b));
    ZeroTimes(v, Pow(2, b), Pow(2, 8 - b));
  }

  lemma ZeroTimes(v: nat, p: int, q: int)
    requires p > 0 && q > 0
    ensures 0 % p * q == 0 && v / p <= v
  {
    ModSmall(0, p);
    assert v == p * (v / p) + v % p;
    if v / p >= 1 { MulAtLeast(v / p, p); }
  }

  lemma NoShift(s: seq<byte>)
    ensures Pow(2, 0) == 1 && Digits(Value(s) / Pow(2, 0), |s|) == s
  {
    hide Value, Digits;
    assert Value(s) / 1 == Value(s);
    DigitsOfValue(s);
  }
}
