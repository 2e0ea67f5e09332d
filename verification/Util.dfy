/** Byte-level helpers of the utility object: number codecs, bit counting, array selection. */
module Util {
  import opened NumberTheory
  import opened Bytes

  function Least(a: nat, b: nat): nat { if a < b then a else b }

  // ---------------------------------------------------------------- numbers

  /** Conversion to a signed 32-bit word, which the shift operators apply to their operands. */
  function ToInt32(n: int): int {
    var w := n % 0x1_0000_0000;
    if w < 0x8000_0000 then w else w - 0x1_0000_0000
  }

  /** Sum of each octet times its weight. */
  method ReadNumber(bytes: seq<byte>) returns (n: nat)
    ensures n == Value(bytes)
  {
    n := 0;
    var i, weight := 0, 1;
    while i < |bytes|
      invariant 0 <= i <= |bytes|
      invariant weight == Pow(256, i) > 0
      invariant n == Value(bytes[|bytes| - i..])
    {
      var b: int := bytes[|bytes| - 1 - i];
      ValuePrepend(bytes[|bytes| - 1 - i], bytes[|bytes| - i..]);
      assert bytes[|bytes| - 1 - i..] == [bytes[|bytes| - 1 - i]] + bytes[|bytes| - i..];
      MulNonNeg(weight, b);
      n := n + weight * b;
      weight := weight * 256;
      i := i + 1;
    }
    assert bytes[0..] == bytes;
  }

  lemma {:induction false} ValuePrepend(b: byte, rest: seq<byte>)
    ensures Value([b] + rest) == Pow(256, |rest|) * b + Value(rest)
  {
    var s := [b] + rest;
    if |rest| == 0 {
      assert s[..0] == [];
      assert Value(s) == Value(s[..0]) * 256 + s[0];
    } else {
      var init := rest[..|rest| - 1];
      ValuePrepend(b, init);
      assert s[..|s| - 1] == [b] + init;
      var p := Pow(256, |init|);
      assert 256 * p * b == (p * b) * 256;
    }
  }

  /**
   Octets of n by shifting and masking a 32-bit word. The shift operator takes its count modulo 32, so
   beyond four octets the same four come again.
   */
  method WriteNumber(n: nat, bytes: nat) returns (b: seq<byte>)
    ensures |b| == bytes && forall i :: 0 <= i < bytes ==> b[i] == Digits(n, 4)[3 - (bytes - 1 - i) % 4]
    ensures bytes <= 4 ==> b == Digits(n, bytes)
  {
    hide Digits, Pow, ToInt32;
    b := [];
    var i := 0;
    while i < bytes
      invariant 0 <= i <= bytes && |b| == i
      invariant forall j :: 0 <= j < i ==> b[j] == Digits(n, 4)[3 - (bytes - 1 - j) % 4]
    {
      var k := (bytes - i - 1) % 4;
      PowPositive(256, k);
      ShiftedOctet(n, k);
      b := b + [ToInt32(n) / Pow(256, k) % 256];
      i := i + 1;
    }
    if bytes <= 4 { LowOctetsAgree(n, bytes, b); }
  }

  lemma LowOctetsAgree(n: nat, k: nat, b: seq<byte>)
    requires k <= 4 && |b| == k && forall i :: 0 <= i < k ==> b[i] == Digits(n, 4)[3 - (k - 1 - i) % 4]
    ensures b == Digits(n, k)
  {
    hide Digits, Pow;
    forall i | 0 <= i < k
      ensures b[i] == Digits(n, k)[i]
    {
      assert 3 - (k - 1 - i) % 4 == i + (4 - k);
      DigitAt(n, k, i);
      DigitAt(n, 4, i + (4 - k));
    }
  }

  lemma ShiftedOctet(n: nat, j: nat)
    requires j < 4
    ensures Pow(256, j) > 0
    ensures ToInt32(n) / Pow(256, j) % 256 == Digits(n, 4)[3 - j]
  {
    hide Pow, Digits;
    DigitAt(n, 4, 3 - j);
    PowPositive(256, j);
    PowPositive(256, 3 - j);
    PowAdd(256, j, 3 - j);
    Pow256Values();
    var w := ToInt32(n);
    var c := -(n / 0x1_0000_0000) - (if w < 0 then 1 else 0);
    WordOctet(n, w, c, Pow(256, j), Pow(256, 3 - j));
  }

  /** Changing a number by a multiple of 256 * d * l leaves the octet above d alone. */
  lemma WordOctet(n: int, w: int, c: int, d: int, l: int)
    requires d > 0 && l > 0 && w == n + c * ((d * l) * 256)
    ensures w / d % 256 == n / d % 256
  {
    var q, e := n / d, c * l;
    assert n == d * q + n % d;
    assert c * ((d * l) * 256) == (256 * e) * d by { assert c * (d * l) == (c * l) * d; }
    assert w == (q + 256 * e) * d + n % d;
    DivModUnique(w, d, q + 256 * e, n % d);
    CongIntro(q + 256 * e, q, 256, e);
  }

  lemma {:induction false} DigitAt(n: nat, k: nat, i: nat)
    requires i < k
    ensures Pow(256, k - i - 1) > 0
    ensures Digits(n, k)[i] == n / Pow(256, k - i - 1) % 256
  {
    PowPositive(256, k - i - 1);
    if i < k - 1 {
      DigitAt(n / 256, k - 1, i);
      DivDiv(n, 256, Pow(256, k - i - 2));
    }
  }

  /** y is what is left of x after shifting out r - 1 bits, some of them set unless x is zero. */
  ghost predicate Shifted(x: nat, y: nat, r: nat) {
    r >= 1 && Pow(2, r - 1) > 0 && y == x / Pow(2, r - 1) && (y == 0 ==> x == 0)
  }

  lemma ShiftMore(x: nat, y: nat, r: nat, k: nat)
    requires Shifted(x, y, r)
    ensures Pow(2, k) > 0
    ensures y / Pow(2, k) != 0 ==> Shifted(x, y / Pow(2, k), r + k)
    ensures y / Pow(2, k) == 0 ==> y < Pow(2, k)
  {
    PowPositive(2, k);
    DivDiv(x, Pow(2, r - 1), Pow(2, k));
    PowAdd(2, r - 1, k);
    assert r - 1 + k == r + k - 1;
    BelowWhenZero(y, Pow(2, k));
  }

  lemma BelowWhenZero(y: nat, m: int)
    requires m > 0
    ensures y / m == 0 ==> y < m
  {
    assert y == m * (y / m) + y % m;
  }

  /** Binary search for the highest set bit of a 32-bit word. */
  method Nbits(x: nat) returns (r: nat)
    requires x < 0x1_0000_0000
    ensures r >= 1 && (x == 0 ==> r == 1)
    ensures x > 0 ==> Pow(2, r - 1) <= x < Pow(2, r)
  {
    Pow2Values();
    r := 1;
    var y := x;
    ShiftMore(x, y, r, 16);
    var t := y / 0x1_0000;
    if t != 0 { y, r := t, r + 16; }
    ShiftMore(x, y, r, 8);
    t := y / 0x100;
    if t != 0 { y, r := t, r + 8; }
    ShiftMore(x, y, r, 4);
    t := y / 0x10;
    if t != 0 { y, r := t, r + 4; }
    ShiftMore(x, y, r, 2);
    t := y / 4;
    if t != 0 { y, r := t, r + 2; }
    ShiftMore(x, y, r, 1);
    t := y / 2;
    if t != 0 { y, r := t, r + 1; }
    HighestBit(x, y, r);
  }

  lemma HighestBit(x: nat, y: nat, r: nat)
    requires Shifted(x, y, r) && y < 2
    ensures x > 0 ==> Pow(2, r - 1) <= x < Pow(2, r)
  {
    assert x == Pow(2, r - 1) * y + x % Pow(2, r - 1);
  }

  // ---------------------------------------------------------------- selection

  function BitAnd(a: nat, b: nat): nat {
    if a == 0 then 0 else 2 * BitAnd(a / 2, b / 2) + (if a % 2 == 1 && b % 2 == 1 then 1 else 0)
  }

  function BitOr(a: nat, b: nat): nat {
    if a == 0 && b == 0 then 0
    else 2 * BitOr(a / 2, b / 2) + (if a % 2 == 1 || b % 2 == 1 then 1 else 0)
  }

  lemma {:induction false} AndAllOnes(a: nat, k: nat)
    requires a < Pow(2, k)
    ensures BitAnd(a, Pow(2, k) - 1) == a
    ensures BitAnd(a, Pow(2, k)) == 0
  {
    if a > 0 {
      assert k > 0;
      PowPositive(2, k - 1);
      AndAllOnes(a / 2, k - 1);
      assert (Pow(2, k) - 1) / 2 == Pow(2, k - 1) - 1 && Pow(2, k) / 2 == Pow(2, k - 1);
    }
  }

  lemma {:induction false} OrZero(a: nat)
    ensures BitOr(a, 0) == a && BitOr(0, a) == a
  {
    if a > 0 { OrZero(a / 2); }
  }

  lemma SelectOctet(cond: nat, a: byte, b: byte)
    requires cond <= 1
    ensures BitOr(BitAnd(a, 256 - cond), BitAnd(b, 255 + cond)) == if cond == 1 then a else b
  {
    Pow2Values();
    AndAllOnes(a, 8);
    AndAllOnes(b, 8);
    OrZero(a);
    OrZero(b);
  }

  /** What a read outside a typed array contributes to a bitwise expression. */
  function At(a: seq<byte>, i: int): byte { if 0 <= i < |a| then a[i] else 0 }

  /** Masked selection, without branching on cond, of one of two arrays of any lengths. */
  method SelectUint8Array(cond: nat, a: seq<byte>, b: seq<byte>) returns (r: seq<byte>)
    requires cond <= 1
    ensures r == if cond == 1 then a else b
  {
    var length := if |a| < |b| then |b| else |a|;
    var result: seq<byte> := [];
    var end := 0;
    ghost var chosen := if cond == 1 then a else b;
    var i := 0;
    while i < length
      invariant 0 <= i <= length && |result| == i
      invariant end == if i < |chosen| then i else |chosen|
      invariant forall j :: 0 <= j < i ==> result[j] == At(chosen, j)
    {
      SelectOctet(cond, At(a, i), At(b, i));
      result := result + [BitOr(BitAnd(At(a, i), 256 - cond), BitAnd(At(b, i), 255 + cond))];
      end := end + (if (cond == 1 && i < |a|) || (1 - cond == 1 && i < |b|) then 1 else 0);
      i := i + 1;
    }
    r := result[..end];
  }

  /** Store s at the given offset of a typed array. */
  method SetAt<T>(a: array<T>, s: seq<T>, offset: nat)
    requires offset + |s| <= a.Length
    modifies a
    ensures a[..] == old(a[..offset]) + s + old(a[offset + |s|..])
  {
    for i := 0 to |s|
      invariant a[..offset] == old(a[..offset])
      invariant a[offset..offset + i] == s[..i]
      invariant a[offset + i..] == old(a[offset + i..])
    {
      a[offset + i] := s[i];
    }
    assert a[..] == a[..offset] + a[offset..offset + |s|] + a[offset + |s|..];
  }
}
