/** Exclusive or on naturals, the bitwise operator under every cipher mode and checksum here. */
module Bits {
  import opened NumberTheory
  import opened Bytes

  function Xor(a: nat, b: nat): nat {
    if a == 0 && b == 0 then 0
    else 2 * Xor(a / 2, b / 2) + (if a % 2 != b % 2 then 1 else 0)
  }

  lemma {:induction false} XorZero(a: nat)
    ensures Xor(a, 0) == a && Xor(0, a) == a
  {
    if a > 0 { XorZero(a / 2); }
  }

  lemma {:induction false} XorSelf(a: nat)
    ensures Xor(a, a) == 0
  {
    if a > 0 { XorSelf(a / 2); }
  }

  lemma {:induction false} XorComm(a: nat, b: nat)
    ensures Xor(a, b) == Xor(b, a)
  {
    if a > 0 || b > 0 { XorComm(a / 2, b / 2); }
  }

  lemma XorHalf(a: nat, b: nat)
    ensures Xor(a, b) / 2 == Xor(a / 2, b / 2)
    ensures Xor(a, b) % 2 == if a % 2 != b % 2 then 1 else 0
  {
  }

  lemma {:induction false} XorAssoc(a: nat, b: nat, c: nat)
    ensures Xor(Xor(a, b), c) == Xor(a, Xor(b, c))
    decreases a + b + c
  {
    if a > 0 || b > 0 || c > 0 {
      XorAssoc(a / 2, b / 2, c / 2);
      XorHalf(a, b);
      XorHalf(b, c);
      XorHalf(Xor(a, b), c);
      XorHalf(a, Xor(b, c));
    }
  }

  /** Applying the same operand twice changes nothing. */
  lemma XorCancel(a: nat, b: nat)
    ensures Xor(Xor(a, b), b) == a && Xor(b, Xor(b, a)) == a
  {
    hide Xor;
    XorAssoc(a, b, b);
    XorAssoc(b, b, a);
    XorSelf(b);
    XorZero(a);
  }

  lemma XorSwap(a: nat, b: nat, c: nat, d: nat)
    ensures Xor(Xor(a, b), Xor(c, d)) == Xor(Xor(a, c), Xor(b, d))
  {
    hide Xor;
    XorAssoc(a, b, Xor(c, d));
    XorAssoc(b, c, d);
    XorComm(b, c);
    XorAssoc(c, b, d);
    XorAssoc(a, c, Xor(b, d));
  }

  /** Shifting distributes over exclusive or, and so does keeping the low bits. */
  lemma {:induction false} XorDivMod(a: nat, b: nat, k: nat)
    ensures Pow(2, k) > 0
    ensures Xor(a, b) / Pow(2, k) == Xor(a / Pow(2, k), b / Pow(2, k))
    ensures Xor(a, b) % Pow(2, k) == Xor(a % Pow(2, k), b % Pow(2, k))
  {
    PowPositive(2, k);
    if k == 0 {
      assert Pow(2, 0) == 1;
    } else {
      PowPositive(2, k - 1);
      var m := Pow(2, k - 1);
      XorDivMod(a / 2, b / 2, k - 1);
      XorHalf(a, b);
      HalveDivMod(Xor(a, b), m);
      HalveDivMod(a, m);
      HalveDivMod(b, m);
      XorHalf(a % (2 * m), b % (2 * m));
    }
  }

  lemma HalveDivMod(x: nat, m: int)
    requires m > 0
    ensures x / (2 * m) == x / 2 / m && x % (2 * m) == x / 2 % m * 2 + x % 2
    ensures x % (2 * m) / 2 == x / 2 % m && x % (2 * m) % 2 == x % 2
  {
    var y := x / 2;
    assert y == m * (y / m) + y % m;
    DivModUnique(x, 2 * m, y / m, y % m * 2 + x % 2);
  }

  lemma XorBound(a: nat, b: nat, k: nat)
    requires a < Pow(2, k) && b < Pow(2, k)
    ensures Xor(a, b) < Pow(2, k)
  {
    hide Xor;
    XorDivMod(a, b, k);
    ModSmall(a, Pow(2, k));
    ModSmall(b, Pow(2, k));
  }

  lemma DoubleScale(a: nat, k: nat)
    requires k > 0
    ensures a * Pow(2, k - 1) >= 0 && a * Pow(2, k) == 2 * (a * Pow(2, k - 1))
  {
    PowPositive(2, k - 1);
    MulNonNeg(a, Pow(2, k - 1));
    assert a * (2 * Pow(2, k - 1)) == 2 * (a * Pow(2, k - 1));
  }

  lemma XorTwice(a: nat, c: nat, b: nat, d: nat)
    requires c < 2 && d < 2
    ensures Xor(2 * a + c, 2 * b + d) == 2 * Xor(a, b) + (if c != d then 1 else 0)
  {
    assert (2 * a + c) / 2 == a && (2 * b + d) / 2 == b;
  }

  lemma XorConcatStep(a: nat, c: nat, b: nat, d: nat, x: nat)
    requires Xor(a + c / 2, b + d / 2) == x + Xor(c / 2, d / 2)
    ensures Xor(2 * a + c, 2 * b + d) == 2 * x + Xor(c, d)
  {
    hide Xor;
    XorTwice(a + c / 2, c % 2, b + d / 2, d % 2);
    XorTwice(c / 2, c % 2, d / 2, d % 2);
    assert 2 * (a + c / 2) + c % 2 == 2 * a + c && 2 * (b + d / 2) + d % 2 == 2 * b + d;
    assert 2 * (c / 2) + c % 2 == c && 2 * (d / 2) + d % 2 == d;
  }

  /** High and low parts combine separately. */
  lemma {:induction false} XorConcat(a: nat, c: nat, b: nat, d: nat, k: nat)
    requires c < Pow(2, k) && d < Pow(2, k)
    ensures a * Pow(2, k) >= 0 && b * Pow(2, k) >= 0
    ensures Xor(a * Pow(2, k) + c, b * Pow(2, k) + d) == Xor(a, b) * Pow(2, k) + Xor(c, d)
  {
    hide Xor;
    if k > 0 {
      DoubleScale(a, k);
      DoubleScale(b, k);
      DoubleScale(Xor(a, b), k);
      XorConcat(a, c / 2, b, d / 2, k - 1);
      var p := Pow(2, k - 1);
      XorConcatStep(a * p, c, b * p, d, Xor(a, b) * p);
    } else {
      assert Pow(2, 0) == 1;
      XorZero(0);
    }
  }

  /** Where the operands do not overlap, exclusive or is addition. */
  lemma XorDisjoint(a: nat, c: nat, k: nat)
    requires c < Pow(2, k)
    ensures a * Pow(2, k) >= 0 && Xor(a * Pow(2, k), c) == a * Pow(2, k) + c
  {
    hide Xor;
    PowPositive(2, k);
    XorConcat(a, 0, 0, c, k);
    XorZero(a);
    XorZero(c);
  }

  /** Exclusive or of two octets. */
  function XorByte(a: byte, b: byte): (c: byte)
    ensures c == Xor(a, b)
  {
    Pow2Values();
    XorBound(a, b, 8);
    Xor(a, b)
  }

  // ---------------------------------------------------------------- octet strings

  /** Octet by octet, as far as the first string reaches; octets missing from the second count as zero. */
  function XorBytes(s: seq<byte>, t: seq<byte>): (r: seq<byte>)
    ensures |r| == |s|
  {
    seq(|s|, i requires 0 <= i < |s| => if i < |t| then XorByte(s[i], t[i]) else s[i])
  }

  function Zeros(n: nat): (z: seq<byte>)
    ensures |z| == n && forall i :: 0 <= i < n ==> z[i] == 0
  {
    seq(n, _ => 0)
  }

  lemma XorBytesCancel(s: seq<byte>, t: seq<byte>)
    ensures XorBytes(XorBytes(s, t), t) == s
  {
    hide Xor;
    forall i | 0 <= i < |s| && i < |t|
      ensures XorBytes(XorBytes(s, t), t)[i] == s[i]
    {
      XorCancel(s[i], t[i]);
    }
  }

  lemma XorBytesComm(s: seq<byte>, t: seq<byte>)
    requires |s| == |t|
    ensures XorBytes(s, t) == XorBytes(t, s)
  {
    hide Xor;
    forall i | 0 <= i < |s|
      ensures XorBytes(s, t)[i] == XorBytes(t, s)[i]
    {
      XorComm(s[i], t[i]);
    }
  }

  /** Different operands give different results. */
  lemma XorBytesInjective(s: seq<byte>, t: seq<byte>, u: seq<byte>)
    requires |s| == |t| == |u| && XorBytes(s, t) == XorBytes(s, u)
    ensures t == u
  {
    hide Xor;
    XorBytesComm(s, t);
    XorBytesComm(s, u);
    XorBytesCancel(t, s);
    XorBytesCancel(u, s);
  }

  /** Exclusive-or in place. */
  method XorMut(a: array<byte>, b: seq<byte>)
    requires |b| >= a.Length
    modifies a
    ensures a[..] == XorBytes(old(a[..]), b)
  {
    hide Xor;
    for i := 0 to a.Length
      invariant forall k :: 0 <= k < i ==> a[k] == XorByte(old(a[k]), b[k])
      invariant forall k :: i <= k < a.Length ==> a[k] == old(a[k])
    {
      a[i] := XorByte(a[i], b[i]);
    }
  }
}
