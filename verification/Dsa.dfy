/** DSA signatures over BigIntegers. */
module Dsa {
  import opened NumberTheory
  import opened Primes
  import opened Bytes
  import opened Results
  import opened BigIntegers
  import opened Random
  import opened Util
  import Shifts

  // ---------------------------------------------------------------- the hash as a number

  /** The leftmost octets of the hash, as many as q has. */
  function LeftmostOctets(hashed: seq<byte>, q: nat): nat { Value(hashed[..Least(|hashed|, ByteLen(q))]) }

  /** The leftmost octets of the hash, as a number modulo q. */
  function HashValue(hashed: seq<byte>, q: nat): (h: nat)
    requires q > 0
    ensures h < q
  {
    LeftmostOctets(hashed, q) % q
  }

  /** The leftmost n bits of the hash, all of it if it has no more: what section 4.6 of FIPS 186-4 asks for. */
  function LeftmostBits(hashed: seq<byte>, n: nat): nat {
    if 8 * |hashed| <= n then Value(hashed)
    else
      PowPositive(2, 8 * |hashed| - n);
      Value(hashed) / Pow(2, 8 * |hashed| - n)
  }

  /**
   Octets are the bits asked for exactly if q fills its octets, or the hash is no longer than q, or nothing but
   zeros is left of it.
   */
  lemma OctetsAreBitsIff(hashed: seq<byte>, q: nat)
    ensures LeftmostOctets(hashed, q) == LeftmostBits(hashed, BitLen(q)) <==>
      || BitLen(q) % 8 == 0
      || 8 * |hashed| <= BitLen(q)
      || Value(hashed[..Least(|hashed|, ByteLen(q))]) == 0
  {
    hide Value, Pow, BitLen, ByteLen;
    var n, k, b := BitLen(q), |hashed|, ByteLen(q);
    OctetsOfBits(q);
    if 8 * k <= n {
      assert hashed[..k] == hashed;
      assert LeftmostOctets(hashed, q) == LeftmostBits(hashed, n);
    } else {
      var v, low := Value(hashed), 8 * b - n;
      Shifts.ValueSlices(hashed, b);
      Shifts.Pow256(k - b);
      PowPositive(2, 8 * (k - b));
      PowPositive(2, low);
      PowAdd(2, 8 * (k - b), low);
      DivDiv(v, Pow(2, 8 * (k - b)), Pow(2, low));
      assert 8 * (k - b) + low == 8 * k - n;
      ShiftKeepsIff(Value(hashed[..b]), low);
      assert low == 0 <==> n % 8 == 0;
    }
  }

  /** A number of n bits takes the octets that n bits fill, the last one perhaps in part. */
  lemma OctetsOfBits(q: nat)
    ensures 0 <= 8 * ByteLen(q) - BitLen(q) < 8
    ensures BitLen(q) % 8 == 0 <==> 8 * ByteLen(q) == BitLen(q)
  {
    hide BitLen, ByteLen, Pow;
    var n, b := BitLen(q), ByteLen(q);
    Shifts.Pow256(b);
    Shifts.Pow256(b - 1);
    if n > 8 * b { PowMonotone(2, 8 * b, n - 1); }
    if b > 1 && n <= 8 * (b - 1) { PowMonotone(2, n, 8 * (b - 1)); }
    EightsIff(n, b);
  }

  lemma EightsIff(n: nat, b: nat)
    requires 0 <= 8 * b - n < 8
    ensures n % 8 == 0 <==> 8 * b == n
  {
    if n == 8 * b { DivModUnique(n, 8, b, 0); } else { DivModUnique(n, 8, b - 1, n - 8 * (b - 1)); }
  }

  lemma ShiftKeepsIff(v: nat, k: nat)
    ensures Pow(2, k) > 0 && (v / Pow(2, k) == v <==> k == 0 || v == 0)
  {
    PowPositive(2, k);
    if k == 0 {
      assert Pow(2, 0) == 1;
      DivModUnique(v, 1, v, 0);
    } else {
      PowPositive(2, k - 1);
      var m := Pow(2, k);
      assert m >= 2;
      assert v == m * (v / m) + v % m;
      if v > 0 && v / m == v { MulRegroup(m, 1, v, 1); MulMono(v, 2, m); }
      if v == 0 { DivModUnique(0, m, 0, 0); }
    }
  }

  /** What is signed is the leftmost bits of the hash, as many as the octets of q hold. */
  lemma HashIsLeftmost(hashed: seq<byte>, q: nat)
    requires q > 0
    ensures HashValue(hashed, q) == LeftmostBits(hashed, 8 * ByteLen(q)) % q
  {
    hide Value, Pow, ByteLen;
    var k, b := |hashed|, ByteLen(q);
    if k <= b {
      assert hashed[..k] == hashed;
      if k == b { Shifts.Pow256(0); }
    } else {
      Shifts.ValueSlices(hashed, b);
      Shifts.Pow256(k - b);
      PowPositive(2, 8 * (k - b));
    }
  }

  /** These are the bits the standard asks for if q fills its octets or the hash is no longer than q. */
  lemma HashIsBits(hashed: seq<byte>, q: nat)
    requires q > 0 && (BitLen(q) % 8 == 0 || 8 * |hashed| <= BitLen(q))
    ensures HashValue(hashed, q) == LeftmostBits(hashed, BitLen(q)) % q
  {
    hide Value, Pow, ByteLen, BitLen;
    OctetsAreBitsIff(hashed, q);
  }

  /** For q = 5 and the hash 0xFF the octet gives 0 modulo q, and the leftmost three bits give 2. */
  lemma OctetsAreNotBits()
    ensures HashValue([255], 5) == 0 && LeftmostBits([255], BitLen(5)) % 5 == 2
  {
    assert BitLen(5) == 3;
    assert ByteLen(5) == 1;
    assert [255][..1] == [255] && [255][..0] == [];
    assert Value([255]) == 255;
    assert Pow(2, 1) == 2 * Pow(2, 0) && Pow(2, 2) == 2 * Pow(2, 1) && Pow(2, 3) == 2 * Pow(2, 2);
    assert Pow(2, 4) == 2 * Pow(2, 3) && Pow(2, 5) == 2 * Pow(2, 4);
  }

  // ---------------------------------------------------------------- signatures and the verification equation

  datatype Parts = Parts(r: nat, s: nat)

  /** The signature for one nonce; none if one of its parts is zero, an error if the nonce has no inverse. */
  ghost function TrySign(h: nat, g: nat, p: nat, q: nat, x: nat, k: nat): Result<Option<Parts>>
    requires p > 0 && q > 0
  {
    var r := PowMod(g, k, p) % q;
    if r == 0 then Ok(None)
    else if Gcd(k, q) != 1 then Err(InverseDoesNotExist)
    else
      var s := Quotient(h + x * r, k, q);
      Ok(if s == 0 then None else Some(Parts(r, s)))
  }

  function PowMod(a: nat, e: nat, m: nat): (x: nat)
    requires m > 0
  {
    Pow(a, e) % m
  }

  /** t divided by k modulo q. */
  ghost function Quotient(t: nat, k: nat, q: nat): (s: nat)
    requires q > 0 && Gcd(k, q) == 1
    ensures s < q
  {
    MulNonNeg(Inverse(k, q), t % q);
    Inverse(k, q) * (t % q) % q
  }

  predicate InBounds(sig: Parts, q: nat) { 0 < sig.r < q && 0 < sig.s < q }

  /** The verification equation. */
  ghost predicate Holds(sig: Parts, h: nat, g: nat, p: nat, q: nat, y: nat)
    requires p > 0 && InBounds(sig, q) && Gcd(sig.s, q) == 1
  {
    var w := Inverse(sig.s, q);
    PowMod(g, h * w % q, p) * PowMod(y, sig.r * w % q, p) % p % q == sig.r
  }

  /** What verification answers: the errors are a part without an inverse and a vanishing modulus. */
  ghost function Verdict(sig: Parts, hashed: seq<byte>, g: nat, p: nat, q: nat, y: nat): Result<bool> {
    if !InBounds(sig, q) then Ok(false)
    else if Gcd(sig.s, q) != 1 then Err(InverseDoesNotExist)
    else if p == 0 then Err(DivisionByZero)
    else Ok(Holds(sig, HashValue(hashed, q), g, p, q, y))
  }

  /** The exponent that the verification equation recovers from a signature. */
  ghost function RecoveredNonce(sig: Parts, h: nat, q: nat, x: nat): (k: nat)
    requires q > 0 && Gcd(sig.s, q) == 1
  {
    Inverse(sig.s, q) * (h + x * sig.r) % q
  }

  /** For a key with g^q == 1, the product of the two powers is the power of the recovered exponent. */
  lemma ProductOfPowers(g: nat, y: nat, p: nat, q: nat, x: nat, u1: nat, u2: nat, k: nat)
    requires p > 0 && q > 0 && Cong(Pow(g, q), 1, p) && Cong(y, Pow(g, x), p)
    requires Cong(u1 + x * u2, k, q)
    ensures (PowMod(g, u1, p) * PowMod(y, u2, p)) % p == PowMod(g, k, p)
  {
    MulNonNeg(x, u2);
    CongPow(y, Pow(g, x), u2, p);
    PowPow(g, x, u2);
    CongMod(Pow(g, u1), p);
    CongMod(Pow(y, u2), p);
    CongMul(PowMod(g, u1, p), Pow(g, u1), PowMod(y, u2, p), Pow(g, x * u2), p);
    PowAdd(g, u1, x * u2);
    ReduceExponent(g, q, u1 + x * u2, p);
    ReduceExponent(g, q, k, p);
  }

  lemma ExponentsAddUp(h: int, w: int, x: int, r: int, q: int)
    requires q > 0
    ensures Cong((h * w) % q + x * ((r * w) % q), (w * (h + x * r)) % q, q)
  {
    CongMod(h * w, q);
    CongMod(r * w, q);
    CongMul(x, x, (r * w) % q, r * w, q);
    CongAdd((h * w) % q, h * w, x * ((r * w) % q), x * (r * w), q);
    assert h * w + x * (r * w) == w * (h + x * r) by {
      assert x * (r * w) == w * (x * r);
    }
    CongMod(w * (h + x * r), q);
  }

  /** The equation holds exactly for the signatures whose first part is the power of the recovered nonce. */
  lemma HoldsIff(sig: Parts, h: nat, g: nat, p: nat, q: nat, y: nat, x: nat)
    requires p > 0 && q > 0 && Cong(Pow(g, q), 1, p) && Cong(y, Pow(g, x), p)
    requires InBounds(sig, q) && Gcd(sig.s, q) == 1
    ensures Holds(sig, h, g, p, q, y) <==> PowMod(g, RecoveredNonce(sig, h, q, x), p) % q == sig.r
  {
    hide Gcd, Pow;
    var w := Inverse(sig.s, q);
    ExponentsAddUp(h, w, x, sig.r, q);
    MulNonNeg(h, w);
    MulNonNeg(sig.r, w);
    ProductOfPowers(g, y, p, q, x, (h * w) % q, (sig.r * w) % q, RecoveredNonce(sig, h, q, x));
  }

  /** k solves the signing equation, and the k-th power of g gives the first part. */
  ghost predicate SolvedBy(k: nat, sig: Parts, h: nat, g: nat, p: nat, q: nat, x: nat)
    requires p > 0 && q > 0
  {
    k < q && Cong(k * sig.s, h + x * sig.r, q) && PowMod(g, k, p) % q == sig.r
  }

  /**
   Verification accepts exactly the parts in range whose equation k s = h + x r has a solution k with r the k-th
   power of g, where h is the leftmost bits of the hash and s has an inverse; an s without one is an error.
   */
  lemma AcceptedIff(sig: Parts, hashed: seq<byte>, g: nat, p: nat, q: nat, y: nat, x: nat)
    requires p > 0 && q > 0 && Cong(Pow(g, q), 1, p) && Cong(y, Pow(g, x), p)
    ensures var h := LeftmostBits(hashed, 8 * ByteLen(q));
      Verdict(sig, hashed, g, p, q, y) == Ok(true) <==>
        && 0 < sig.r < q && 0 < sig.s < q && Gcd(sig.s, q) == 1
        && exists k :: SolvedBy(k, sig, h, g, p, q, x)
    ensures Verdict(sig, hashed, g, p, q, y) == Err(InverseDoesNotExist) <==>
      0 < sig.r < q && 0 < sig.s < q && Gcd(sig.s, q) != 1
    ensures sig.r == 0 || sig.r >= q || sig.s == 0 || sig.s >= q ==> Verdict(sig, hashed, g, p, q, y) == Ok(false)
  {
    hide Gcd, Pow, Holds, HashValue, LeftmostBits, ByteLen;
    var l, h := LeftmostBits(hashed, 8 * ByteLen(q)), HashValue(hashed, q);
    HashIsLeftmost(hashed, q);
    if InBounds(sig, q) && Gcd(sig.s, q) == 1 {
      HoldsIff(sig, h, g, p, q, y, x);
      SolutionIff(sig, l, h, g, p, q, x);
    }
  }

  /** The signing equation has one solution, the nonce that verification recovers. */
  lemma SolutionIff(sig: Parts, l: nat, h: nat, g: nat, p: nat, q: nat, x: nat)
    requires p > 0 && InBounds(sig, q) && Gcd(sig.s, q) == 1 && h == l % q
    ensures (exists k :: SolvedBy(k, sig, l, g, p, q, x)) <==> PowMod(g, RecoveredNonce(sig, h, q, x), p) % q == sig.r
  {
    hide Gcd, Pow;
    var w, k := Inverse(sig.s, q), RecoveredNonce(sig, h, q, x);
    RecoveredSolves(sig, l, h, q, x);
    MulNonNeg(x, sig.r);
    CongMod(l, q);
    CongAdd(h, l, x * sig.r, x * sig.r, q);
    if exists j: nat :: SolvedBy(j, sig, l, g, p, q, x) {
      var j: nat :| SolvedBy(j, sig, l, g, p, q, x);
      DivideBack(h + x * sig.r, j, sig.s, w, q);
    }
    if PowMod(g, k, p) % q == sig.r { assert SolvedBy(k, sig, l, g, p, q, x); }
  }

  lemma RecoveredSolves(sig: Parts, l: nat, h: nat, q: nat, x: nat)
    requires InBounds(sig, q) && Gcd(sig.s, q) == 1 && h == l % q
    ensures var k := RecoveredNonce(sig, h, q, x);
      k < q && Cong(k * sig.s, l + x * sig.r, q)
  {
    hide Gcd;
    var w, a := Inverse(sig.s, q), h + x * sig.r;
    var k := w * a % q;
    CongMod(l, q);
    CongAdd(h, l, x * sig.r, x * sig.r, q);
    CongMod(w * a, q);
    CongMul(k, w * a, sig.s, sig.s, q);
    MulRegroup(w, a, sig.s, 1);
    CongMul(w * sig.s, 1, a, a, q);
  }

  /** The nonce of a signature is the one verification recovers. */
  lemma NonceRecovered(h: nat, g: nat, p: nat, q: nat, x: nat, k: nat, sig: Parts)
    requires p > 0 && 1 <= k < q && TrySign(h, g, p, q, x, k) == Ok(Some(sig)) && Gcd(sig.s, q) == 1
    ensures InBounds(sig, q) && RecoveredNonce(sig, h, q, x) == k
  {
    hide Gcd, Pow;
    var a := h + x * sig.r;
    ModuloNonZero(PowMod(g, k, p), q);
    QuotientTimes(a, k, q);
    ModSmall(k, q);
    DivideBack(a, k, sig.s, Inverse(sig.s, q), q);
  }

  lemma ModuloNonZero(a: nat, q: int)
    requires q > 0
    ensures 0 <= a % q < q
  {
  }

  lemma QuotientTimes(t: nat, k: nat, q: nat)
    requires q > 0 && Gcd(k, q) == 1
    ensures Cong(k * Quotient(t, k, q), t, q)
  {
    hide Gcd;
    var i := Inverse(k, q);
    CongMod(t, q);
    CongMod(i * (t % q), q);
    CongMul(k, k, Quotient(t, k, q), i * (t % q), q);
    assert k * (i * (t % q)) == (k * i) * (t % q);
    CongMul(k * i, 1, t % q, t, q);
  }

  lemma DivideBack(a: int, k: int, s: int, w: int, q: int)
    requires q > 0 && 0 <= k < q && Cong(k * s, a, q) && s * w % q == 1 % q
    ensures w * a % q == k
  {
    CongMul(w, w, k * s, a, q);
    assert w * (k * s) == (s * w) * k;
    CongMul(s * w, 1, k, k, q);
    ModSmall(k, q);
  }

  /** The equation holds for every signature of one nonce whose second part has an inverse. */
  lemma SignedHolds(h: nat, g: nat, p: nat, q: nat, y: nat, x: nat, k: nat, sig: Parts)
    requires p > 0 && Cong(Pow(g, q), 1, p) && Cong(y, Pow(g, x), p)
    requires 1 <= k < q && TrySign(h, g, p, q, x, k) == Ok(Some(sig))
    ensures InBounds(sig, q)
    ensures Gcd(sig.s, q) == 1 ==> Holds(sig, h, g, p, q, y)
  {
    hide Gcd, Pow, Holds, RecoveredNonce;
    ModuloNonZero(PowMod(g, k, p), q);
    if Gcd(sig.s, q) == 1 {
      NonceRecovered(h, g, p, q, x, k, sig);
      HoldsIff(sig, h, g, p, q, y, x);
    }
  }

  // ---------------------------------------------------------------- the signing loop

  ghost predicate InRange(nonces: seq<nat>, q: nat) {
    forall i :: 0 <= i < |nonces| ==> 1 <= nonces[i] < q
  }

  /** The nonces drawn from [1, q). */
  function Nonces(random: seq<nat>, q: nat): (nonces: seq<nat>)
    requires q > 1
    ensures |nonces| == |random|
  {
    seq(|random|, i requires 0 <= i < |random| => 1 + random[i] % (q - 1))
  }

  /** The nonces that can be drawn are those from 1 to q - 1. */
  lemma NonceIff(q: nat, k: nat)
    requires q > 1
    ensures (exists random: nat :: Nonces([random], q) == [k]) <==> 1 <= k < q
  {
    if 1 <= k < q {
      ModSmall(k - 1, q - 1);
      var random: nat := k - 1;
      assert Nonces([random], q) == [k];
    }
    if random: nat :| Nonces([random], q) == [k] { assert Nonces([random], q)[0] == 1 + random % (q - 1); }
  }

  lemma NoncesInRange(random: seq<nat>, q: nat)
    requires q > 1
    ensures InRange(Nonces(random, q), q)
  {
  }

  /** The signature for the first nonce that gives one, or the error of a nonce before it. */
  ghost function FirstSignature(h: nat, g: nat, p: nat, q: nat, x: nat, nonces: seq<nat>): Result<Option<Parts>>
    requires p > 0 && q > 0
  {
    if |nonces| == 0 then Ok(None)
    else
      var t := TrySign(h, g, p, q, x, nonces[0]);
      if t == Ok(None) then FirstSignature(h, g, p, q, x, nonces[1..]) else t
  }

  /** A signature the loop returns satisfies the equation, if its second part has an inverse. */
  lemma {:induction false} FirstSignatureHolds(h: nat, g: nat, p: nat, q: nat, y: nat, x: nat, nonces: seq<nat>,
                                               sig: Parts)
    requires p > 0 && q > 0 && Cong(Pow(g, q), 1, p) && Cong(y, Pow(g, x), p) && InRange(nonces, q)
    requires FirstSignature(h, g, p, q, x, nonces) == Ok(Some(sig))
    ensures InBounds(sig, q)
    ensures Gcd(sig.s, q) == 1 ==> Holds(sig, h, g, p, q, y)
  {
    hide Gcd, Pow, Holds, TrySign;
    if TrySign(h, g, p, q, x, nonces[0]) == Ok(None) {
      FirstSignatureHolds(h, g, p, q, y, x, nonces[1..], sig);
    } else {
      SignedHolds(h, g, p, q, y, x, nonces[0], sig);
    }
  }

  /** The octets that signing returns verify; for a composite q, unless the second part has no inverse. */
  lemma SignedIsAccepted(hashed: seq<byte>, g: nat, p: nat, q: nat, y: nat, x: nat, nonces: seq<nat>, sig: Parts)
    requires p > 0 && q > 0 && Cong(Pow(g, q), 1, p) && Cong(y, Pow(g, x), p) && InRange(nonces, q)
    requires FirstSignature(HashValue(hashed, q), g, p, q, x, nonces) == Ok(Some(sig))
    ensures var (r, s) := Octets(sig, q);
      && Parts(Value(r), Value(s)) == sig
      && Verdict(Parts(Value(r), Value(s)), hashed, g, p, q, y)
         == (if Gcd(sig.s, q) == 1 then Ok(true) else Err(InverseDoesNotExist))
    ensures IsPrime(q) ==> Verdict(sig, hashed, g, p, q, y) == Ok(true)
  {
    hide Gcd, Pow, Holds, FirstSignature, Digits, Value, HashValue, IsPrime;
    FirstSignatureHolds(HashValue(hashed, q), g, p, q, y, x, nonces, sig);
    DigitsRoundTrip(sig.r, ByteLen(q));
    DigitsRoundTrip(sig.s, ByteLen(q));
    if IsPrime(q) {
      ModSmall(sig.s, q);
      PrimeCoprime(sig.s, q);
    }
  }

  /** Both parts in as many octets as q has. */
  function Octets(sig: Parts, q: nat): (seq<byte>, seq<byte>) {
    (Digits(sig.r, ByteLen(q)), Digits(sig.s, ByteLen(q)))
  }

  /** Reducing the base modulo p and the key modulo q first changes nothing. */
  lemma TrySignReduced(h: nat, g: nat, p: nat, q: nat, x: nat, k: nat)
    requires p > 0 && q > 0
    ensures TrySign(h, g % p, p, q, x % q, k) == TrySign(h, g, p, q, x, k)
  {
    hide Gcd, Pow;
    ReducedBase(g, k, p);
    ReducedSum(h, x, PowMod(g, k, p) % q, q);
  }

  lemma {:induction false} FirstSignatureReduced(h: nat, g: nat, p: nat, q: nat, x: nat, nonces: seq<nat>)
    requires p > 0 && q > 0
    ensures FirstSignature(h, g % p, p, q, x % q, nonces) == FirstSignature(h, g, p, q, x, nonces)
  {
    hide TrySign;
    if |nonces| > 0 {
      TrySignReduced(h, g, p, q, x, nonces[0]);
      FirstSignatureReduced(h, g, p, q, x, nonces[1..]);
    }
  }

  lemma ReducedBase(g: nat, k: nat, p: int)
    requires p > 0
    ensures Pow(g % p, k) % p == PowMod(g, k, p)
  {
    CongMod(g, p);
    CongPow(g % p, g, k, p);
  }

  lemma ReducedSum(h: int, x: int, r: int, q: int)
    requires q > 0
    ensures (h + x % q * r) % q == (h + x * r) % q
    ensures (h + x * r % q) % q == (h + x * r) % q
  {
    CongMod(x, q);
    CongMul(x % q, x, r, r, q);
    CongAdd(h, h, x % q * r, x * r, q);
    CongMod(x * r, q);
    CongAdd(h, h, x * r % q, x * r, q);
  }

  // ---------------------------------------------------------------- the code

  /** The random numbers are those drawn in turn, and None says that they ran out. For q = 1 none can be drawn. */
  method Sign(hashed: seq<byte>, g: seq<byte>, p: seq<byte>, q: seq<byte>, x: seq<byte>, random: seq<nat>)
      returns (sig: Result<Option<(seq<byte>, seq<byte>)>>)
    ensures Value(p) == 0 || Value(q) == 0 ==> sig == Err(DivisionByZero)
    ensures Value(p) > 0 && Value(q) == 1 ==> sig == if |random| > 0 then Err(DivisionByZero) else Ok(None)
    ensures Value(p) > 0 && Value(q) > 1 ==>
      var nonces := Nonces(random, Value(q));
      match FirstSignature(HashValue(hashed, Value(q)), Value(g), Value(p), Value(q), Value(x), nonces)
      case Err(e) => sig == Err(e)
      case Ok(None) => sig == Ok(None)
      case Ok(Some(parts)) => sig == Ok(Some(Octets(parts, Value(q))))
  {
    hide Value, Digits, FirstSignature, Nonces;
    var p' := new BigInteger.FromBytes(p);
    var q' := new BigInteger.FromBytes(q);
    var g' := new BigInteger.FromBytes(g);
    var x' := new BigInteger.FromBytes(x);
    var gMod :- g'.Mod(p');
    var xMod :- x'.Mod(q');
    if Value(q) > 1 {
      FirstSignatureReduced(HashValue(hashed, Value(q)), Value(g), Value(p), Value(q), Value(x),
                            Nonces(random, Value(q)));
    }
    var size := q'.ByteLength();
    var hash := new BigInteger.FromBytes(hashed[..Least(|hashed|, size)]);
    var h := hash.Mod(q');
    var parts :- SignLoop(h.value, gMod, p', q', xMod, random);
    if parts.None? { return Ok(None); }
    var r := new BigInteger(parts.value.r);
    var s := new BigInteger(parts.value.s);
    var rBytes := r.ToUint8Array(false, size);
    var sBytes := s.ToUint8Array(false, size);
    return Ok(Some((rBytes, sBytes)));
  }

  method SignLoop(h: BigInteger, g: BigInteger, p: BigInteger, q: BigInteger, x: BigInteger, random: seq<nat>)
      returns (sig: Result<Option<Parts>>)
    requires p.value > 0 && q.value > 0 && h.value >= 0 && g.value >= 0 && x.value >= 0
    ensures q.value == 1 ==> sig == if |random| > 0 then Err(DivisionByZero) else Ok(None)
    ensures q.value > 1 ==>
      sig == FirstSignature(h.value, g.value, p.value, q.value, x.value, Nonces(random, q.value))
  {
    hide TrySign, FirstSignature, Nonces;
    ghost var nonces := if q.value > 1 then Nonces(random, q.value) else [];
    ghost var goal := FirstSignature(h.value, g.value, p.value, q.value, x.value, nonces);
    assert nonces[0..] == nonces;
    var i := 0;
    while i < |random|
      invariant 0 <= i <= |random| && (q.value == 1 ==> i == 0)
      invariant q.value > 1 ==> goal == FirstSignature(h.value, g.value, p.value, q.value, x.value, nonces[i..])
    {
      var k :- DrawNonce(q, random, i);
      NextNonce(h.value, g.value, p.value, q.value, x.value, nonces, i);
      var parts :- SignWith(h, g, p, q, x, k);
      if parts.Some? { return Ok(parts); }
      i := i + 1;
    }
    NoNonces(h.value, g.value, p.value, q.value, x.value, nonces[i..]);
    return Ok(None);
  }

  method DrawNonce(q: BigInteger, random: seq<nat>, i: nat) returns (k: Result<BigInteger>)
    requires q.value > 0 && i < |random|
    ensures q.value == 1 ==> k == Err(DivisionByZero)
    ensures q.value > 1 ==>
      k.Ok? && fresh(k.value) && 1 <= k.value.value < q.value && k.value.value == Nonces(random, q.value)[i]
  {
    var one := new BigInteger(1);
    k := GetRandomBigInteger(one, q, random[i]);
  }

  lemma NextNonce(h: nat, g: nat, p: nat, q: nat, x: nat, nonces: seq<nat>, i: nat)
    requires p > 0 && q > 0 && i < |nonces|
    ensures FirstSignature(h, g, p, q, x, nonces[i..])
         == var t := TrySign(h, g, p, q, x, nonces[i]);
            if t == Ok(None) then FirstSignature(h, g, p, q, x, nonces[i + 1..]) else t
  {
    hide TrySign;
    assert nonces[i..][1..] == nonces[i + 1..];
  }

  lemma NoNonces(h: nat, g: nat, p: nat, q: nat, x: nat, nonces: seq<nat>)
    requires p > 0 && q > 0 && |nonces| == 0
    ensures FirstSignature(h, g, p, q, x, nonces) == Ok(None)
  {
  }

  /** One turn of the signing loop. */
  method SignWith(h: BigInteger, g: BigInteger, p: BigInteger, q: BigInteger, x: BigInteger, k: BigInteger)
      returns (sig: Result<Option<Parts>>)
    requires p.value > 0 && 1 <= k.value < q.value && h.value >= 0 && g.value >= 0 && x.value >= 0
    ensures sig == TrySign(h.value, g.value, p.value, q.value, x.value, k.value)
  {
    hide Gcd, Pow;
    var r := g.ModExp(k, p);
    var _ := r.value.Imod(q);
    if r.value.value == 0 { return Ok(None); }
    var xr := x.Times(r.value);
    MulNonNeg(x.value, r.value.value);
    ReducedSum(h.value, x.value, r.value.value, q.value);
    var _ := xr.Imod(q);
    var t := h.Add(xr);
    var _ := t.Imod(q);
    var s :- DivideBy(t, k, q);
    if s.value == 0 { return Ok(None); }
    return Ok(Some(Parts(r.value.value, s.value)));
  }

  /** t divided by k modulo q. */
  method DivideBy(t: BigInteger, k: BigInteger, q: BigInteger) returns (s: Result<BigInteger>)
    requires 1 <= k.value < q.value && 0 <= t.value < q.value
    ensures Gcd(k.value, q.value) != 1 ==> s == Err(InverseDoesNotExist)
    ensures Gcd(k.value, q.value) == 1 ==>
      s.Ok? && fresh(s.value) && s.value.value == Inverse(k.value, q.value) * t.value % q.value
  {
    hide Gcd;
    var i :- k.ModInv(q);
    InverseUnique(i.value, Inverse(k.value, q.value), k.value, q.value);
    i.Imul(t);
    var _ := i.Imod(q);
    return Ok(i);
  }

  method Verify(r: seq<byte>, s: seq<byte>, hashed: seq<byte>, g: seq<byte>, p: seq<byte>, q: seq<byte>, y: seq<byte>)
      returns (ok: Result<bool>)
    ensures ok == Verdict(Parts(Value(r), Value(s)), hashed, Value(g), Value(p), Value(q), Value(y))
  {
    hide Value, Holds, Gcd;
    var r' := new BigInteger.FromBytes(r);
    var s' := new BigInteger.FromBytes(s);
    var p' := new BigInteger.FromBytes(p);
    var q' := new BigInteger.FromBytes(q);
    var g' := new BigInteger.FromBytes(g);
    var y' := new BigInteger.FromBytes(y);
    if r'.value <= 0 || r'.value >= q'.value || s'.value <= 0 || s'.value >= q'.value { return Ok(false); }
    var size := q'.ByteLength();
    var h := new BigInteger.FromBytes(hashed[..Least(|hashed|, size)]);
    var _ := h.Imod(q');
    var w :- s'.ModInv(q');
    InverseUnique(w.value, Inverse(s'.value, q'.value), s'.value, q'.value);
    if w.value == 0 {
      ZeroNotInverse(s'.value, q'.value);
      return Ok(false);
    }
    var gMod :- g'.Mod(p');
    var yMod := y'.Mod(p');
    ok := VerifyEquation(r', s'.value, w, h, g'.value, gMod, p', q', y'.value, yMod.value);
  }

  /** Whether the equation holds, for the inverse w of s and the bases g and y reduced modulo p. */
  method VerifyEquation(r: BigInteger, ghost s: nat, w: BigInteger, h: BigInteger, ghost g: nat, gMod: BigInteger,
                        p: BigInteger, q: BigInteger, ghost y: nat, yMod: BigInteger) returns (ok: Result<bool>)
    requires p.value > 0 && h.value >= 0 && 0 < r.value < q.value && 0 < s < q.value
    requires gMod.value == g % p.value && yMod.value == y % p.value
    requires Gcd(s, q.value) == 1 && w.value == Inverse(s, q.value)
    ensures ok == Ok(Holds(Parts(r.value, s), h.value, g, p.value, q.value, y))
  {
    hide Gcd, Pow;
    var u1 := h.Times(w);
    MulNonNeg(h.value, w.value);
    var _ := u1.Imod(q);
    var u2 := r.Times(w);
    MulNonNeg(r.value, w.value);
    var _ := u2.Imod(q);
    ReducedBase(g, u1.value, p.value);
    ReducedBase(y, u2.value, p.value);
    var t1 := gMod.ModExp(u1, p);
    var t2 := yMod.ModExp(u2, p);
    var v := t1.value.Times(t2.value);
    var _ := v.Imod(p);
    var _ := v.Imod(q);
    return Ok(v.value == r.value);
  }

  lemma ZeroNotInverse(s: int, q: int)
    requires q > 1
    ensures !IsInverse(0, s, q)
  {
    ModSmall(1, q);
    ModSmall(0, q);
  }
}
