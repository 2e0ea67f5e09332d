/** RSA over BigIntegers: encryption, blinded decryption with the Chinese remainder theorem, signatures. */
module Rsa {
  import opened NumberTheory
  import opened Primes
  import opened Bytes
  import opened Results
  import opened BigIntegers
  import opened Pkcs1
  import opened Random

  /** The relations between the numbers of a key pair. */
  ghost predicate ValidKey(n: int, e: int, d: int, p: int, q: int, u: int) {
    && IsPrime(p) && IsPrime(q) && p > 2 && q > 2 && p != q && n == p * q
    && e >= 0 && d >= 0 && (e * d) % (p - 1) == 1 && (e * d) % (q - 1) == 1
    && u >= 0 && (p * u) % q == 1
  }

  // ---------------------------------------------------------------- arithmetic of the key

  lemma DistinctPrimes(p: int, q: int)
    requires IsPrime(p) && IsPrime(q) && p != q
    ensures p % q != 0
  {
    if p < q { ModSmall(p, q); }
  }

  /** Congruent modulo two distinct primes is congruent modulo their product. */
  lemma CongBoth(a: int, b: int, p: int, q: int)
    requires IsPrime(p) && IsPrime(q) && p != q
    requires Cong(a, b, p) && Cong(a, b, q)
    ensures p * q > 0 && Cong(a, b, p * q)
  {
    MulAtLeast(p, q);
    var k := CongElim(a, b, p);
    var l := CongElim(a, b, q);
    var j := CommonMultiple(k, p, l, q);
    CongIntro(a, b, p * q, j);
  }

  lemma CommonMultiple(k: int, p: int, l: int, q: int) returns (j: int)
    requires IsPrime(p) && IsPrime(q) && p != q && k * p == l * q
    ensures k * p == j * (p * q)
  {
    DivModUnique(k * p, q, l, 0);
    PrimeDividesProduct(k, p, q);
    DistinctPrimes(p, q);
    j := k / q;
    assert k == j * q;
    MulRegroup(j, q, p, 1);
  }

  /** Raising to e and then to d, modulo n, gives every number back. */
  lemma RsaIdentity(x: int, n: int, e: nat, d: nat, p: int, q: int, u: int)
    requires ValidKey(n, e, d, p, q, u)
    ensures n > 0 && e * d >= 0 && Cong(Pow(x, e * d), x, n)
  {
    FermatInverse(x, e, d, p);
    FermatInverse(x, e, d, q);
    CongBoth(Pow(x, e * d), x, p, q);
  }

  lemma EncryptThenDecrypt(m: nat, n: int, e: nat, d: nat, p: int, q: int, u: int)
    requires ValidKey(n, e, d, p, q, u) && m < n
    ensures Pow(Pow(m, e) % n, d) % n == m
    ensures Pow(Pow(m, d) % n, e) % n == m
  {
    RsaIdentity(m, n, e, d, p, q, u);
    ModSmall(m, n);
    CongMod(Pow(m, e), n);
    CongPow(Pow(m, e) % n, Pow(m, e), d, n);
    PowPow(m, e, d);
    CongMod(Pow(m, d), n);
    CongPow(Pow(m, d) % n, Pow(m, d), e, n);
    PowPow(m, d, e);
    assert d * e == e * d;
  }

  /** Garner's recombination: h * p + mp lies in [0, p * q) and has both residues. */
  lemma Recombination(mp: int, mq: int, u: int, p: int, q: int)
    requires p > 0 && q > 1 && 0 <= mp < p && 0 <= mq < q && (p * u) % q == 1
    ensures var h := (u * (mq - mp)) % q;
      && 0 <= h * p + mp < p * q
      && Cong(h * p + mp, mp, p)
      && Cong(h * p + mp, mq, q)
  {
    var x := mq - mp;
    var h := (u * x) % q;
    RecombinationRange(h, mp, p, q);
    CongIntro(h * p + mp, mp, p, h);
    CongMod(u * x, q);
    CoefficientCancels(h, u, x, p, q);
    CongAdd(h * p, x, mp, mp, q);
  }

  lemma RecombinationRange(h: int, mp: int, p: int, q: int)
    requires 0 <= mp < p && 0 <= h < q
    ensures 0 <= h * p + mp < p * q
  {
    MulNonNeg(h, p);
    MulMono(p, h, q - 1);
    assert p * (q - 1) == p * q - p;
  }

  lemma CoefficientCancels(h: int, u: int, x: int, p: int, q: int)
    requires q > 1 && (p * u) % q == 1 && Cong(h, u * x, q)
    ensures Cong(h * p, x, q)
  {
    CongMul(h, u * x, p, p, q);
    MulRegroup(u, x, p, 1);
    assert u * p * (x * 1) == (p * u) * x;
    ModSmall(1, q);
    CongMul(p * u, 1, x, x, q);
  }

  /** Exponents may be reduced modulo p - 1 unless the reduced exponent vanishes. */
  lemma ReducedPower(x: int, d: nat, e: nat, p: int)
    requires IsPrime(p) && p > 2 && (e * d) % (p - 1) == 1
    ensures Cong(Pow(x, d % (p - 1)), Pow(x, d), p)
  {
    var r := d % (p - 1);
    CongMod(d, p - 1);
    if x % p == 0 {
      if r == 0 {
        CongMul(e, e, d, 0, p - 1);
        ModSmall(0, p - 1);
        assert false;
      }
      assert d != 0;
      ModSmall(0, p);
      ZeroPower(x, r, p);
      ZeroPower(x, d, p);
    } else {
      FermatReduce(x, r, d, p);
    }
  }

  /** The two half-size powers of b and their recombination, for numbers that need not form a key. */
  function Combined(b: int, d: nat, p: int, q: int, u: int): int
    requires p > 1 && q > 1
  {
    var mp, mq := Pow(b, d % (p - 1)) % p, Pow(b, d % (q - 1)) % q;
    (u * (mq - mp)) % q * p + mp
  }

  /** What decryption raises: c times the e-th power of the inverse i of the blinding value. */
  function Blinded(c: int, i: int, e: nat, n: int): int
    requires n > 0
  {
    (c * (Pow(i, e) % n)) % n
  }

  /** The two half-size powers recombine to the full power. */
  lemma CrtPower(b: int, n: int, e: nat, d: nat, p: int, q: int, u: int)
    requires ValidKey(n, e, d, p, q, u)
    ensures n > 0 && Combined(b, d, p, q, u) == Pow(b, d) % n
  {
    var mp, mq := Pow(b, d % (p - 1)) % p, Pow(b, d % (q - 1)) % q;
    var r := Combined(b, d, p, q, u);
    Recombination(mp, mq, u, p, q);
    ReducedPower(b, d, e, p);
    ReducedPower(b, d, e, q);
    CongMod(Pow(b, d % (p - 1)), p);
    CongMod(Pow(b, d % (q - 1)), q);
    CongBoth(r, Pow(b, d), p, q);
    ModSmall(r, n);
  }

  /** Multiplying by the e-th power of an inverse before, and by the number after, cancels. */
  lemma BlindingCancels(c: int, s: int, i: int, n: int, e: nat, d: nat, p: int, q: int, u: int)
    requires ValidKey(n, e, d, p, q, u) && n > 0 && (s * i) % n == 1 % n
    ensures (Pow(Blinded(c, i, e, n), d) % n * s) % n == Pow(c, d) % n
  {
    var f := Pow(i, e);
    var b := Blinded(c, i, e, n);
    CongMod(f, n);
    CongMod(c * (f % n), n);
    CongMul(c, c, f % n, f, n);
    CongPow(b, c * f, d, n);
    PowMulBase(c, f, d);
    PowPow(i, e, d);
    RsaIdentity(i, n, e, d, p, q, u);
    CongMul(Pow(c, d), Pow(c, d), Pow(f, d), i, n);
    CongMod(Pow(b, d), n);
    CongMul(Pow(b, d) % n, Pow(c, d) * i, s, s, n);
    assert Pow(c, d) * i * s == Pow(c, d) * (s * i);
    CongMul(Pow(c, d), Pow(c, d), s * i, 1, n);
  }

  // ---------------------------------------------------------------- encryption

  /** The padded message, raised to e modulo n, in as many octets as n has. */
  function Encrypted(data: seq<byte>, n: nat, e: nat, ps: seq<byte>): Result<seq<byte>> {
    var m := Value([0, 2] + ps + [0] + data);
    if |data| > ByteLen(n) - 11 || n == 0 then Err(MessageTooLong)
    else Ok(Digits(Pow(m, e) % n, ByteLen(n)))
  }

  /** Textbook decryption: raise to d modulo n, then unpad. */
  function Decrypted(c: nat, n: nat, d: nat, randomPayload: Option<seq<byte>>): Result<seq<byte>>
    requires n > 0
  {
    Decoded(Digits(Pow(c, d) % n, ByteLen(n)), randomPayload)
  }

  /** A padded block is below the modulus because of its leading zero octet. */
  lemma BlockBelowModulus(b: seq<byte>, n: nat)
    requires |b| == ByteLen(n) && |b| > 1 && b[0] == 0
    ensures Value(b) < n
  {
    ValueLeadingZero(b);
  }

  method BnEncrypt(data: seq<byte>, n: seq<byte>, e: seq<byte>, ps: seq<byte>) returns (r: Result<seq<byte>>)
    requires |data| <= ByteLen(Value(n)) - 11 ==> |ps| == ByteLen(Value(n)) - |data| - 3 && 0 !in ps
    ensures r == Encrypted(data, Value(n), Value(e), ps)
  {
    var n' := new BigInteger.FromBytes(n);
    var k := n'.ByteLength();
    var padded :- EmeEncode(data, k, ps);
    var m := new BigInteger.FromBytes(padded);
    var e' := new BigInteger.FromBytes(e);
    BlockBelowModulus(padded, n'.value);
    if m.value >= n'.value { return Err(ExceedsModulus); }
    var c := m.ModExp(e', n');
    var out := c.value.ToUint8Array(false, k);
    return Ok(out);
  }

  /** Multiply c by the e-th power of the inverse of s; i is that inverse. */
  method Blind(c: BigInteger, s: BigInteger, e: BigInteger, n: BigInteger) returns (r: Result<BigInteger>, ghost i: int)
    requires s.value >= 0 && e.value >= 0 && n.value > 0
    ensures r.Ok? <==> Gcd(s.value, n.value) == 1
    ensures r.Err? ==> r.error == InverseDoesNotExist
    ensures r.Ok? ==> fresh(r.value) && IsInverse(i, s.value, n.value)
    ensures r.Ok? ==> r.value.value == Blinded(c.value, i, e.value, n.value) && r.value.value >= 0
  {
    i := 0;
    var inverse := s.ModInv(n);
    if inverse.Err? { return Err(inverse.error), 0; }
    i := inverse.value.value;
    var blinder := inverse.value.ModExp(e, n);
    var product := c.Times(blinder.value);
    r := product.Mod(n);
  }

  /** The private-key operation in two halves. */
  method CrtModExp(b: BigInteger, d: BigInteger, dp: BigInteger, dq: BigInteger, p: BigInteger, q: BigInteger,
                   u: BigInteger) returns (r: Result<BigInteger>)
    requires b.value >= 0 && d.value >= 0 && p.value >= 0 && p.value != 1 && q.value >= 0 && q.value != 1
    requires p.value > 1 ==> dp.value == d.value % (p.value - 1)
    requires q.value > 1 ==> dq.value == d.value % (q.value - 1)
    ensures p.value == 0 || q.value == 0 ==> r == Err(DivisionByZero)
    ensures p.value > 1 && q.value > 1 ==>
      r.Ok? && fresh(r.value) && r.value.value == Combined(b.value, d.value, p.value, q.value, u.value)
  {
    var mp :- b.ModExp(dp, p);
    var mq :- b.ModExp(dq, q);
    var diff := mq.Sub(mp);
    var scaled := u.Times(diff);
    var h := scaled.Mod(q);
    var result := h.value.Times(p);
    result.Iadd(mp);
    return Ok(result);
  }

  /** Blinded with i, raised in two halves, unblinded with s; i is the inverse of s. */
  function Unblinded(c: int, s: int, i: int, n: int, e: nat, d: nat, p: int, q: int, u: int): int
    requires n > 0 && p > 1 && q > 1
  {
    (Combined(Blinded(c, i, e, n), d, p, q, u) * s) % n
  }

  /** With a valid key this is the power c^d modulo n. */
  lemma UnblindedOfKey(c: nat, s: nat, i: int, n: int, e: nat, d: nat, p: int, q: int, u: int)
    requires ValidKey(n, e, d, p, q, u) && n > 0 && IsInverse(i, s, n)
    ensures Unblinded(c, s, i, n, e, d, p, q, u) == Pow(c, d) % n
  {
    CrtPower(Blinded(c, i, e, n), n, e, d, p, q, u);
    BlindingCancels(c, s, i, n, e, d, p, q, u);
  }

  /** The first error the private-key operation meets, whatever the numbers are. */
  function Failure(n: nat, p: nat, q: nat, random: nat): Option<Error> {
    if p == 1 || q == 1 then Some(DivisionByZero)
    else
      match Drawn(2, n, random)
      case Err(error) => Some(error)
      case Ok(s) =>
        DrawnInRange(2, n, random);
        if Gcd(s, n) != 1 then Some(InverseDoesNotExist)
        else if p == 0 || q == 0 then Some(DivisionByZero)
        else None
  }

  /** The blinding value, and what the operation computes with its inverse. */
  ghost predicate Computes(plain: int, c: int, n: int, e: nat, d: nat, p: int, q: int, u: int, random: nat)
    requires n > 0 && p > 1 && q > 1
  {
    Drawn(2, n, random).Ok? &&
    var s := Drawn(2, n, random).value;
    forall i :: IsInverse(i, s, n) ==> plain == Unblinded(c, s, i, n, e, d, p, q, u)
  }

  /** With a valid key a blinding value is drawn, and only one without an inverse is an error. */
  lemma FailureOfKey(n: int, e: int, d: int, p: int, q: int, u: int, random: nat)
    requires ValidKey(n, e, d, p, q, u)
    ensures n > 2 && Drawn(2, n, random) == Ok(2 + random % (n - 2))
    ensures var s := 2 + random % (n - 2);
      Failure(n, p, q, random) == if Gcd(s, n) == 1 then None else Some(InverseDoesNotExist)
  {
    hide Gcd, IsPrime;
    MulAtLeast(p, q);
  }

  /** Draw, blind, raise to d in two halves, unblind: the power c^d modulo n of a valid key. */
  method BlindedPower(c: BigInteger, n: BigInteger, e: BigInteger, d: BigInteger, p: BigInteger, q: BigInteger,
                      u: BigInteger, random: nat) returns (r: Result<BigInteger>)
    requires c.value >= 0 && e.value >= 0 && n.value > 0 && d.value >= 0 && p.value >= 0 && q.value >= 0
    ensures r.Ok? ==> fresh(r.value) && 0 <= r.value.value < n.value
    ensures r.Err? <==> Failure(n.value, p.value, q.value, random).Some?
    ensures r.Err? ==> Failure(n.value, p.value, q.value, random) == Some(r.error)
    ensures r.Ok? ==>
      Computes(r.value.value, c.value, n.value, e.value, d.value, p.value, q.value, u.value, random)
    ensures r.Ok? && ValidKey(n.value, e.value, d.value, p.value, q.value, u.value) ==>
      r.value.value == Pow(c.value, d.value) % n.value
  {
    hide Combined, Blinded, Pow, Gcd;
    var q1 := q.Dec();
    var dq :- d.Mod(q1);
    var p1 := p.Dec();
    var dp :- d.Mod(p1);
    var two := new BigInteger(2);
    var drawn :- GetRandomBigInteger(two, n, random);
    var reduced := drawn.Mod(n);
    var s := reduced.value;
    ModSmall(drawn.value, n.value);
    ghost var i;
    var blinded;
    blinded, i := Blind(c, s, e, n);
    if blinded.Err? { return Err(blinded.error); }
    var result :- CrtModExp(blinded.value, d, dp, dq, p, q, u);
    forall j | IsInverse(j, s.value, n.value) ensures j == i { InverseUnique(i, j, s.value, n.value); }
    if ValidKey(n.value, e.value, d.value, p.value, q.value, u.value) {
      UnblindedOfKey(c.value, s.value, i, n.value, e.value, d.value, p.value, q.value, u.value);
    }
    var unblinded := result.Times(s);
    r := unblinded.Mod(n);
  }

  /** Decryption with blinding and the two primes agrees with textbook decryption for every valid key. */
  method BnDecrypt(data: seq<byte>, n: seq<byte>, e: seq<byte>, d: seq<byte>, p: seq<byte>, q: seq<byte>, u: seq<byte>,
                   random: nat, randomPayload: Option<seq<byte>>) returns (r: Result<seq<byte>>)
    ensures Value(data) >= Value(n) ==> r == Err(ExceedsModulus)
    ensures Value(data) < Value(n) && ValidKey(Value(n), Value(e), Value(d), Value(p), Value(q), Value(u)) ==>
      Value(n) > 2 &&
      r == if Gcd(2 + random % (Value(n) - 2), Value(n)) == 1
           then Decrypted(Value(data), Value(n), Value(d), randomPayload)
           else Err(InverseDoesNotExist)
    ensures Value(data) < Value(n) ==>
      match Failure(Value(n), Value(p), Value(q), random)
      case Some(error) => r == Err(error)
      case None => exists plain: nat ::
        && Computes(plain, Value(data), Value(n), Value(e), Value(d), Value(p), Value(q), Value(u), random)
        && plain < Value(n) && r == Decoded(Digits(plain, ByteLen(Value(n))), randomPayload)
  {
    hide Combined, Blinded, Unblinded, Pow, Gcd, Decoded, Digits, Value, Computes;
    var c := new BigInteger.FromBytes(data);
    var n' := new BigInteger.FromBytes(n);
    var e' := new BigInteger.FromBytes(e);
    var d' := new BigInteger.FromBytes(d);
    var p' := new BigInteger.FromBytes(p);
    var q' := new BigInteger.FromBytes(q);
    var u' := new BigInteger.FromBytes(u);
    if c.value >= n'.value { return Err(ExceedsModulus); }
    if ValidKey(Value(n), Value(e), Value(d), Value(p), Value(q), Value(u)) {
      FailureOfKey(Value(n), Value(e), Value(d), Value(p), Value(q), Value(u), random);
    }
    var plain := BlindedPower(c, n', e', d', p', q', u', random);
    if plain.Err? { return Err(plain.error); }
    var k := n'.ByteLength();
    var block := plain.value.ToUint8Array(false, k);
    r := EmeDecode(block, randomPayload);
  }

  /** Decryption returns the encrypted message. */
  lemma RoundTrip(data: seq<byte>, ps: seq<byte>, n: nat, e: nat, d: nat, p: int, q: int, u: int,
                  randomPayload: Option<seq<byte>>)
    requires ValidKey(n, e, d, p, q, u)
    requires |data| <= ByteLen(n) - 11 && |ps| == ByteLen(n) - |data| - 3 && 0 !in ps
    ensures n > 0
    ensures var c := Encrypted(data, n, e, ps);
      c.Ok? && Value(c.value) < n && Decrypted(Value(c.value), n, d, randomPayload) == Ok(data)
  {
    var k := ByteLen(n);
    var em := [0, 2] + ps + [0] + data;
    assert IsEncoding(em, ps, data);
    BlockBelowModulus(em, n);
    var m := Value(em);
    PowNonNeg(m, e);
    var c := Pow(m, e) % n;
    DigitsRoundTrip(c, k);
    EncryptThenDecrypt(m, n, e, d, p, q, u);
    DigitsOfValue(em);
    UnpaddedIff(em, data);
  }

  // ---------------------------------------------------------------- signatures

  /** The padded hash, raised to d modulo n. */
  function Signature(algo: HashAlgorithm, hashed: seq<byte>, n: nat, d: nat): Result<seq<byte>> {
    var em := SignaturePadded(algo, hashed, ByteLen(n));
    if em.Err? then Err(em.error)
    else if n == 0 then Err(IntendedLengthTooShort)
    else Ok(Digits(Pow(Value(em.value), d) % n, ByteLen(n)))
  }

  method BnSign(algo: HashAlgorithm, n: seq<byte>, d: seq<byte>, hashed: seq<byte>) returns (r: Result<seq<byte>>)
    ensures r == Signature(algo, hashed, Value(n), Value(d))
  {
    var n' := new BigInteger.FromBytes(n);
    var k := n'.ByteLength();
    var em :- EmsaEncode(algo, hashed, k);
    var m := new BigInteger.FromBytes(em);
    var d' := new BigInteger.FromBytes(d);
    BlockBelowModulus(em, n'.value);
    if m.value >= n'.value { return Err(ExceedsModulus); }
    var c := m.ModExp(d', n');
    var out := c.value.ToUint8Array(false, k);
    return Ok(out);
  }

  method BnVerify(algo: HashAlgorithm, s: seq<byte>, n: seq<byte>, e: seq<byte>, hashed: seq<byte>)
    returns (r: Result<bool>)
    ensures Value(s) >= Value(n) ==> r == Err(ExceedsModulus)
    ensures Value(s) < Value(n) ==>
      var em := SignaturePadded(algo, hashed, ByteLen(Value(n)));
      r == if em.Err? then Err(em.error) else Ok(Pow(Value(s), Value(e)) % Value(n) == Value(em.value))
  {
    var n' := new BigInteger.FromBytes(n);
    var s' := new BigInteger.FromBytes(s);
    var e' := new BigInteger.FromBytes(e);
    if s'.value >= n'.value { return Err(ExceedsModulus); }
    var k := n'.ByteLength();
    var m := s'.ModExp(e', n');
    var em1 := m.value.ToUint8Array(false, k);
    var em2 :- EmsaEncode(algo, hashed, k);
    DigitsRoundTrip(m.value.value, k);
    DigitsOfValue(em2);
    return Ok(em1 == em2);
  }

  /** A number that verifies for one hash and algorithm verifies for no other. */
  lemma SignatureBinds(s: nat, n: nat, e: nat, a: HashAlgorithm, g: seq<byte>, b: HashAlgorithm, h: seq<byte>)
    requires n > 0 && (a != b || g != h)
    requires SignaturePadded(a, g, ByteLen(n)).Ok? && SignaturePadded(b, h, ByteLen(n)).Ok?
    requires Pow(s, e) % n == Value(SignaturePadded(a, g, ByteLen(n)).value)
    ensures Pow(s, e) % n != Value(SignaturePadded(b, h, ByteLen(n)).value)
  {
    hide Value, Pow, ByteLen, SignaturePadded;
    var x, y := SignaturePadded(a, g, ByteLen(n)).value, SignaturePadded(b, h, ByteLen(n)).value;
    PaddedLength(a, g, ByteLen(n));
    PaddedLength(b, h, ByteLen(n));
    DigitsOfValue(x);
    DigitsOfValue(y);
    if Value(x) == Value(y) { PaddingBinds(a, g, b, h, ByteLen(n)); }
  }

  lemma PaddedLength(algo: HashAlgorithm, hashed: seq<byte>, emLen: nat)
    requires SignaturePadded(algo, hashed, emLen).Ok?
    ensures |SignaturePadded(algo, hashed, emLen).value| == emLen
  {
  }

  /** Verification accepts a number below n exactly when it is the signature. */
  lemma VerifyAcceptsOnlySignature(algo: HashAlgorithm, hashed: seq<byte>, s: nat,
                                   n: nat, e: nat, d: nat, p: int, q: int, u: int)
    requires ValidKey(n, e, d, p, q, u) && s < n
    requires SignaturePadded(algo, hashed, ByteLen(n)).Ok?
    ensures Signature(algo, hashed, n, d).Ok?
    ensures Pow(s, e) % n == Value(SignaturePadded(algo, hashed, ByteLen(n)).value)
      <==> s == Value(Signature(algo, hashed, n, d).value)
  {
    var em := SignaturePadded(algo, hashed, ByteLen(n)).value;
    var m := Value(em);
    BlockBelowModulus(em, n);
    PowNonNeg(m, d);
    DigitsRoundTrip(Pow(m, d) % n, ByteLen(n));
    EncryptThenDecrypt(m, n, e, d, p, q, u);
    EncryptThenDecrypt(s, n, e, d, p, q, u);
  }

  // ---------------------------------------------------------------- key validation

  /** The blinded check of one exponent relation, with random factor r. */
  predicate BlindedCheck(r: int, e: int, d: int, p: int)
    requires p > 1
  {
    r * d * e % (p - 1) == r
  }

  /** The order of the checks, with the remainder by zero where a modulus vanishes. */
  function Validation(r: int, n: nat, e: nat, d: nat, p: nat, q: nat, u: nat): Result<bool> {
    if n != p * q then Ok(false)
    else if q == 0 then Err(DivisionByZero)
    else if p * u % q != 1 then Ok(false)
    else if p == 1 then Err(DivisionByZero)
    else
      FactorsAboveOne(p, q, u);
      Ok(BlindedCheck(r, e, d, p) && BlindedCheck(r, e, d, q))
  }

  lemma FactorsAboveOne(p: nat, q: nat, u: nat)
    requires q > 0 && p * u % q == 1
    ensures p > 0 && q > 1 && (IsPrime(q) ==> p != q)
  {
    if p == 0 { ModSmall(0 * u, q); }
    if p == q { DivModUnique(q * u, q, u, 0); }
  }

  /** The factor drawn from [2, 2^(k + 1)), where k is a third of the modulus' bits. */
  function RandomFactor(n: nat, random: nat): (r: nat)
    ensures r >= 2
  {
    var drawn := Drawn(2, Pow(2, BitLen(n) / 3 + 1), random);
    DrawnInRange(2, Pow(2, BitLen(n) / 3 + 1), random);
    if drawn.Ok? then drawn.value else 2
  }

  /** The factors that can be drawn are those from 2 to below twice 2 to a third of the modulus' bits. */
  lemma FactorIff(n: nat, k: nat)
    requires BitLen(n) >= 3
    ensures (exists random :: RandomFactor(n, random) == k) <==> 2 <= k < 2 * Pow(2, BitLen(n) / 3)
  {
    hide Pow, BitLen;
    var e := BitLen(n) / 3;
    PowPositive(2, e - 1);
    DoublePower(e);
    DrawnIff(2, Pow(2, e + 1), k);
    if 2 <= k < Pow(2, e + 1) {
      var random :| Drawn(2, Pow(2, e + 1), random) == Ok(k);
      assert RandomFactor(n, random) == k;
    }
    if random: nat :| RandomFactor(n, random) == k { DrawnInRange(2, Pow(2, e + 1), random); }
  }

  lemma DoublePower(e: nat)
    requires e > 0
    ensures Pow(2, e + 1) == 2 * Pow(2, e) && Pow(2, e) == 2 * Pow(2, e - 1)
  {
  }

  /** The range is empty only for moduli that fail anyway. */
  lemma FactorIsDrawn(n: nat, p: nat, q: nat, u: nat, random: nat)
    requires n == p * q && q > 0 && p * u % q == 1
    ensures p != 1 ==> Drawn(2, Pow(2, BitLen(n) / 3 + 1), random) == Ok(RandomFactor(n, random))
    ensures Drawn(2, Pow(2, BitLen(n) / 3 + 1), random).Err? ==>
      Drawn(2, Pow(2, BitLen(n) / 3 + 1), random) == Err(DivisionByZero)
  {
    FactorsAboveOne(p, q, u);
    Pow2Values();
    PowMonotone(2, 1, BitLen(n) / 3 + 1);
    if p != 1 {
      MulMono(p, 2, q);
      if BitLen(n) < 3 { PowMonotone(2, BitLen(n), 2); }
      PowMonotone(2, 2, BitLen(n) / 3 + 1);
    }
  }

  method ValidateParams(n: seq<byte>, e: seq<byte>, d: seq<byte>, p: seq<byte>, q: seq<byte>, u: seq<byte>, random: nat)
      returns (r: Result<bool>)
    ensures r == Validation(RandomFactor(Value(n), random), Value(n), Value(e), Value(d), Value(p), Value(q), Value(u))
  {
    hide Value, Pow, BitLen, RandomFactor, Drawn, BlindedCheck;
    var n' := new BigInteger.FromBytes(n);
    var p' := new BigInteger.FromBytes(p);
    var q' := new BigInteger.FromBytes(q);
    var pq := p'.Times(q');
    if pq.value != n'.value { return Ok(false); }
    var u' := new BigInteger.FromBytes(u);
    var pu := p'.Times(u');
    var one :- pu.Mod(q');
    if one.value != 1 { return Ok(false); }
    FactorsAboveOne(p'.value, q'.value, u'.value);
    var e' := new BigInteger.FromBytes(e);
    var d' := new BigInteger.FromBytes(d);
    FactorIsDrawn(n'.value, p'.value, q'.value, u'.value, random);
    var r' :- DrawFactor(n', random);
    var left :- LeavesRandom(r', d', e', p');
    if !left { return Ok(false); }
    r := LeavesRandom(r', d', e', q');
  }

  method DrawFactor(n: BigInteger, random: nat) returns (r: Result<BigInteger>)
    requires n.value >= 0
    ensures r.Ok? ==> fresh(r.value) && r.value.value == RandomFactor(n.value, random)
    ensures r.Err? ==> Drawn(2, Pow(2, BitLen(n.value) / 3 + 1), random) == Err(r.error)
  {
    hide BitLen, Drawn;
    var two := new BigInteger(2);
    var bits := n.BitLength();
    var max := two.LeftShift(bits / 3);
    assert Pow(2, bits / 3 + 1) == 2 * Pow(2, bits / 3);
    r := GetRandomBigInteger(two, max, random);
  }

  method LeavesRandom(random: BigInteger, d: BigInteger, e: BigInteger, p: BigInteger) returns (r: Result<bool>)
    ensures p.value == 1 ==> r == Err(DivisionByZero)
    ensures p.value > 1 ==> r == Ok(BlindedCheck(random.value, e.value, d.value, p.value))
  {
    var rd := random.Times(d);
    var rde := rd.Times(e);
    var p1 := p.Dec();
    var rest :- rde.Mod(p1);
    return Ok(rest.value == random.value);
  }

  /** The blinded check passes exactly for random factors below p - 1 whose multiple by de - 1 vanishes. */
  lemma BlindedCheckIff(r: int, e: int, d: int, p: int)
    requires p > 1 && r >= 0
    ensures BlindedCheck(r, e, d, p) <==> r < p - 1 && (r * (e * d - 1)) % (p - 1) == 0
  {
    var m := p - 1;
    var x := r * d * e;
    assert r * (e * d - 1) == x - r by {
      assert r * d * e == r * (d * e);
      assert d * e == e * d;
    }
    ModSmall(0, m);
    if BlindedCheck(r, e, d, p) {
      ModSmall(r, m);
      CongAdd(x, r, r, r, m);
    }
    if r < m && (x - r) % m == 0 {
      CongAdd(x - r, 0, r, r, m);
      ModSmall(r, m);
    }
  }

  /** For a factor below p - 1 and coprime to it, the check decides the exponent relation. */
  lemma BlindedCheckDecides(r: nat, e: int, d: int, p: int)
    requires p > 2 && r < p - 1 && Gcd(r, p - 1) == 1
    ensures BlindedCheck(r, e, d, p) <==> (e * d) % (p - 1) == 1
  {
    var m := p - 1;
    var y := e * d - 1;
    BlindedCheckIff(r, e, d, p);
    ModSmall(0, m);
    ModSmall(1, m);
    if (r * y) % m == 0 {
      var i := Inverse(r, m);
      CancelFactor(r, y, 0, i, m);
      CongAdd(y, 0, 1, 1, m);
    }
    if (e * d) % m == 1 {
      CongAdd(e * d, 1, 1, 1, m);
      CongMul(r, r, y, 0, m);
    }
  }

  predicate Inverses(e: int, d: int, p: int)
    requires p > 1
  {
    e * d % (p - 1) == 1
  }

  /**
   A random factor decides the exponent relation for all exponents exactly when it is below p - 1 and coprime to
   it.
   */
  lemma BlindedCheckDecidesIff(r: nat, p: int)
    requires p > 2
    ensures (forall e, d :: BlindedCheck(r, e, d, p) <==> Inverses(e, d, p)) <==> r < p - 1 && Gcd(r, p - 1) == 1
  {
    hide BlindedCheck;
    var m := p - 1;
    if r >= m {
      BlindedCheckIff(r, 1, 1, p);
      ModSmall(1, m);
      assert !BlindedCheck(r, 1, 1, p) && Inverses(1, 1, p);
    } else if Gcd(r, m) == 1 {
      forall e, d
        ensures BlindedCheck(r, e, d, p) <==> Inverses(e, d, p)
      {
        BlindedCheckDecides(r, e, d, p);
      }
    } else {
      var d := FalseInverse(r, p);
      assert BlindedCheck(r, 1, d, p) && !Inverses(1, d, p);
    }
  }

  /** With a common factor g, the check takes 1 + (p - 1) / g for an inverse of 1. */
  lemma FalseInverse(r: nat, p: int) returns (d: int)
    requires p > 2 && r < p - 1 && Gcd(r, p - 1) != 1
    ensures BlindedCheck(r, 1, d, p) && !Inverses(1, d, p)
  {
    hide BlindedCheck, Gcd;
    var m := p - 1;
    var g := Gcd(r, m);
    GcdIsGreatest(r, m);
    GcdNonZero(r, m);
    var k :| r == Mul(g, k);
    var l :| m == Mul(g, l);
    CofactorSmall(g, l, m);
    d := 1 + l;
    assert r * (1 * d - 1) == k * m by {
      MulRegroup(g, 1, k, l);
      assert r * l == (g * k) * l;
      assert k * m == k * (g * l);
    }
    DivModUnique(k * m, m, k, 0);
    BlindedCheckIff(r, 1, d, p);
    if d < m { ModSmall(d, m); } else { DivModUnique(d, m, 1, 0); }
  }

  lemma CofactorSmall(g: int, l: int, m: int)
    requires g > 1 && m > 1 && m == g * l
    ensures 1 <= l && l + 1 <= m
  {
    if l >= 1 {
      MulMono(l, 2, g);
    } else {
      MulNonNeg(g, -l);
    }
  }

  /** With a random factor that decides for both primes, validation accepts exactly the valid keys. */
  lemma ValidationDecides(r: nat, n: nat, e: nat, d: nat, p: nat, q: nat, u: nat)
    requires IsPrime(p) && IsPrime(q) && p > 2 && q > 2
    requires r < p - 1 && r < q - 1 && Gcd(r, p - 1) == 1 && Gcd(r, q - 1) == 1
    ensures Validation(r, n, e, d, p, q, u) == Ok(true) <==> ValidKey(n, e, d, p, q, u)
  {
    hide BlindedCheck, Gcd, IsPrime;
    BlindedCheckDecides(r, e, d, p);
    BlindedCheckDecides(r, e, d, q);
    if p * u % q == 1 { FactorsAboveOne(p, q, u); }
  }

  /** A random factor decides validity for all exponents exactly when it decides the relation for both primes. */
  lemma ValidationDecidesIff(r: nat, p: nat, q: nat, u: nat)
    requires IsPrime(p) && IsPrime(q) && p > 2 && q > 2 && p * u % q == 1
    ensures p * q >= 0
    ensures (forall e: nat, d: nat ::
               Validation(r, p * q, e, d, p, q, u) == Ok(true) <==> ValidKey(p * q, e, d, p, q, u))
         <==> r < p - 1 && r < q - 1 && Gcd(r, p - 1) == 1 && Gcd(r, q - 1) == 1
  {
    hide Validation, ValidKey, Gcd, IsPrime, Pow;
    MulNonNeg(p, q);
    if r >= p - 1 || r >= q - 1 {
      TrivialKeyRefused(r, p, q, u);
    } else if Gcd(r, p - 1) == 1 && Gcd(r, q - 1) == 1 {
      forall e: nat, d: nat
        ensures Validation(r, p * q, e, d, p, q, u) == Ok(true) <==> ValidKey(p * q, e, d, p, q, u)
      {
        ValidationDecides(r, p * q, e, d, p, q, u);
      }
    } else {
      var a := if Gcd(r, p - 1) != 1 then p - 1 else q - 1;
      GcdDivides(r, a);
      var d := FalseKeyAccepted(r, p, q, u, Gcd(r, a));
    }
  }

  /** Too large a factor refuses even exponents of 1. */
  lemma TrivialKeyRefused(r: nat, p: nat, q: nat, u: nat)
    requires IsPrime(p) && IsPrime(q) && p > 2 && q > 2 && p * u % q == 1 && (r >= p - 1 || r >= q - 1)
    ensures p * q >= 0 && ValidKey(p * q, 1, 1, p, q, u) && Validation(r, p * q, 1, 1, p, q, u) != Ok(true)
  {
    hide BlindedCheck, IsPrime;
    MulNonNeg(p, q);
    FactorsAboveOne(p, q, u);
    ModSmall(1, p - 1);
    ModSmall(1, q - 1);
    BlindedCheckIff(r, 1, 1, p);
    BlindedCheckIff(r, 1, 1, q);
  }

  ghost predicate MultipleOfBoth(m: int, a: int, b: int)
    requires a > 0 && b > 0
  {
    m > 0 && m % a == 0 && m % b == 0
  }

  /** Search down from a common multiple for the least. */
  lemma LeastCommonMultiple(a: int, b: int, from: int) returns (m: int)
    requires a > 0 && b > 0 && MultipleOfBoth(from, a, b)
    ensures MultipleOfBoth(m, a, b) && forall x :: 0 < x < m ==> !MultipleOfBoth(x, a, b)
    decreases from
  {
    if x :| 0 < x < from && MultipleOfBoth(x, a, b) {
      m := LeastCommonMultiple(a, b, x);
    } else {
      m := from;
    }
  }

  lemma GcdDivides(r: nat, a: int)
    requires a > 0
    ensures Gcd(r, a) > 0 && r % Gcd(r, a) == 0 && a % Gcd(r, a) == 0
  {
    hide Gcd;
    var g := Gcd(r, a);
    GcdIsGreatest(r, a);
    GcdNonZero(r, a);
    var k :| r == Mul(g, k);
    var l :| a == Mul(g, l);
    DivModUnique(r, g, k, 0);
    DivModUnique(a, g, l, 0);
  }

  /** With a common factor of r and one of the orders, exponents that are off by part of the least common multiple. */
  lemma FalseKeyAccepted(r: nat, p: nat, q: nat, u: nat, g: nat) returns (d: nat)
    requires IsPrime(p) && IsPrime(q) && p > 2 && q > 2 && p * u % q == 1 && r < p - 1 && r < q - 1
    requires g > 1 && r % g == 0 && ((p - 1) % g == 0 || (q - 1) % g == 0)
    ensures p * q >= 0 && Validation(r, p * q, 1, d, p, q, u) == Ok(true) && !ValidKey(p * q, 1, d, p, q, u)
  {
    hide BlindedCheck, IsPrime;
    MulNonNeg(p, q);
    FactorsAboveOne(p, q, u);
    var a, b := p - 1, q - 1;
    MulAtLeast(a, b);
    DivModUnique(a * b, a, b, 0);
    DivModUnique(a * b, b, a, 0);
    var m := LeastCommonMultiple(a, b, a * b);
    PartOfMultiple(m, g, r, a, b);
    var x := m / g;
    d := 1 + x;
    assert !MultipleOfBoth(x, a, b);
    BlindedCheckIff(r, 1, d, p);
    BlindedCheckIff(r, 1, d, q);
    OffByPart(x, a);
    OffByPart(x, b);
  }

  lemma PartOfMultiple(m: int, g: int, r: nat, a: int, b: int)
    requires a > 0 && b > 0 && MultipleOfBoth(m, a, b) && g > 1 && r % g == 0 && (a % g == 0 || b % g == 0)
    ensures 0 < m / g < m && (r * (m / g)) % a == 0 && (r * (m / g)) % b == 0
  {
    var c := if a % g == 0 then a else b;
    Quotient(m, c);
    MultipleOfMultiple(m / c, c, g);
    Quotient(m, g);
    Quotient(r, g);
    if m == 1 { ModSmall(1, g); }
    CofactorSmall(g, m / g, m);
    var x, k := m / g, r / g;
    assert r * x == k * m by { MulRegroup(g, k, 1, x); }
    MultipleOfMultiple(k, m, a);
    MultipleOfMultiple(k, m, b);
  }

  lemma Quotient(m: int, g: int)
    requires g > 0 && m % g == 0
    ensures m == g * (m / g) == m / g * g
  {
  }

  lemma MultipleOfMultiple(k: int, m: int, a: int)
    requires a > 0 && m % a == 0
    ensures (k * m) % a == 0
  {
    assert m == a * (m / a);
    MulRegroup(k, m / a, a, 1);
    DivModUnique(k * m, a, k * (m / a), 0);
  }

  /** 1 + x is 1 modulo a only for a multiple x of a. */
  lemma OffByPart(x: int, a: int)
    requires a > 1
    ensures (1 * (1 + x)) % a == 1 ==> x % a == 0
  {
    if (1 + x) % a == 1 { DivModUnique(x, a, (1 + x) / a, 0); }
  }

  /** Without coprimality it does not: 7 and 11 with ed = 16 pass with the factor 2, and 3 does not decrypt. */
  lemma BlindedCheckMisses()
    ensures IsPrime(7) && IsPrime(11) && 7 * 8 % 11 == 1
    ensures BlindedCheck(2, 2, 8, 7) && BlindedCheck(2, 2, 8, 11)
    ensures Pow(Pow(3, 2) % 77, 8) % 77 != 3
  {
    assert Pow(3, 2) == 9;
    assert Pow(9, 1) == 9 && Pow(9, 2) == 81;
    PowAdd(9, 2, 2);
    PowAdd(9, 4, 4);
    assert Pow(9, 4) == 6561 && Pow(9, 8) == 43046721;
  }
}
