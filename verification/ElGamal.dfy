/** ElGamal encryption of PKCS#1-padded messages. */
module ElGamal {
  import opened NumberTheory
  import opened Primes
  import opened Bytes
  import opened Results
  import opened BigIntegers
  import opened Pkcs1
  import opened Random

  /** The two ciphertext parts, each in as few octets as it needs. */
  function Encrypted(data: seq<byte>, p: nat, g: nat, y: nat, ps: seq<byte>, k: nat): Result<(seq<byte>, seq<byte>)> {
    if |data| > ByteLen(p) - 11 || p == 0 then Err(MessageTooLong)
    else
      var m := Value([0, 2] + ps + [0] + data);
      var c1, c2 := Pow(g, k) % p, (Pow(y, k) % p * m) % p;
      Ok((Digits(c1, ByteLen(c1)), Digits(c2, ByteLen(c2))))
  }

  /** The exponent drawn from [1, p - 1); moduli of one octet take no message, so nothing is drawn for them. */
  function Nonce(p: nat, random: nat): nat {
    if p > 2 then 1 + random % (p - 2) else 1
  }

  /** The exponents that can be drawn are those from 1 to p - 2. */
  lemma NonceIff(p: nat, k: nat)
    requires p > 2
    ensures (exists random: nat :: Nonce(p, random) == k) <==> 1 <= k < p - 1
  {
    if 1 <= k < p - 1 {
      ModSmall(k - 1, p - 2);
      assert Nonce(p, k - 1) == k;
    }
  }

  lemma LongModulus(p: nat)
    requires ByteLen(p) > 1
    ensures p > 2
  {
    PowMonotone(256, 1, ByteLen(p) - 1);
    Pow256Values();
  }

  method DrawNonce(p: BigInteger, random: nat) returns (k: BigInteger)
    requires p.value >= 0 && ByteLen(p.value) > 1
    ensures fresh(k) && p.value > 2 && k.value == Nonce(p.value, random)
  {
    LongModulus(p.value);
    var one := new BigInteger(1);
    var p1 := p.Dec();
    var drawn := GetRandomBigInteger(one, p1, random);
    k := drawn.value;
  }

  method Encrypt(data: seq<byte>, p: seq<byte>, g: seq<byte>, y: seq<byte>, ps: seq<byte>, random: nat)
      returns (r: Result<(seq<byte>, seq<byte>)>)
    requires |data| <= ByteLen(Value(p)) - 11 ==> |ps| == ByteLen(Value(p)) - |data| - 3 && 0 !in ps
    ensures r == Encrypted(data, Value(p), Value(g), Value(y), ps, Nonce(Value(p), random))
  {
    var p' := new BigInteger.FromBytes(p);
    var g' := new BigInteger.FromBytes(g);
    var y' := new BigInteger.FromBytes(y);
    var size := p'.ByteLength();
    var padded :- EmeEncode(data, size, ps);
    var m := new BigInteger.FromBytes(padded);
    var k := DrawNonce(p', random);
    ValueLeadingZero(padded);
    var c1 := g'.ModExp(k, p');
    var c2 := y'.ModExp(k, p');
    c2.value.Imul(m);
    var _ := c2.value.Imod(p');
    var out1 := c1.value.ToUint8Array(false, 0);
    var out2 := c2.value.ToUint8Array(false, 0);
    return Ok((out1, out2));
  }

  /** Divide the second part by the x-th power of the first, modulo p, and unpad. */
  ghost function Decrypted(c1: nat, c2: nat, p: nat, x: nat, randomPayload: Option<seq<byte>>): Result<seq<byte>>
    requires p > 0
  {
    PowNonNeg(c1, x);
    var t := Pow(c1, x) % p;
    if Gcd(t, p) == 1 then
      MulNonNeg(Inverse(t, p), c2);
      Decoded(Digits((Inverse(t, p) * c2) % p, ByteLen(p)), randomPayload)
    else
      Err(InverseDoesNotExist)
  }

  method Decrypt(c1: seq<byte>, c2: seq<byte>, p: seq<byte>, x: seq<byte>, randomPayload: Option<seq<byte>>)
      returns (r: Result<seq<byte>>)
    ensures Value(p) == 0 ==> r == Err(DivisionByZero)
    ensures Value(p) > 0 ==> r == Decrypted(Value(c1), Value(c2), Value(p), Value(x), randomPayload)
  {
    var c1' := new BigInteger.FromBytes(c1);
    var c2' := new BigInteger.FromBytes(c2);
    var p' := new BigInteger.FromBytes(p);
    var x' := new BigInteger.FromBytes(x);
    var t :- c1'.ModExp(x', p');
    var padded :- t.ModInv(p');
    InverseUnique(padded.value, Inverse(t.value, p'.value), t.value, p'.value);
    padded.Imul(c2');
    var _ := padded.Imod(p');
    var size := p'.ByteLength();
    var block := padded.ToUint8Array(false, size);
    r := EmeDecode(block, randomPayload);
  }

  lemma SharedSecret(p: int, g: int, y: int, x: nat, k: nat)
    requires p > 0 && Cong(y, Pow(g, x), p)
    ensures Cong(Pow(Pow(g, k) % p, x), Pow(y, k), p)
  {
    CongMod(Pow(g, k), p);
    CongPow(Pow(g, k) % p, Pow(g, k), x, p);
    CongPow(y, Pow(g, x), k, p);
    PowPow(g, k, x);
    PowPow(g, x, k);
    assert k * x == x * k;
  }

  lemma {:induction false} PowerNotZero(g: int, k: nat, p: int)
    requires IsPrime(p) && g % p != 0
    ensures Pow(g, k) % p != 0
  {
    if k == 0 {
      ModSmall(1, p);
    } else {
      PowerNotZero(g, k - 1, p);
      if Pow(g, k) % p == 0 { PrimeDividesProduct(g, Pow(g, k - 1), p); }
    }
  }

  lemma QuotientIsMessage(t: int, i: int, s: int, m: int, p: int)
    requires p > 0 && (t * i) % p == 1 % p && Cong(t, s, p) && 0 <= m < p
    ensures (i * ((s % p * m) % p)) % p == m
  {
    CongMod(s, p);
    CongMul(s % p, t, m, m, p);
    CongMod(s % p * m, p);
    CongMul(i, i, (s % p * m) % p, t * m, p);
    MulRegroup(i, 1, t, m);
    assert i * (t * m) == (t * i) * m;
    CongMul(t * i, 1, m, m, p);
    ModSmall(m, p);
  }

  /** The arithmetic of the round trip: the shared secret is invertible and divides out. */
  lemma SecretDividesOut(p: int, g: nat, y: nat, x: nat, k: nat, m: nat)
    requires IsPrime(p) && g % p != 0 && Cong(y, Pow(g, x), p) && m < p
    ensures var t := Pow(Pow(g, k) % p, x) % p;
      Gcd(t, p) == 1 && (Inverse(t, p) * ((Pow(y, k) % p * m) % p)) % p == m
  {
    var c1 := Pow(g, k) % p;
    var t := Pow(c1, x) % p;
    SharedSecret(p, g, y, x, k);
    PowerNotZero(g, k, p);
    ModSmall(c1, p);
    PowerNotZero(c1, x, p);
    ModSmall(t, p);
    PrimeCoprime(t, p);
    CongMod(Pow(c1, x), p);
    QuotientIsMessage(t, Inverse(t, p), Pow(y, k), m, p);
  }

  /** A ciphertext whose quotient is the padded block decrypts to the message. */
  lemma QuotientDecrypts(c1: nat, c2: nat, p: nat, x: nat, em: seq<byte>, data: seq<byte>, ps: seq<byte>,
                         randomPayload: Option<seq<byte>>)
    requires p > 0 && |em| == ByteLen(p) && IsEncoding(em, ps, data)
    requires var t := Pow(c1, x) % p; Gcd(t, p) == 1 && (Inverse(t, p) * c2) % p == Value(em)
    ensures Decrypted(c1, c2, p, x, randomPayload) == Ok(data)
  {
    DigitsOfValue(em);
    UnpaddedIff(em, data);
  }

  lemma PowersMeet(p: int, g: nat, k: nat, l: nat)
    requires IsPrime(p) && g % p != 0 && k <= l && Pow(g, k) % p == Pow(g, l) % p
    ensures Pow(g, l - k) % p == 1
  {
    hide Pow, IsPrime;
    PrimeAboveOne(p);
    var a, b := Pow(g, k), Pow(g, l - k);
    PowAdd(g, k, l - k);
    CongAdd(a * b, a, a, a, p);
    assert a * (b - 1) == a * b - a;
    ModSmall(0, p);
    PrimeDividesProduct(a, b - 1, p);
    PowerNotZero(g, k, p);
    CongAdd(b - 1, 0, 1, 1, p);
    ModSmall(1, p);
  }

  /** For a generator, the first part determines the nonce. */
  lemma NonceDetermined(p: int, g: nat, k: nat, l: nat)
    requires IsPrime(p) && g % p != 0 && (forall j :: 0 < j < p - 1 ==> Pow(g, j) % p != 1)
    requires 1 <= k < p - 1 && 1 <= l < p - 1 && Pow(g, k) % p == Pow(g, l) % p
    ensures k == l
  {
    hide Pow, IsPrime;
    if k < l { PowersMeet(p, g, k, l); }
    if l < k { PowersMeet(p, g, l, k); }
  }

  /** So two ciphertexts of different nonces differ. */
  lemma NoncesShow(data: seq<byte>, p: nat, g: nat, y: nat, ps: seq<byte>, k: nat, l: nat)
    requires IsPrime(p) && g % p != 0 && (forall j :: 0 < j < p - 1 ==> Pow(g, j) % p != 1)
    requires 1 <= k < p - 1 && 1 <= l < p - 1 && k != l && Encrypted(data, p, g, y, ps, k).Ok?
    ensures Encrypted(data, p, g, y, ps, k) != Encrypted(data, p, g, y, ps, l)
  {
    hide Pow, Value, Digits, IsPrime;
    var c, d := Pow(g, k) % p, Pow(g, l) % p;
    DigitsRoundTrip(c, ByteLen(c));
    DigitsRoundTrip(d, ByteLen(d));
    if c == d { NonceDetermined(p, g, k, l); }
  }

  /** Decryption returns the encrypted message, whatever the nonce. */
  lemma RoundTrip(data: seq<byte>, p: nat, g: nat, y: nat, x: nat, k: nat, ps: seq<byte>,
                  randomPayload: Option<seq<byte>>)
    requires IsPrime(p) && g % p != 0 && Cong(y, Pow(g, x), p)
    requires |data| <= ByteLen(p) - 11 && |ps| == ByteLen(p) - |data| - 3 && 0 !in ps
    ensures var c := Encrypted(data, p, g, y, ps, k);
      c.Ok? && Decrypted(Value(c.value.0), Value(c.value.1), p, x, randomPayload) == Ok(data)
  {
    hide Pow, Value, Digits, Decrypted, IsPrime, Gcd;
    var em := [0, 2] + ps + [0] + data;
    assert IsEncoding(em, ps, data);
    ValueLeadingZero(em);
    var m := Value(em);
    var c1, c2 := Pow(g, k) % p, (Pow(y, k) % p * m) % p;
    DigitsRoundTrip(c1, ByteLen(c1));
    DigitsRoundTrip(c2, ByteLen(c2));
    SecretDividesOut(p, g, y, x, k, m);
    QuotientDecrypts(c1, c2, p, x, em, data, ps, randomPayload);
  }
}
