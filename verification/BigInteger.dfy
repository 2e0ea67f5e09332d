/** The BigInteger wrapper: operations in place on a value, and the kernel loops. */
module BigIntegers {
  import opened NumberTheory
  import opened Bytes
  import opened Results

  // ---------------------------------------------------------------- the host's division

  function Abs(x: int): nat { if x < 0 then -x else x }

  /** BigInt division, which truncates toward zero. */
  function TruncDiv(a: int, b: int): int
    requires b != 0
  {
    if (a < 0) == (b < 0) then Abs(a) / Abs(b) else -(Abs(a) / Abs(b))
  }

  /** BigInt remainder, which takes the sign of the dividend. */
  function TruncMod(a: int, b: int): (r: int)
    requires b != 0
    ensures Abs(r) < Abs(b) && (a >= 0 ==> r >= 0) && (a <= 0 ==> r <= 0)
    ensures a >= 0 && b > 0 ==> r == a % b
  {
    RemainderRange(Abs(a), Abs(b));
    if a < 0 then -(Abs(a) % Abs(b)) else Abs(a) % Abs(b)
  }

  /** The modulus is added to a negative remainder; a negative modulus keeps it negative. */
  function Corrected(r: int, m: int): (c: int)
    requires Abs(r) < Abs(m)
    ensures if m > 0 then 0 <= c < m else 2 * m < c < -m
  {
    if r < 0 then r + m else r
  }

  lemma RemainderRange(a: int, b: int)
    requires b > 0
    ensures 0 <= a % b < b && (a == 0 ==> a % b == 0)
  {
    if a == 0 { ModSmall(0, b); }
  }

  lemma TruncDivMod(a: int, b: int)
    requires b != 0
    ensures a == b * TruncDiv(a, b) + TruncMod(a, b)
  {
    var A: int, B: int := Abs(a), Abs(b);
    var q, r := A / B, A % B;
    assert A == B * q + r;
    NegMul(B, q);
    if b > 0 {
      assert b == B;
    } else {
      assert b * q == -B * q;
      assert b * -q == -B * -q;
    }
  }

  lemma NegMul(a: int, b: int)
    ensures a * -b == -(a * b) && -a * b == -(a * b) && -a * -b == a * b
  {
  }

  lemma TruncModCong(a: int, m: int)
    requires m > 0
    ensures Cong(TruncMod(a, m), a, m)
    ensures TruncMod(a, m) < 0 ==> TruncMod(a, m) + m == a % m
    ensures TruncMod(a, m) >= 0 ==> TruncMod(a, m) == a % m
  {
    TruncDivMod(a, m);
    var q, r := TruncDiv(a, m), TruncMod(a, m);
    assert r == a + (-q) * m;
    CongIntro(r, a, m, -q);
    if r >= 0 {
      ModSmall(r, m);
    } else {
      CongIntro(r + m, r, m, 1);
      ModSmall(r + m, m);
    }
  }

  /** The truncated remainder is determined by the residue and the sign. */
  lemma TruncModUnique(a: int, r: int, m: int)
    requires m > 0 && Cong(r, a, m) && Abs(r) < m && (a >= 0 ==> r >= 0) && (a <= 0 ==> r <= 0)
    ensures r == TruncMod(a, m)
  {
    TruncModCong(a, m);
    if a >= 0 {
      ModSmall(r, m);
    } else if r == 0 {
      ModSmall(0, m);
    } else {
      CongIntro(r + m, r, m, 1);
      ModSmall(r + m, m);
    }
  }

  // ---------------------------------------------------------------- Euclid's algorithm on signed numbers

  /** The last number of Euclid's algorithm with truncated remainders; SignedGcdIs says what it is. */
  function SignedGcd(a: int, b: int): int
    decreases Abs(b)
  {
    if b == 0 then a else SignedGcd(b, TruncMod(a, b))
  }

  /** The number of divisions Euclid's algorithm takes. */
  function EuclidSteps(a: nat, b: nat): nat
    decreases b
  {
    if b == 0 then 0 else 1 + EuclidSteps(b, a % b)
  }

  /**
   It is the greatest common divisor, with the sign of the first number after an even count of steps and of the
   second after an odd one.
   */
  lemma {:induction false} SignedGcdIs(a: int, b: int)
    ensures var g: int := Gcd(Abs(a), Abs(b));
      SignedGcd(a, b) == if (if EuclidSteps(Abs(a), Abs(b)) % 2 == 0 then a < 0 else b < 0) then -g else g
    decreases Abs(b)
  {
    hide TruncMod;
    if b != 0 {
      var r := TruncMod(a, b);
      RemainderSize(a, b);
      SignedGcdIs(b, r);
      OtherParity(EuclidSteps(Abs(b), Abs(r)));
    }
  }

  lemma RemainderSize(a: int, b: int)
    requires b != 0
    ensures Abs(TruncMod(a, b)) == Abs(a) % Abs(b) && (TruncMod(a, b) < 0 <==> a < 0 && TruncMod(a, b) != 0)
  {
  }

  lemma OtherParity(k: nat)
    ensures (1 + k) % 2 == 0 <==> k % 2 == 1
  {
  }

  /** For natural numbers it is the greatest common divisor itself. */
  lemma SignedGcdOfNats(a: nat, b: nat)
    ensures SignedGcd(a, b) == Gcd(a, b)
  {
    SignedGcdIs(a, b);
  }

  // ---------------------------------------------------------------- bits

  function Assembled(high: int, bit: int, low: int, i: nat): int { (2 * high + bit) * Pow(2, i) + low }

  /** bit is the binary digit of v that has i digits below it. */
  ghost predicate IsBit(v: int, i: nat, bit: int) {
    0 <= bit < 2 && exists high, low :: v == Assembled(high, bit, low, i) && 0 <= low < Pow(2, i)
  }

  lemma BitByShifting(v: int, i: nat)
    ensures Pow(2, i) > 0 && IsBit(v, i, v / Pow(2, i) % 2)
  {
    PowPositive(2, i);
    var m := Pow(2, i);
    var q, r := v / m, v % m;
    hide Pow;
    assert v == m * q + r;
    assert 2 * (q / 2) + q % 2 == q;
    assert Assembled(q / 2, q % 2, r, i) == q * m + r;
  }

  /** A number has one bit at each place. */
  lemma BitUnique(v: int, i: nat, bit: int)
    requires IsBit(v, i, bit)
    ensures Pow(2, i) > 0 && bit == v / Pow(2, i) % 2
  {
    PowPositive(2, i);
    var high, low :| v == Assembled(high, bit, low, i) && 0 <= low < Pow(2, i);
    DivModUnique(v, Pow(2, i), 2 * high + bit, low);
    DivModUnique(2 * high + bit, 2, high, bit);
  }

  /** Zero has no bit set, at any place. */
  lemma ZeroBits(i: nat, bit: int)
    requires IsBit(0, i, bit)
    ensures bit == 0
  {
    BitUnique(0, i, bit);
    DivModUnique(0, Pow(2, i), 0, 0);
  }

  lemma {:induction false} HalfPower(b: int, e: nat)
    ensures Pow(b, e) == Pow(b * b, e / 2) * (if e % 2 == 1 then b else 1)
  {
    PowPow(b, 2, e / 2);
    assert Pow(b, 2) == b * Pow(b, 1) && Pow(b, 1) == b * Pow(b, 0);
    if e % 2 == 1 {
      PowAdd(b, 2 * (e / 2), 1);
    } else {
      assert e == 2 * (e / 2);
    }
  }

  lemma SignOfProduct(r: int, x: int, p: int, q: int)
    requires (p >= 0 ==> r >= 0) && (p <= 0 ==> r <= 0)
    requires (q >= 0 ==> x >= 0) && (q <= 0 ==> x <= 0)
    ensures (p * q >= 0 ==> r * x >= 0) && (p * q <= 0 ==> r * x <= 0)
  {
    if p == 0 || q == 0 {
    } else if (p > 0) == (q > 0) {
      assert p * q > 0;
      assert r * x >= 0;
    } else {
      assert p * q < 0;
      assert r * x <= 0;
    }
  }

  /** Shifting right twice shifts by the sum. */
  lemma ShiftShift(v: int, b: int, k: nat)
    requires b > 0
    ensures Pow(b, k) > 0 && Pow(b, k + 1) > 0 && v / Pow(b, k) / b == v / Pow(b, k + 1)
  {
    hide Pow;
    PowPositive(b, k);
    PowPositive(b, k + 1);
    DivDiv(v, Pow(b, k), b);
    PowAdd(b, k, 1);
    PowAdd(b, 0, 1);
    PowOfOne(b);
  }

  lemma PowOfOne(b: int)
    ensures Pow(b, 0) == 1 && Pow(b, 1) == b
  {
    assert Pow(b, 1) == b * Pow(b, 0);
  }

  class BigInteger {
    var value: int

    constructor (n: int)
      ensures value == n
    {
      value := n;
    }

    /** Two hexadecimal digits per octet, parsed as one number. */
    constructor FromBytes(bytes: seq<byte>)
      ensures value == Value(bytes)
    {
      var hex: seq<hexdigit> := [];
      var i := 0;
      while i < |bytes|
        invariant 0 <= i <= |bytes|
        invariant ParseHex(hex) == Value(bytes[..i])
      {
        var high: hexdigit, low: hexdigit := bytes[i] / 16, bytes[i] % 16;
        ParseHexPair(hex, high, low);
        hex := hex + [high, low];
        assert bytes[..i + 1][..i] == bytes[..i];
        i := i + 1;
      }
      assert bytes[..|bytes|] == bytes;
      ParseHexLeadingZero(hex);
      value := ParseHex([0] + hex);
    }

    method Clone() returns (r: BigInteger)
      ensures fresh(r) && r.value == value
    {
      r := new BigInteger(value);
    }

    // -------------------------------------------------------------- arithmetic in place

    method Idec()
      modifies this
      ensures value == old(value) - 1
    {
      value := value - 1;
    }

    method Iadd(x: BigInteger)
      modifies this
      ensures value == old(value) + old(x.value)
    {
      value := value + x.value;
    }

    method Isub(x: BigInteger)
      modifies this
      ensures value == old(value) - old(x.value)
    {
      value := value - x.value;
    }

    method Imul(x: BigInteger)
      modifies this
      ensures value == old(value) * old(x.value)
    {
      value := value * x.value;
    }

    /** Truncated remainder, corrected by one addition: the residue in [0, m) for m > 0. */
    method Imod(m: BigInteger) returns (r: Result<()>)
      modifies this
      ensures r.Ok? <==> old(m.value) != 0
      ensures r.Err? ==> r.error == DivisionByZero && value == old(value)
      ensures old(m.value) > 0 ==> value == old(value) % old(m.value)
      ensures old(m.value) < 0 ==> value == Corrected(TruncMod(old(value), old(m.value)), old(m.value))
    {
      if m.value == 0 { return Err(DivisionByZero); }
      if m.value > 0 { TruncModCong(value, m.value); }
      value := TruncMod(value, m.value);
      if value < 0 { Iadd(m); }
      return Ok(());
    }

    method IrightShift(x: nat)
      modifies this
      ensures Pow(2, x) > 0 && value == old(value) / Pow(2, x)
    {
      PowPositive(2, x);
      value := value / Pow(2, x);
    }

    // -------------------------------------------------------------- fresh results

    method Dec() returns (r: BigInteger)
      ensures fresh(r) && r.value == value - 1
    {
      r := Clone();
      r.Idec();
    }

    method Add(x: BigInteger) returns (r: BigInteger)
      ensures fresh(r) && r.value == value + x.value
    {
      r := Clone();
      r.Iadd(x);
    }

    method Sub(x: BigInteger) returns (r: BigInteger)
      ensures fresh(r) && r.value == value - x.value
    {
      r := Clone();
      r.Isub(x);
    }

    method Times(x: BigInteger) returns (r: BigInteger)
      ensures fresh(r) && r.value == value * x.value
    {
      r := Clone();
      r.Imul(x);
    }

    method Mod(m: BigInteger) returns (r: Result<BigInteger>)
      ensures r.Ok? <==> m.value != 0
      ensures r.Ok? ==> fresh(r.value) && (m.value > 0 ==> r.value.value == value % m.value)
      ensures m.value < 0 ==> r.value.value == Corrected(TruncMod(value, m.value), m.value)
      ensures r.Err? ==> r.error == DivisionByZero
    {
      var c := Clone();
      var o := c.Imod(m);
      return if o.Ok? then Ok(c) else Err(o.error);
    }

    method LeftShift(x: nat) returns (r: BigInteger)
      ensures fresh(r) && r.value == value * Pow(2, x)
    {
      r := Clone();
      r.value := r.value * Pow(2, x);
    }

    method RightShift(x: nat) returns (r: BigInteger)
      ensures fresh(r) && Pow(2, x) > 0 && r.value == value / Pow(2, x)
    {
      r := Clone();
      r.IrightShift(x);
    }

    predicate IsOne()
      reads this
    {
      value == 1
    }

    /** The i-th bit, counting from the least significant; negative numbers count as sign-extended. */
    method GetBit(i: nat) returns (bit: int)
      ensures IsBit(value, i, bit)
    {
      PowPositive(2, i);
      bit := if value / Pow(2, i) % 2 == 0 then 0 else 1;
      BitByShifting(value, i);
    }

    // -------------------------------------------------------------- kernel loops

    /** Square and multiply computes the truncated remainder of value^e, the residue for value >= 0. */
    method ModExp(e: BigInteger, n: BigInteger) returns (r: Result<BigInteger>)
      ensures n.value == 0 ==> r == Err(DivisionByZero)
      ensures n.value != 0 && n.value != 1 && e.value < 0 ==> r == Err(NegativeExponent)
      ensures n.value == 1 || (n.value != 0 && e.value >= 0) ==> r.Ok?
      ensures r.Ok? ==> fresh(r.value)
      ensures n.value == 1 ==> r.value.value == 0
      ensures n.value > 1 && e.value >= 0 ==> r.value.value == TruncMod(Pow(value, e.value), n.value)
      ensures n.value > 0 && e.value >= 0 && value >= 0 ==> r.value.value == Pow(value, e.value) % n.value
      ensures n.value < 0 && e.value >= 0 ==>
        r.value.value == if e.value == 0 then 1 else TruncMod(Pow(value, e.value), n.value)
    {
      if n.value == 0 { return Err(DivisionByZero); }
      if n.value == 1 {
        var zero := new BigInteger(0);
        return Ok(zero);
      }
      if e.value < 0 { return Err(NegativeExponent); }
      hide Tracks, Residue, TruncMod, Pow;
      var m := n.value;
      var exp := e.value;
      var x := TruncMod(value, m);
      var acc := 1;
      ghost var base, done := value, 1;
      TracksStart(value, m, exp);
      while exp > 0
        invariant exp >= 0 && m == n.value
        invariant done * Pow(base, exp) == Pow(value, e.value)
        invariant Tracks(x, base, acc, done, m, exp, e.value)
        decreases exp
      {
        TracksStep(x, base, acc, done, m, exp, e.value);
        var lsb := exp % 2;
        exp := exp / 2;
        var rx := TruncMod(acc * x, m);
        if lsb == 1 {
          acc := rx;
          done := done * base;
        }
        x := TruncMod(x * x, m);
        base := base * base;
      }
      TracksEnd(x, base, acc, done, value, m, e.value);
      var res := new BigInteger(acc);
      return Ok(res);
    }

    /** Extended Euclid: a Bezout combination of this and b that divides both. */
    method Egcd(b: BigInteger) returns (gcd: BigInteger, x: BigInteger, y: BigInteger)
      ensures fresh(gcd) && fresh(x) && fresh(y)
      ensures value * x.value + b.value * y.value == gcd.value
      ensures Divides(gcd.value, value) && Divides(gcd.value, b.value)
      ensures gcd.value == SignedGcd(value, b.value)
    {
      var x1, y1, xPrev, yPrev := 0, 1, 1, 0;
      var p, q := value, b.value;
      while q != 0
        invariant value * xPrev + b.value * yPrev == p
        invariant value * x1 + b.value * y1 == q
        invariant forall d :: Divides(d, p) && Divides(d, q) ==> Divides(d, value) && Divides(d, b.value)
        invariant SignedGcd(p, q) == SignedGcd(value, b.value)
        decreases Abs(q)
      {
        var k := TruncDiv(p, q);
        TruncDivMod(p, q);
        BezoutStep(value, b.value, xPrev, yPrev, x1, y1, p, q, k);
        DividesStep(p, q, TruncMod(p, q), k);
        xPrev, x1 := x1, xPrev - k * x1;
        yPrev, y1 := y1, yPrev - k * y1;
        p, q := q, TruncMod(p, q);
      }
      assert p == Mul(p, 1) && 0 == Mul(p, 0);
      x := new BigInteger(xPrev);
      y := new BigInteger(yPrev);
      gcd := new BigInteger(p);
    }

    /**
     The inverse modulo n of a number coprime to n, an error otherwise. A negative number also needs
     Euclid's algorithm to take an odd number of steps, for otherwise the divisor comes out as -1.
     */
    method ModInv(n: BigInteger) returns (r: Result<BigInteger>)
      ensures n.value > 0 && r.Ok? ==> fresh(r.value) && IsInverse(r.value.value, value, n.value)
      ensures n.value > 0 ==>
        (r.Ok? <==> Gcd(Abs(value), n.value) == 1 && (value >= 0 || EuclidSteps(Abs(value), n.value) % 2 == 1))
      ensures n.value > 0 && r.Err? ==> r.error == InverseDoesNotExist
      ensures n.value <= 0 ==> (r.Ok? <==> SignedGcd(value, n.value) == 1 && n.value != 0)
      ensures n.value < 0 && r.Ok? ==>
        fresh(r.value) && 2 * n.value < r.value.value < -n.value && Cong(value * r.value.value, 1, -n.value)
      ensures n.value <= 0 && r.Err? ==>
        r.error == if SignedGcd(value, n.value) != 1 then InverseDoesNotExist else DivisionByZero
    {
      var gcd, x, y := Egcd(n);
      SignedGcdIs(value, n.value);
      if !gcd.IsOne() { return Err(InverseDoesNotExist); }
      var s := x.Add(n);
      r := s.Mod(n);
      if n.value > 0 { InverseFromBezout(value, n.value, x.value, y.value); }
      if n.value < 0 { InverseModNegative(value, n.value, x.value, y.value); }
    }

    /** Euclid's algorithm without the coefficients. */
    method GcdWith(b: BigInteger) returns (gcd: BigInteger)
      ensures fresh(gcd) && gcd.value == SignedGcd(value, b.value)
      ensures value >= 0 && b.value >= 0 ==> gcd.value == Gcd(value, b.value)
    {
      if value >= 0 && b.value >= 0 { SignedGcdOfNats(value, b.value); }
      var p, q := value, b.value;
      while q != 0
        invariant SignedGcd(p, q) == SignedGcd(value, b.value)
        decreases Abs(q)
      {
        p, q := q, TruncMod(p, q);
      }
      gcd := new BigInteger(p);
    }

    /** The least len >= 1 whose shift leaves no bit but the sign. */
    method BitLength() returns (len: nat)
      ensures len >= 1 && Pow(2, len) > 0 && Pow(2, len - 1) > 0
      ensures value / Pow(2, len) == SignWord(value)
      ensures len > 1 ==> value / Pow(2, len - 1) != SignWord(value)
      ensures value >= 0 ==> len == BitLen(value)
    {
      len := Shifts(2);
      if value >= 0 {
        DivZeroIff(value, Pow(2, len));
        DivZeroIff(value, Pow(2, len - 1));
        BitLenUnique(value, len);
      }
    }

    /** The number of octets. */
    method ByteLength() returns (len: nat)
      ensures len >= 1 && Pow(256, len) > 0 && Pow(256, len - 1) > 0
      ensures value / Pow(256, len) == SignWord(value)
      ensures len > 1 ==> value / Pow(256, len - 1) != SignWord(value)
      ensures value >= 0 ==> len == ByteLen(value)
    {
      len := Shifts(256);
      if value >= 0 {
        DivZeroIff(value, Pow(256, len));
        DivZeroIff(value, Pow(256, len - 1));
        ByteLenUnique(value, len);
      }
    }

    /** The counting loop shared by the two lengths: shift by one digit of base b until only the sign is left. */
    method Shifts(b: int) returns (len: nat)
      requires b >= 2
      ensures len >= 1 && Pow(b, len) > 0 && Pow(b, len - 1) > 0
      ensures value / Pow(b, len) == SignWord(value)
      ensures len > 1 ==> value / Pow(b, len - 1) != SignWord(value)
    {
      len := 1;
      var tmp := value / b;
      FirstShift(value, b);
      while tmp != SignWord(value)
        invariant len >= 1 && Pow(b, len) > 0 && Pow(b, len - 1) > 0
        invariant tmp == value / Pow(b, len)
        invariant tmp < 0 <==> value < 0
        invariant len > 1 ==> value / Pow(b, len - 1) != SignWord(value)
        decreases Abs(tmp)
      {
        ShiftShift(value, b, len);
        ShiftShrinks(tmp, b);
        tmp := tmp / b;
        len := len + 1;
      }
    }

    /** Big-endian octets, or little-endian if so asked; a length of 0 stands for an absent length. */
    method ToUint8Array(littleEndian: bool, length: nat) returns (out: seq<byte>)
      requires value >= 0
      ensures var be := Digits(value, if length == 0 then ByteLen(value) else length);
        out == if littleEndian then Reverse(be) else be
    {
      hide Digits, EvenHex, HexPair, ByteLen, Reverse;
      var hex := EvenHex(value);
      EvenHexPairs(value);
      var rawLength := |hex| / 2;
      var size := if length == 0 then rawLength else length;
      var bytes := new byte[size](_ => 0);
      var offset := size - rawLength;
      ghost var be := Digits(value, size);
      ghost var raw := Digits(value, rawLength);
      var i := 0;
      while i < rawLength
        invariant 0 <= i <= rawLength
        invariant forall j :: 0 <= j < size ==>
          bytes[j] == if offset <= j < offset + i then raw[j - offset] else 0
      {
        // a store outside a typed array has no effect
        if 0 <= i + offset < size {
          bytes[i + offset] := HexPair(hex, i);
        }
        i := i + 1;
      }
      forall j | 0 <= j < size
        ensures bytes[j] == be[j]
      {
        DigitsAlign(value, rawLength, size, j);
      }
      assert bytes[..] == be;
      out := if littleEndian then Reverse(bytes[..]) else bytes[..];
    }
  }

  // ---------------------------------------------------------------- facts used by the loops

  /** r is the truncated residue of v modulo m. */
  ghost predicate Residue(r: int, v: int, m: int)
    requires m > 0
  {
    Cong(r, v, m) && Abs(r) < m && (v >= 0 ==> r >= 0) && (v <= 0 ==> r <= 0)
  }

  lemma ResidueMul(r: int, v: int, s: int, w: int, m: int)
    requires m > 0 && Residue(r, v, m) && Residue(s, w, m)
    ensures Residue(TruncMod(r * s, m), v * w, m)
  {
    CongMul(r, v, s, w, m);
    TruncModCong(r * s, m);
    SignOfProduct(r, s, v, w);
  }

  /** The sign of the divisor does not matter to the remainder. */
  lemma SameRemainder(a: int, m: int)
    requires m != 0
    ensures TruncMod(a, m) == TruncMod(a, Abs(m)) && (Abs(m) == 1 ==> TruncMod(a, m) == 0)
  {
  }

  /**
   The registers of square and multiply: x is the truncated residue of base, and acc of done. Modulo -1
   everything is 0, except that acc keeps its first value until a bit of the exponent is used.
   */
  ghost predicate Tracks(x: int, base: int, acc: int, done: int, m: int, exp: nat, e: nat)
    requires m != 0
  {
    if m == -1 then x == 0 && (if e == 0 then exp == 0 && acc == 1 else acc == 0 || (acc == 1 && exp > 0))
    else Abs(m) > 1 && Residue(x, base, Abs(m)) && Residue(acc, done, Abs(m))
  }

  lemma TracksStart(v: int, m: int, e: nat)
    requires m != 0 && m != 1
    ensures 1 * Pow(v, e) == Pow(v, e) && Tracks(TruncMod(v, m), v, 1, 1, m, e, e)
  {
    SameRemainder(v, m);
    if m != -1 {
      TruncModCong(v, Abs(m));
    }
  }

  lemma TracksStep(x: int, base: int, acc: int, done: int, m: int, exp: nat, e: nat)
    requires m != 0 && exp > 0 && Tracks(x, base, acc, done, m, exp, e)
    ensures var rx, xx := TruncMod(acc * x, m), TruncMod(x * x, m);
      if exp % 2 == 1 then
        && Tracks(xx, base * base, rx, done * base, m, exp / 2, e)
        && done * Pow(base, exp) == (done * base) * Pow(base * base, exp / 2)
      else
        && Tracks(xx, base * base, acc, done, m, exp / 2, e)
        && done * Pow(base, exp) == done * Pow(base * base, exp / 2)
  {
    hide Pow, TruncMod, Residue;
    SameRemainder(acc * x, m);
    SameRemainder(x * x, m);
    HalfPower(base, exp);
    MulAssoc(done, base, Pow(base * base, exp / 2));
    if m != -1 {
      ResidueMul(acc, done, x, base, Abs(m));
      ResidueMul(x, base, x, base, Abs(m));
    }
  }

  lemma TracksEnd(x: int, base: int, acc: int, done: int, v: int, m: int, e: nat)
    requires m != 0 && Tracks(x, base, acc, done, m, 0, e) && done * Pow(base, 0) == Pow(v, e)
    ensures m > 1 ==> acc == TruncMod(Pow(v, e), m)
    ensures m > 1 && v >= 0 ==> acc == Pow(v, e) % m
    ensures m < 0 ==> acc == if e == 0 then 1 else TruncMod(Pow(v, e), m)
  {
    hide TruncMod;
    assert Pow(base, 0) == 1 && Pow(v, 0) == 1;
    SameRemainder(done, m);
    if m != -1 {
      TruncModUnique(done, acc, Abs(m));
      if e == 0 { RemainderOfOne(m); }
      if m > 1 && v >= 0 {
        PowNonNeg(v, e);
        TruncModOfNat(done, m);
      }
    }
  }

  lemma RemainderOfOne(m: int)
    requires Abs(m) > 1
    ensures TruncMod(1, m) == 1
  {
    ModSmall(1, Abs(m));
  }

  lemma TruncModOfNat(a: nat, m: int)
    requires m > 0
    ensures TruncMod(a, m) == a % m
  {
  }

  lemma MulAssoc(a: int, b: int, c: int)
    ensures a * (c * b) == (a * b) * c
  {
  }

  lemma BezoutStep(a: int, b: int, xPrev: int, yPrev: int, x: int, y: int, p: int, q: int, k: int)
    requires a * xPrev + b * yPrev == p && a * x + b * y == q
    ensures a * (xPrev - k * x) + b * (yPrev - k * y) == p - q * k
  {
    assert a * (k * x) + b * (k * y) == k * (a * x + b * y);
  }

  lemma DividesStep(p: int, q: int, r: int, k: int)
    requires p == q * k + r
    ensures forall d :: Divides(d, q) && Divides(d, r) ==> Divides(d, p)
  {
    forall d | Divides(d, q) && Divides(d, r)
      ensures Divides(d, p)
    {
      DividesLinear(d, q, r, k, 1);
    }
  }

  /** A negative modulus leaves a number congruent to the inverse. */
  lemma InverseModNegative(v: int, n: int, x: int, y: int)
    requires n < 0 && v * x + n * y == 1
    ensures Cong(v * Corrected(TruncMod(x + n, n), n), 1, -n)
  {
    hide TruncMod, TruncDiv;
    TruncDivMod(x + n, n);
    var q, t := TruncDiv(x + n, n), TruncMod(x + n, n);
    var k := if t < 0 then 2 - q else 1 - q;
    var r := Corrected(t, n);
    assert r == x + k * n;
    assert v * r == v * x + v * k * n;
    CongIntro(v * r, 1, -n, y - v * k);
  }

  lemma InverseFromBezout(a: int, n: int, x: int, y: int)
    requires n > 0 && a * x + n * y == 1
    ensures IsInverse((x + n) % n, a, n)
  {
    CongIntro(x + n, x, n, 1);
    CongMod(x, n);
    CongMul(a, a, x % n, x, n);
    assert a * x == 1 + (-y) * n;
    CongIntro(a * x, 1, n, -y);
  }

  /** What is left of a number when all its magnitude has been shifted out. */
  function SignWord(v: int): int { if v < 0 then -1 else 0 }

  lemma ShiftShrinks(t: int, b: int)
    requires b >= 2
    ensures t / b < 0 <==> t < 0
    ensures t != SignWord(t) ==> Abs(t / b) < Abs(t)
  {
    QuotientShrinks(t, b, t / b, t % b);
  }

  lemma QuotientShrinks(t: int, b: int, q: int, r: int)
    requires b >= 2 && t == b * q + r && 0 <= r < b
    ensures q < 0 <==> t < 0
    ensures t != SignWord(t) ==> Abs(q) < Abs(t)
  {
    if q >= 0 {
      AtLeastDouble(b, q);
    } else {
      AtLeastDouble(b, -(q + 1));
      NegMul(b, -(q + 1));
      assert b * q == b * (q + 1) - b;
    }
  }

  lemma AtLeastDouble(b: int, u: nat)
    requires b >= 2
    ensures b * u >= 2 * u
  {
  }

  lemma FirstShift(v: int, b: int)
    requires b >= 2
    ensures Pow(b, 1) == b && Pow(b, 0) == 1 && (v / b < 0 <==> v < 0)
  {
    assert Pow(b, 1) == b * Pow(b, 0);
    ShiftShrinks(v, b);
  }

  lemma DivZeroIff(v: nat, m: int)
    requires m > 0
    ensures v / m == 0 <==> v < m
  {
    if v < m { DivModUnique(v, m, 0, v); }
    assert v == m * (v / m) + v % m;
  }

  function Reverse<T>(s: seq<T>): (r: seq<T>)
    ensures |r| == |s| && forall i :: 0 <= i < |s| ==> r[i] == s[|s| - 1 - i]
  {
    seq(|s|, i requires 0 <= i < |s| => s[|s| - 1 - i])
  }

  /** The low-order octets of a number are the same however many are written; the rest are zero. */
  lemma {:induction false} DigitsAlign(x: nat, k: nat, size: nat, j: int)
    requires k == ByteLen(x) && 0 <= j < size
    ensures Digits(x, size)[j] == if j >= size - k then Digits(x, k)[j - (size - k)] else 0
    decreases size
  {
    if j == size - 1 {
    } else if x < 256 {
      DigitsZero(size - 1, j);
    } else {
      DigitsAlign(x / 256, k - 1, size - 1, j);
    }
  }

  lemma {:induction false} DigitsZero(k: nat, j: int)
    requires 0 <= j < k
    ensures Digits(0, k)[j] == 0
  {
    if j < k - 1 { DigitsZero(k - 1, j); }
  }
}
