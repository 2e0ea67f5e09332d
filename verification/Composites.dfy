/** What Miller-Rabin answers for composite numbers: at most half of all bases let one pass. */
module Composites {
  import opened NumberTheory
  import opened Primes
  import opened Bytes
  import opened Results
  import opened BigIntegers
  import opened PrimeTests

  // ---------------------------------------------------------------- the strong test without its chain

  /** Where a power is 1 whose exponent halves on the way down from n - 1, the power to the half is 1 or -1. */
  ghost predicate RootsAreTrivial(n: int, a: nat)
    requires n > 2
  {
    forall j: nat, e: nat :: n == Halved(j, e) + 1 && DoublePower(a, e) % n == 1 ==>
      Pow(a, e) % n == 1 || Pow(a, e) % n == n - 1
  }

  function Halved(j: nat, e: nat): int { Pow(2, j) * (2 * e) }

  function DoublePower(a: nat, e: nat): int { Pow(a, 2 * e) }

  lemma NothingHalved(j: nat)
    ensures Halved(j, 0) == 0
  {
  }

  lemma OddHasTwo(n: int, s: nat, d: nat)
    requires n > 1 && n % 2 == 1 && OddPart(n, s, d)
    ensures s > 0
  {
    EvenMultiple(s, d);
  }

  lemma ChainAt(a: nat, d: nat, i: nat, n: int)
    requires n > 0
    ensures Pow(2, i) * d >= 0 && Pow(2, i + 1) * d == 2 * (Pow(2, i) * d)
    ensures Chain(a, d, i, n) == Pow(a, Pow(2, i) * d) % n
  {
    PowPositive(2, i);
    MulNonNeg(Pow(2, i), d);
    assert 2 * Pow(2, i) * d == 2 * (Pow(2, i) * d);
  }

  /** An exponent that doubles up to n - 1 stands on the chain. */
  lemma HalfOnChain(n: int, s: nat, d: nat, j: nat, e: nat) returns (i: nat)
    requires n > 2 && OddPart(n, s, d) && n - 1 == Halved(j, e)
    ensures i < s && e == Pow(2, i) * d
  {
    NothingHalved(j);
    var t, c := FindOddPart(e + 1);
    PowAdd(2, j + 1, t);
    var x, y, z := Pow(2, j), Pow(2, j + 1), Pow(2, t);
    assert y == 2 * x && n - 1 == x * (2 * e) && e == z * c;
    hide Pow;
    MulRegroup(x, 1, 2, e);
    MulRegroup(y, z, 1, c);
    SameOddPart(j + 1 + t, c, s, d);
    i := t;
  }

  lemma OnChain(n: int, s: nat, d: nat, i: nat)
    requires n > 2 && OddPart(n, s, d) && i < s
    ensures Pow(2, i) * d >= 0 && n - 1 == Halved(s - 1 - i, Pow(2, i) * d)
  {
    PowPositive(2, i);
    MulNonNeg(Pow(2, i), d);
    PowAdd(2, s - 1 - i, i + 1);
    var x, y, z := Pow(2, s - 1 - i), Pow(2, i), Pow(2, i + 1);
    assert z == 2 * y && x * z == Pow(2, s);
    hide Pow;
    MulRegroup(2, y, 1, d);
    MulRegroup(x, z, 1, d);
  }

  /** A step of the chain that reaches 1 from something else comes from -1, if the base passes. */
  lemma PassingChain(n: int, a: nat, s: nat, d: nat, i: nat)
    requires n > 2 && OddPart(n, s, d) && PassesChain(n, a, s, d) && i < s
    ensures Chain(a, d, i + 1, n) == 1 ==> Chain(a, d, i, n) == 1 || Chain(a, d, i, n) == n - 1
    ensures Chain(a, d, s, n) == 1
  {
    ChainStart(a, d, n);
    if Pow(a, d) % n == 1 {
      ChainStays(a, d, 0, i, n);
      ChainStays(a, d, 0, s, n);
    } else {
      var k :| 0 <= k < s && Chain(a, d, k, n) == n - 1;
      MinusOneSquared(a, d, k, n);
      ChainStays(a, d, k + 1, s, n);
      if i < k && Chain(a, d, i + 1, n) == 1 { ChainStays(a, d, i + 1, k, n); }
      if k < i { ChainStays(a, d, k + 1, i, n); }
    }
  }

  lemma MinusOneSquared(a: nat, d: nat, k: nat, n: int)
    requires n > 1 && Chain(a, d, k, n) == n - 1
    ensures Chain(a, d, k + 1, n) == 1
  {
    ChainStep(a, d, k, n);
    assert (n - 1) * (n - 1) == (n - 2) * n + 1;
    DivModUnique((n - 1) * (n - 1), n, n - 2, 1);
  }

  lemma {:induction false} TrivialDescent(n: int, a: nat, s: nat, d: nat, i: nat)
    requires n > 2 && OddPart(n, s, d) && RootsAreTrivial(n, a) && i <= s && Chain(a, d, i, n) == 1
    ensures PassesChain(n, a, s, d)
  {
    hide RootsAreTrivial, OddPart, Chain;
    ChainStart(a, d, n);
    if i > 0 {
      TrivialRoot(n, a, s, d, i - 1);
      if Chain(a, d, i - 1, n) == 1 { TrivialDescent(n, a, s, d, i - 1); }
    }
  }

  lemma TrivialRoot(n: int, a: nat, s: nat, d: nat, i: nat)
    requires n > 2 && OddPart(n, s, d) && RootsAreTrivial(n, a) && i < s && Chain(a, d, i + 1, n) == 1
    ensures Chain(a, d, i, n) == 1 || Chain(a, d, i, n) == n - 1
  {
    hide OddPart;
    OnChain(n, s, d, i);
    ChainAt(a, d, i, n);
    ChainAt(a, d, i + 1, n);
  }

  /** The strong test is Fermat's test, and that no root of 1 met on the way up to n - 1 is other than 1 and -1. */
  lemma StrongTestIff(n: int, a: nat)
    requires n > 2 && n % 2 == 1
    ensures StrongProbablePrime(n, a) <==> Pow(a, n - 1) % n == 1 && RootsAreTrivial(n, a)
  {
    hide RootsAreTrivial, PassesChain;
    var s, d := FindOddPart(n);
    OddHasTwo(n, s, d);
    StrongIffChain(n, a, s, d);
    ChainAt(a, d, s, n);
    if PassesChain(n, a, s, d) {
      PassingChain(n, a, s, d, 0);
      PassingRoots(n, a, s, d);
    }
    if Pow(a, n - 1) % n == 1 && RootsAreTrivial(n, a) { TrivialDescent(n, a, s, d, s); }
  }

  lemma PassingRoots(n: int, a: nat, s: nat, d: nat)
    requires n > 2 && OddPart(n, s, d) && PassesChain(n, a, s, d)
    ensures RootsAreTrivial(n, a)
  {
    hide PassesChain, OddPart, Chain;
    forall j: nat, e: nat | n == Halved(j, e) + 1 && DoublePower(a, e) % n == 1
      ensures Pow(a, e) % n == 1 || Pow(a, e) % n == n - 1
    {
      var i := HalfOnChain(n, s, d, j, e);
      ChainAt(a, d, i, n);
      ChainAt(a, d, i + 1, n);
      PassingChain(n, a, s, d, i);
    }
  }

  // ---------------------------------------------------------------- factors of a composite number

  /** A composite number is a prime times something above 1. */
  lemma PrimeFactor(n: int) returns (p: int, m: int)
    requires n > 1 && !IsPrime(n)
    ensures IsPrime(p) && m > 1 && n == p * m
  {
    p := LeastFactor(n);
    m := n / p;
    assert n == p * m + n % p;
    if m <= 1 { FactorAtMost(p, m); }
  }

  lemma LeastFactor(n: int) returns (p: int)
    requires n > 1 && !IsPrime(n)
    ensures 2 <= p < n && n % p == 0 && IsPrime(p)
  {
    var r :| 2 <= r < n && n % r == 0;
    p := 2;
    while n % p != 0
      invariant 2 <= p <= r && forall q :: 2 <= q < p ==> n % q != 0
      decreases n - p
    {
      p := p + 1;
    }
    forall q | 2 <= q < p
      ensures p % q != 0
    {
      if p % q == 0 { FactorOfFactor(n, p, n / p, q); }
    }
  }

  lemma FactorAtMost(p: int, m: int)
    requires p > 0 && m <= 1
    ensures p * m <= p
  {
    if m <= 0 { MulNonNeg(p, -m); }
  }

  lemma FactorOfFactor(n: int, p: int, m: int, q: int)
    requires p > 0 && n % p == 0 && m == n / p && q > 0 && p % q == 0
    ensures n % q == 0
  {
    assert n == p * m + n % p;
    assert p == q * (p / q);
    MulRegroup(p / q, q, m, 1);
    DivModUnique(n, q, p / q * m, 0);
  }

  lemma OddFactors(p: int, m: int)
    requires p > 1 && m > 1 && p * m % 2 == 1
    ensures p > 2 && m > 2
  {
    if p == 2 { DivModUnique(2 * m, 2, m, 0); }
    if m == 2 { DivModUnique(p * 2, 2, p, 0); }
  }

  // ---------------------------------------------------------------- a multiplier that makes passing bases fail

  function Shifted(a: int, w: int, n: int): int
    requires n > 0
  {
    (a * w) % n
  }

  /** w is invertible, and no base that passes is taken by it to one that passes. */
  ghost predicate Exposes(w: nat, v: nat, n: int)
    requires n > 2
  {
    && 1 <= w < n && Shifted(w, v, n) == 1
    && forall a: nat :: StrongProbablePrime(n, a) ==>
         Shifted(a, w, n) >= 0 && !StrongProbablePrime(n, Shifted(a, w, n))
  }

  lemma {:induction false} OnePlusPower(m: nat, e: nat, n: int)
    requires n > 0 && m * m % n == 0
    ensures Cong(Pow(1 + m, e), 1 + e * m, n)
  {
    if e > 0 {
      OnePlusPower(m, e - 1, n);
      CongMul(1 + m, 1 + m, Pow(1 + m, e - 1), 1 + (e - 1) * m, n);
      OnePlusStep(m, e - 1, n);
    }
  }

  lemma OnePlusStep(m: nat, k: nat, n: int)
    requires n > 0 && m * m % n == 0
    ensures Cong((1 + m) * (1 + k * m), 1 + (k + 1) * m, n)
  {
    var p, c, x := k * m, m * m, 1 + (k + 1) * m;
    OnePlusProduct(m, p);
    ShiftFactor(m, k);
    assert x == 1 + p + m;
    ModSmall(0, n);
    CongMul(k, k, c, 0, n);
    CongAdd(x, x, k * c, k * 0, n);
  }

  lemma OnePlusProduct(m: int, p: int)
    ensures (1 + m) * (1 + p) == 1 + p + m + m * p
  {
  }

  lemma ShiftFactor(m: int, k: int)
    ensures m * (k * m) == k * (m * m) && (k + 1) * m == k * m + m
  {
    MulRegroup(1, m, k, m);
    MulRegroup(k, 1, m, m);
  }

  /** Where the square of a prime divides n, 1 + n / p is no root of 1. */
  lemma SquareFactor(n: int, p: int, m: int) returns (w: nat, v: nat)
    requires n > 2 && n % 2 == 1 && p > 1 && m > 1 && n == p * m && m % p == 0
    ensures Exposes(w, v, n)
  {
    hide StrongProbablePrime, RootsAreTrivial, Pow;
    var k := m / p;
    SquareVanishes(n, p, m, k);
    w, v := 1 + m, n + 1 - m;
    assert (1 + m) * (n + 1 - m) == 1 + (1 + m) * n - m * m;
    assert (1 + m) * n - k * n == (1 + m - k) * n;
    DivModUnique(w * v, n, 1 + m - k, 1);
    NoRootOfOne(n, m);
    forall a: nat | StrongProbablePrime(n, a)
      ensures Shifted(a, w, n) >= 0 && !StrongProbablePrime(n, Shifted(a, w, n))
    {
      StrongTestIff(n, a);
      FermatFails(n, a, w);
    }
  }

  lemma SquareVanishes(n: int, p: int, m: int, k: int)
    requires p > 1 && m > 1 && n == p * m && m % p == 0 && k == m / p
    ensures n > 0 && m * m == k * n && m * m % n == 0 && 2 * m <= n
  {
    assert m == p * k;
    MulMono(m, 2, p);
    MulRegroup(p, k, m, 1);
    assert p * k * m == k * (p * m);
    DivModUnique(m * m, n, k, 0);
  }

  lemma NoRootOfOne(n: int, m: int)
    requires n > 2 && m > 1 && 2 * m <= n && m * m % n == 0
    ensures Pow(1 + m, n - 1) % n == n + 1 - m
  {
    hide Pow;
    OnePlusPower(m, n - 1, n);
    assert 1 + (n - 1) * m == (1 - m) + m * n;
    CongIntro(1 + (n - 1) * m, 1 - m, n, m);
    CongIntro(1 - m, n + 1 - m, n, -1);
    ModSmall(n + 1 - m, n);
  }

  lemma FermatFails(n: int, a: nat, w: nat)
    requires n > 2 && n % 2 == 1 && Pow(a, n - 1) % n == 1 && Pow(w, n - 1) % n != 1
    ensures Shifted(a, w, n) >= 0 && !StrongProbablePrime(n, Shifted(a, w, n))
  {
    hide StrongProbablePrime, RootsAreTrivial, Pow;
    var b := Shifted(a, w, n);
    StrongTestIff(n, b);
    ShiftedPower(a, w, n - 1, n);
    ModSmall(1, n);
    CongMul(Pow(a, n - 1), 1, Pow(w, n - 1), Pow(w, n - 1), n);
  }

  lemma ShiftedPower(a: int, w: int, e: nat, n: int)
    requires n > 0
    ensures Cong(Pow(Shifted(a, w, n), e), Pow(a, e) * Pow(w, e), n)
  {
    CongMod(a * w, n);
    CongPow(Shifted(a, w, n), a * w, e, n);
    PowMulBase(a, w, e);
  }

  // ---------------------------------------------------------------- two coprime factors

  /** The highest place of the chain where some base has -1; at place 0 the base -1 has. */
  lemma HighestMinusOne(n: int, s: nat, d: nat) returns (j: nat, b: nat)
    requires n > 2 && s > 0 && d % 2 == 1
    ensures j < s && Chain(b, d, j, n) == n - 1
    ensures forall i, a: nat :: j < i < s ==> Chain(a, d, i, n) != n - 1
  {
    MinusOneOdd(n, d);
    ChainStart(n - 1, d, n);
    j, b := 0, n - 1;
    var i := 1;
    while i < s
      invariant j < i <= s && Chain(b, d, j, n) == n - 1
      invariant forall k, a: nat :: j < k < i ==> Chain(a, d, k, n) != n - 1
    {
      if a: nat :| Chain(a, d, i, n) == n - 1 { j, b := i, a; }
      i := i + 1;
    }
  }

  lemma {:induction false} MinusOneOdd(n: int, d: nat)
    requires n > 1 && d % 2 == 1
    ensures Pow(n - 1, d) % n == n - 1
    decreases d
  {
    CongIntro(n - 1, -1, n, 1);
    CongPow(n - 1, -1, d, n);
    MinusOnePower(d);
    ModSmall(n - 1, n);
  }

  lemma {:induction false} MinusOnePower(d: nat)
    ensures Pow(-1, d) == if d % 2 == 1 then -1 else 1
  {
    if d > 0 { MinusOnePower(d - 1); }
  }

  /** A number with given residues modulo coprime numbers. */
  lemma Remainders(p: nat, m: nat, b: int) returns (w: nat)
    requires p > 0 && m > 0 && Gcd(p, m) == 1
    ensures p * m > 0 && w < p * m && Cong(w, b, p) && Cong(w, 1, m)
  {
    var x, y := Bezout(p, m);
    MulAtLeast(p, m);
    var z := b * (m * y) + p * x;
    w := z % (p * m);
    CongMod(z, p * m);
    CongFactor(w, z, p, m);
    assert m * p == p * m;
    CongFactor(w, z, m, p);
    BezoutResidues(p * x, m * y, b);
    OneLess(b, p, x);
    CongIntro(z, b, p, x - b * x);
    OneLess(b, m, y);
    CongIntro(z, 1, m, b * y - y);
  }

  lemma OneLess(b: int, p: int, x: int)
    ensures (b - 1) * (p * x) == (b * x - x) * p && -((b - 1) * (p * x)) == (x - b * x) * p
  {
    MulRegroup(b - 1, 1, p, x);
    Distribute(x, b, -1);
  }

  lemma BezoutResidues(u: int, v: int, b: int)
    requires u + v == 1
    ensures b * v + u == b - (b - 1) * u && b * v + u == 1 + (b - 1) * v
  {
    Distribute(b, u, v);
  }

  /** Up to the highest place with -1, a base that passes has 1 or -1 there. */
  lemma PassingAt(n: int, a: nat, s: nat, d: nat, j: nat)
    requires n > 2 && OddPart(n, s, d) && j < s && StrongProbablePrime(n, a)
    requires forall i, b: nat :: j < i < s ==> Chain(b, d, i, n) != n - 1
    ensures Chain(a, d, j, n) == 1 || Chain(a, d, j, n) == n - 1
  {
    StrongIffChain(n, a, s, d);
    ChainStart(a, d, n);
    if Pow(a, d) % n == 1 {
      ChainStays(a, d, 0, j, n);
    } else {
      var k :| 0 <= k < s && Chain(a, d, k, n) == n - 1;
      if k < j {
        MinusOneSquared(a, d, k, n);
        ChainStays(a, d, k + 1, j, n);
      }
    }
  }

  /** A number that is -1 modulo p and 1 modulo m is neither modulo their product. */
  lemma MixedSigns(x: int, p: int, m: int)
    requires p > 2 && m > 2 && Cong(x, -1, p) && Cong(x, 1, m)
    ensures p * m > 0 && !Cong(x, 1, p * m) && !Cong(x, -1, p * m)
  {
    MulAtLeast(p, m);
    ModSmall(1, p);
    ModSmall(1, m);
    CongIntro(-1, p - 1, p, -1);
    CongIntro(-1, m - 1, m, -1);
    ModSmall(p - 1, p);
    ModSmall(m - 1, m);
    if Cong(x, 1, p * m) { CongFactor(x, 1, p, m); }
    if Cong(x, -1, p * m) {
      assert m * p == p * m;
      CongFactor(x, -1, m, p);
    }
  }

  /** With a sign of its own, a base keeps another one from having a sign. */
  lemma SignsTaken(x: int, y: int, n: int)
    requires n > 2 && (Cong(x, 1, n) || Cong(x, -1, n)) && !Cong(y, 1, n) && !Cong(y, -1, n)
    ensures !Cong(x * y, 1, n) && !Cong(x * y, -1, n)
  {
    if Cong(x, 1, n) {
      CongMul(x, 1, y, y, n);
    } else {
      CongMul(x, -1, y, y, n);
      if Cong(x * y, 1, n) { CongMul(-1, -1, -1 * y, 1, n); }
      if Cong(x * y, -1, n) { CongMul(-1, -1, -1 * y, -1, n); }
    }
  }

  lemma CoprimeFactors(n: int, p: nat, m: nat) returns (w: nat, v: nat)
    requires n > 2 && n % 2 == 1 && n == p * m && p > 2 && m > 2 && Gcd(p, m) == 1
    ensures Exposes(w, v, n)
  {
    hide StrongProbablePrime, Pow, Chain, Gcd, OddPart;
    var s, d := FindOddPart(n);
    OddHasTwo(n, s, d);
    var j, b := HighestMinusOne(n, s, d);
    w := Remainders(p, m, b);
    ChainAt(b, d, j, n);
    var e := Pow(2, j) * d;
    MixedPower(w, b, e, p, m, n);
    MixedSigns(Pow(w, e), p, m);
    PositiveExponent(d, j);
    v := InverseByPower(w, e, p, m, n);
    forall a: nat | StrongProbablePrime(n, a)
      ensures Shifted(a, w, n) >= 0 && !StrongProbablePrime(n, Shifted(a, w, n))
    {
      SignsClash(n, a, w, s, d, j);
    }
    ModSmall(0, n);
  }

  lemma PositiveExponent(d: nat, j: nat)
    requires d > 0
    ensures Pow(2, j) * d > 0
  {
    PowPositive(2, j);
    MulAtLeast(Pow(2, j), d);
  }

  lemma SignsClash(n: int, a: nat, w: nat, s: nat, d: nat, j: nat)
    requires n > 2 && OddPart(n, s, d) && j < s && StrongProbablePrime(n, a)
    requires forall i, b: nat :: j < i < s ==> Chain(b, d, i, n) != n - 1
    requires Pow(2, j) * d >= 0 && !Cong(Pow(w, Pow(2, j) * d), 1, n) && !Cong(Pow(w, Pow(2, j) * d), -1, n)
    ensures Shifted(a, w, n) >= 0 && !StrongProbablePrime(n, Shifted(a, w, n))
  {
    hide StrongProbablePrime, Pow, Chain, OddPart;
    var e := Pow(2, j) * d;
    var c := Shifted(a, w, n);
    PassingAt(n, a, s, d, j);
    ChainAt(a, d, j, n);
    ChainAt(c, d, j, n);
    SignOf(Pow(a, e), n);
    SignsTaken(Pow(a, e), Pow(w, e), n);
    ShiftedPower(a, w, e, n);
    SignOf(Pow(c, e), n);
    if StrongProbablePrime(n, c) { PassingAt(n, c, s, d, j); }
  }

  lemma SignOf(x: int, n: int)
    requires n > 2
    ensures Cong(x, 1, n) <==> x % n == 1
    ensures Cong(x, -1, n) <==> x % n == n - 1
  {
    ModSmall(1, n);
    ModSmall(n - 1, n);
    CongIntro(-1, n - 1, n, -1);
  }

  lemma MixedPower(w: nat, b: nat, e: nat, p: int, m: int, n: int)
    requires p > 2 && m > 2 && n == p * m > 0 && Cong(w, b, p) && Cong(w, 1, m) && Pow(b, e) % n == n - 1
    ensures Cong(Pow(w, e), -1, p) && Cong(Pow(w, e), 1, m)
  {
    hide Pow;
    CongPow(w, b, e, p);
    MulAtLeast(p, m);
    if n <= 2 { assert false; }
    SignOf(Pow(b, e), n);
    CongFactor(Pow(b, e), -1, p, m);
    CongPow(w, 1, e, m);
    PowOne(e);
  }

  /** A number whose power is 1 modulo both factors has an inverse. */
  lemma InverseByPower(w: nat, e: nat, p: int, m: int, n: int) returns (v: nat)
    requires p > 2 && m > 2 && n == p * m > 2 && Gcd(p, m) == 1 && e > 0
    requires Cong(Pow(w, e), -1, p) && Cong(Pow(w, e), 1, m)
    ensures Shifted(w, v, n) == 1
  {
    hide Gcd;
    PowNonNeg(w, 2 * e - 1);
    v := Pow(w, 2 * e - 1);
    assert Pow(w, 2 * e) == w * v;
    PowAdd(w, e, e);
    CongMul(Pow(w, e), -1, Pow(w, e), -1, p);
    CongMul(Pow(w, e), 1, Pow(w, e), 1, m);
    CoprimeCong(w * v, p, m);
    ModSmall(1, n);
  }

  lemma Rotate(p: int, a: int, l: int, m: int)
    ensures (p * a) * (l * m) == (l * a) * (p * m) == (p * m) * (l * a)
    ensures (p * a) * (l * m) == (l * a) * (m * p)
  {
    MulRegroup(p, a, l, m);
    MulRegroup(l, a, p, m);
  }

  lemma CombineMultiples(y: int, u: int, v: int, f: int, g: int)
    requires u + v == 1 && y == f && y == g
    ensures y == u * f + v * g
  {
    Distribute(y, u, v);
  }

  lemma Recombined(y: int, p: int, m: int, k: int, l: int, a: int, b: int)
    requires y == k * p && y == l * m && p * a + m * b == 1
    ensures y == (l * a + k * b) * (p * m)
  {
    var u, v, f, g := p * a, m * b, l * m, k * p;
    Rotate(p, a, l, m);
    Rotate(m, b, k, p);
    CombineMultiples(y, u, v, f, g);
    AddMultiples(l * a, k * b, p * m);
  }

  lemma AddMultiples(c: int, d: int, n: int)
    ensures (c + d) * n == n * c + n * d == c * n + d * n
  {
  }

  lemma CoprimeCong(x: int, p: int, m: int)
    requires p > 0 && m > 0 && Gcd(p, m) == 1 && Cong(x, 1, p) && Cong(x, 1, m)
    ensures p * m > 0 && Cong(x, 1, p * m)
  {
    MulAtLeast(p, m);
    var k := CongElim(x, 1, p);
    var l := CongElim(x, 1, m);
    var a, b := Bezout(p, m);
    Recombined(x - 1, p, m, k, l, a, b);
    CongIntro(x, 1, p * m, l * a + k * b);
  }

  // ---------------------------------------------------------------- at most half of the bases

  lemma Multiplier(n: int) returns (w: nat, v: nat)
    requires n > 3 && n % 2 == 1 && !IsPrime(n)
    ensures Exposes(w, v, n)
  {
    hide IsPrime, Exposes, Gcd;
    var p, m := PrimeFactor(n);
    PrimeAboveOne(p);
    OddFactors(p, m);
    if m % p == 0 {
      w, v := SquareFactor(n, p, m);
    } else {
      PrimeCoprime(m, p);
      CoprimeSwap(m, p);
      w, v := CoprimeFactors(n, p, m);
    }
  }

  lemma CoprimeSwap(a: nat, b: nat)
    requires a > 0 && b > 0 && Gcd(a, b) == 1
    ensures Gcd(b, a) == 1
  {
    hide Gcd;
    CoprimeIff(a, b);
    CoprimeIff(b, a);
  }

  /** The bases below n that let it pass. */
  ghost function Passing(n: int): (s: set<int>)
    requires n > 2
    ensures forall a :: a in s <==> 1 <= a < n && StrongProbablePrime(n, a)
  {
    set a: int | 1 <= a < n && StrongProbablePrime(n, a)
  }

  lemma ShiftInjective(a: int, b: int, w: nat, v: nat, n: int)
    requires n > 2 && Shifted(w, v, n) == 1 && 0 <= a < n && 0 <= b < n && Shifted(a, w, n) == Shifted(b, w, n)
    ensures a == b
  {
    CongMul(a * w, b * w, v, v, n);
    MulRegroup(a, w, 1, v);
    MulRegroup(b, w, 1, v);
    ModSmall(1, n);
    CongMul(a, a, w * v, 1, n);
    CongMul(b, b, w * v, 1, n);
    ModSmall(a, n);
    ModSmall(b, n);
  }

  /** As many bases fail as pass, counted by the multiplier. */
  lemma {:induction false} FailingImage(n: int, w: nat, v: nat, s: set<int>) returns (t: set<int>)
    requires n > 2 && Exposes(w, v, n) && s <= Passing(n)
    ensures |t| == |s| && forall b :: b in t ==> exists a :: a in s && b == Shifted(a, w, n)
    decreases |s|
  {
    hide Exposes, Passing;
    if s == {} {
      t := {};
    } else {
      var a := Pick(s);
      t := FailingImage(n, w, v, s - {a});
      var b := Shifted(a, w, n);
      if b in t {
        var a' :| a' in s - {a} && b == Shifted(a', w, n);
        assert Shifted(w, v, n) == 1 by { Exposing(n, w, v, a); }
        ShiftInjective(a, a', w, v, n);
      }
      t := t + {b};
    }
  }

  lemma Exposing(n: int, w: nat, v: nat, a: int)
    requires n > 2 && Exposes(w, v, n) && a in Passing(n)
    ensures Shifted(w, v, n) == 1 && 1 <= Shifted(a, w, n) < n && Shifted(a, w, n) !in Passing(n)
  {
    var b := Shifted(a, w, n);
    if b == 0 {
      ModSmall(0, n);
      assert Shifted(0, w, n) == 0;
      ShiftInjective(a, 0, w, v, n);
    }
  }

  /** Of the n - 1 bases below an odd composite number, at most half let it pass. */
  lemma AtMostHalfPass(n: int)
    requires n > 3 && n % 2 == 1 && !IsPrime(n)
    ensures 2 * |Passing(n)| <= n - 1
  {
    hide Exposes, Passing, IsPrime;
    var w, v := Multiplier(n);
    var s := Passing(n);
    var t := FailingImage(n, w, v, s);
    forall b | b in t
      ensures b in Range(n - 1) && b !in s
    {
      var a :| a in s && b == Shifted(a, w, n);
      Exposing(n, w, v, a);
    }
    forall a | a in s ensures a in Range(n - 1) { assert 1 <= a < n; }
    RangeProduct(n - 1);
    assert |s + t| == |s| + |t|;
    SubsetNotLarger(s + t, Range(n - 1));
  }

  lemma SubsetNotLarger(s: set<int>, t: set<int>)
    requires s <= t
    ensures |s| <= |t|
  {
    assert t == s + (t - s);
  }

  /** The bases 1 and -1 let every odd number pass. */
  lemma TrivialBasesPass(n: int)
    requires n > 3 && n % 2 == 1
    ensures 1 in Passing(n) && n - 1 in Passing(n)
  {
    var s, d := FindOddPart(n);
    OddHasTwo(n, s, d);
    PowOne(d);
    ModSmall(1, n);
    StrongIffChain(n, 1, s, d);
    MinusOneOdd(n, d);
    ChainStart(n - 1, d, n);
    StrongIffChain(n, n - 1, s, d);
  }

  /** Of the n - 3 bases that can be drawn for an odd composite number, less than half let it pass. */
  lemma LessThanHalfDrawn(n: int)
    requires n > 3 && n % 2 == 1 && !IsPrime(n)
    ensures var drawn := set a | a in Passing(n) && 2 <= a < n - 1;
      2 * |drawn| < n - 3
  {
    hide Passing, IsPrime;
    AtMostHalfPass(n);
    TrivialBasesPass(n);
    var drawn := set a | a in Passing(n) && 2 <= a < n - 1;
    forall a | a in Passing(n) ensures a in drawn + {1, n - 1} { assert 1 <= a < n; }
    assert Passing(n) == drawn + {1, n - 1};
    assert |drawn + {1, n - 1}| == |drawn| + 2;
  }

  /** An odd composite number fails for a base that can be drawn and is coprime to it. */
  lemma WitnessExists(n: int) returns (a: nat)
    requires n > 3 && n % 2 == 1 && !IsPrime(n)
    ensures 2 <= a < n - 1 && Gcd(a, n) == 1 && !StrongProbablePrime(n, a)
  {
    hide IsPrime, StrongProbablePrime, Gcd;
    var w, v := Multiplier(n);
    TrivialBasesPass(n);
    Exposing(n, w, v, 1);
    ModSmall(w, n);
    assert Shifted(1, w, n) == w;
    a := w;
    ModSmall(1, n);
    CongMod(v, n);
    CongMul(w, w, v % n, v, n);
    assert IsInverse(v % n, w, n);
    InverseExistsIff(w, n);
  }

  // ---------------------------------------------------------------- the combined test

  ghost predicate Accepts(n: int, e: Option<int>, k: nat, random: nat -> nat) {
    Primality(n, e, k, random) == Ok(true)
  }

  function Nothing(i: nat): nat { 0 }

  /** A number above 3 is accepted whatever is drawn exactly if it is prime and n - 1 fits the exponent. */
  lemma TestDecidesIff(n: int, e: Option<int>, k: nat)
    requires n > 3
    ensures (forall random: nat -> nat :: Accepts(n, e, k, random))
         <==> IsPrime(n) && (e.Some? ==> SignedGcd(n - 1, e.value) == 1)
  {
    hide IsPrime, SignedGcd, Primality;
    if e.Some? && SignedGcd(n - 1, e.value) != 1 {
      var random: nat -> nat := Nothing;
      Refused(n, e, k, random);
      assert !Accepts(n, e, k, random);
    } else if IsPrime(n) {
      forall random: nat -> nat
        ensures Accepts(n, e, k, random)
      {
        PrimesAreAcceptedIff(n, e, k, random);
      }
    } else {
      var random := CompositeRejected(n, e, k);
      assert !Accepts(n, e, k, random);
    }
  }

  lemma Refused(n: int, e: Option<int>, k: nat, random: nat -> nat)
    requires e.Some? && SignedGcd(n - 1, e.value) != 1
    ensures Primality(n, e, k, random) == Ok(false)
  {
  }

  lemma CompositeRejected(n: int, e: Option<int>, k: nat) returns (random: nat -> nat)
    requires n > 3 && !IsPrime(n) && (e.Some? ==> SignedGcd(n - 1, e.value) == 1)
    ensures Primality(n, e, k, random) == Ok(false)
  {
    hide IsPrime, SignedGcd, StrongProbablePrime, Pow;
    random := Nothing;
    if n % 2 == 0 {
      FermatRejectsEven(n);
    } else {
      var a := WitnessExists(n);
      random := i => a - 2;
      ModSmall(a - 2, n - 3);
      assert DrawnBases(n, random)(0) == a;
    }
  }

  /** One round for each 48 bits, and at least one. */
  predicate RoundCount(r: nat, bits: nat) {
    if bits < 48 then r == 1 else 48 * r <= bits < 48 * (r + 1)
  }

  /** Each round has a base of its own, and there are as many as asked for. */
  lemma RoundsAsked(n: int, k: nat, r: nat, bases: nat -> nat)
    requires n > 1 && if k > 0 then r == k else RoundCount(r, BitLen(n))
    ensures PassesRounds(n, k, bases) <==> forall i :: 0 <= i < r ==> StrongProbablePrime(n, bases(i))
  {
    hide StrongProbablePrime, BitLen;
    if k == 0 && BitLen(n) >= 48 { DivModUnique(BitLen(n), 48, r, BitLen(n) - 48 * r); }
    if k == 0 && BitLen(n) < 48 { DivModUnique(BitLen(n), 48, 0, BitLen(n)); }
    assert r == Rounds(k, n);
  }
}
