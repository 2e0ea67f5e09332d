/** Probabilistic primality tests: Fermat's test and Miller-Rabin. */
module PrimeTests {
  import opened NumberTheory
  import opened Primes
  import opened Bytes
  import opened Results
  import opened BigIntegers
  import opened Random

  /** a^(2^i d) modulo n. */
  function Chain(a: nat, d: nat, i: nat, n: int): (x: nat)
    requires n > 0
  {
    PowPositive(2, i);
    MulNonNeg(Pow(2, i), d);
    Pow(a, Pow(2, i) * d) % n
  }

  /** n - 1 is 2^s times the odd number d. */
  predicate OddPart(n: int, s: nat, d: nat) {
    d % 2 == 1 && n - 1 == Pow(2, s) * d
  }

  /** n passes the strong test to base a: a^d is 1, or some square on the way to a^(n-1) is -1. */
  ghost predicate StrongProbablePrime(n: int, a: nat)
    requires n > 1
  {
    exists s: nat, d: nat :: OddPart(n, s, d) && PassesChain(n, a, s, d)
  }

  ghost predicate PassesChain(n: int, a: nat, s: nat, d: nat)
    requires n > 1
  {
    Pow(a, d) % n == 1 || exists i :: 0 <= i < s && Chain(a, d, i, n) == n - 1
  }

  lemma {:induction false} OddPartUnique(n: int, s: nat, d: nat, s': nat, d': nat)
    requires n > 1 && OddPart(n, s, d) && OddPart(n, s', d')
    ensures s == s' && d == d'
  {
    SameOddPart(s, d, s', d');
  }

  lemma {:induction false} SameOddPart(s: nat, d: nat, s': nat, d': nat)
    requires d % 2 == 1 && d' % 2 == 1 && Pow(2, s) * d == Pow(2, s') * d'
    ensures s == s' && d == d'
  {
    EvenMultiple(s, d);
    EvenMultiple(s', d');
    if s > 0 && s' > 0 {
      SameOddPart(s - 1, d, s' - 1, d');
    }
  }

  lemma EvenMultiple(s: nat, d: int)
    ensures s > 0 ==> Pow(2, s) * d == 2 * (Pow(2, s - 1) * d)
    ensures s == 0 ==> Pow(2, s) * d == d
  {
    if s > 0 { assert 2 * Pow(2, s - 1) * d == 2 * (Pow(2, s - 1) * d); }
  }

  lemma ChainStep(a: nat, d: nat, i: nat, n: int)
    requires n > 0
    ensures Chain(a, d, i + 1, n) == (Chain(a, d, i, n) * Chain(a, d, i, n)) % n
  {
    PowPositive(2, i);
    MulNonNeg(Pow(2, i), d);
    var e := Pow(2, i) * d;
    assert Pow(2, i + 1) * d == e + e;
    PowAdd(a, e, e);
    CongMod(Pow(a, e), n);
    CongMul(Pow(a, e) % n, Pow(a, e), Pow(a, e) % n, Pow(a, e), n);
  }

  lemma ChainStart(a: nat, d: nat, n: int)
    requires n > 0
    ensures Chain(a, d, 0, n) == Pow(a, d) % n
  {
  }

  /** Once the chain is at 1 it stays there. */
  lemma {:induction false} ChainStays(a: nat, d: nat, i: nat, j: nat, n: int)
    requires n > 1 && i <= j && Chain(a, d, i, n) == 1
    ensures Chain(a, d, j, n) == 1
  {
    if i < j {
      ChainStays(a, d, i, j - 1, n);
      ChainStep(a, d, j - 1, n);
      ModSmall(1, n);
    }
  }

  /** Modulo a prime, a chain that is at 1 either started there or came through -1. */
  lemma {:induction false} ChainDescends(a: nat, d: nat, i: nat, n: int)
    requires IsPrime(n) && n > 2 && Chain(a, d, i, n) == 1
    ensures Chain(a, d, 0, n) == 1 || exists j :: 0 <= j < i && Chain(a, d, j, n) == n - 1
  {
    if i > 0 {
      var x := Chain(a, d, i - 1, n);
      ChainStep(a, d, i - 1, n);
      SquareRootsOfOne(x, n);
      ModSmall(x, n);
      if x == 1 { ChainDescends(a, d, i - 1, n); }
    }
  }

  /** An odd prime passes the strong test to every base it does not divide, and to no other. */
  lemma StrongTestOfPrime(n: int, a: nat)
    requires IsPrime(n) && n > 2
    ensures StrongProbablePrime(n, a) <==> a % n != 0
  {
    assert n % 2 == 1;
    var s, d := FindOddPart(n);
    if a % n != 0 {
      Fermat(a, n);
      assert Chain(a, d, s, n) == 1;
      ChainDescends(a, d, s, n);
      ChainStart(a, d, n);
      assert PassesChain(n, a, s, d);
    } else {
      forall s: nat, d: nat | OddPart(n, s, d)
        ensures !PassesChain(n, a, s, d)
      {
        ZeroChain(n, a, d);
      }
    }
  }

  lemma ZeroChain(n: int, a: nat, d: nat)
    requires n > 2 && d % 2 == 1 && a % n == 0
    ensures Pow(a, d) % n != 1 && forall i: nat :: Chain(a, d, i, n) != n - 1
  {
    ModSmall(0, n);
    ZeroPower(a, d, n);
    forall i: nat
      ensures Chain(a, d, i, n) != n - 1
    {
      PowPositive(2, i);
      MulAtLeast(Pow(2, i), d);
      ZeroPower(a, Pow(2, i) * d, n);
    }
  }

  lemma FindOddPart(n: int) returns (s: nat, d: nat)
    requires n > 1
    ensures OddPart(n, s, d)
  {
    s, d := 0, n - 1;
    while d % 2 == 0
      invariant d > 0 && n - 1 == Pow(2, s) * d
      decreases d
    {
      assert Pow(2, s + 1) * (d / 2) == Pow(2, s) * (2 * (d / 2));
      s, d := s + 1, d / 2;
    }
  }

  // ---------------------------------------------------------------- the tests

  /** Fermat's test, to base 2 unless another one is given. */
  method FermatTest(n: BigInteger, b: Option<BigInteger>) returns (r: Result<bool>)
    ensures n.value == 0 ==> r == Err(DivisionByZero)
    ensures n.value < 0 ==> r == Err(NegativeExponent)
    ensures n.value == 1 ==> r == Ok(false)
    ensures n.value > 1 ==>
      var base := if b.Some? then b.value.value else 2;
      r == Ok(TruncMod(Pow(base, n.value - 1), n.value) == 1)
  {
    var base: BigInteger;
    if b.Some? { base := b.value; } else { base := new BigInteger(2); }
    var n1 := n.Dec();
    var x :- base.ModExp(n1, n);
    return Ok(x.IsOne());
  }

  /** For a natural base the truncated remainder is 1 exactly when the residue is. */
  lemma FermatOfNat(n: int, base: nat)
    requires n > 1
    ensures TruncMod(Pow(base, n - 1), n) == Pow(base, n - 1) % n
  {
    PowNonNeg(base, n - 1);
  }

  /** The number of rounds when none is asked for. */
  function Rounds(k: nat, n: nat): nat {
    if k > 0 then k else if BitLen(n) / 48 > 1 then BitLen(n) / 48 else 1
  }

  /**
   The power of two in n - 1, and n shifted right by it. For n = 1 there is no bit to find, and the loop has no
   end.
   */
  method SplitOddPart(n: BigInteger) returns (s: nat, d: BigInteger)
    requires n.value != 1
    ensures fresh(d)
    ensures n.value > 1 && n.value % 2 == 1 ==> s > 0 && d.value >= 0 && OddPart(n.value, s, d.value)
    ensures n.value % 2 == 0 ==> s == 0 && d.value == n.value
    ensures n.value < 0 ==> d.value < 0
  {
    hide Pow, IsBit;
    var n1 := n.Dec();
    s := 0;
    ghost var rest := n1.value;
    NoShift(rest);
    var bit := n1.GetBit(s);
    BitUnique(n1.value, s, bit);
    while bit == 0
      invariant n1.value == n.value - 1 && rest != 0
      invariant Pow(2, s) > 0 && n1.value == Pow(2, s) * rest && bit == rest % 2
      decreases Abs(rest)
    {
      s := s + 1;
      bit := n1.GetBit(s);
      BitUnique(n1.value, s, bit);
      HalveRest(n1.value, s - 1, rest);
      rest := rest / 2;
    }
    SplitFacts(n.value, s, rest);
    d := n.RightShift(s);
  }

  lemma NoShift(v: int)
    ensures Pow(2, 0) == 1 && v == Pow(2, 0) * v && v / Pow(2, 0) == v
  {
    DivModUnique(v, Pow(2, 0), v, 0);
  }

  lemma SplitFacts(n: int, s: nat, rest: int)
    requires n - 1 == Pow(2, s) * rest && rest % 2 == 1
    ensures s > 0 <==> n % 2 == 1
    ensures Pow(2, s) > 0 && (n % 2 == 1 ==> n / Pow(2, s) == rest) && (s == 0 ==> n / Pow(2, s) == n)
    ensures (n > 1 ==> rest > 0) && (n < 0 ==> n / Pow(2, s) < 0)
  {
    PowPositive(2, s);
    SignOfFactor(Pow(2, s), rest);
    if s > 0 {
      PowPositive(2, s - 1);
      OddAbove(n, Pow(2, s - 1), rest);
    } else {
      assert Pow(2, 0) == 1;
      DivModUnique(n, 1, n, 0);
      EvenAbove(n, rest);
    }
  }

  lemma OddAbove(n: int, half: int, rest: int)
    requires half > 0 && n - 1 == (2 * half) * rest
    ensures n % 2 == 1 && n / (2 * half) == rest
  {
    MulRegroup(2, half, 1, rest);
    DivModUnique(n, 2, half * rest, 1);
    DivModUnique(n, 2 * half, rest, 1);
  }

  lemma EvenAbove(n: int, rest: int)
    requires n - 1 == rest && rest % 2 == 1
    ensures n % 2 == 0
  {
  }

  lemma SignOfFactor(m: int, rest: int)
    requires m > 0
    ensures (m * rest > 0 ==> rest > 0) && (m * rest < 0 ==> rest < 0)
  {
    if rest > 0 { MulAtLeast(m, rest); }
    if rest < 0 { MulAtLeast(m, -rest); }
  }

  lemma HalveRest(v: int, s: nat, rest: int)
    requires v == Pow(2, s) * rest && Pow(2, s) > 0 && rest % 2 == 0 && rest != 0
    ensures Pow(2, s + 1) > 0 && v == Pow(2, s + 1) * (rest / 2) && v / Pow(2, s + 1) == rest / 2
    ensures rest / 2 != 0 && Abs(rest / 2) < Abs(rest)
  {
    PowPositive(2, s + 1);
    assert Pow(2, s + 1) * (rest / 2) == Pow(2, s) * (2 * (rest / 2));
    DivModUnique(v, Pow(2, s + 1), rest / 2, 0);
  }

  /** One round of Miller-Rabin to base a. */
  method Round(n: BigInteger, n1: BigInteger, s: nat, d: BigInteger, a: BigInteger) returns (passes: Result<bool>)
    requires n1.value == n.value - 1 && n.value != 1 && a.value >= 0
    requires if n.value > 0 then d.value >= 0 else n.value < 0 ==> d.value < 0
    ensures n.value == 0 ==> passes == Err(DivisionByZero)
    ensures n.value < 0 ==> passes == Err(NegativeExponent)
    ensures n.value > 1 ==> passes.Ok?
    ensures n.value > 2 && s > 0 ==> (passes.value <==> PassesChain(n.value, a.value, s, d.value))
    ensures n.value > 1 && s == 0 ==> passes.value
  {
    hide Chain;
    var x :- a.ModExp(d, n);
    ghost var m, e, b := n.value, d.value, a.value;
    ChainStart(b, e, m);
    if x.IsOne() || x.value == n1.value { return Ok(true); }
    var i := 1;
    while i < s
      invariant fresh(x)
      invariant n.value == m && n1.value == m - 1 && d.value == e
      invariant 1 <= i && (i <= s || i == 1)
      invariant x.value == Chain(b, e, i - 1, m) && x.value != 1
      invariant forall j :: 0 <= j < i ==> Chain(b, e, j, m) != m - 1
    {
      ChainStep(b, e, i - 1, m);
      var square := x.Times(x);
      var reduced := square.Mod(n);
      x := reduced.value;
      if x.IsOne() {
        forall j | i <= j < s
          ensures Chain(b, e, j, m) == 1
        {
          ChainStays(b, e, i, j, m);
        }
        return Ok(false);
      }
      if x.value == n1.value { break; }
      i := i + 1;
    }
    return Ok(i != s);
  }

  /** The bases drawn from [2, n - 1), when the octets drawn in turn i spell random(i). */
  function DrawnBases(n: int, random: nat -> nat): nat -> nat
    requires n > 3
  {
    i => 2 + random(i) % (n - 3)
  }

  /** The base of turn i, from the generator given or at random. */
  method NextBase(n1: BigInteger, rand: Option<nat -> nat>, random: nat -> nat, i: nat)
      returns (a: Result<BigInteger>)
    ensures a.Ok? ==> fresh(a.value) && a.value.value >= 0
    ensures rand.None? && n1.value < 2 ==> a == Err(IllegalRange)
    ensures rand.None? && n1.value == 2 ==> a == Err(DivisionByZero)
    ensures rand.Some? || n1.value > 2 ==> a.Ok? && a.value.value == BasesOf(n1.value + 1, rand, random)(i)
  {
    if rand.Some? {
      var b := new BigInteger(rand.value(i));
      return Ok(b);
    }
    var two := new BigInteger(2);
    a := GetRandomBigInteger(two, n1, random(i));
  }

  /** Rounds of the strong test. Without a generator, two and three have no base to draw. */
  method MillerRabin(n: BigInteger, k: nat, rand: Option<nat -> nat>, random: nat -> nat) returns (r: Result<bool>)
    requires n.value != 1
    ensures rand.None? && n.value < 3 ==> r == Err(IllegalRange)
    ensures rand.None? && n.value == 3 ==> r == Err(DivisionByZero)
    ensures rand.Some? && n.value == 0 ==> r == Err(DivisionByZero)
    ensures rand.Some? && n.value < 0 ==> r == Err(NegativeExponent)
    ensures n.value > (if rand.Some? then 1 else 3) ==>
      r == Ok(n.value % 2 == 0 || PassesRounds(n.value, k, BasesOf(n.value, rand, random)))
  {
    hide StrongProbablePrime, PassesChain, OddPart, DrawnBases, BasesOf, BitLen, IsBit;
    var len := n.BitLength();
    var rounds := if k > 0 then k else if len / 48 > 1 then len / 48 else 1;
    var n1 := n.Dec();
    var s, d := SplitOddPart(n);
    ghost var proper := n.value > (if rand.Some? then 1 else 3);
    ghost var bases: nat -> nat := if proper then BasesOf(n.value, rand, random) else random;
    var i := 0;
    while i < rounds
      invariant 0 <= i <= rounds && n1.value == n.value - 1
      invariant !proper ==> i == 0
      invariant if n.value > 0 then d.value >= 0 else n.value < 0 ==> d.value < 0
      invariant n.value > 1 && n.value % 2 == 1 ==> s > 0 && OddPart(n.value, s, d.value)
      invariant n.value % 2 == 0 ==> s == 0
      invariant proper && n.value % 2 == 1 ==> forall j :: 0 <= j < i ==> StrongProbablePrime(n.value, bases(j))
    {
      var a :- NextBase(n1, rand, random, i);
      var passes :- Round(n, n1, s, d, a);
      if proper && n.value % 2 == 1 { StrongIffChain(n.value, a.value, s, d.value); }
      if !passes { return Ok(false); }
      i := i + 1;
    }
    return Ok(true);
  }

  /** The bases of all turns, where they can be drawn. */
  function BasesOf(n: int, rand: Option<nat -> nat>, random: nat -> nat): nat -> nat
    requires rand.Some? || n > 3
  {
    if rand.Some? then rand.value else DrawnBases(n, random)
  }

  /** n passes the strong test to every base drawn. */
  ghost predicate PassesRounds(n: int, k: nat, bases: nat -> nat)
    requires n > 1
  {
    forall i :: 0 <= i < Rounds(k, n) ==> StrongProbablePrime(n, bases(i))
  }

  lemma StrongIffChain(n: int, a: nat, s: nat, d: nat)
    requires n > 1 && OddPart(n, s, d)
    ensures StrongProbablePrime(n, a) <==> PassesChain(n, a, s, d)
  {
    forall s': nat, d': nat | OddPart(n, s', d')
      ensures s' == s && d' == d
    {
      OddPartUnique(n, s', d', s, d);
    }
  }

  /** The outcome of the combined test: coprimality of n - 1 and e, Fermat's test, Miller-Rabin. */
  ghost function Primality(n: int, e: Option<int>, k: nat, random: nat -> nat): Result<bool> {
    if e.Some? && SignedGcd(n - 1, e.value) != 1 then Ok(false)
    else if n == 0 then Err(DivisionByZero)
    else if n < 0 then Err(NegativeExponent)
    else if Pow(2, n - 1) % n != 1 then Ok(false)
    else if n <= 3 then Err(DivisionByZero)
    else Ok(PassesRounds(n, k, DrawnBases(n, random)))
  }

  method IsProbablePrime(n: BigInteger, e: Option<BigInteger>, k: nat, random: nat -> nat) returns (r: Result<bool>)
    ensures r == Primality(n.value, if e.Some? then Some(e.value.value) else None, k, random)
  {
    hide StrongProbablePrime, PassesRounds, SignedGcd, Pow, TruncMod, DrawnBases;
    if e.Some? {
      var n1 := n.Dec();
      var g := n1.GcdWith(e.value);
      if !g.IsOne() { return Ok(false); }
    }
    var fermat :- FermatTest(n, None);
    if n.value > 1 {
      FermatOfNat(n.value, 2);
      if n.value % 2 == 0 { FermatRejectsEven(n.value); }
    } else {
      DivModUnique(Pow(2, 0), 1, Pow(2, 0), 0);
    }
    if !fermat { return Ok(false); }
    r := MillerRabin(n, k, None, random);
  }

  /** Every odd prime is accepted, whatever is drawn, but for 3, for which nothing can be drawn. */
  lemma PrimesAreAcceptedIff(n: int, e: Option<int>, k: nat, random: nat -> nat)
    requires IsPrime(n) && n > 2 && (e.Some? ==> SignedGcd(n - 1, e.value) == 1)
    ensures Primality(n, e, k, random) == Ok(true) <==> n != 3
    ensures n == 3 ==> Primality(n, e, k, random) == Err(DivisionByZero)
  {
    hide StrongProbablePrime, SignedGcd;
    ModSmall(2, n);
    Fermat(2, n);
    if n > 3 {
      forall i | 0 <= i < Rounds(k, n)
        ensures StrongProbablePrime(n, DrawnBases(n, random)(i))
      {
        var a := DrawnBases(n, random)(i);
        ModSmall(a, n);
        StrongTestOfPrime(n, a);
      }
    }
  }

  /** Fermat's test to base 2 rejects the even numbers that Miller-Rabin lets through. */
  lemma FermatRejectsEven(n: int)
    requires n > 1 && n % 2 == 0
    ensures Pow(2, n - 1) % n != 1
  {
    var half := Pow(2, n - 2);
    assert Pow(2, n - 1) == 2 * half;
    DivModUnique(2 * half, 2, half, 0);
    EvenRemainder(2 * half, n);
  }

  lemma EvenRemainder(x: int, n: int)
    requires n > 0 && n % 2 == 0 && x % 2 == 0
    ensures x % n % 2 == 0
  {
    var h, w, q, r := n / 2, x / 2, x / n, x % n;
    assert n == 2 * h && x == 2 * w;
    assert x == n * q + r;
    MulRegroup(2, h, 1, q);
    DivModUnique(r, 2, w - h * q, 0);
  }
}
