/** Primes: Euclid's lemma, Fermat's little theorem, and the square roots of 1. */
module Primes {
  import opened NumberTheory

  ghost predicate IsPrime(p: int) {
    p >= 2 && forall d :: 2 <= d < p ==> p % d != 0
  }

  lemma PrimeCoprime(a: nat, p: int)
    requires IsPrime(p) && a % p != 0
    ensures Gcd(a, p) == 1
  {
    CoprimeIff(a, p);
    forall d | d > 0 && a % d == 0 && p % d == 0
      ensures d == 1
    {
      if d > p { ModSmall(p, d); }
      assert d == p || d == 1;
    }
  }

  /** Euclid's lemma. */
  lemma PrimeDividesProduct(a: int, b: int, p: int)
    requires IsPrime(p) && (a * b) % p == 0
    ensures a % p == 0 || b % p == 0
  {
    if a % p != 0 {
      CongMod(a, p);
      PrimeCoprime(a % p, p);
      var i := Inverse(a % p, p);
      CongMul(a, a % p, i, i, p);
      ModSmall(0, p);
      CancelFactor(a, b, 0, i, p);
    }
  }

  function Factorial(k: nat): int {
    if k == 0 then 1 else k * Factorial(k - 1)
  }

  ghost function Pick<T>(s: set<T>): (x: T)
    requires s != {}
    ensures x in s
  {
    var x :| x in s;
    x
  }

  /** The product a * 2a * ... * ka. */
  function Scaled(a: int, k: nat): int {
    if k == 0 then 1 else (a * k) * Scaled(a, k - 1)
  }

  lemma {:induction false} ScaledIsPower(a: int, k: nat)
    ensures Scaled(a, k) == Pow(a, k) * Factorial(k)
  {
    if k > 0 {
      ScaledIsPower(a, k - 1);
      MulRegroup(a, k, Pow(a, k - 1), Factorial(k - 1));
    }
  }

  ghost function Product(s: set<int>): int
    decreases |s|
  {
    if s == {} then 1 else
    var x := Pick(s);
    x * Product(s - {x})
  }

  lemma ProductPick(s: set<int>)
    requires s != {}
    ensures Pick(s) in s && Product(s) == Pick(s) * Product(s - {Pick(s)})
  {
  }

  lemma {:induction false} ProductRemove(x: int, s: set<int>)
    requires x in s
    ensures Product(s) == x * Product(s - {x})
    decreases |s|
  {
    hide Product;
    var y := Pick(s);
    ProductPick(s);
    if x != y {
      ProductRemove(x, s - {y});
      ProductRemove(y, s - {x});
      assert s - {y} - {x} == s - {x} - {y};
      SwapFactors(y, x, Product(s - {x} - {y}));
    }
  }

  lemma SwapFactors(x: int, y: int, r: int)
    ensures x * (y * r) == y * (x * r)
  {
    MulRegroup(x, 1, y, r);
    MulRegroup(y, 1, x, r);
  }

  /** The set {1, ..., k}. */
  ghost function Range(k: nat): (s: set<int>)
    ensures forall i :: i in s <==> 1 <= i <= k
  {
    if k == 0 then {} else Range(k - 1) + {k}
  }

  lemma {:induction false} RangeProduct(k: nat)
    ensures |Range(k)| == k && Product(Range(k)) == Factorial(k)
  {
    if k == 0 {
      assert Range(0) == {};
    } else {
      RangeProduct(k - 1);
      assert Range(k) - {k} == Range(k - 1);
      assert Range(k) == Range(k - 1) + {k};
      ProductRemove(k, Range(k));
    }
  }

  lemma MultipleInjective(a: int, i: int, j: int, p: int)
    requires IsPrime(p) && a % p != 0
    requires 1 <= i < p && 1 <= j < p && (a * i) % p == (a * j) % p
    ensures i == j
  {
    CongAdd(a * i, a * j, a * j, a * j, p);
    assert a * i - a * j == a * (i - j);
    assert a * j - a * j == 0;
    ModSmall(0, p);
    PrimeDividesProduct(a, i - j, p);
    if i > j { ModSmall(i - j, p); }
    if j > i {
      CongAdd(0, 0, i - j, 0, p);
      ModSmall(j - i, p);
    }
  }

  lemma MultipleNotZero(a: int, i: int, p: int)
    requires IsPrime(p) && a % p != 0 && 1 <= i < p
    ensures 1 <= Mul(a, i) % p < p
  {
    if Mul(a, i) % p == 0 {
      PrimeDividesProduct(a, i, p);
      ModSmall(i, p);
    }
  }

  /** The residues of a, 2a, ..., ka are k different numbers; their product is that of the multiples. */
  lemma {:induction false} Multiples(a: int, k: nat, p: int) returns (s: set<int>)
    requires IsPrime(p) && a % p != 0 && k < p
    ensures forall x :: x in s ==> 1 <= x < p
    ensures forall x :: x in s ==> exists i :: 1 <= i <= k && x == Mul(a, i) % p
    ensures |s| == k && Cong(Product(s), Scaled(a, k), p)
  {
    s := {};
    if k > 0 {
      var t := Multiples(a, k - 1, p);
      var x := Mul(a, k) % p;
      MultipleNotZero(a, k, p);
      if x in t {
        var i :| 1 <= i <= k - 1 && x == Mul(a, i) % p;
        MultipleInjective(a, i, k, p);
        assert false;
      }
      s := t + {x};
      assert s - {x} == t;
      ProductRemove(x, s);
      CongMod(a * k, p);
      CongMul(x, a * k, Product(t), Scaled(a, k - 1), p);
    }
  }

  lemma {:induction false} FactorialNotZero(k: nat, p: int)
    requires IsPrime(p) && k < p
    ensures Factorial(k) % p != 0
  {
    if k == 0 {
      ModSmall(1, p);
    } else {
      FactorialNotZero(k - 1, p);
      ModSmall(k, p);
      if Factorial(k) % p == 0 { PrimeDividesProduct(k, Factorial(k - 1), p); }
    }
  }

  lemma SubsetSameSize(s: set<int>, t: set<int>)
    requires s <= t && |s| == |t|
    ensures s == t
  {
    assert t == s + (t - s);
    assert |t| == |s| + |t - s|;
  }

  lemma CancelOne(f: int, y: int, p: int)
    requires IsPrime(p) && f % p != 0 && Cong(f, y * f, p)
    ensures y % p == 1
  {
    hide IsPrime, Gcd;
    PrimeAboveOne(p);
    CongMod(f, p);
    PrimeCoprime(f % p, p);
    var i := Inverse(f % p, p);
    CongMul(f, f % p, i, i, p);
    SwapFactors(f, y, 1);
    CancelFactor(f, 1, y, i, p);
    ModSmall(1, p);
  }

  lemma PrimeAboveOne(p: int)
    requires IsPrime(p)
    ensures p > 1
  {
  }

  lemma ScaledFactorial(a: int, p: int)
    requires IsPrime(p) && a % p != 0
    ensures Cong(Factorial(p - 1), Scaled(a, p - 1), p)
  {
    var s := Multiples(a, p - 1, p);
    RangeProduct(p - 1);
    SubsetSameSize(s, Range(p - 1));
  }

  /** Fermat's little theorem. */
  lemma Fermat(a: int, p: int)
    requires IsPrime(p) && a % p != 0
    ensures Pow(a, p - 1) % p == 1
  {
    ScaledFactorial(a, p);
    ScaledIsPower(a, p - 1);
    FactorialNotZero(p - 1, p);
    CancelOne(Factorial(p - 1), Pow(a, p - 1), p);
  }

  /** Exponents of a only matter modulo p - 1. */
  lemma FermatReduce(a: int, d: nat, e: nat, p: int)
    requires IsPrime(p) && a % p != 0 && Cong(d, e, p - 1)
    ensures Cong(Pow(a, d), Pow(a, e), p)
  {
    Fermat(a, p);
    ModSmall(1, p);
    ReduceExponent(a, p - 1, d, p);
    ReduceExponent(a, p - 1, e, p);
  }

  /** If a^q is 1 modulo n, exponents of a only matter modulo q. */
  lemma ReduceExponent(a: int, q: nat, e: nat, n: int)
    requires n > 0 && q > 0 && Cong(Pow(a, q), 1, n)
    ensures Cong(Pow(a, e), Pow(a, e % q), n)
  {
    var k := e / q;
    assert e == q * k + e % q;
    MulNonNeg(q, k);
    PowAdd(a, q * k, e % q);
    PowPow(a, q, k);
    CongPow(Pow(a, q), 1, k, n);
    PowOne(k);
    CongMul(Pow(a, q * k), 1, Pow(a, e % q), Pow(a, e % q), n);
  }

  /** x^(ed) is x modulo p for every x, zero included, when ed is 1 modulo p - 1. */
  lemma FermatInverse(x: int, e: nat, d: nat, p: int)
    requires IsPrime(p) && p > 2 && (e * d) % (p - 1) == 1
    ensures e * d >= 0 && Cong(Pow(x, e * d), x, p)
  {
    MulNonNeg(e, d);
    if x % p == 0 {
      ModSmall(0, p);
      assert e * d != 0;
      CongMul(x, 0, Pow(x, e * d - 1), Pow(x, e * d - 1), p);
      assert 0 * Pow(x, e * d - 1) == 0;
    } else {
      ModSmall(1, p - 1);
      FermatReduce(x, e * d, 1, p);
      assert Pow(x, 1) == x * Pow(x, 0);
    }
  }

  /** Modulo a prime, 1 has no square roots besides 1 and -1. */
  lemma SquareRootsOfOne(x: int, p: int)
    requires IsPrime(p) && (x * x) % p == 1
    ensures x % p == 1 || x % p == p - 1
  {
    ModSmall(1, p);
    ModSmall(0, p);
    CongAdd(x * x, 1, 1, 1, p);
    assert (x - 1) * (x + 1) == x * x - 1;
    PrimeDividesProduct(x - 1, x + 1, p);
    if (x - 1) % p == 0 {
      CongAdd(x - 1, 0, 1, 1, p);
    } else {
      CongAdd(x + 1, 0, 1, 1, p);
      CongIntro(-1, p - 1, p, -1);
      ModSmall(p - 1, p);
    }
  }
}
