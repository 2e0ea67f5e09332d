/**
 Integer facts the public-key modules rest on: remainders and congruences, powers,
 the greatest common divisor with Bezout's identity, modular inverses, and primes with
 Fermat's little theorem.
 */
module NumberTheory {

  // ---------------------------------------------------------------- remainders

  lemma MulAtLeast(m: int, k: int)
    requires m > 0 && k >= 1
    ensures m * k >= m
  {
  }

  /** Quotient and remainder are determined by x == q * m + r with 0 <= r < m. */
  lemma DivModUnique(x: int, m: int, q: int, r: int)
    requires m > 0 && 0 <= r < m && x == q * m + r
    ensures x / m == q && x % m == r
  {
    var k := q - x / m;
    assert m * k == x % m - r by { assert x == m * (x / m) + x % m; }
    if k >= 1 { MulAtLeast(m, k); }
    if k <= -1 { MulAtLeast(m, -k); }
  }

  lemma MulNonNeg(a: int, b: int)
    requires a >= 0 && b >= 0
    ensures a * b >= 0
  {
  }

  lemma MulMono(m: int, x: int, y: int)
    requires m >= 0 && x <= y
    ensures m * x <= m * y
  {
  }

  lemma MulRegroup(a: int, b: int, x: int, y: int)
    ensures (a * b) * (x * y) == (a * x) * (b * y)
  {
    assert (a * b) * (x * y) == a * (b * (x * y));
    assert b * (x * y) == x * (b * y);
    assert (a * x) * (b * y) == a * (x * (b * y));
  }

  /** a and b leave the same remainder modulo m. */
  ghost predicate Cong(a: int, b: int, m: int)
    requires m > 0
  {
    a % m == b % m
  }

  lemma CongIntro(a: int, b: int, m: int, k: int)
    requires m > 0 && a == b + k * m
    ensures Cong(a, b, m)
  {
    assert a == (b / m + k) * m + b % m by { assert b == m * (b / m) + b % m; }
    DivModUnique(a, m, b / m + k, b % m);
  }

  lemma CongElim(a: int, b: int, m: int) returns (k: int)
    requires m > 0 && Cong(a, b, m)
    ensures a == b + k * m
  {
    k := a / m - b / m;
    assert a == m * (a / m) + a % m;
    assert b == m * (b / m) + b % m;
  }

  lemma CongMod(a: int, m: int)
    requires m > 0
    ensures Cong(a % m, a, m)
  {
    assert a % m == a + (-(a / m)) * m;
    CongIntro(a % m, a, m, -(a / m));
  }

  lemma ModSmall(a: int, m: int)
    requires 0 <= a < m
    ensures a % m == a
  {
    DivModUnique(a, m, 0, a);
  }

  lemma CongAdd(a: int, b: int, c: int, d: int, m: int)
    requires m > 0 && Cong(a, b, m) && Cong(c, d, m)
    ensures Cong(a + c, b + d, m)
    ensures Cong(a - c, b - d, m)
  {
    var k := CongElim(a, b, m);
    var l := CongElim(c, d, m);
    assert a + c == b + d + (k + l) * m;
    CongIntro(a + c, b + d, m, k + l);
    assert a - c == b - d + (k - l) * m;
    CongIntro(a - c, b - d, m, k - l);
  }

  lemma CongMul(a: int, b: int, c: int, d: int, m: int)
    requires m > 0 && Cong(a, b, m) && Cong(c, d, m)
    ensures Cong(a * c, b * d, m)
  {
    hide Cong;
    var k := CongElim(a, b, m);
    var l := CongElim(c, d, m);
    DifferenceOfProducts(a, b, c, d, k, l, m);
    CongIntro(a * c, b * d, m, a * l + k * d);
  }

  lemma DifferenceOfProducts(a: int, b: int, c: int, d: int, k: int, l: int, m: int)
    requires a == b + k * m && c == d + l * m
    ensures a * c == b * d + (a * l + k * d) * m
  {
    Distribute(a, d, l * m);
    Distribute(d, b, k * m);
    Distribute(m, a * l, k * d);
    MulRegroup(a, 1, l, m);
    MulRegroup(k, m, d, 1);
  }

  lemma Distribute(a: int, b: int, c: int)
    ensures a * (b + c) == a * b + a * c
  {
  }

  /** A congruence modulo a multiple of m holds modulo m. */
  lemma CongFactor(a: int, b: int, m: int, c: int)
    requires m > 0 && c > 0 && m * c > 0 && Cong(a, b, m * c)
    ensures Cong(a, b, m)
  {
    var k := CongElim(a, b, m * c);
    assert k * (m * c) == (k * c) * m;
    CongIntro(a, b, m, k * c);
  }

  lemma MultipleAtLeast(n: nat, size: nat)
    requires size > 0 && n > 0 && n % size == 0
    ensures n >= size && (n - size) % size == 0
  {
    if n < size { ModSmall(n, size); }
    CongIntro(n - size, n, size, -1);
  }

  lemma DivDiv(n: int, a: int, b: int)
    requires a > 0 && b > 0
    ensures a * b > 0 && n / a / b == n / (a * b)
  {
    MulAtLeast(a, b);
    var q, r := n / a, n % a;
    var s, t := q / b, q % b;
    MulBetween(a, t, b);
    NestedQuotient(n, a, b, q, r, s, t);
    DivModUnique(n, a * b, s, a * t + r);
  }

  lemma NestedQuotient(n: int, a: int, b: int, q: int, r: int, s: int, t: int)
    requires n == a * q + r && q == b * s + t
    ensures n == s * (a * b) + (a * t + r)
  {
    assert a * (b * s) == s * (a * b);
    assert a * (b * s + t) == a * (b * s) + a * t;
  }

  lemma MulBetween(a: int, t: int, b: int)
    requires a > 0 && 0 <= t < b
    ensures 0 <= a * t <= a * b - a
  {
    MulNonNeg(a, t);
    MulNonNeg(a, b - 1 - t);
    assert a * (b - 1 - t) == a * b - a - a * t;
  }

  /** One octet more: the halves of a number around a multiple of 128. */
  lemma DoubledOctet(v: int, carry: int)
    requires 0 <= carry < 2
    ensures (2 * v + carry) / 256 == v / 128 && (2 * v + carry) % 256 == v * 2 % 256 + carry
    ensures 0 <= v * 2 % 256 + carry < 256 && 2 * v + carry == 256 * (v / 128) + (v * 2 % 256 + carry)
  {
    var h, l := v / 128, v % 128;
    assert v == 128 * h + l;
    DivModUnique(v * 2, 256, h, 2 * l);
    DivModUnique(2 * v + carry, 256, h, 2 * l + carry);
  }

  // ---------------------------------------------------------------- powers

  function Pow(b: int, e: nat): int {
    if e == 0 then 1 else b * Pow(b, e - 1)
  }

  lemma {:induction false} PowAdd(b: int, d: nat, e: nat)
    ensures Pow(b, d + e) == Pow(b, d) * Pow(b, e)
  {
    if d > 0 {
      PowAdd(b, d - 1, e);
      assert b * (Pow(b, d - 1) * Pow(b, e)) == (b * Pow(b, d - 1)) * Pow(b, e);
    }
  }

  lemma {:induction false} PowMulBase(a: int, b: int, e: nat)
    ensures Pow(a * b, e) == Pow(a, e) * Pow(b, e)
  {
    if e > 0 {
      PowMulBase(a, b, e - 1);
      var x, y := Pow(a, e - 1), Pow(b, e - 1);
      MulRegroup(a, b, x, y);
    }
  }

  lemma {:induction false} PowPow(b: int, d: nat, e: nat)
    ensures d * e >= 0
    ensures Pow(Pow(b, d), e) == Pow(b, d * e)
  {
    MulNonNeg(d, e);
    if e > 0 {
      MulNonNeg(d, e - 1);
      PowPow(b, d, e - 1);
      assert d * e == d + d * (e - 1);
      PowAdd(b, d, d * (e - 1));
    }
  }

  lemma {:induction false} PowPositive(b: int, e: nat)
    requires b > 0
    ensures Pow(b, e) > 0
  {
    if e > 0 { PowPositive(b, e - 1); MulAtLeast(b, Pow(b, e - 1)); }
  }

  lemma {:induction false} PowNonNeg(a: int, e: nat)
    requires a >= 0
    ensures Pow(a, e) >= 0
  {
    if e > 0 {
      PowNonNeg(a, e - 1);
      MulNonNeg(a, Pow(a, e - 1));
    }
  }

  lemma {:induction false} PowOne(e: nat)
    ensures Pow(1, e) == 1
  {
    if e > 0 { PowOne(e - 1); }
  }

  lemma {:induction false} PowMonotone(b: int, d: nat, e: nat)
    requires b > 0 && d <= e
    ensures Pow(b, d) <= Pow(b, e)
  {
    if d < e {
      PowMonotone(b, d, e - 1);
      PowPositive(b, e - 1);
      assert b * Pow(b, e - 1) >= Pow(b, e - 1) by { MulAtLeast(Pow(b, e - 1), b); }
    }
  }

  lemma {:induction false} CongPow(a: int, b: int, e: nat, m: int)
    requires m > 0 && Cong(a, b, m)
    ensures Cong(Pow(a, e), Pow(b, e), m)
  {
    if e > 0 {
      CongPow(a, b, e - 1, m);
      CongMul(a, b, Pow(a, e - 1), Pow(b, e - 1), m);
    }
  }

  lemma ZeroPower(x: int, e: nat, p: int)
    requires p > 0 && e > 0 && Cong(x, 0, p)
    ensures Cong(Pow(x, e), 0, p)
  {
    CongMul(x, 0, Pow(x, e - 1), Pow(x, e - 1), p);
    assert 0 * Pow(x, e - 1) == 0;
  }

  // ---------------------------------------------------------------- greatest common divisor

  /** Euclid's algorithm on naturals; GcdIsGreatest says what it computes. */
  function Gcd(a: nat, b: nat): nat
    decreases b
  {
    if b == 0 then a else Gcd(b, a % b)
  }

  ghost predicate Divides(d: int, x: int) {
    exists k :: x == Mul(d, k)
  }

  function Mul(a: int, b: int): int { a * b }

  lemma DividesLinear(d: int, a: int, b: int, x: int, y: int)
    requires Divides(d, a) && Divides(d, b)
    ensures Divides(d, a * x + b * y)
  {
    var k :| a == Mul(d, k);
    var l :| b == Mul(d, l);
    assert (d * k) * x + (d * l) * y == d * (k * x + l * y);
    assert a * x + b * y == Mul(d, k * x + l * y);
  }

  lemma {:induction false} GcdIsGreatest(a: nat, b: nat)
    ensures Divides(Gcd(a, b), a) && Divides(Gcd(a, b), b)
    ensures forall d :: Divides(d, a) && Divides(d, b) ==> Divides(d, Gcd(a, b))
    decreases b
  {
    if b == 0 {
      assert a == Mul(a, 1) && 0 == Mul(a, 0);
    } else {
      var r := a % b;
      assert a == b * (a / b) + r;
      GcdIsGreatest(b, r);
      DividesLinear(Gcd(a, b), b, r, a / b, 1);
      forall d | Divides(d, a) && Divides(d, b)
        ensures Divides(d, r)
      {
        DividesLinear(d, a, b, 1, -(a / b));
        assert a * 1 + b * -(a / b) == r;
      }
    }
  }

  lemma {:induction false} Bezout(a: nat, b: nat) returns (x: int, y: int)
    ensures a * x + b * y == Gcd(a, b)
    decreases b
  {
    if b == 0 {
      x, y := 1, 0;
    } else {
      var x', y' := Bezout(b, a % b);
      x, y := y', x' - (a / b) * y';
      BezoutOneMore(a, b, a / b, a % b, x', y');
    }
  }

  lemma BezoutOneMore(a: int, b: int, k: int, r: int, x: int, y: int)
    requires a == b * k + r
    ensures a * y + b * (x - k * y) == b * x + r * y
  {
    Distribute(y, b * k, r);
    Distribute(b, x, -(k * y));
    MulRegroup(b, 1, k, y);
    assert b * -(k * y) == -(b * (k * y));
  }

  lemma DividesIffMod(d: int, x: int)
    requires d > 0
    ensures Divides(d, x) <==> x % d == 0
  {
    if Divides(d, x) {
      var k :| x == Mul(d, k);
      DivModUnique(x, d, k, 0);
    }
    if x % d == 0 { assert x == Mul(d, x / d); }
  }

  /** Common divisors d > 1 are exactly what keeps two numbers from being coprime. */
  lemma CoprimeIff(a: nat, b: nat)
    requires b > 0
    ensures Gcd(a, b) > 0
    ensures Gcd(a, b) == 1 <==> forall d :: d > 0 && a % d == 0 && b % d == 0 ==> d == 1
  {
    GcdIsGreatest(a, b);
    var g := Gcd(a, b);
    var k :| b == Mul(g, k);
    GcdNonZero(a, b);
    DividesIffMod(g, a);
    DividesIffMod(g, b);
    if g == 1 {
      forall d | d > 0 && a % d == 0 && b % d == 0
        ensures d == 1
      {
        DividesIffMod(d, a);
        DividesIffMod(d, b);
        assert Divides(d, g);
        var l :| g == Mul(d, l);
        if l >= 1 { MulAtLeast(d, l); }
      }
    }
  }

  lemma {:induction false} GcdNonZero(a: nat, b: nat)
    requires a > 0 || b > 0
    ensures Gcd(a, b) > 0
    decreases b
  {
    if b > 0 { GcdNonZero(b, a % b); }
  }

  // ---------------------------------------------------------------- modular inverses

  /** x is the inverse of a modulo n, in canonical form. */
  predicate IsInverse(x: int, a: int, n: int)
    requires n > 0
  {
    0 <= x < n && (a * x) % n == 1 % n
  }

  lemma CancelFactor(a: int, b: int, c: int, i: int, n: int)
    requires n > 0 && (a * i) % n == 1 % n
    requires Cong(a * b, a * c, n)
    ensures Cong(b, c, n)
  {
    CongMul(i, i, a * b, a * c, n);
    assert i * (a * b) == (a * i) * b && i * (a * c) == (a * i) * c;
    CongMul(a * i, 1, b, b, n);
    CongMul(a * i, 1, c, c, n);
  }

  lemma InverseUnique(x: int, y: int, a: int, n: int)
    requires n > 0 && IsInverse(x, a, n) && IsInverse(y, a, n)
    ensures x == y
  {
    CancelFactor(a, x, y, x, n);
    ModSmall(x, n);
    ModSmall(y, n);
  }

  /** An inverse modulo n exists exactly for the numbers coprime to n. */
  lemma InverseExistsIff(a: nat, n: int)
    requires n > 0
    ensures Gcd(a, n) == 1 <==> exists x :: IsInverse(x, a, n)
  {
    if Gcd(a, n) == 1 {
      var x, y := Bezout(a, n);
      CongMod(x, n);
      CongMul(a, a, x % n, x, n);
      assert a * x == 1 + (-y) * n;
      CongIntro(a * x, 1, n, -y);
      assert IsInverse(x % n, a, n);
    }
    if exists x :: IsInverse(x, a, n) {
      var x :| IsInverse(x, a, n);
      var k := CongElim(a * x, 1, n);
      GcdIsGreatest(a, n);
      GcdNonZero(a, n);
      var g := Gcd(a, n);
      DividesLinear(g, a, n, x, -k);
      assert a * x + n * -k == 1;
      var l :| 1 == Mul(g, l);
      if l >= 1 { MulAtLeast(g, l); }
    }
  }

  /** The inverse of a modulo n in [0, n). */
  ghost function Inverse(a: nat, n: int): (x: int)
    requires n > 0 && Gcd(a, n) == 1
    ensures IsInverse(x, a, n)
  {
    InverseExistsIff(a, n);
    var x :| IsInverse(x, a, n);
    x
  }
}
