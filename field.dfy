/**
 * Prime-field facts shared by both curve files: greatest common divisors and
 * Bezout coefficients, primality, Euclid's lemma, the modular inverse that
 * the curve code obtains from a foreign library (gmpy2.invert in the
 * Montgomery file, sympy's mod_inverse in the Weierstrass file), slopes as
 * quotients in the field, Euler's criterion value and the square-root facts
 * the root extractors rely on.
 */
module Field {
  import opened Modular

  // ---------------------------------------------------------------------------
  // Divisibility, gcd, Bezout

  predicate Divides(d: int, n: int)
  {
    d > 0 && n % d == 0
  }

  /** Euclid's algorithm on naturals. */
  function Gcd(a: nat, b: nat): nat
    decreases b
  {
    if b == 0 then a else Gcd(b, a % b)
  }

  /**
   * The extended Euclidean algorithm as a recursive function: a gcd together
   * with Bezout coefficients.
   */
  function Bezout(a: nat, b: nat): (r: (nat, int, int))
    ensures r.0 == Gcd(a, b) && a * r.1 + b * r.2 == r.0
    decreases b
  {
    if b == 0 then (a, 1, 0)
    else
      var (g, u, v) := Bezout(b, a % b);
      assert a == (a / b) * b + a % b;
      assert a * v + b * (u - (a / b) * v) == b * u + (a % b) * v;
      (g, v, u - (a / b) * v)
  }

  /** A common divisor of x and y divides q*x + y. */
  lemma DividesCombination(d: int, x: int, y: int, q: int)
    requires Divides(d, x) && Divides(d, y)
    ensures Divides(d, q * x + y)
  {
    var i, j := x / d, y / d;
    assert x == i * d && y == j * d;
    assert q * x + y == (q * i + j) * d;
    ModOfMultiple(q * i + j, d);
  }

  /** Gcd(a, b) divides both arguments (when it is not 0). */
  lemma {:induction false} GcdDivides(a: nat, b: nat)
    requires a > 0 || b > 0
    ensures Divides(Gcd(a, b), a) && Divides(Gcd(a, b), b)
    decreases b
  {
    if b == 0 {
      assert Gcd(a, b) == a;
      ModOfMultiple(1, a);
    } else {
      GcdDivides(b, a % b);
      DividesCombination(Gcd(a, b), b, a % b, a / b);
      assert a == (a / b) * b + a % b;
    }
  }

  /** Every common divisor of a and b divides Gcd(a, b). */
  lemma CommonDivisorDividesGcd(d: int, a: nat, b: nat)
    requires Divides(d, a) && Divides(d, b)
    ensures Gcd(a, b) % d == 0
  {
    var (g, u, v) := Bezout(a, b);
    var i, j := a / d, b / d;
    DivExact(a, d);
    DivExact(b, d);
    LinearCombination(a, b, u, v, i, j, d);
    ModOfMultiple(i * u + j * v, d);
  }

  lemma DivExact(a: int, d: int)
    requires d > 0 && a % d == 0
    ensures a == (a / d) * d
  {
  }

  lemma LinearCombination(a: int, b: int, u: int, v: int, i: int, j: int, d: int)
    requires a == i * d && b == j * d
    ensures a * u + b * v == (i * u + j * v) * d
  {
  }

  lemma DivisorAtMost(d: int, n: int)
    requires Divides(d, n) && n > 0
    ensures d <= n
  {
    var q := n / d;
    assert n == q * d;
    if q > 0 {
      MulAtLeast(q, d);
    }
  }

  // ---------------------------------------------------------------------------
  // Primes

  ghost predicate IsPrime(p: int)
  {
    p > 1 && forall d :: 1 < d < p ==> !Divides(d, p)
  }

  /** A prime shares no factor with a value in (0, p). */
  lemma CoprimeBelowPrime(x: int, p: int)
    requires IsPrime(p) && 0 < x < p
    ensures Gcd(x, p) == 1
  {
    var g := Gcd(x, p);
    GcdDivides(x, p);
    DivisorAtMost(g, x);
  }

  /** Modulo a prime, exactly the values not divisible by p are invertible. */
  lemma InvertibleModPrime(x: int, p: int)
    requires IsPrime(p)
    ensures Gcd(x % p, p) == 1 <==> x % p != 0
  {
    if x % p != 0 {
      CoprimeBelowPrime(x % p, p);
    } else {
      assert Gcd(0, p) == Gcd(p, 0) == p;
    }
  }

  /** Euclid's lemma: a prime dividing a product divides one of the factors. */
  lemma EuclidLemma(a: int, b: int, p: int)
    requires IsPrime(p) && (a * b) % p == 0
    ensures a % p == 0 || b % p == 0
  {
    if a % p != 0 {
      var x := a % p;
      CoprimeBelowPrime(x, p);
      var (g, u, v) := Bezout(x, p);
      assert x * u + p * v == 1;
      BezoutScaled(b, x, u, p, v);
      ModIdem(a, p);
      ModEqMul(x, a, b, b, p);
      assert (x * b) % p == 0;
      ModSmall(0, p);
      ModEqMul(x * b, 0, u, u, p);
      assert ((x * b) * u) % p == 0;
      ModAddMultiple((x * b) * u, b * v, p);
      assert b % p == ((x * b) * u) % p;
    }
  }

  lemma BezoutScaled(b: int, x: int, u: int, p: int, v: int)
    requires x * u + p * v == 1
    ensures b == (x * b) * u + (b * v) * p
  {
    assert b * (x * u + p * v) == (x * b) * u + (b * v) * p;
  }

  /** A power of a value not divisible by p is not divisible by p. */
  lemma {:induction false} ExpNonZeroModPrime(c: int, e: nat, p: int)
    requires IsPrime(p) && c % p != 0
    ensures Exp(c, e) % p != 0
    decreases e
  {
    if e > 0 {
      ExpNonZeroModPrime(c, e - 1, p);
      if Exp(c, e) % p == 0 {
        EuclidLemma(c, Exp(c, e - 1), p);
      }
    }
  }

  /** Modulo a prime, 1 has only the square roots 1 and p - 1. */
  lemma SquareRootsOfOne(x: int, p: int)
    requires IsPrime(p) && 0 <= x < p && (x * x) % p == 1
    ensures x == 1 || x == p - 1
  {
    assert (x - 1) * (x + 1) == x * x - 1;
    ModEqSub(x * x, 1, 1, 1, p);
    EuclidLemma(x - 1, x + 1, p);
    if (x - 1) % p == 0 {
      DivModUnique(x - 1, p, if x == 0 then -1 else 0, if x == 0 then p - 1 else x - 1);
    } else {
      DivModUnique(x + 1, p, if x + 1 == p then 1 else 0, if x + 1 == p then 0 else x + 1);
    }
  }

  /** If a^(2m) == 1 modulo a prime, then a^m is 1 or -1 there. */
  lemma HalvingSquareRootOfOne(a: int, m: nat, p: int)
    requires IsPrime(p) && Exp(a, 2 * m) % p == 1
    ensures Exp(a, m) % p == 1 || Exp(a, m) % p == p - 1
  {
    var r := Exp(a, m) % p;
    ExpAdd(a, m, m);
    ModIdem(Exp(a, m), p);
    ModEqMul(r, Exp(a, m), r, Exp(a, m), p);
    SquareRootsOfOne(r, p);
  }

  /** (p - 1)^2 == 1 modulo p. */
  lemma MinusOneSquared(p: int)
    requires p > 1
    ensures ((p - 1) * (p - 1)) % p == 1
  {
    assert (p - 1) * (p - 1) == 1 + (p - 2) * p;
    ModAddMultiple(1, p - 2, p);
    ModSmall(1, p);
  }

  // ---------------------------------------------------------------------------
  // Inverses and quotients in Z/mZ

  /**
   * The modular inverse of x modulo m, in [0, m); None where the foreign
   * library raises (x shares a factor with m).
   */
  function ModInverse(x: int, m: int): (r: Option<int>)
    requires m > 1
    ensures r.Some? <==> Gcd(x % m, m) == 1
    ensures r.Some? ==> 0 <= r.value < m && (x * r.value) % m == 1
  {
    var (g, u, v) := Bezout(x % m, m);
    if g == 1 then
      BezoutInverse(x, m, u, v);
      Some(u % m)
    else
      None
  }

  lemma BezoutInverse(x: int, m: int, u: int, v: int)
    requires m > 1 && (x % m) * u + m * v == 1
    ensures (x * (u % m)) % m == 1
  {
    var r := x % m;
    assert r * u + v * m == 1;
    ModAddMultiple(r * u, v, m);
    ModSmall(1, m);
    assert (r * u) % m == 1;
    ModIdem(x, m);
    ModIdem(u, m);
    ModEqMul(r, x, u, u % m, m);
  }

  /**
   * The field quotient n / d modulo m: the residue of n times the inverse of
   * d, or None when d has no inverse.
   */
  function Slope(n: int, d: int, m: int): (r: Option<int>)
    requires m > 1
    ensures r.Some? <==> Gcd(d % m, m) == 1
    ensures r.Some? ==> 0 <= r.value < m && (r.value * d) % m == n % m
  {
    match ModInverse(d, m)
    case None => None
    case Some(inv) =>
      QuotientTimesDivisor(n, d, inv, m);
      Some(((n % m) * inv) % m)
  }

  lemma QuotientTimesDivisor(n: int, d: int, inv: int, m: int)
    requires m > 1 && (d * inv) % m == 1
    ensures ((((n % m) * inv) % m) * d) % m == n % m
  {
    var r := n % m;
    var k := (r * inv) % m;
    ModIdem(r * inv, m);
    ModEqMul(r * inv, k, d, d, m);
    MulCommuteRight(r, inv, d);
    ModIdem(n, m);
    ModSmall(1, m);
    ModEqMul(n % m, n, d * inv, 1, m);
  }

  lemma MulCommuteRight(r: int, inv: int, d: int)
    ensures (r * inv) * d == r * (d * inv)
  {
  }

  /** Modulo a prime, the quotient exists exactly when d is not 0 mod p. */
  lemma SlopeExistsModPrime(n: int, d: int, p: int)
    requires IsPrime(p)
    ensures Slope(n, d, p).Some? <==> d % p != 0
  {
    InvertibleModPrime(d, p);
  }

  /** Modulo a prime, the quotient is the only k in [0, p) with k*d == n. */
  lemma SlopeUnique(n: int, d: int, p: int, k: int)
    requires IsPrime(p) && Slope(n, d, p).Some?
    requires 0 <= k < p && (k * d) % p == n % p
    ensures k == Slope(n, d, p).value
  {
    var s := Slope(n, d, p).value;
    InvertibleModPrime(d, p);
    assert (k - s) * d == k * d - s * d;
    ModEqSub(k * d, n, s * d, n, p);
    EuclidLemma(k - s, d, p);
    DivModUnique(k - s, p, if k < s then -1 else 0, if k < s then k - s + p else k - s);
  }

  /** Swapping both the numerator's and the denominator's sign keeps the quotient. */
  lemma SlopeNegated(n: int, d: int, p: int)
    requires IsPrime(p)
    ensures Slope(-n, -d, p) == Slope(n, d, p)
  {
    NegatedMultiple(d, p);
    SlopeExistsModPrime(n, d, p);
    SlopeExistsModPrime(-n, -d, p);
    if d % p != 0 {
      var s' := Slope(-n, -d, p).value;
      NegatedQuotient(s', n, d, p);
      SlopeUnique(n, d, p, s');
    }
  }

  /** -d is a multiple of p exactly when d is. */
  lemma NegatedMultiple(d: int, p: int)
    requires p > 0
    ensures (-d) % p == 0 <==> d % p == 0
  {
    ModSmall(0, p);
    if d % p == 0 {
      ModEqMul(d, 0, -1, -1, p);
      assert d * -1 == -d;
    }
    if (-d) % p == 0 {
      ModEqMul(-d, 0, -1, -1, p);
      assert (-d) * -1 == d;
    }
  }

  /** A quotient of -n by -d is a quotient of n by d. */
  lemma NegatedQuotient(k: int, n: int, d: int, p: int)
    requires p > 0 && (k * (-d)) % p == (-n) % p
    ensures (k * d) % p == n % p
  {
    ModEqMul(k * (-d), -n, -1, -1, p);
    NegateTwice(k, d);
  }

  lemma NegateTwice(k: int, d: int)
    ensures (k * (-d)) * (-1) == k * d
  {
  }

  // ---------------------------------------------------------------------------
  // Euler's criterion and square roots

  /** a^((p-1)/2) mod p: 1 for a quadratic residue, 0 for a multiple of p. */
  function EulerCriterion(a: int, p: int): int
    requires p > 0
  {
    Exp(a, (p - 1) / 2) % p
  }

  /** Modulo an odd prime the criterion is 0 exactly for multiples of p. */
  lemma EulerCriterionZero(a: int, p: int)
    requires IsPrime(p) && p % 2 == 1
    ensures EulerCriterion(a, p) == 0 <==> a % p == 0
  {
    var e := (p - 1) / 2;
    if a % p == 0 {
      ExpCong(a, 0, e, p);
      ExpOfZero(e);
    } else {
      ExpNonZeroModPrime(a, e, p);
    }
  }

  /**
   * Euler's shortcut: for p == 3 (mod 4) and a residue a, a^((p+1)/4) is a
   * square root of a.
   */
  lemma EulerRoot(a: int, p: int)
    requires p > 0 && p % 4 == 3 && EulerCriterion(a, p) == 1
    ensures var r := Exp(a, (p + 1) / 4) % p; (r * r) % p == a % p
  {
    var h := (p + 1) / 4;
    assert h + h == (p - 1) / 2 + 1;
    SquareOfHalfPower(a, h, (p - 1) / 2);
    SquareRootFromUnit(Exp(a, h), Exp(a, (p - 1) / 2), a, p);
  }

  /** a^h * a^h == a^m * a when h + h == m + 1. */
  lemma SquareOfHalfPower(a: int, h: nat, m: nat)
    requires h + h == m + 1
    ensures Exp(a, h) * Exp(a, h) == Exp(a, m) * a
  {
    ExpAdd(a, h, h);
    ExpAdd(a, m, 1);
  }

  /** If e^2 == g * a and g == 1 modulo p, then e mod p is a square root of a. */
  lemma SquareRootFromUnit(e: int, g: int, a: int, p: int)
    requires p > 1 && e * e == g * a && g % p == 1
    ensures ((e % p) * (e % p)) % p == a % p
  {
    ModIdem(e, p);
    ModEqMul(e % p, e, e % p, e, p);
    ModSmall(1, p);
    ModEqMul(g, 1, a, a, p);
  }

  /** p - r is a square root whenever r is. */
  lemma NegatedRoot(r: int, a: int, p: int)
    requires p > 0 && (r * r) % p == a % p
    ensures ((p - r) * (p - r)) % p == a % p
  {
    NegatedSquare(r, p);
    ModAddMultiple(r * r, p - 2 * r, p);
  }

  lemma NegatedSquare(r: int, p: int)
    ensures (p - r) * (p - r) == r * r + (p - 2 * r) * p
  {
  }

  /** Two square roots of the same value modulo a prime agree up to sign. */
  lemma SquareRootsAgree(y: int, y0: int, p: int)
    requires IsPrime(p) && (y * y) % p == (y0 * y0) % p
    ensures (y - y0) % p == 0 || (y + y0) % p == 0
  {
    ModDiffFromEq(y * y, y0 * y0, p);
    assert (y - y0) * (y + y0) == y * y - y0 * y0;
    EuclidLemma(y - y0, y + y0, p);
  }

  /**
   * Reduced square roots: every reduced root of the square of a non-zero
   * reduced y0 is y0 or p - y0, and the only reduced root of 0 is 0.
   */
  lemma ReducedRootsAgree(y: int, y0: int, p: int)
    requires IsPrime(p) && 0 <= y < p && 0 <= y0 < p && (y * y) % p == (y0 * y0) % p
    ensures y0 == 0 ==> y == 0
    ensures y0 != 0 ==> y == y0 || y == p - y0
  {
    SquareRootsAgree(y, y0, p);
    if (y - y0) % p == 0 {
      DivModUnique(y - y0, p, if y < y0 then -1 else 0, if y < y0 then y - y0 + p else y - y0);
    } else {
      DivModUnique(y + y0, p, if y + y0 < p then 0 else 1, if y + y0 < p then y + y0 else y + y0 - p);
    }
  }

  /** B * u == B * v modulo a prime that does not divide B gives u == v. */
  lemma CancelFactor(B: int, u: int, v: int, p: int)
    requires IsPrime(p) && B % p != 0 && (B * u) % p == (B * v) % p
    ensures u % p == v % p
  {
    ModDiffFromEq(B * u, B * v, p);
    assert B * (u - v) == B * u - B * v;
    EuclidLemma(B, u - v, p);
    ModEqFromDiff(u, v, p);
  }

  /** Products of two square roots are square roots of the product. */
  lemma RootOfProduct(x: int, a: int, y: int, b: int, p: int)
    requires p > 0 && (x * x) % p == a % p && (y * y) % p == b % p
    ensures ((x * y) * (x * y)) % p == (a * b) % p
  {
    assert (x * y) * (x * y) == (x * x) * (y * y);
    ModEqMul(x * x, a, y * y, b, p);
  }
}
