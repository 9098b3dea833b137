/**
 * The Montgomery-curve engine, B*y^2 = x^3 + A*x^2 + x over the integers
 * modulo an odd prime p: modular powers, quadratic-residue tests, square
 * roots, point enumeration and the affine group law with the (0, 0) and
 * (0, -1) sentinels.
 */
module MontgomeryCurve {

  import opened Modular
  import opened Field
  import opened Fermat
  import opened Points

  // ---------------------------------------------------------------------------
  // Modular powers

  /**
   * Square-and-multiply, as `modular_pow`. A non-positive exponent skips the
   * loop and leaves the initial 1 unreduced.
   */
  method ModularPow(base: int, exponent: int, modulus: int) returns (result: int)
    requires modulus > 0
    ensures exponent <= 0 ==> result == 1
    ensures exponent > 0 ==> result == Exp(base, exponent) % modulus
  {
    result := 1;
    var b, e := base, exponent;
    while e > 0
      invariant exponent <= 0 ==> result == 1 && e == exponent
      invariant exponent > 0 ==> e >= 0 && (result * Exp(b, e)) % modulus == Exp(base, exponent) % modulus
      invariant exponent > 0 && e == 0 ==> 0 <= result < modulus
    {
      // e & 1 and e >> 1 on a positive e
      SquareAndMultiplyStep(result, b, e, modulus);
      if e % 2 == 1 {
        result := (result * b) % modulus;
      }
      e := e / 2;
      b := (b * b) % modulus;
    }
    if exponent > 0 {
      assert result * Exp(b, 0) == result;
      ModSmall(result, modulus);
    }
  }

  /**
   * The second square-and-multiply, as `power_modulo`. Its loop runs while the
   * exponent is non-zero, so a negative exponent would never stop: callers
   * pass a natural number.
   */
  method PowerModulo(a: int, b: nat, n: int) returns (result: int)
    requires n > 0
    ensures b == 0 ==> result == 1
    ensures b > 0 ==> result == Exp(a, b) % n
  {
    result := 1;
    var base, e := a, b;
    while e != 0
      invariant b == 0 ==> result == 1 && e == 0
      invariant b > 0 ==> (result * Exp(base, e)) % n == Exp(a, b) % n
      invariant b > 0 && e == 0 ==> 0 <= result < n
    {
      SquareAndMultiplyStep(result, base, e, n);
      if e % 2 == 1 {
        result := (result * base) % n;
      }
      base := (base * base) % n;
      e := e / 2;
    }
    if b > 0 {
      assert result * Exp(base, 0) == result;
      ModSmall(result, n);
    }
  }

  /** `euler`: m^((p+1)/4) mod p, a square root of m when p == 3 (mod 4). */
  method Euler(quadraticResidue: int, prime: int) returns (root: int)
    requires prime > 0
    ensures prime >= 3 ==> root == Exp(quadraticResidue, (prime + 1) / 4) % prime
    ensures prime % 4 == 3 && EulerCriterion(quadraticResidue, prime) == 1 ==>
              0 <= root < prime && (root * root) % prime == quadraticResidue % prime
  {
    root := ModularPow(quadraticResidue, (prime + 1) / 4, prime);
    if prime % 4 == 3 && EulerCriterion(quadraticResidue, prime) == 1 {
      EulerRoot(quadraticResidue, prime);
    }
  }

  // ---------------------------------------------------------------------------
  // The curve equation

  /** The right-hand side x^3 + A*x^2 + x of the Montgomery equation. */
  function CurveRhs(A: int, x: int): int
  {
    x * x * x + A * x * x + x
  }

  /** (x, y) satisfies B*y^2 == x^3 + A*x^2 + x modulo p. */
  predicate OnCurve(A: int, B: int, p: int, x: int, y: int)
    requires p > 0
  {
    (B * y * y) % p == CurveRhs(A, x) % p
  }

  /**
   * `findM`: the value y^2 must take above x, the right-hand side times the
   * inverse of B; None where the inverse does not exist.
   */
  function FindM(A: int, B: int, x: int, p: int): (r: Option<int>)
    requires p > 1
    ensures r.Some? <==> Gcd(B % p, p) == 1
    ensures r.Some? ==> 0 <= r.value < p && (B * r.value) % p == CurveRhs(A, x) % p
  {
    match ModInverse(B, p)
    case None => None
    case Some(inv) =>
      var m := ((x * x * x + A * x * x + x) * inv) % p;
      QuotientUnreduced(CurveRhs(A, x), B, inv, p);
      Some(m)
  }

  /** (n * inv) mod m is the quotient n / d when inv inverts d. */
  lemma QuotientUnreduced(n: int, d: int, inv: int, m: int)
    requires m > 1 && (d * inv) % m == 1
    ensures (d * ((n * inv) % m)) % m == n % m
  {
    ModIdem(n, m);
    ModEqMul(n % m, n, inv, inv, m);
    QuotientTimesDivisor(n, d, inv, m);
    assert ((n % m) * inv) % m == (n * inv) % m;
    assert d * ((n * inv) % m) == ((n * inv) % m) * d;
  }

  /** The residue FindM computes depends only on x modulo p. */
  lemma FindMPeriodic(A: int, B: int, x: int, p: int)
    requires p > 1
    ensures FindM(A, B, x + p, p) == FindM(A, B, x, p)
  {
    CubicShift(A, 1, 0, x, p);
    assert CurveRhs(A, x + p) == (x + p) * (x + p) * (x + p) + A * (x + p) * (x + p) + 1 * (x + p) + 0;
    assert CurveRhs(A, x) == x * x * x + A * x * x + 1 * x + 0;
    match ModInverse(B, p)
    case None =>
    case Some(inv) =>
      ModEqMul(CurveRhs(A, x + p), CurveRhs(A, x), inv, inv, p);
  }

  /**
   * `findQRForSW`: the short-Weierstrass right-hand side x^3 + a*x + b mod p,
   * kept in this file beside the Montgomery one.
   */
  function FindQRForSW(a: int, b: int, x: int, p: int): (r: int)
    requires p > 0
    ensures 0 <= r < p
  {
    (x * x * x + a * x + b) % p
  }

  /** FindQRForSW depends only on x modulo p. */
  lemma FindQRForSWPeriodic(a: int, b: int, x: int, p: int)
    requires p > 0
    ensures FindQRForSW(a, b, x + p, p) == FindQRForSW(a, b, x, p)
  {
    CubicShift(0, a, b, x, p);
  }

  // ---------------------------------------------------------------------------
  // Quadratic-residue tests

  /** `legendre`: Euler's criterion a^((p-1)/2) mod p via ModularPow. */
  method Legendre(a: int, p: int) returns (r: int)
    requires p > 0
    ensures p >= 3 ==> r == EulerCriterion(a, p)
    ensures p < 3 ==> r == 1
    ensures IsPrime(p) && p % 2 == 1 ==> (r == 0 <==> a % p == 0)
  {
    r := ModularPow(a, (p - 1) / 2, p);
    if IsPrime(p) && p % 2 == 1 {
      EulerCriterionZero(a, p);
    }
  }

  /** `legendre_symbol`: the same criterion via PowerModulo; `(p-1) >> 1`. */
  method LegendreSymbol(a: int, p: int) returns (r: int)
    requires p > 0
    ensures p >= 3 ==> r == EulerCriterion(a, p)
    ensures p < 3 ==> r == 1
    ensures IsPrime(p) && p % 2 == 1 ==> (r == 0 <==> a % p == 0)
  {
    r := PowerModulo(a, (p - 1) / 2, p);
    if IsPrime(p) && p % 2 == 1 {
      EulerCriterionZero(a, p);
    }
  }

  // ---------------------------------------------------------------------------
  // Extended Euclid and the inverse built on it

  /**
   * `extended_gcd`: the gcd of a and b together with Bezout coefficients,
   * kept as two rolling pairs of coefficients.
   */
  method ExtendedGcd(a: nat, b: nat) returns (g: nat, u: int, v: int)
    ensures g == Gcd(a, b) && a * u + b * v == g
  {
    if a == 0 {
      return b, 0, 1;
    }
    if b == 0 {
      return a, 1, 0;
    }
    var x: int, y: int := a, b;
    var uPrev: int, vPrev: int, uCur: int, vCur: int := 1, 0, 0, 1;
    while true
      invariant x > 0 && y > 0
      invariant Gcd(x, y) == Gcd(a, b)
      invariant a * uPrev + b * vPrev == x
      invariant a * uCur + b * vCur == y
      decreases y
    {
      var q := x / y;
      var r := x % y;
      BezoutStep(a, b, uPrev, vPrev, x, uCur, vCur, y);
      x, y := y, r;
      if y == 0 {
        return x, uCur, vCur;
      }
      var uNext := uPrev - q * uCur;
      var vNext := vPrev - q * vCur;
      uPrev, vPrev := uCur, vCur;
      uCur, vCur := uNext, vNext;
    }
  }

  /**
   * One Euclid step on the rolling pairs: subtracting x / y times the pair
   * for y from the pair for x gives a pair for x % y.
   */
  lemma BezoutStep(a: int, b: int, u1: int, v1: int, x: int, u2: int, v2: int, y: int)
    requires y > 0 && a * u1 + b * v1 == x && a * u2 + b * v2 == y
    ensures a * (u1 - (x / y) * u2) + b * (v1 - (x / y) * v2) == x % y
  {
    var q := x / y;
    assert x == q * y + x % y;
    assert a * (u1 - q * u2) + b * (v1 - q * v2) == (a * u1 + b * v1) - q * (a * u2 + b * v2);
  }

  /**
   * `inverse_modulo`: the Bezout coefficient of a, reduced modulo n. It is
   * an inverse of a exactly when gcd(a, n) == 1; the source does not check.
   */
  method InverseModulo(a: nat, n: int) returns (r: int)
    requires n > 0
    ensures 0 <= r < n
    ensures Gcd(a, n) == 1 ==> (a * r) % n == 1 % n
  {
    var g, u, v := ExtendedGcd(a, n);
    r := u % n;
    if g == 1 {
      assert a * u + v * n == 1;
      ModAddMultiple(a * u, v, n);
      ModIdem(u, n);
      ModEqMul(a, a, u, r, n);
    }
  }
  // ---------------------------------------------------------------------------
  // Square roots modulo p

  /**
   * `_tonelli_shanks_recursive`: a square root of a, given that
   * a^((p-1) / 2^k) == 1 and a non-residue b with its inverse. The loop halves
   * m while a^m stays 1; when a^m reaches -1, a is multiplied by a power of b
   * that restores 1 and the root of the product is corrected by a power of
   * b's inverse. Each recursive call starts from a strictly smaller m.
   */
  method TonelliShanksRecursive(a: int, k: nat, p: int, b: int, bInverse: int) returns (root: int)
    requires IsPrime(p) && p % 2 == 1
    requires k >= 1 && (p - 1) % Pow2(k) == 0 && (p - 1) / Pow2(k) >= 1
    requires Exp(a, (p - 1) / Pow2(k)) % p == 1
    requires EulerCriterion(b, p) == p - 1 && (b * bInverse) % p == 1
    ensures 0 <= root < p && (root * root) % p == a % p
    decreases (p - 1) / Pow2(k)
  {
    var m := (p - 1) / Pow2(k);
    var aM := 1;
    var j := k;
    DivExact(p - 1, Pow2(k));
    ModSmall(1, p);
    while m % 2 == 0 && aM == 1
      invariant k <= j && 1 <= m <= (p - 1) / Pow2(k) && m * Pow2(j) == p - 1
      invariant j > k ==> m < (p - 1) / Pow2(k)
      invariant aM == Exp(a, m) % p
      invariant aM == 1 || aM == p - 1
      invariant aM == p - 1 ==> j > k
      decreases m
    {
      HalveExponent(m, j);
      m := m / 2;
      j := j + 1;
      aM := PowerModulo(a, m, p);
      HalvingSquareRootOfOne(a, m, p);
    }
    if aM == p - 1 {
      var bPower := PowerModulo(b, Pow2(j - 1), p);
      var aNext := (a * bPower) % p;
      DivModUnique(p - 1, Pow2(j), m, 0);
      NextIsResidue(a, b, m, j, p);
      var aNextRoot := TonelliShanksRecursive(aNext, j, p, b, bInverse);
      var bInversePower := PowerModulo(bInverse, Pow2(j - 2), p);
      root := (aNextRoot * bInversePower) % p;
      ModIdem(a * bPower, p);
      CombineRoots(a, b, bInverse, j, p, aNextRoot, bInversePower);
    } else {
      root := PowerModulo(a, (m + 1) / 2, p);
      OddOrderRoot(a, m, p);
    }
  }

  /** Halving an even m while doubling 2^j keeps the product. */
  lemma HalveExponent(m: int, j: nat)
    requires m % 2 == 0
    ensures (m / 2) * Pow2(j + 1) == m * Pow2(j)
  {
    assert Pow2(j + 1) == 2 * Pow2(j);
    assert m == 2 * (m / 2);
  }

  /** a^m == -1 and b^((p-1)/2) == -1 make (a * b^(2^(j-1)))^m == 1. */
  lemma NextIsResidue(a: int, b: int, m: nat, j: nat, p: int)
    requires p > 1 && j >= 1 && m * Pow2(j) == p - 1
    requires Exp(a, m) % p == p - 1 && EulerCriterion(b, p) == p - 1
    ensures Exp((a * (Exp(b, Pow2(j - 1)) % p)) % p, m) % p == 1
  {
    var n := Pow2(j - 1);
    var c := Exp(b, n) % p;
    assert Pow2(j) == 2 * n;
    assert p - 1 == 2 * (n * m);
    DivModUnique(p - 1, 2, n * m, 0);
    ExpMul(b, n, m);
    ModIdem(Exp(b, n), p);
    ExpCong(c, Exp(b, n), m, p);
    assert Exp(c, m) % p == EulerCriterion(b, p);
    ExpProduct(a, c, m);
    ExpMod(a * c, m, p);
    ModSmall(p - 1, p);
    ModEqMul(Exp(a, m), p - 1, Exp(c, m), p - 1, p);
    MinusOneSquared(p);
  }

  /**
   * The correction step: if r is a root of a * b^(2^(j-1)), then r times
   * binv^(2^(j-2)) is a root of a.
   */
  lemma CombineRoots(a: int, b: int, bInverse: int, j: nat, p: int, r: int, u: int)
    requires p > 1 && j >= 2 && (b * bInverse) % p == 1
    requires (r * r) % p == (a * (Exp(b, Pow2(j - 1)) % p)) % p
    requires u == Exp(bInverse, Pow2(j - 2)) % p
    ensures 0 <= (r * u) % p < p && (((r * u) % p) * ((r * u) % p)) % p == a % p
  {
    var n := Pow2(j - 1);
    var aNext := (a * (Exp(b, n) % p)) % p;
    var powI := Exp(bInverse, n);
    assert (r * r) % p == aNext % p by { ModIdem(a * (Exp(b, n) % p), p); }
    assert (u * u) % p == powI % p by { HalfPowerRoot(bInverse, j, p, u); }
    assert (aNext * powI) % p == a % p by { CancelPower(a, b, bInverse, n, p); }
    CombineSquares(r, u, aNext, powI, a, p);
  }

  /** x^(2^(j-2)) mod p squares to x^(2^(j-1)). */
  lemma HalfPowerRoot(x: int, j: nat, p: int, u: int)
    requires p > 1 && j >= 2 && u == Exp(x, Pow2(j - 2)) % p
    ensures (u * u) % p == Exp(x, Pow2(j - 1)) % p
  {
    var h := Pow2(j - 2);
    assert Pow2(j - 1) == h + h;
    ExpAdd(x, h, h);
    ModIdem(Exp(x, h), p);
    ModEqMul(u, Exp(x, h), u, Exp(x, h), p);
  }

  /** A root of x times a root of y, reduced, is a root of x * y. */
  lemma CombineSquares(r: int, u: int, x: int, y: int, a: int, p: int)
    requires p > 1 && (r * r) % p == x % p && (u * u) % p == y % p && (x * y) % p == a % p
    ensures 0 <= (r * u) % p < p && (((r * u) % p) * ((r * u) % p)) % p == a % p
  {
    RootOfProduct(r, x, u, y, p);
    ModIdem(r * u, p);
    ModEqMul((r * u) % p, r * u, (r * u) % p, r * u, p);
  }

  /** (a * (b^n mod p) mod p) * binv^n == a modulo p when b * binv == 1. */
  lemma CancelPower(a: int, b: int, bInverse: int, n: nat, p: int)
    requires p > 1 && (b * bInverse) % p == 1
    ensures (((a * (Exp(b, n) % p)) % p) * Exp(bInverse, n)) % p == a % p
  {
    var powB, powI := Exp(b, n), Exp(bInverse, n);
    var aNext := (a * (powB % p)) % p;
    ModIdem(powB, p);
    ModIdem(a * (powB % p), p);
    ModEqMul(a, a, powB % p, powB, p);
    ModEqMul(aNext, a * powB, powI, powI, p);
    assert (a * powB) * powI == a * (powB * powI);
    ExpProduct(b, bInverse, n);
    ModSmall(1, p);
    ExpCong(b * bInverse, 1, n, p);
    ExpOfOne(n);
    ModEqMul(a, a, powB * powI, 1, p);
  }

  /** For odd m with a^m == 1, a^((m+1)/2) is a square root of a. */
  lemma OddOrderRoot(a: int, m: nat, p: int)
    requires p > 1 && m % 2 == 1 && Exp(a, m) % p == 1
    ensures var r := Exp(a, (m + 1) / 2) % p; (r * r) % p == a % p
  {
    var h := (m + 1) / 2;
    SquareOfHalfPower(a, h, m);
    SquareRootFromUnit(Exp(a, h), Exp(a, m), a, p);
  }

  /**
   * `tonelli_shanks`: None when a is not a non-zero square, otherwise a
   * square root of a. The non-residue b that the source draws at random is
   * a parameter here.
   */
  method TonelliShanks(a: int, p: int, nonResidue: int) returns (root: Option<int>)
    requires IsPrime(p) && p % 2 == 1
    requires 2 <= nonResidue < p && EulerCriterion(nonResidue, p) == p - 1
    ensures root.None? <==> EulerCriterion(a, p) != 1
    ensures root.Some? ==> 0 <= root.value < p && (root.value * root.value) % p == a % p
  {
    var symbol := LegendreSymbol(a, p);
    if symbol != 1 {
      return None;
    }
    var bInverse := InverseModulo(nonResidue, p);
    CoprimeBelowPrime(nonResidue, p);
    TonelliStart(a, p, nonResidue, bInverse);
    var r := TonelliShanksRecursive(a, 1, p, nonResidue, bInverse);
    root := Some(r);
  }

  /** The recursion starts at k == 1: a^((p-1)/2) == 1 is Euler's criterion. */
  lemma TonelliStart(a: int, p: int, b: int, bInverse: int)
    requires IsPrime(p) && p % 2 == 1 && EulerCriterion(a, p) == 1
    requires (b * bInverse) % p == 1 % p
    ensures (p - 1) % Pow2(1) == 0 && (p - 1) / Pow2(1) >= 1
    ensures Exp(a, (p - 1) / Pow2(1)) % p == 1 && (b * bInverse) % p == 1
  {
    assert Pow2(1) == 2;
    ModSmall(1, p);
  }
  // ---------------------------------------------------------------------------
  // The group law

  /**
   * The Montgomery chord formulas for a line of slope k through P1 and P2:
   * x3 = B*k^2 - A - x1 - x2 and y3 = (2*x1 + x2 + A)*k - B*k^3 - y1. With
   * P1 == P2 and the tangent slope they are the doubling formulas.
   */
  function ChordSum(A: int, B: int, p: int, P1: Point, P2: Point, k: int): Point
    requires p > 0
  {
    Point((B * k * k - A - P1.x - P2.x) % p, ((2 * P1.x + P2.x + A) * k - B * k * k * k - P1.y) % p)
  }

  /** The chord sum for the slope n / d, or NoInverse when d is not invertible. */
  function AlongSlope(A: int, B: int, p: int, P1: Point, P2: Point, n: int, d: int): Point
    requires p > 1
  {
    match Slope(n, d, p)
    case None => NoInverse
    case Some(k) => ChordSum(A, B, p, P1, P2, k)
  }

  /**
   * The chord formulas as the source evaluates them, reducing modulo p after
   * every operation and cubing and squaring k modulo p.
   */
  function ReducedChord(A: int, B: int, p: int, P1: Point, P2: Point, k: int): (r: Point)
    requires p > 1
    ensures r == ChordSum(A, B, p, P1, P2, k)
  {
    var x3 := ((((B * ((k * k) % p)) % p - A) % p - P1.x) % p - P2.x) % p;
    var y3 := (((((2 * P1.x) % p + P2.x) % p + A) % p * k) % p - (B * ((k * k * k) % p)) % p - P1.y) % p;
    ReducedChordX(A, B, p, k, P1.x, P2.x);
    ReducedChordY(A, B, p, k, P1.x, P2.x, P1.y);
    Point(x3, y3)
  }

  lemma ReducedChordX(A: int, B: int, p: int, k: int, x1: int, x2: int)
    requires p > 0
    ensures ((((B * ((k * k) % p)) % p - A) % p - x1) % p - x2) % p == (B * k * k - A - x1 - x2) % p
  {
    var k2 := (k * k) % p;
    ModIdem(k * k, p);
    var t1 := (B * k2) % p;
    ModEqMul(B, B, k2, k * k, p);
    ModIdem(B * k2, p);
    assert B * (k * k) == B * k * k;
    var t2 := (t1 - A) % p;
    ModEqSub(t1, B * k * k, A, A, p);
    ModIdem(t1 - A, p);
    var t3 := (t2 - x1) % p;
    ModEqSub(t2, B * k * k - A, x1, x1, p);
    ModIdem(t2 - x1, p);
    ModEqSub(t3, B * k * k - A - x1, x2, x2, p);
  }

  lemma ReducedChordY(A: int, B: int, p: int, k: int, x1: int, x2: int, y1: int)
    requires p > 0
    ensures (((((2 * x1) % p + x2) % p + A) % p * k) % p - (B * ((k * k * k) % p)) % p - y1) % p
         == ((2 * x1 + x2 + A) * k - B * k * k * k - y1) % p
  {
    var c := 2 * x1 + x2 + A;
    var u1 := (2 * x1) % p;
    ModIdem(2 * x1, p);
    var u2 := (u1 + x2) % p;
    ModEqAdd(u1, 2 * x1, x2, x2, p);
    ModIdem(u1 + x2, p);
    var u3 := (u2 + A) % p;
    ModEqAdd(u2, 2 * x1 + x2, A, A, p);
    ModIdem(u2 + A, p);
    var u4 := (u3 * k) % p;
    ModEqMul(u3, c, k, k, p);
    ModIdem(u3 * k, p);
    var v := (B * ((k * k * k) % p)) % p;
    ModIdem(k * k * k, p);
    ModEqMul(B, B, (k * k * k) % p, k * k * k, p);
    ModIdem(B * ((k * k * k) % p), p);
    assert B * (k * k * k) == B * k * k * k;
    ModEqSub(u4, c * k, v, B * k * k * k, p);
    ModEqSub(u4 - v, c * k - B * k * k * k, y1, y1, p);
  }

  lemma ChordDifference(A: int, k: int, c: int, x1: int, y1: int, x2: int, y2: int)
    ensures ((2 * x1 + x2 + A) * k - c - y1) - ((2 * x2 + x1 + A) * k - c - y2) == (y2 - y1) - k * (x2 - x1)
  {
  }

  /** Congruent slopes give the same chord sum. */
  lemma ChordSumCongruent(A: int, B: int, p: int, P1: Point, P2: Point, k: int, s: int)
    requires p > 0 && k % p == s % p
    ensures ChordSum(A, B, p, P1, P2, k) == ChordSum(A, B, p, P1, P2, s)
  {
    CongruentSquareTerm(B, A + P1.x + P2.x, k, s, p);
    CongruentCubeTerm(B, 2 * P1.x + P2.x + A, P1.y, k, s, p);
  }

  /** B k^2 - e depends only on k modulo p. */
  lemma CongruentSquareTerm(B: int, e: int, k: int, s: int, p: int)
    requires p > 0 && k % p == s % p
    ensures (B * k * k - e) % p == (B * s * s - e) % p
  {
    ModEqMul(k, s, k, s, p);
    ModEqMul(B, B, k * k, s * s, p);
    assert B * (k * k) == B * k * k && B * (s * s) == B * s * s;
    ModEqSub(B * k * k, B * s * s, e, e, p);
  }

  /** c k - B k^3 - y depends only on k modulo p. */
  lemma CongruentCubeTerm(B: int, c: int, y: int, k: int, s: int, p: int)
    requires p > 0 && k % p == s % p
    ensures (c * k - B * k * k * k - y) % p == (c * s - B * s * s * s - y) % p
  {
    ModEqMul(c, c, k, s, p);
    ModEqMul(k, s, k, s, p);
    ModEqMul(k * k, s * s, k, s, p);
    ModEqMul(B, B, k * k * k, s * s * s, p);
    assert B * (k * k * k) == B * k * k * k && B * (s * s * s) == B * s * s * s;
    ModEqAdd(B * k * k * k, B * s * s * s, y, y, p);
    ModEqSub(c * k, c * s, B * k * k * k + y, B * s * s * s + y, p);
    assert c * k - B * k * k * k - y == c * k - (B * k * k * k + y);
    assert c * s - B * s * s * s - y == c * s - (B * s * s * s + y);
  }

  /** The inverse of a residue is the inverse of the value. */
  lemma ModInverseOfResidue(x: int, m: int)
    requires m > 1
    ensures ModInverse(x % m, m) == ModInverse(x, m)
  {
    ModIdem(x, m);
  }

  /**
   * `doublepoint`: (0, 0) when y == 0; otherwise the tangent-line formulas,
   * or NoInverse when 2By is not invertible. The source leaves the slope
   * unreduced; DoubleIsTangentChord shows the result does not depend on the
   * representative.
   */
  function DoublePoint(A: int, B: int, p: int, P: Point): (r: Point)
    requires p > 1
    ensures P.y == 0 ==> r == Origin
    ensures r == NoInverse || InField(r, p)
  {
    if P.y == 0 then Origin
    else
      var x, y := P.x, P.y;
      var numerator := ((((x * x) % p * 3) % p + ((2 * A) % p * x) % p) % p + 1) % p;
      var denominator := ((2 * B) % p * y) % p;
      match ModInverse(denominator, p)
      case None => NoInverse
      case Some(inv) => ReducedChord(A, B, p, P, P, numerator * inv)
  }

  /**
   * Doubling follows the tangent: the chord formulas with slope
   * (3x^2 + 2Ax + 1) / (2By), NoInverse when 2By is not invertible.
   */
  lemma DoubleIsTangentChord(A: int, B: int, p: int, P: Point)
    requires p > 1 && P.y != 0
    ensures DoublePoint(A, B, p, P) == AlongSlope(A, B, p, P, P, 3 * P.x * P.x + 2 * A * P.x + 1, 2 * B * P.y)
  {
    var x, y := P.x, P.y;
    var numerator := ((((x * x) % p * 3) % p + ((2 * A) % p * x) % p) % p + 1) % p;
    var denominator := ((2 * B) % p * y) % p;
    var n, d := 3 * x * x + 2 * A * x + 1, 2 * B * y;
    TangentTerms(A, B, p, x, y);
    TangentChord(A, B, p, P, numerator, n, denominator, d);
    match ModInverse(denominator, p)
    case None =>
      assert Slope(n, d, p).None?;
    case Some(inv) =>
      assert DoublePoint(A, B, p, P) == ChordSum(A, B, p, P, P, numerator * inv);
  }

  /**
   * The source's reduced numerator times the inverse of its reduced
   * denominator is a representative of the slope n / d.
   */
  lemma TangentChord(A: int, B: int, p: int, P: Point, numerator: int, n: int, denominator: int, d: int)
    requires p > 1 && numerator % p == n % p && denominator % p == d % p
    ensures ModInverse(denominator, p).None? <==> Slope(n, d, p).None?
    ensures ModInverse(denominator, p).Some? ==>
              ChordSum(A, B, p, P, P, numerator * ModInverse(denominator, p).value)
              == ChordSum(A, B, p, P, P, Slope(n, d, p).value)
  {
    ModInverseOfResidue(denominator, p);
    ModInverseOfResidue(d, p);
    match ModInverse(denominator, p)
    case None =>
    case Some(inv) =>
      TangentSlope(numerator, n, d, inv, p);
      ChordSumCongruent(A, B, p, P, P, numerator * inv, Slope(n, d, p).value);
  }

  /** The reduced numerator and denominator of the tangent slope. */
  lemma TangentTerms(A: int, B: int, p: int, x: int, y: int)
    requires p > 1
    ensures ((((x * x) % p * 3) % p + ((2 * A) % p * x) % p) % p + 1) % p == (3 * x * x + 2 * A * x + 1) % p
    ensures (((2 * B) % p * y) % p) % p == (2 * B * y) % p
  {
    ModIdem(x * x, p);
    ModEqMul((x * x) % p, x * x, 3, 3, p);
    ModIdem((x * x) % p * 3, p);
    assert x * x * 3 == 3 * x * x;
    ModIdem(2 * A, p);
    ModEqMul((2 * A) % p, 2 * A, x, x, p);
    ModIdem((2 * A) % p * x, p);
    ModEqAdd((x * x) % p * 3 % p, 3 * x * x, (2 * A) % p * x % p, 2 * A * x, p);
    var s := (((x * x) % p * 3) % p + ((2 * A) % p * x) % p) % p;
    ModIdem(((x * x) % p * 3) % p + ((2 * A) % p * x) % p, p);
    ModEqAdd(s, 3 * x * x + 2 * A * x, 1, 1, p);
    ModIdem(2 * B, p);
    ModEqMul((2 * B) % p, 2 * B, y, y, p);
    ModIdem((2 * B) % p * y, p);
  }

  /** numerator * inv is a representative of the slope n / d. */
  lemma TangentSlope(numerator: int, n: int, d: int, inv: int, p: int)
    requires p > 1 && numerator % p == n % p && ModInverse(d, p) == Some(inv)
    ensures Slope(n, d, p).Some? && (numerator * inv) % p == Slope(n, d, p).value % p
  {
    var s := Slope(n, d, p).value;
    assert s == ((n % p) * inv) % p;
    ModIdem(n, p);
    ModIdem((n % p) * inv, p);
    ModEqMul(numerator, n % p, inv, inv, p);
  }

  /**
   * `addpoints`: doubling for equal points, (0, 0) for distinct points on a
   * vertical line, otherwise the chord formulas, or NoInverse when x2 - x1
   * is not invertible.
   */
  function AddPoints(A: int, B: int, p: int, P1: Point, P2: Point): (r: Point)
    requires p > 1
    ensures P1 == P2 ==> r == DoublePoint(A, B, p, P1)
    ensures P1 != P2 && P1.x == P2.x ==> r == Origin
    ensures r == NoInverse || InField(r, p)
  {
    if P1 == P2 then DoublePoint(A, B, p, P1)
    else if P1.x == P2.x then Origin
    else
      match ModInverse((P2.x - P1.x) % p, p)
      case None => NoInverse
      case Some(inv) => ReducedChord(A, B, p, P1, P2, (((P2.y - P1.y) % p) * inv) % p)
  }

  /** Distinct abscissas: the chord formulas with slope (y2 - y1) / (x2 - x1). */
  lemma AddIsChord(A: int, B: int, p: int, P1: Point, P2: Point)
    requires p > 1 && P1.x != P2.x
    ensures AddPoints(A, B, p, P1, P2) == AlongSlope(A, B, p, P1, P2, P2.y - P1.y, P2.x - P1.x)
  {
    ModInverseOfResidue(P2.x - P1.x, p);
  }

  /** Modulo a prime the chord sum does not depend on the order of the points. */
  lemma AddPointsCommutative(A: int, B: int, p: int, P1: Point, P2: Point)
    requires IsPrime(p)
    ensures AddPoints(A, B, p, P1, P2) == AddPoints(A, B, p, P2, P1)
  {
    if P1.x != P2.x {
      var n, d := P2.y - P1.y, P2.x - P1.x;
      AddIsChord(A, B, p, P1, P2);
      AddIsChord(A, B, p, P2, P1);
      SlopeNegated(n, d, p);
      assert -n == P1.y - P2.y && -d == P1.x - P2.x;
      match Slope(n, d, p)
      case None =>
      case Some(k) =>
        ChordSumSymmetric(A, B, p, P1, P2, k, n, d);
    }
  }

  /** The chord sum is symmetric in its points when k is the slope between them. */
  lemma ChordSumSymmetric(A: int, B: int, p: int, P1: Point, P2: Point, k: int, n: int, d: int)
    requires p > 1 && n == P2.y - P1.y && d == P2.x - P1.x && (k * d) % p == n % p
    ensures ChordSum(A, B, p, P1, P2, k) == ChordSum(A, B, p, P2, P1, k)
  {
    var c := B * k * k * k;
    var y12 := (2 * P1.x + P2.x + A) * k - c - P1.y;
    var y21 := (2 * P2.x + P1.x + A) * k - c - P2.y;
    var kd := k * d;
    ChordDifference(A, k, c, P1.x, P1.y, P2.x, P2.y);
    assert y12 - y21 == n - kd;
    ModDiffFromEq(n, kd, p);
    ModEqFromDiff(y12, y21, p);
    var e := B * k * k - A;
    assert B * k * k - A - P1.x - P2.x == e - P2.x - P1.x;
  }
  // ---------------------------------------------------------------------------
  // Subtraction

  /**
   * `substractpoints` as written: it negates y2 into a local variable and then
   * passes the original second point on, so it returns the sum P1 + P2.
   */
  function SubstractPoints(A: int, B: int, p: int, P1: Point, P2: Point): (r: Point)
    requires p > 1
    ensures r == AddPoints(A, B, p, P1, P2)
  {
    var negatedY := if 0 - P2.y < 0 then 0 - P2.y + p else 0 - P2.y;
    AddPoints(A, B, p, P1, P2)
  }

  /** Subtraction as evidently intended: add the point with the negated y. */
  function SubtractPoints(A: int, B: int, p: int, P1: Point, P2: Point): (r: Point)
    requires p > 1
    ensures InField(P2, p) ==> r == AddPoints(A, B, p, P1, Negate(P2, p))
  {
    var negatedY := if 0 - P2.y < 0 then 0 - P2.y + p else 0 - P2.y;
    NegatedInField(P2, p);
    AddPoints(A, B, p, P1, Point(P2.x, negatedY))
  }

  /** On a reduced point the conditional add of p is the negation. */
  lemma NegatedInField(P: Point, p: int)
    requires p > 1
    ensures InField(P, p) ==> Negate(P, p) == Point(P.x, if 0 - P.y < 0 then 0 - P.y + p else 0 - P.y)
  {
    if InField(P, p) {
      if P.y > 0 {
        DivModUnique(-P.y, p, -1, p - P.y);
      }
    }
  }

  /** With the negation passed on, P - P is the point at infinity. */
  lemma SubtractSelf(A: int, B: int, p: int, P: Point)
    requires p > 1 && p % 2 == 1 && InField(P, p)
    ensures SubtractPoints(A, B, p, P, P) == Origin
  {
    var Q := Point(P.x, if 0 - P.y < 0 then 0 - P.y + p else 0 - P.y);
    assert SubtractPoints(A, B, p, P, P) == AddPoints(A, B, p, P, Q);
    if P.y != 0 {
      assert Q.y == p - P.y && Q != P;
    } else {
      assert Q == P;
    }
  }

  /**
   * As written, P - P on the curve 1*y^2 = x^3 + 2x^2 + x over the integers
   * modulo 11 doubles the curve point (3, 2) instead of cancelling it.
   */
  lemma SubstractSelfCounterexample()
    ensures OnCurve(2, 1, 11, 3, 2)
    ensures SubstractPoints(2, 1, 11, Point(3, 2), Point(3, 2)) == Point(4, 10)
    ensures SubtractPoints(2, 1, 11, Point(3, 2), Point(3, 2)) == Origin
  {
    var P := Point(3, 2);
    assert CurveRhs(2, 3) == 48;
    DivModUnique(48, 11, 4, 4);
    DivModUnique(4, 11, 0, 4);
    assert ModInverse(4, 11) == Some(3) by {
      assert Bezout(4, 11) == (1, 3, -1);
    }
    assert 3 * 3 * 3 + 2 * 2 * 3 + 1 == 40;
    DivModUnique(40, 11, 3, 7);
    DivModUnique(21, 11, 1, 10);
    assert Slope(40, 4, 11) == Some(10);
    DivModUnique(92, 11, 8, 4);
    DivModUnique(-892, 11, -82, 10);
    assert ChordSum(2, 1, 11, P, P, 10) == Point(4, 10);
    DoubleIsTangentChord(2, 1, 11, P);
    assert DoublePoint(2, 1, 11, P) == Point(4, 10);
  }

  // ---------------------------------------------------------------------------
  // Scalar multiplication

  /** Bit i of k, as `bit_test`. */
  function Bit(k: nat, i: nat): bool
  {
    (k / Pow2(i)) % 2 == 1
  }

  /** The number of binary digits of k, as `bit_length`; 0 for k == 0. */
  function BitLength(k: nat): (r: nat)
    ensures k < Pow2(r)
    ensures k == 0 ==> r == 0
    ensures k > 0 ==> r >= 1 && Pow2(r - 1) <= k
  {
    if k == 0 then 0
    else
      var r := 1 + BitLength(k / 2);
      assert Pow2(r) == 2 * Pow2(r - 1);
      r
  }

  /** The bit at index BitLength(k), where the ladder starts, is clear. */
  lemma LeadingBitClear(k: nat)
    ensures !Bit(k, BitLength(k))
  {
    DivModUnique(k, Pow2(BitLength(k)), 0, k);
  }

  /** The bit just below it is set for every positive k. */
  lemma TopBitSet(k: nat)
    requires k > 0
    ensures Bit(k, BitLength(k) - 1)
  {
    var n := BitLength(k);
    assert Pow2(n) == 2 * Pow2(n - 1);
    DivModUnique(k, Pow2(n - 1), 1, k - Pow2(n - 1));
  }

  /** The two registers of the Montgomery ladder. */
  datatype LadderPair = LadderPair(p0: Point, p1: Point)

  /** One ladder step: a set bit updates p0 by addition, a clear bit p1. */
  function LadderStep(A: int, B: int, p: int, s: LadderPair, bit: bool): LadderPair
    requires p > 1
  {
    if bit then LadderPair(AddPoints(A, B, p, s.p0, s.p1), DoublePoint(A, B, p, s.p1))
    else LadderPair(DoublePoint(A, B, p, s.p0), AddPoints(A, B, p, s.p0, s.p1))
  }

  /**
   * The registers once bits BitLength(k) down to i have been processed,
   * starting from p0 == (0, 0) and p1 == P.
   */
  function LadderFrom(A: int, B: int, p: int, P: Point, k: nat, i: nat): LadderPair
    requires p > 1 && i <= BitLength(k) + 1
    decreases BitLength(k) + 1 - i
  {
    if i == BitLength(k) + 1 then LadderPair(Origin, P)
    else LadderStep(A, B, p, LadderFrom(A, B, p, P, k, i + 1), Bit(k, i))
  }

  /**
   * `multiplypoint`: the Montgomery ladder over the bits of k from index
   * bit_length(k) down to 0.
   */
  method MultiplyPoint(A: int, B: int, p: int, P: Point, k: nat) returns (r: Point)
    requires p > 1
    ensures r == LadderFrom(A, B, p, P, k, 0).p0
    ensures r == NoInverse || InField(r, p)
  {
    var p0, p1 := Origin, P;
    var idx: int := BitLength(k);
    while idx >= 0
      invariant -1 <= idx <= BitLength(k)
      invariant LadderPair(p0, p1) == LadderFrom(A, B, p, P, k, idx + 1)
    {
      assert LadderFrom(A, B, p, P, k, idx) == LadderStep(A, B, p, LadderPair(p0, p1), Bit(k, idx));
      if Bit(k, idx) {
        p0 := AddPoints(A, B, p, p0, p1);
        p1 := DoublePoint(A, B, p, p1);
      } else {
        p1 := AddPoints(A, B, p, p0, p1);
        p0 := DoublePoint(A, B, p, p0);
      }
      idx := idx - 1;
    }
    assert idx + 1 == 0;
    r := p0;
    LadderStaysReduced(A, B, p, P, k, 0);
  }

  /** The first step always sees a clear bit: p0 stays (0, 0), p1 becomes (0, 0) + P. */
  lemma LadderFirstStep(A: int, B: int, p: int, P: Point, k: nat)
    requires p > 1
    ensures LadderFrom(A, B, p, P, k, BitLength(k)) == LadderPair(Origin, AddPoints(A, B, p, Origin, P))
  {
    LeadingBitClear(k);
  }

  /** Multiplying by 0 gives the point at infinity. */
  lemma MultiplyByZero(A: int, B: int, p: int, P: Point)
    requires p > 1
    ensures LadderFrom(A, B, p, P, 0, 0).p0 == Origin
  {
    LadderFirstStep(A, B, p, P, 0);
  }

  /** Multiplying by 1 adds (0, 0) twice: (0, 0) + ((0, 0) + P). */
  lemma MultiplyByOne(A: int, B: int, p: int, P: Point)
    requires p > 1
    ensures LadderFrom(A, B, p, P, 1, 0).p0 == AddPoints(A, B, p, Origin, AddPoints(A, B, p, Origin, P))
  {
    LadderFirstStep(A, B, p, P, 1);
    TopBitSet(1);
  }

  /** After the first step both registers hold reduced points or NoInverse. */
  lemma {:induction false} LadderStaysReduced(A: int, B: int, p: int, P: Point, k: nat, i: nat)
    requires p > 1 && i <= BitLength(k)
    ensures var s := LadderFrom(A, B, p, P, k, i);
              (s.p0 == NoInverse || InField(s.p0, p)) && (s.p1 == NoInverse || InField(s.p1, p))
    decreases BitLength(k) - i
  {
    if i == BitLength(k) {
      LadderFirstStep(A, B, p, P, k);
    } else {
      LadderStaysReduced(A, B, p, P, k, i + 1);
    }
  }
  // ---------------------------------------------------------------------------
  // Point enumeration

  /**
   * How many points the enumeration lists above x: two for a non-zero
   * square m, one for m == 0, none otherwise.
   */
  function PointsAbove(A: int, B: int, p: int, x: int): nat
    requires p > 1
  {
    match FindM(A, B, x, p)
    case None => 0
    case Some(m) =>
      if EulerCriterion(m, p) == 1 then 2 else if EulerCriterion(m, p) == 0 then 1 else 0
  }

  /**
   * What the enumeration has appended once it reaches x == i: reduced points
   * on the curve, sorted by x, the two points above the same x summing to p
   * in y, exactly PointsAbove(x) entries for every x below i, and every
   * reduced curve point with x below i among them.
   */
  ghost predicate ListedBelow(A: int, B: int, p: int, i: int, xs: seq<int>, ys: seq<int>)
    requires p > 1
  {
    |xs| == |ys| && OnCurveBelow(A, B, p, i, xs, ys) && Sorted(xs) && Paired(p, xs, ys)
    && CountsBelow(A, B, p, i, xs) && CompleteBelow(A, B, p, i, xs, ys)
  }

  ghost predicate CompleteBelow(A: int, B: int, p: int, i: int, xs: seq<int>, ys: seq<int>)
    requires p > 1 && |xs| == |ys|
  {
    forall x, y :: 0 <= x < i && 0 <= y < p && OnCurve(A, B, p, x, y) ==>
      exists j :: 0 <= j < |xs| && xs[j] == x && ys[j] == y
  }

  ghost predicate OnCurveBelow(A: int, B: int, p: int, i: int, xs: seq<int>, ys: seq<int>)
    requires p > 1 && |xs| == |ys|
  {
    forall j :: 0 <= j < |xs| ==> 0 <= xs[j] < i && 0 <= ys[j] < p && OnCurve(A, B, p, xs[j], ys[j])
  }

  ghost predicate CountsBelow(A: int, B: int, p: int, i: int, xs: seq<int>)
    requires p > 1
  {
    forall x :: 0 <= x < p ==> multiset(xs)[x] == if x < i then PointsAbove(A, B, p, x) else 0
  }

  /** The completed-enumeration invariant, spelled out (a bridge for GeneratePoints). */
  lemma ListedBelowMeaning(A: int, B: int, p: int, xs: seq<int>, ys: seq<int>)
    requires p > 1 && ListedBelow(A, B, p, p, xs, ys)
    ensures |xs| == |ys|
    ensures forall i :: 0 <= i < |xs| ==> 0 <= xs[i] < p && 0 <= ys[i] < p && OnCurve(A, B, p, xs[i], ys[i])
    ensures forall i, j :: 0 <= i < j < |xs| ==> xs[i] <= xs[j]
    ensures forall i :: 0 <= i < |xs| - 1 && xs[i] == xs[i + 1] ==> ys[i] + ys[i + 1] == p
    ensures forall x :: 0 <= x < p ==> multiset(xs)[x] == PointsAbove(A, B, p, x)
    ensures forall x, y :: 0 <= x < p && 0 <= y < p && OnCurve(A, B, p, x, y) ==>
              exists j :: 0 <= j < |xs| && xs[j] == x && ys[j] == y
  {
  }

  /**
   * Completeness carries over to x == i + 1 when the entries appended for
   * x == i include every reduced curve point above i.
   */
  lemma CompleteExtend(A: int, B: int, p: int, i: int, xs: seq<int>, ys: seq<int>, kx: seq<int>, ky: seq<int>)
    requires p > 1 && |xs| == |ys| && |kx| == |ky| && CompleteBelow(A, B, p, i, xs, ys)
    requires forall y :: 0 <= y < p && OnCurve(A, B, p, i, y) ==>
               exists j :: 0 <= j < |kx| && kx[j] == i && ky[j] == y
    ensures CompleteBelow(A, B, p, i + 1, xs + kx, ys + ky)
  {
    var xs', ys' := xs + kx, ys + ky;
    forall x, y | 0 <= x < i + 1 && 0 <= y < p && OnCurve(A, B, p, x, y)
      ensures exists j :: 0 <= j < |xs'| && xs'[j] == x && ys'[j] == y
    {
      if x < i {
        var j :| 0 <= j < |xs| && xs[j] == x && ys[j] == y;
        assert xs'[j] == x && ys'[j] == y;
      } else {
        var j :| 0 <= j < |kx| && kx[j] == i && ky[j] == y;
        assert xs'[|xs| + j] == x && ys'[|xs| + j] == y;
      }
    }
  }

  /**
   * Above an x where findM succeeds with m, every curve point has y^2 == m:
   * B is invertible, so B*y^2 == B*m cancels.
   */
  lemma RootOnCurve(A: int, B: int, p: int, x: int, m: int, y: int)
    requires IsPrime(p) && FindM(A, B, x, p) == Some(m) && OnCurve(A, B, p, x, y)
    ensures (y * y) % p == m % p
  {
    var s := y * y;
    assert B % p != 0 by { InvertibleModPrime(B, p); }
    assert (B * s) % p == (B * m) % p by {
      assert B * y * y == B * s;
    }
    CancelFactor(B, s, m, p);
  }

  lemma ListedPair(A: int, B: int, p: int, i: int, m: int, xs: seq<int>, ys: seq<int>, y: int)
    requires IsPrime(p) && 0 <= i < p && ListedBelow(A, B, p, i, xs, ys)
    requires FindM(A, B, i, p) == Some(m) && EulerCriterion(m, p) == 1
    requires 0 < y < p && (y * y) % p == m % p
    ensures ListedBelow(A, B, p, i + 1, xs + [i, i], ys + [y, p - y])
  {
    NegatedRoot(y, m, p);
    OnCurveFromRoot(A, B, p, i, m, y);
    OnCurveFromRoot(A, B, p, i, m, p - y);
    var xs', ys' := xs + [i, i], ys + [y, p - y];
    assert OnCurveBelow(A, B, p, i + 1, xs', ys') by {
      forall j | 0 <= j < |xs'|
        ensures 0 <= xs'[j] < i + 1 && 0 <= ys'[j] < p && OnCurve(A, B, p, xs'[j], ys'[j])
      {
        if j < |xs| {
          assert xs'[j] == xs[j] && ys'[j] == ys[j];
        }
      }
    }
    AppendAbove(p, xs, ys, i, [i, i], [y, p - y]);
    assert CountsBelow(A, B, p, i + 1, xs') by {
      assert forall x :: multiset(xs')[x] == multiset(xs)[x] + (if x == i then 2 else 0);
    }
    PairComplete(A, B, p, i, m, y);
    CompleteExtend(A, B, p, i, xs, ys, [i, i], [y, p - y]);
  }

  /** Above a non-zero square m, the reduced curve points are (i, y) and (i, p - y). */
  lemma PairComplete(A: int, B: int, p: int, i: int, m: int, y: int)
    requires IsPrime(p) && FindM(A, B, i, p) == Some(m) && 0 < y < p && (y * y) % p == m % p
    ensures forall y' :: 0 <= y' < p && OnCurve(A, B, p, i, y') ==>
              exists j :: 0 <= j < 2 && [i, i][j] == i && [y, p - y][j] == y'
  {
    forall y' | 0 <= y' < p && OnCurve(A, B, p, i, y')
      ensures exists j :: 0 <= j < 2 && [i, i][j] == i && [y, p - y][j] == y'
    {
      assert y' == y || y' == p - y by {
        RootOnCurve(A, B, p, i, m, y');
        ReducedRootsAgree(y', y, p);
      }
      if y' == y {
        assert [i, i][0] == i && [y, p - y][0] == y';
      } else {
        assert [i, i][1] == i && [y, p - y][1] == y';
      }
    }
  }

  /** Above m == 0, the only reduced curve point is (i, 0). */
  lemma SingleComplete(A: int, B: int, p: int, i: int, m: int)
    requires IsPrime(p) && FindM(A, B, i, p) == Some(m) && m % p == 0
    ensures forall y' :: 0 <= y' < p && OnCurve(A, B, p, i, y') ==>
              exists j :: 0 <= j < 1 && [i][j] == i && [0][j] == y'
  {
    forall y' | 0 <= y' < p && OnCurve(A, B, p, i, y')
      ensures exists j :: 0 <= j < 1 && [i][j] == i && [0][j] == y'
    {
      RootOnCurve(A, B, p, i, m, y');
      ReducedRootsAgree(y', 0, p);
      assert [0][0] == y';
    }
  }

  lemma ListedSingle(A: int, B: int, p: int, i: int, m: int, xs: seq<int>, ys: seq<int>)
    requires IsPrime(p) && p % 2 == 1 && 0 <= i < p && ListedBelow(A, B, p, i, xs, ys)
    requires FindM(A, B, i, p) == Some(m) && EulerCriterion(m, p) == 0
    ensures ListedBelow(A, B, p, i + 1, xs + [i], ys + [0])
  {
    EulerCriterionZero(m, p);
    ModSmall(m, p);
    OnCurveFromRoot(A, B, p, i, m, 0);
    var xs', ys' := xs + [i], ys + [0];
    assert OnCurveBelow(A, B, p, i + 1, xs', ys') by {
      forall j | 0 <= j < |xs'|
        ensures 0 <= xs'[j] < i + 1 && 0 <= ys'[j] < p && OnCurve(A, B, p, xs'[j], ys'[j])
      {
        if j < |xs| {
          assert xs'[j] == xs[j] && ys'[j] == ys[j];
        }
      }
    }
    AppendAbove(p, xs, ys, i, [i], [0]);
    assert CountsBelow(A, B, p, i + 1, xs') by {
      assert forall x :: multiset(xs')[x] == multiset(xs)[x] + (if x == i then 1 else 0);
    }
    SingleComplete(A, B, p, i, m);
    CompleteExtend(A, B, p, i, xs, ys, [i], [0]);
  }

  lemma ListedNone(A: int, B: int, p: int, i: int, xs: seq<int>, ys: seq<int>)
    requires IsPrime(p) && p % 2 == 1 && 0 <= i < p && ListedBelow(A, B, p, i, xs, ys)
    requires FindM(A, B, i, p).Some? && PointsAbove(A, B, p, i) == 0
    ensures ListedBelow(A, B, p, i + 1, xs, ys)
  {
    assert OnCurveBelow(A, B, p, i + 1, xs, ys);
    var m := FindM(A, B, i, p).value;
    forall y | 0 <= y < p && OnCurve(A, B, p, i, y)
      ensures false
    {
      RootOnCurve(A, B, p, i, m, y);
      if m % p == 0 {
        EulerCriterionZero(m, p);
      } else {
        SquareCriterion(m, y, p);
      }
    }
    CompleteExtend(A, B, p, i, xs, ys, [], []);
    assert xs + [] == xs && ys + [] == ys;
  }

  lemma AppendAssociates(a: seq<int>, b: seq<int>, c: seq<int>)
    ensures (a + b) + c == a + (b + c)
  {
  }

  /** A square root of a non-zero residue is not 0. */
  lemma NonZeroRoot(y: int, m: int, p: int)
    requires p > 0 && 0 <= y && (y * y) % p == m % p && m % p != 0
    ensures y > 0
  {
  }

  /** B*y^2 == B*m == x^3 + A*x^2 + x when y^2 == m. */
  lemma OnCurveFromRoot(A: int, B: int, p: int, x: int, m: int, y: int)
    requires p > 0 && (B * m) % p == CurveRhs(A, x) % p && (y * y) % p == m % p
    ensures OnCurve(A, B, p, x, y)
  {
    ModEqMul(B, B, y * y, m, p);
    assert B * (y * y) == B * y * y;
  }

  /**
   * The module-level lists `x_coordinates` and `y_coordinates` that
   * `addPoint` and `generatePoints` extend. They are never cleared, so
   * successive enumerations accumulate.
   */
  class CoordinateLists {
    var xCoordinates: seq<int>
    var yCoordinates: seq<int>

    /** The lists always grow together. */
    ghost predicate Valid()
      reads this
    {
      |xCoordinates| == |yCoordinates|
    }

    constructor ()
      ensures Valid() && xCoordinates == [] && yCoordinates == []
    {
      xCoordinates := [];
      yCoordinates := [];
    }

    /**
     * `addPoint`: appends (x, y) and (x, p - y) for a square root y of m,
     * found by Euler's shortcut when p == 3 (mod 4) and by Tonelli-Shanks
     * otherwise.
     */
    method AddPoint(x: int, m: int, p: int, nonResidue: int) returns (ghost y: int)
      requires Valid() && IsPrime(p) && p % 2 == 1 && EulerCriterion(m, p) == 1
      requires p % 4 != 3 ==> 2 <= nonResidue < p && EulerCriterion(nonResidue, p) == p - 1
      modifies this
      ensures Valid() && xCoordinates == old(xCoordinates) + [x, x]
      ensures yCoordinates == old(yCoordinates) + [y, p - y]
      ensures 0 < y < p && (y * y) % p == m % p
      ensures p % 4 == 3 ==> y == Exp(m, (p + 1) / 4) % p
    {
      var root: int;
      if p % 4 == 3 {
        root := Euler(m, p);
      } else {
        var found := TonelliShanks(m, p, nonResidue);
        root := found.value;
      }
      EulerCriterionZero(m, p);
      NonZeroRoot(root, m, p);
      xCoordinates := xCoordinates + [x, x];
      yCoordinates := yCoordinates + [root, p - root];
      y := root;
    }

    /**
     * One pass of the `generatePoints` loop for x == i, after m has been
     * found: the Legendre symbol of m decides between two points, one point
     * (i, 0) and none. Returns how many entries were appended.
     */
    method ListPointsAbove(A: int, B: int, p: int, i: int, m: int, nonResidue: int,
                           ghost x0: seq<int>, ghost y0: seq<int>, ghost xs: seq<int>, ghost ys: seq<int>)
        returns (added: nat, ghost xs': seq<int>, ghost ys': seq<int>)
      requires Valid() && IsPrime(p) && p % 2 == 1 && 0 <= i < p && FindM(A, B, i, p) == Some(m)
      requires p % 4 != 3 ==> 2 <= nonResidue < p && EulerCriterion(nonResidue, p) == p - 1
      requires xCoordinates == x0 + xs && yCoordinates == y0 + ys && ListedBelow(A, B, p, i, xs, ys)
      modifies this
      ensures Valid() && xCoordinates == x0 + xs' && yCoordinates == y0 + ys'
      ensures |xs'| == |xs| + added && ListedBelow(A, B, p, i + 1, xs', ys')
    {
      var quadraticResidue := Legendre(m, p);
      if quadraticResidue == 1 {
        ghost var y := AddPoint(i, m, p, nonResidue);
        added := 2;
        ListedPair(A, B, p, i, m, xs, ys, y);
        AppendAssociates(x0, xs, [i, i]);
        AppendAssociates(y0, ys, [y, p - y]);
        xs', ys' := xs + [i, i], ys + [y, p - y];
      } else if quadraticResidue == 0 {
        xCoordinates := xCoordinates + [i];
        yCoordinates := yCoordinates + [0];
        added := 1;
        ListedSingle(A, B, p, i, m, xs, ys);
        AppendAssociates(x0, xs, [i]);
        AppendAssociates(y0, ys, [0]);
        xs', ys' := xs + [i], ys + [0];
      } else {
        added := 0;
        ListedNone(A, B, p, i, xs, ys);
        xs', ys' := xs, ys;
      }
    }

    /**
     * `generatePoints`: for every x in [0, p), appends the points above x to
     * the lists, returning them together with the count the source prints.
     * None where B has no inverse modulo p: the source raises at x == 0,
     * before anything is appended.
     */
    method GeneratePoints(A: int, B: int, p: int, start: int, nonResidue: int)
        returns (r: Option<(seq<int>, seq<int>)>, totalPoints: nat)
      requires Valid() && IsPrime(p) && p % 2 == 1
      requires p % 4 != 3 ==> 2 <= nonResidue < p && EulerCriterion(nonResidue, p) == p - 1
      modifies this
      ensures Valid()
      ensures r.None? <==> B % p == 0
      ensures r.None? ==> xCoordinates == old(xCoordinates) && yCoordinates == old(yCoordinates)
      ensures r.Some? ==> r.value == (xCoordinates, yCoordinates)
      ensures |xCoordinates| == |old(xCoordinates)| + totalPoints
      ensures xCoordinates[..|old(xCoordinates)|] == old(xCoordinates)
      ensures yCoordinates[..|old(yCoordinates)|] == old(yCoordinates)
      ensures var xs, ys := xCoordinates[|old(xCoordinates)|..], yCoordinates[|old(xCoordinates)|..];
                (forall i :: 0 <= i < |xs| ==> 0 <= xs[i] < p && 0 <= ys[i] < p && OnCurve(A, B, p, xs[i], ys[i]))
                && (forall i, j :: 0 <= i < j < |xs| ==> xs[i] <= xs[j])
                && (forall i :: 0 <= i < |xs| - 1 && xs[i] == xs[i + 1] ==> ys[i] + ys[i + 1] == p)
                && (forall x :: 0 <= x < p ==> multiset(xs)[x] == PointsAbove(A, B, p, x))
                && (r.Some? ==> forall x, y :: 0 <= x < p && 0 <= y < p && OnCurve(A, B, p, x, y) ==>
                                  exists j :: 0 <= j < |xs| && xs[j] == x && ys[j] == y)
    {
      InvertibleModPrime(B, p);
      ghost var x0, y0 := xCoordinates, yCoordinates;
      ghost var xs: seq<int>, ys: seq<int> := [], [];
      totalPoints := 0;
      for i := 0 to p
        invariant xCoordinates == x0 + xs && yCoordinates == y0 + ys
        invariant |xs| == totalPoints && ListedBelow(A, B, p, i, xs, ys)
        invariant i == 0 ==> totalPoints == 0
        invariant i > 0 ==> B % p != 0
      {
        var m := FindM(A, B, i, p);
        if m.None? {
          return None, totalPoints;
        }
        var added;
        added, xs, ys := ListPointsAbove(A, B, p, i, m.value, nonResidue, x0, y0, xs, ys);
        totalPoints := totalPoints + added;
      }
      r := Some((xCoordinates, yCoordinates));
      assert xCoordinates[|x0|..] == xs && yCoordinates[|x0|..] == ys;
      ListedBelowMeaning(A, B, p, xs, ys);
    }
  }
}
