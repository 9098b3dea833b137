/**
 * Integer powers and congruences modulo a positive modulus.
 *
 * Both curve files reduce every intermediate value with Python's `%`, whose
 * result for a positive modulus lies in [0, m); Dafny's `%` on `int` agrees
 * with it there, so the lemmas below are stated with Dafny's `%` directly.
 */
module Modular {

  datatype Option<T> = None | Some(value: T)

  /** b raised to the natural power e, over the unbounded integers. */
  function Exp(b: int, e: nat): int
  {
    if e == 0 then 1 else b * Exp(b, e - 1)
  }

  /** 2^n, the value of Python's `1 << n` and `2 ** n`. */
  function Pow2(n: nat): (r: nat)
    ensures r >= 1
  {
    if n == 0 then 1 else 2 * Pow2(n - 1)
  }

  // ---------------------------------------------------------------------------
  // Division and remainder

  lemma MulAtLeast(e: int, m: int)
    requires e >= 1 && m > 0
    ensures e * m >= m
  {
    assert e * m == (e - 1) * m + m;
  }

  /** Quotient and remainder are unique. */
  lemma DivModUnique(n: int, m: int, d: int, r: int)
    requires m > 0 && 0 <= r < m && n == d * m + r
    ensures n % m == r && n / m == d
  {
    var e := d - n / m;
    assert e * m == n % m - r;
    if e > 0 {
      MulAtLeast(e, m);
    } else if e < 0 {
      MulAtLeast(-e, m);
    }
  }

  /** A value already in [0, m) is its own residue. */
  lemma ModSmall(r: int, m: int)
    requires 0 <= r < m
    ensures r % m == r
  {
    DivModUnique(r, m, 0, r);
  }

  /** Reducing twice is reducing once. */
  lemma ModIdem(a: int, m: int)
    requires m > 0
    ensures (a % m) % m == a % m
  {
    ModSmall(a % m, m);
  }

  /** Adding a multiple of m leaves the residue unchanged. */
  lemma ModAddMultiple(x: int, q: int, m: int)
    requires m > 0
    ensures (x + q * m) % m == x % m
  {
    var r, d := x % m, x / m;
    assert x + q * m == (d + q) * m + r;
    DivModUnique(x + q * m, m, d + q, r);
  }

  /** A multiple of m has residue 0. */
  lemma ModOfMultiple(q: int, m: int)
    requires m > 0
    ensures (q * m) % m == 0
  {
    ModAddMultiple(0, q, m);
  }

  // ---------------------------------------------------------------------------
  // Congruence is preserved by the ring operations

  lemma ModEqMul(a: int, a': int, b: int, b': int, m: int)
    requires m > 0 && a % m == a' % m && b % m == b' % m
    ensures (a * b) % m == (a' * b') % m
  {
    var s := a / m - a' / m;
    assert a == a' + s * m;
    assert a * b == a' * b + (s * b) * m;
    ModAddMultiple(a' * b, s * b, m);
    var t := b / m - b' / m;
    assert b == b' + t * m;
    assert a' * b == a' * b' + (a' * t) * m;
    ModAddMultiple(a' * b', a' * t, m);
  }

  lemma ModEqAdd(a: int, a': int, b: int, b': int, m: int)
    requires m > 0 && a % m == a' % m && b % m == b' % m
    ensures (a + b) % m == (a' + b') % m
  {
    var s := a / m - a' / m;
    var t := b / m - b' / m;
    assert a + b == a' + b' + (s + t) * m;
    ModAddMultiple(a' + b', s + t, m);
  }

  lemma ModEqSub(a: int, a': int, b: int, b': int, m: int)
    requires m > 0 && a % m == a' % m && b % m == b' % m
    ensures (a - b) % m == (a' - b') % m
  {
    var s := a / m - a' / m;
    var t := b / m - b' / m;
    assert a - b == a' - b' + (s - t) * m;
    ModAddMultiple(a' - b', s - t, m);
  }

  /** Two values whose difference is a multiple of m have the same residue. */
  lemma ModEqFromDiff(a: int, b: int, m: int)
    requires m > 0 && (a - b) % m == 0
    ensures a % m == b % m
  {
    var q := (a - b) / m;
    assert a == b + q * m;
    ModAddMultiple(b, q, m);
  }

  /** Two values with the same residue differ by a multiple of m. */
  lemma ModDiffFromEq(a: int, b: int, m: int)
    requires m > 0 && a % m == b % m
    ensures (a - b) % m == 0
  {
    ModEqSub(a, b, b, b, m);
  }

  // ---------------------------------------------------------------------------
  // Powers

  lemma {:induction false} ExpAdd(b: int, e1: nat, e2: nat)
    ensures Exp(b, e1 + e2) == Exp(b, e1) * Exp(b, e2)
    decreases e1
  {
    if e1 > 0 {
      ExpAdd(b, e1 - 1, e2);
      assert Exp(b, e1 + e2) == b * Exp(b, e1 - 1 + e2);
    }
  }

  lemma {:induction false} Pow2Add(e1: nat, e2: nat)
    ensures Pow2(e1 + e2) == Pow2(e1) * Pow2(e2)
    decreases e1
  {
    if e1 > 0 {
      Pow2Add(e1 - 1, e2);
    }
  }

  lemma {:induction false} ExpMul(b: int, e1: nat, e2: nat)
    ensures Exp(b, e1 * e2) == Exp(Exp(b, e1), e2)
    decreases e2
  {
    if e2 > 0 {
      ExpMul(b, e1, e2 - 1);
      assert e1 * e2 == e1 * (e2 - 1) + e1;
      ExpAdd(b, e1 * (e2 - 1), e1);
    }
  }

  lemma {:induction false} ExpProduct(a: int, b: int, e: nat)
    ensures Exp(a * b, e) == Exp(a, e) * Exp(b, e)
    decreases e
  {
    if e > 0 {
      ExpProduct(a, b, e - 1);
      var x, y := Exp(a, e - 1), Exp(b, e - 1);
      calc {
        Exp(a * b, e);
        (a * b) * Exp(a * b, e - 1);
        (a * b) * (x * y);
        { MulRearrange(a, b, x, y); }
        (a * x) * (b * y);
        Exp(a, e) * Exp(b, e);
      }
    }
  }

  lemma MulRearrange(a: int, b: int, x: int, y: int)
    ensures (a * b) * (x * y) == (a * x) * (b * y)
  {
  }

  lemma {:induction false} ExpOfOne(e: nat)
    ensures Exp(1, e) == 1
  {
    if e > 0 {
      ExpOfOne(e - 1);
    }
  }

  lemma {:induction false} ExpOfZero(e: nat)
    requires e >= 1
    ensures Exp(0, e) == 0
  {
  }

  /** Congruent bases have congruent powers. */
  lemma {:induction false} ExpCong(b: int, b': int, e: nat, m: int)
    requires m > 0 && b % m == b' % m
    ensures Exp(b, e) % m == Exp(b', e) % m
    decreases e
  {
    if e > 0 {
      ExpCong(b, b', e - 1, m);
      ModEqMul(b, b', Exp(b, e - 1), Exp(b', e - 1), m);
    }
  }

  /** Reducing the base first gives the same residue. */
  lemma ExpMod(b: int, e: nat, m: int)
    requires m > 0
    ensures Exp(b % m, e) % m == Exp(b, e) % m
  {
    ExpCong(b % m, b, e, m);
  }

  /** b^e splits into the square of b^(e/2), times b when e is odd. */
  lemma ExpHalving(b: int, e: nat)
    ensures Exp(b, e) == Exp(b, e / 2) * Exp(b, e / 2) * (if e % 2 == 1 then b else 1)
  {
    ExpAdd(b, e / 2, e / 2);
    if e % 2 == 1 {
      ExpAdd(b, e / 2 + e / 2, 1);
    } else {
      assert e == e / 2 + e / 2;
    }
  }

  /** b^(2k) == (b*b)^k */
  lemma ExpOfSquare(b: int, k: nat)
    ensures Exp(b, 2 * k) == Exp(b * b, k)
  {
    ExpMul(b, 2, k);
  }

  /**
   * One step of square-and-multiply: multiplying in the base when the low
   * bit is set, squaring the base and halving the exponent keeps
   * result * base^e unchanged modulo m.
   */
  lemma SquareAndMultiplyStep(result: int, base: int, e: nat, m: int)
    requires m > 0
    ensures ((if e % 2 == 1 then (result * base) % m else result) * Exp((base * base) % m, e / 2)) % m
         == (result * Exp(base, e)) % m
  {
    var h := e / 2;
    ExpMod(base * base, h, m);
    ExpOfSquare(base, h);
    var sq := Exp(base * base, h);
    if e % 2 == 1 {
      ExpAdd(base, 2 * h, 1);
      assert Exp(base, e) == sq * base;
      ModIdem(result * base, m);
      ModEqMul(result * base, (result * base) % m, sq, Exp((base * base) % m, h), m);
      assert (result * base) * sq == result * (sq * base);
    } else {
      assert e == 2 * h;
      ModEqMul(result, result, sq, Exp((base * base) % m, h), m);
    }
  }
  // ---------------------------------------------------------------------------
  // Polynomials

  /** A cubic polynomial takes the same residue at x and at x + p. */
  lemma CubicShift(c2: int, c1: int, c0: int, x: int, p: int)
    requires p > 0
    ensures ((x + p) * (x + p) * (x + p) + c2 * (x + p) * (x + p) + c1 * (x + p) + c0) % p
         == (x * x * x + c2 * x * x + c1 * x + c0) % p
  {
    var q := 3 * x * x + 3 * x * p + p * p + c2 * (2 * x + p) + c1;
    CubicShiftExpand(c2, c1, c0, x, p, q);
    ModAddMultiple(x * x * x + c2 * x * x + c1 * x + c0, q, p);
  }

  lemma CubicShiftExpand(c2: int, c1: int, c0: int, x: int, p: int, q: int)
    requires q == 3 * x * x + 3 * x * p + p * p + c2 * (2 * x + p) + c1
    ensures (x + p) * (x + p) * (x + p) + c2 * (x + p) * (x + p) + c1 * (x + p) + c0
         == x * x * x + c2 * x * x + c1 * x + c0 + q * p
  {
  }
}
