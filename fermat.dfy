/**
 * Fermat's little theorem, by the binomial theorem: (a + 1)^p and a^p + 1
 * agree modulo a prime p because p divides every inner binomial
 * coefficient. Euler's criterion is then always 0, 1 or p - 1, which is what
 * lets a square-root search recognise a non-residue by its criterion alone.
 */
module Fermat {

  import opened Modular
  import opened Field

  /** The binomial coefficient, by Pascal's rule. */
  function Binom(n: nat, k: nat): nat
  {
    if k == 0 then 1 else if n == 0 then 0 else Binom(n - 1, k - 1) + Binom(n - 1, k)
  }

  lemma {:induction false} BinomAboveTop(n: nat, k: nat)
    requires k > n
    ensures Binom(n, k) == 0
    decreases n
  {
    if n > 0 {
      BinomAboveTop(n - 1, k - 1);
      BinomAboveTop(n - 1, k);
    }
  }

  lemma {:induction false} BinomTop(n: nat)
    ensures Binom(n, n) == 1
  {
    if n > 0 {
      BinomTop(n - 1);
      BinomAboveTop(n - 1, n);
    }
  }

  /** Absorption: k * C(n, k) == n * C(n - 1, k - 1). */
  lemma {:induction false} BinomAbsorb(n: nat, k: nat)
    requires n >= 1 && k >= 1
    ensures k * Binom(n, k) == n * Binom(n - 1, k - 1)
    decreases n
  {
    if k == 1 {
      BinomOne(n);
    } else if n == 1 {
      BinomAboveTop(1, k);
      BinomAboveTop(0, k - 1);
    } else {
      BinomAbsorb(n - 1, k - 1);
      BinomAbsorb(n - 1, k);
      AbsorbStep(n, k, Binom(n - 2, k - 2), Binom(n - 2, k - 1), Binom(n - 1, k - 1), Binom(n - 1, k));
    }
  }

  /** The ring identity behind one step of BinomAbsorb. */
  lemma AbsorbStep(n: int, k: int, x: int, y: int, z: int, w: int)
    requires z == x + y && (k - 1) * z == (n - 1) * x && k * w == (n - 1) * y
    ensures k * (z + w) == n * z
  {
    assert k * (z + w) == (k - 1) * z + z + k * w;
    assert (n - 1) * x + (n - 1) * y == (n - 1) * z;
  }

  lemma {:induction false} BinomOne(n: nat)
    ensures Binom(n, 1) == n
  {
    if n > 0 {
      BinomOne(n - 1);
    }
  }

  /** A prime divides every binomial coefficient C(p, k) with 0 < k < p. */
  lemma PrimeDividesBinom(p: int, k: nat)
    requires IsPrime(p) && 0 < k < p
    ensures Binom(p, k) % p == 0
  {
    var b := Binom(p, k);
    BinomAbsorb(p, k);
    assert k * b == Binom(p - 1, k - 1) * p;
    ModOfMultiple(Binom(p - 1, k - 1), p);
    EuclidLemma(k, b, p);
    ModSmall(k, p);
  }

  /** The sum C(n, 0) + C(n, 1) a + ... + C(n, j) a^j. */
  function BinomSum(n: nat, a: int, j: nat): int
  {
    if j == 0 then 1 else BinomSum(n, a, j - 1) + Binom(n, j) * Exp(a, j)
  }

  /** Pascal's rule on the partial sums. */
  lemma {:induction false} BinomSumPascal(n: nat, a: int, j: nat)
    requires n >= 1 && j >= 1
    ensures BinomSum(n, a, j) == BinomSum(n - 1, a, j) + a * BinomSum(n - 1, a, j - 1)
    decreases j
  {
    if j == 1 {
      BinomOne(n);
      BinomOne(n - 1);
    } else {
      BinomSumPascal(n, a, j - 1);
      PascalStep(a, Binom(n - 1, j - 1), Binom(n - 1, j), Exp(a, j - 1), Exp(a, j),
                 BinomSum(n - 1, a, j - 2), BinomSum(n - 1, a, j - 1), BinomSum(n - 1, a, j),
                 BinomSum(n, a, j - 1), BinomSum(n, a, j));
    }
  }

  /** The ring identity behind one step of BinomSumPascal. */
  lemma PascalStep(a: int, u: int, v: int, e: int, ae: int, s2: int, s1: int, s0: int, t1: int, t0: int)
    requires ae == a * e
    requires t0 == t1 + (u + v) * ae && t1 == s1 + a * s2
    requires s0 == s1 + v * ae && s1 == s2 + u * e
    ensures t0 == s0 + a * s1
  {
    assert (u + v) * ae == u * (a * e) + v * ae;
    assert a * s1 == a * s2 + a * (u * e);
  }

  /** The binomial theorem for (a + 1)^n. */
  lemma {:induction false} BinomialTheorem(n: nat, a: int)
    ensures Exp(a + 1, n) == BinomSum(n, a, n)
  {
    if n > 0 {
      var x := BinomSum(n - 1, a, n - 1);
      calc {
        Exp(a + 1, n);
        (a + 1) * Exp(a + 1, n - 1);
        { BinomialTheorem(n - 1, a); }
        (a + 1) * x;
        { SumOfMultiples(a, x); }
        x + a * x;
        { BinomAboveTop(n - 1, n); }
        BinomSum(n - 1, a, n) + a * x;
        { BinomSumPascal(n, a, n); }
        BinomSum(n, a, n);
      }
    }
  }

  lemma SumOfMultiples(a: int, x: int)
    ensures (a + 1) * x == x + a * x
  {
  }

  /** Modulo a prime every inner term of the expansion vanishes. */
  lemma {:induction false} InnerTermsVanish(p: int, a: int, j: nat)
    requires IsPrime(p) && j < p
    ensures BinomSum(p, a, j) % p == 1 % p
  {
    if j > 0 {
      InnerTermsVanish(p, a, j - 1);
      PrimeDividesBinom(p, j);
      var c := Binom(p, j) / p;
      DivExact(Binom(p, j), p);
      Regroup(Binom(p, j), c, p, Exp(a, j));
      ModAddMultiple(BinomSum(p, a, j - 1), c * Exp(a, j), p);
    }
  }

  lemma Regroup(b: int, c: int, p: int, e: int)
    requires b == c * p
    ensures b * e == (c * e) * p
  {
  }

  /** The "freshman's dream" modulo a prime: (a + 1)^p == a^p + 1. */
  lemma FreshmansDream(p: int, a: int)
    requires IsPrime(p)
    ensures Exp(a + 1, p) % p == (Exp(a, p) + 1) % p
  {
    BinomialTheorem(p, a);
    BinomTop(p);
    InnerTermsVanish(p, a, p - 1);
    ModEqAdd(BinomSum(p, a, p - 1), 1, Exp(a, p), Exp(a, p), p);
  }

  /** a^p == a modulo a prime p, for every natural a. */
  lemma {:induction false} FermatNat(p: int, a: nat)
    requires IsPrime(p)
    ensures Exp(a, p) % p == a % p
  {
    if a == 0 {
      ExpOfZero(p);
    } else {
      FermatNat(p, a - 1);
      FreshmansDream(p, a - 1);
      ModEqAdd(Exp(a - 1, p), a - 1, 1, 1, p);
    }
  }

  /** Fermat's little theorem: a^(p-1) == 1 modulo p when p does not divide a. */
  lemma FermatLittle(p: int, a: int)
    requires IsPrime(p) && a % p != 0
    ensures Exp(a, p - 1) % p == 1
  {
    var r := a % p;
    FermatNat(p, r);
    ExpMod(a, p, p);
    ExpAdd(a, p - 1, 1);
    // p divides a * (a^(p-1) - 1)
    ModIdem(a, p);
    ModDiffFromEq(a * Exp(a, p - 1), a, p);
    assert a * Exp(a, p - 1) - a == a * (Exp(a, p - 1) - 1);
    EuclidLemma(a, Exp(a, p - 1) - 1, p);
    ModEqFromDiff(Exp(a, p - 1), 1, p);
    ModSmall(1, p);
  }

  /** Euler's criterion of a unit is a square root of 1, so 1 or p - 1. */
  lemma CriterionIsSign(a: int, p: int)
    requires IsPrime(p) && p % 2 == 1 && a % p != 0
    ensures EulerCriterion(a, p) == 1 || EulerCriterion(a, p) == p - 1
  {
    var h := (p - 1) / 2;
    var c := Exp(a, h);
    FermatLittle(p, a);
    assert h + h == p - 1;
    ExpAdd(a, h, h);
    assert (c * c) % p == 1;
    var r := c % p;
    ModIdem(c, p);
    ModEqMul(c, r, c, r, p);
    SquareRootsOfOne(r, p);
  }

  /** A square that is not a multiple of p has Euler's criterion 1. */
  lemma SquareCriterion(m: int, y: int, p: int)
    requires IsPrime(p) && p % 2 == 1 && (y * y) % p == m % p && m % p != 0
    ensures EulerCriterion(m, p) == 1
  {
    var h := (p - 1) / 2;
    assert y % p != 0 by {
      if y % p == 0 {
        ModSmall(0, p);
        ModEqMul(y, 0, y, y, p);
      }
    }
    ExpCong(m, y * y, h, p);
    ExpOfSquare(y, h);
    assert 2 * h == p - 1;
    FermatLittle(p, y);
  }
}
