/**
 * The short Weierstrass curve y^2 = x^3 + a x + d over the integers modulo an
 * odd prime p: a recursive modular power, Euler's residue test, the
 * Tonelli-Shanks square root with its own search for a non-residue, the
 * enumeration of points above a window of x-coordinates, and the affine
 * group law (addition, subtraction, doubling, scalar multiplication).
 */
module WeierstrassCurve {

  import opened Modular
  import opened Field
  import opened Fermat
  import opened Points

  // ---------------------------------------------------------------------------
  // Modular power and the residue test

  /** `pow`: square-and-multiply by recursion on the halved exponent. */
  function Pow(a: int, b: nat, m: int): (r: int)
    requires m > 0
    ensures 0 <= r < m && r == Exp(a, b) % m
    decreases b
  {
    if b == 0 then 1 % m
    else
      var ans := Pow(a, b / 2, m);
      PowStep(a, b, m, ans);
      if b % 2 == 0 then (ans * ans) % m else ((ans * ans) % m * a) % m
  }

  /** Squaring a^(b/2), and multiplying in a for odd b, gives a^b. */
  lemma PowStep(a: int, b: nat, m: int, ans: int)
    requires m > 0 && ans == Exp(a, b / 2) % m
    ensures (if b % 2 == 0 then (ans * ans) % m else ((ans * ans) % m * a) % m) == Exp(a, b) % m
  {
    var h := Exp(a, b / 2);
    ExpHalving(a, b);
    ModIdem(h, m);
    ModEqMul(ans, h, ans, h, m);
    if b % 2 == 1 {
      ModIdem(ans * ans, m);
      ModEqMul((ans * ans) % m, h * h, a, a, m);
    }
  }

  /**
   * `isResidue`: Euler's criterion x^((p-1)/2) mod p equals 1. The exponent
   * is a whole number because p is odd.
   */
  predicate IsResidue(x: int, p: int): (r: bool)
    requires p > 0 && p % 2 == 1
    ensures r <==> EulerCriterion(x, p) == 1
  {
    Pow(x, (p - 1) / 2, p) == 1
  }

  /** A non-zero square passes the residue test (by Fermat's little theorem). */
  lemma SquareIsResidue(x: int, y: int, p: int)
    requires IsPrime(p) && p % 2 == 1 && y % p != 0 && (y * y) % p == x % p
    ensures IsResidue(x, p)
  {
    var h := (p - 1) / 2;
    ExpCong(x, y * y, h, p);
    ExpOfSquare(y, h);
    assert 2 * h == p - 1;
    FermatLittle(p, y);
  }

  /** A multiple of p never passes the residue test. */
  lemma ZeroIsNotResidue(x: int, p: int)
    requires p > 1 && p % 2 == 1 && x % p == 0
    ensures !IsResidue(x, p)
  {
    ZeroPower(x, (p - 1) / 2, p);
  }

  /** A unit that fails the residue test has Euler's criterion p - 1. */
  lemma NonResidueCriterion(x: int, p: int)
    requires IsPrime(p) && p % 2 == 1 && x % p != 0 && !IsResidue(x, p)
    ensures EulerCriterion(x, p) == p - 1
  {
    CriterionIsSign(x, p);
  }

  lemma ZeroPower(x: int, e: nat, p: int)
    requires p > 0 && x % p == 0 && e >= 1
    ensures Exp(x, e) % p == 0
  {
    ExpMod(x, e, p);
    ExpOfZero(e);
  }

  /**
   * Every value in [2, p) passes the residue test. No odd prime has this
   * property (half of its units are non-residues), but that fact is not
   * proved here; the square roots below are correct whenever it fails.
   */
  ghost predicate AllResidues(p: int)
    requires p > 0 && p % 2 == 1
  {
    forall w :: 2 <= w < p ==> IsResidue(w, p)
  }

  // ---------------------------------------------------------------------------
  // Tonelli-Shanks

  /**
   * `tonelli_shanks`: a square root of n modulo an odd prime p, for n a
   * residue or a multiple of p. p - 1 is split as q * 2^s with q odd, the
   * least z >= 2 failing the residue test is searched for, and the loop
   * keeps R^2 == n * t while the order of t, a power of two, drops.
   */
  method TonelliShanks(n: int, p: int) returns (root: int)
    requires IsPrime(p) && p % 2 == 1
    requires IsResidue(n, p) || n % p == 0
    ensures 0 <= root < p
    ensures n % p == 0 ==> root == 0
    ensures (root * root) % p == n % p || AllResidues(p)
  {
    var q, s := FactorTwos(p);
    var z := LeastNonResidue(p);
    var M := s;
    var c := Pow(z, q, p);
    var t := Pow(n, q, p);
    var R := Pow(n, (q + 1) / 2, p);
    TonelliSetup(n, z, p, q, s);
    while true
      invariant 1 <= M
      invariant 0 <= t < p && 0 <= c < p && 0 <= R < p
      invariant (R * R) % p == (n * t) % p
      invariant n % p == 0 ==> t == 0
      invariant n % p != 0 ==> Exp(t, Pow2(M - 1)) % p == 1 || (z == p && t == 0)
      invariant z < p ==> Exp(c, Pow2(M - 1)) % p == p - 1
      invariant z == p ==> c == 0
      decreases M
    {
      if t == 0 {
        ModSmall(0, p);
        if n % p != 0 {
          ExpOfZero(Pow2(M - 1));
          assert z == p;
        }
        return 0;
      }
      if t == 1 {
        assert (R * R) % p == n % p;
        return R;
      }
      var i := 0;
      while Pow(t, Pow2(i), p) != 1
        invariant 0 <= i < M
        invariant forall j :: 0 <= j < i ==> Pow(t, Pow2(j), p) != 1
        decreases M - i
      {
        i := i + 1;
      }
      PowOfOne(t, p);
      var b := Pow(c, Pow2(M - i - 1), p);
      StepRoot(n, p, t, R, b);
      if z < p {
        assert Pow(t, Pow2(i - 1), p) != 1;
        StepOrder(p, t, c, M, i, b);
      } else {
        StepDegenerate(p, t, c, M, i, b);
      }
      M := i;
      c := Pow(b, 2, p);
      t := (t * c) % p;
      R := (R * b) % p;
    }
  }

  /** The first loop of `tonelli_shanks`: p - 1 == q * 2^s with q odd. */
  method FactorTwos(p: int) returns (q: nat, s: nat)
    requires p > 1 && p % 2 == 1
    ensures s >= 1 && q % 2 == 1 && q * Pow2(s) == p - 1
  {
    var x := p - 1;
    s := 0;
    while x % 2 != 1
      invariant x >= 1 && x * Pow2(s) == p - 1
      decreases x
    {
      HalveExponent(x, s);
      x := x / 2;
      s := s + 1;
    }
    DivModUnique(p - 1, Pow2(s), x, 0);
    q := (p - 1) / Pow2(s);
  }

  /**
   * The second loop of `tonelli_shanks`: the least z >= 2 failing the residue
   * test. It stops at z == p at the latest, since p itself fails it.
   */
  method LeastNonResidue(p: int) returns (z: int)
    requires p > 1 && p % 2 == 1
    ensures 2 <= z <= p && (z < p ==> !IsResidue(z, p)) && (z == p ==> AllResidues(p))
    ensures forall w :: 2 <= w < z ==> IsResidue(w, p)
  {
    z := 2;
    ZeroIsNotResidue(p, p);
    while IsResidue(z, p)
      invariant 2 <= z <= p
      invariant forall w :: 2 <= w < z ==> IsResidue(w, p)
      decreases p - z
    {
      z := z + 1;
    }
  }

  lemma PowOfOne(t: int, p: int)
    requires 0 <= t < p
    ensures Pow(t, Pow2(0), p) == t
  {
    assert Exp(t, 1) == t;
    ModSmall(t, p);
  }

  /** Halving an even x while doubling 2^s keeps the product. */
  lemma HalveExponent(x: int, s: nat)
    requires x % 2 == 0
    ensures (x / 2) * Pow2(s + 1) == x * Pow2(s)
  {
    assert Pow2(s + 1) == 2 * Pow2(s);
    assert x == 2 * (x / 2);
  }

  /** The invariants of the main loop hold on entry. */
  lemma TonelliSetup(n: int, z: int, p: int, q: nat, s: nat)
    requires IsPrime(p) && p % 2 == 1 && s >= 1 && q % 2 == 1 && q * Pow2(s) == p - 1
    requires IsResidue(n, p) || n % p == 0
    requires 2 <= z <= p && (z < p ==> !IsResidue(z, p))
    ensures var t := Exp(n, q) % p; var R := Exp(n, (q + 1) / 2) % p;
            (R * R) % p == (n * t) % p
            && (n % p == 0 ==> t == 0)
            && (n % p != 0 ==> Exp(t, Pow2(s - 1)) % p == 1)
    ensures z < p ==> Exp(Exp(z, q) % p, Pow2(s - 1)) % p == p - 1
    ensures z == p ==> Exp(z, q) % p == 0
  {
    SetupRoot(n, p, q);
    if n % p == 0 {
      ZeroPower(n, q, p);
    } else {
      SetupOrder(n, p, q, s);
    }
    if z < p {
      ModSmall(z, p);
      NonResidueCriterion(z, p);
      SetupOrder(z, p, q, s);
    } else {
      ModOfMultiple(1, p);
      ZeroPower(z, q, p);
    }
  }

  /** (n^q)^(2^(s-1)) is Euler's criterion of n when q * 2^s == p - 1. */
  lemma SetupOrder(n: int, p: int, q: nat, s: nat)
    requires p > 0 && s >= 1 && q * Pow2(s) == p - 1
    ensures Exp(Exp(n, q) % p, Pow2(s - 1)) % p == EulerCriterion(n, p)
  {
    var k := Pow2(s - 1);
    assert Pow2(s) == 2 * k;
    assert q * k == (p - 1) / 2;
    ExpMod(Exp(n, q), k, p);
    ExpMul(n, q, k);
  }

  /** R == n^((q+1)/2) squares to n * n^q for odd q. */
  lemma SetupRoot(n: int, p: int, q: nat)
    requires p > 0 && q % 2 == 1
    ensures var t := Exp(n, q) % p; var R := Exp(n, (q + 1) / 2) % p;
            (R * R) % p == (n * t) % p
  {
    var h := (q + 1) / 2;
    var e := Exp(n, h);
    var t := Exp(n, q) % p;
    ExpAdd(n, h, h);
    assert h + h == q + 1;
    assert e * e == n * Exp(n, q);
    ModIdem(e, p);
    ModEqMul(e % p, e, e % p, e, p);
    ModIdem(Exp(n, q), p);
    ModEqMul(n, n, Exp(n, q), t, p);
  }

  /** R * b squares to n times t * b^2. */
  lemma StepRoot(n: int, p: int, t: int, R: int, b: int)
    requires p > 0 && (R * R) % p == (n * t) % p
    ensures var c := Pow(b, 2, p); (((R * b) % p) * ((R * b) % p)) % p == (n * ((t * c) % p)) % p
  {
    var c := Pow(b, 2, p);
    var r := (R * b) % p;
    assert Exp(b, 2) == b * b;
    ModIdem(R * b, p);
    ModEqMul(r, R * b, r, R * b, p);
    MulRearrange(R, b, R, b);
    ModEqMul(R * R, n * t, b * b, b * b, p);
    assert (n * t) * (b * b) == n * (t * (b * b));
    ModIdem(b * b, p);
    ModEqMul(t, t, b * b, c, p);
    ModIdem(t * c, p);
    ModEqMul(n, n, t * (b * b), (t * c) % p, p);
  }

  /**
   * With c of order 2^M and t of order 2^i (i < M), the new c == b^2 has
   * order 2^i and the new t == t * c has order dividing 2^(i-1).
   */
  lemma StepOrder(p: int, t: int, c: int, M: nat, i: nat, b: int)
    requires IsPrime(p) && p % 2 == 1 && 1 <= i < M && 0 <= t < p
    requires Exp(t, Pow2(i - 1)) % p != 1 && Exp(t, Pow2(i)) % p == 1
    requires Exp(c, Pow2(M - 1)) % p == p - 1 && b == Exp(c, Pow2(M - i - 1)) % p
    ensures var c' := Pow(b, 2, p);
            Exp(c', Pow2(i - 1)) % p == p - 1 && Exp((t * c') % p, Pow2(i - 1)) % p == 1
  {
    var k := Pow2(i - 1);
    var c' := Pow(b, 2, p);
    assert Pow2(i) == 2 * k;
    HalvingSquareRootOfOne(t, k, p);
    // c'^k == b^(2k) == c^(2^(M-i-1) * 2^i) == c^(2^(M-1))
    ExpMod(Exp(b, 2), k, p);
    ExpMul(b, 2, k);
    ExpMod(Exp(c, Pow2(M - i - 1)), Pow2(i), p);
    ExpMul(c, Pow2(M - i - 1), Pow2(i));
    Pow2Add(M - i - 1, i);
    assert M - i - 1 + i == M - 1;
    // (t * c')^k == t^k * c'^k == (-1) * (-1)
    ExpMod(t * c', k, p);
    ExpProduct(t, c', k);
    ModSmall(p - 1, p);
    ModEqMul(Exp(t, k), p - 1, Exp(c', k), p - 1, p);
    MinusOneSquared(p);
  }

  /** Without a non-residue c is 0, and so are b, the new c and the new t. */
  lemma StepDegenerate(p: int, t: int, c: int, M: nat, i: nat, b: int)
    requires p > 1 && c == 0 && i < M && b == Exp(c, Pow2(M - i - 1)) % p
    ensures var c' := Pow(b, 2, p); c' == 0 && (t * c') % p == 0
  {
    ModOfMultiple(0, p);
    ZeroPower(c, Pow2(M - i - 1), p);
    ZeroPower(b, 2, p);
  }

  // ---------------------------------------------------------------------------
  // Point enumeration

  /** x^3 + a x + d, the right-hand side of y^2 = x^3 + a x + d. */
  function CurveRhs(a: int, d: int, x: int): int
  {
    x * x * x + a * x + d
  }

  ghost predicate OnCurve(a: int, d: int, p: int, x: int, y: int)
    requires p > 0
  {
    (y * y) % p == CurveRhs(a, d, x) % p
  }

  /**
   * The square roots the enumeration computes are genuine: either p == 3
   * mod 4, written (p - 3) % 4 == 0 as the enumeration tests it, and Euler's
   * shortcut is used, or a non-residue below p exists for Tonelli-Shanks to
   * find.
   */
  ghost predicate RootsGenuine(p: int)
    requires p > 0 && p % 2 == 1
  {
    (p - 3) % 4 == 0 || !AllResidues(p)
  }

  /** How many points the enumeration lists above x: 1 for a zero right-hand side, 2 for a residue, else 0. */
  function PointsAbove(a: int, d: int, p: int, x: int): nat
    requires p > 0 && p % 2 == 1
  {
    var fx := CurveRhs(a, d, x) % p;
    if fx == 0 then 1 else if IsResidue(fx, p) then 2 else 0
  }

  /**
   * What the enumeration has built once it reaches x == i, starting at
   * first: every x in [first, i) with its PointsAbove entries, in order,
   * a point and its negation side by side, y == 0 on a zero right-hand side,
   * and, when the roots are genuine, exactly the reduced curve points above
   * [first, i).
   */
  ghost predicate ListedWithin(a: int, d: int, p: int, first: int, i: int, xs: seq<int>, ys: seq<int>)
    requires p > 0 && p % 2 == 1
  {
    |xs| == |ys| && Sorted(xs) && Paired(p, xs, ys) && InWindow(p, first, i, xs, ys)
    && RootsOfZero(a, d, p, xs, ys) && GenuineBelow(a, d, p, xs, ys) && CountsWithin(a, d, p, first, i, xs)
    && (RootsGenuine(p) ==> CompleteWithin(a, d, p, first, i, xs, ys))
  }

  ghost predicate CompleteWithin(a: int, d: int, p: int, first: int, i: int, xs: seq<int>, ys: seq<int>)
    requires p > 0 && |xs| == |ys|
  {
    forall x, y :: first <= x < i && 0 <= y < p && OnCurve(a, d, p, x, y) ==>
      exists j :: 0 <= j < |xs| && xs[j] == x && ys[j] == y
  }

  ghost predicate InWindow(p: int, first: int, i: int, xs: seq<int>, ys: seq<int>)
    requires |xs| == |ys|
  {
    forall j :: 0 <= j < |xs| ==> first <= xs[j] < i && 0 <= ys[j] <= p
  }

  ghost predicate RootsOfZero(a: int, d: int, p: int, xs: seq<int>, ys: seq<int>)
    requires p > 0 && |xs| == |ys|
  {
    forall j :: 0 <= j < |xs| && CurveRhs(a, d, xs[j]) % p == 0 ==> ys[j] == 0
  }

  ghost predicate GenuineBelow(a: int, d: int, p: int, xs: seq<int>, ys: seq<int>)
    requires p > 0 && p % 2 == 1 && |xs| == |ys|
  {
    RootsGenuine(p) ==> forall j :: 0 <= j < |xs| ==> ys[j] < p && OnCurve(a, d, p, xs[j], ys[j])
  }

  ghost predicate CountsWithin(a: int, d: int, p: int, first: int, i: int, xs: seq<int>)
    requires p > 0 && p % 2 == 1
  {
    forall x :: first <= x < i ==> multiset(xs)[x] == PointsAbove(a, d, p, x)
  }

  /**
   * `generatePoints`: the points above x for x from start (0 when start
   * exceeds p) up to at most 1000 values further, and below p. y comes from
   * Euler's shortcut y = fx^((p+1)/4) when p == 3 mod 4, otherwise from
   * Tonelli-Shanks; a non-zero fx also gives (x, p - y).
   */
  method GeneratePoints(a: int, d: int, p: int, start: int) returns (xs: seq<int>, ys: seq<int>)
    requires IsPrime(p) && p % 2 == 1
    ensures |xs| == |ys| && Sorted(xs) && Paired(p, xs, ys)
    ensures var first := if start > p then 0 else start;
            var last := if first + 1000 < p then first + 1000 else p;
            (forall j :: 0 <= j < |xs| ==> first <= xs[j] < last && 0 <= ys[j] <= p)
            && (forall x :: first <= x < last ==> multiset(xs)[x] == PointsAbove(a, d, p, x))
    ensures forall j :: 0 <= j < |xs| && CurveRhs(a, d, xs[j]) % p == 0 ==> ys[j] == 0
    ensures RootsGenuine(p) ==> forall j :: 0 <= j < |xs| ==> ys[j] < p && OnCurve(a, d, p, xs[j], ys[j])
    ensures var first := if start > p then 0 else start;
            var last := if first + 1000 < p then first + 1000 else p;
            |xs| <= 2 * (last - first)
            && (RootsGenuine(p) ==> forall x, y :: first <= x < last && 0 <= y < p && OnCurve(a, d, p, x, y) ==>
                                      exists j :: 0 <= j < |xs| && xs[j] == x && ys[j] == y)
  {
    var first := if start > p then 0 else start;
    var last := if first + 1000 < p then first + 1000 else p;
    xs, ys := [], [];
    for x := first to last
      invariant ListedWithin(a, d, p, first, x, xs, ys)
      invariant |xs| <= 2 * (x - first)
    {
      xs, ys := ListPointsAbove(a, d, p, first, x, xs, ys);
    }
    ListedWithinMeaning(a, d, p, first, last, xs, ys);
  }

  /**
   * One pass of the `generatePoints` loop for x: fx decides between the
   * two points (x, y), (x, p - y), the single point (x, 0), and nothing.
   */
  method ListPointsAbove(a: int, d: int, p: int, first: int, x: int, xs: seq<int>, ys: seq<int>)
      returns (xs': seq<int>, ys': seq<int>)
    requires IsPrime(p) && p % 2 == 1 && first <= x && ListedWithin(a, d, p, first, x, xs, ys)
    ensures ListedWithin(a, d, p, first, x + 1, xs', ys') && |xs'| <= |xs| + 2
  {
    var fx := (x * x * x + a * x + d) % p;
    assert fx == CurveRhs(a, d, x) % p;
    ModIdem(CurveRhs(a, d, x), p);
    ModSmall(0, p);
    if IsResidue(fx, p) || fx == 0 {
      var y;
      if (p - 3) % 4 == 0 {
        y := Pow(fx, (p + 1) / 4, p);
        EulerShortcut(fx, p);
      } else {
        y := TonelliShanks(fx, p);
      }
      xs', ys' := xs + [x], ys + [y];
      if fx != 0 {
        xs', ys' := xs' + [x], ys' + [p - y];
        assert xs' == xs + [x, x] && ys' == ys + [y, p - y];
        ListedPair(a, d, p, first, x, xs, ys, y);
      } else {
        ListedSingle(a, d, p, first, x, xs, ys, y);
      }
    } else {
      xs', ys' := xs, ys;
      ListedNone(a, d, p, first, x, xs, ys);
    }
  }

  /** The invariant at the end of the window, spelled out (a bridge for GeneratePoints). */
  lemma ListedWithinMeaning(a: int, d: int, p: int, first: int, last: int, xs: seq<int>, ys: seq<int>)
    requires p > 0 && p % 2 == 1 && ListedWithin(a, d, p, first, last, xs, ys)
    ensures |xs| == |ys| && Sorted(xs) && Paired(p, xs, ys)
    ensures forall j :: 0 <= j < |xs| ==> first <= xs[j] < last && 0 <= ys[j] <= p
    ensures forall x :: first <= x < last ==> multiset(xs)[x] == PointsAbove(a, d, p, x)
    ensures forall j :: 0 <= j < |xs| && CurveRhs(a, d, xs[j]) % p == 0 ==> ys[j] == 0
    ensures RootsGenuine(p) ==> forall j :: 0 <= j < |xs| ==> ys[j] < p && OnCurve(a, d, p, xs[j], ys[j])
    ensures RootsGenuine(p) ==> forall x, y :: first <= x < last && 0 <= y < p && OnCurve(a, d, p, x, y) ==>
                                  exists j :: 0 <= j < |xs| && xs[j] == x && ys[j] == y
  {
  }

  /** Euler's shortcut for p == 3 mod 4 gives a square root, and 0 for 0. */
  lemma EulerShortcut(fx: int, p: int)
    requires IsPrime(p) && (p - 3) % 4 == 0 && 0 <= fx < p && (IsResidue(fx, p) || fx == 0)
    ensures var y := Pow(fx, (p + 1) / 4, p); (y * y) % p == fx && (fx == 0 ==> y == 0)
  {
    DivModUnique(p, 4, (p - 3) / 4, 3);
    ModSmall(fx, p);
    if fx == 0 {
      ZeroPower(fx, (p + 1) / 4, p);
      ModSmall(0, p);
    } else {
      EulerRoot(fx, p);
    }
  }

  lemma ListedPair(a: int, d: int, p: int, first: int, i: int, xs: seq<int>, ys: seq<int>, y: int)
    requires IsPrime(p) && p % 2 == 1 && first <= i && ListedWithin(a, d, p, first, i, xs, ys)
    requires CurveRhs(a, d, i) % p != 0 && IsResidue(CurveRhs(a, d, i) % p, p) && 0 <= y < p
    requires RootsGenuine(p) ==> (y * y) % p == CurveRhs(a, d, i) % p
    ensures ListedWithin(a, d, p, first, i + 1, xs + [i, i], ys + [y, p - y])
  {
    var xs', ys' := xs + [i, i], ys + [y, p - y];
    GenuinePair(a, d, p, i, xs, ys, y);
    assert InWindow(p, first, i + 1, xs', ys') by {
      forall j | 0 <= j < |xs'|
        ensures first <= xs'[j] < i + 1 && 0 <= ys'[j] <= p
      {
        if j < |xs| {
          assert xs'[j] == xs[j] && ys'[j] == ys[j];
        }
      }
    }
    assert RootsOfZero(a, d, p, xs', ys') by {
      forall j | 0 <= j < |xs'| && CurveRhs(a, d, xs'[j]) % p == 0
        ensures ys'[j] == 0
      {
        assert j < |xs| && xs'[j] == xs[j] && ys'[j] == ys[j];
      }
    }
    AppendAbove(p, xs, ys, i, [i, i], [y, p - y]);
    assert CountsWithin(a, d, p, first, i + 1, xs') by {
      assert forall x :: multiset(xs')[x] == multiset(xs)[x] + (if x == i then 2 else 0);
    }
    if RootsGenuine(p) {
      assert y != 0 by { ModSmall(0, p); }
      PairComplete(a, d, p, i, y);
      CompleteExtend(a, d, p, first, i, xs, ys, [i, i], [y, p - y]);
    }
  }

  /** Above a non-zero right-hand side with root y, the reduced curve points are (i, y) and (i, p - y). */
  lemma PairComplete(a: int, d: int, p: int, i: int, y: int)
    requires IsPrime(p) && 0 < y < p && (y * y) % p == CurveRhs(a, d, i) % p
    ensures forall y' :: 0 <= y' < p && OnCurve(a, d, p, i, y') ==>
              exists j :: 0 <= j < 2 && [i, i][j] == i && [y, p - y][j] == y'
  {
    forall y' | 0 <= y' < p && OnCurve(a, d, p, i, y')
      ensures exists j :: 0 <= j < 2 && [i, i][j] == i && [y, p - y][j] == y'
    {
      assert y' == y || y' == p - y by {
        ReducedRootsAgree(y', y, p);
      }
      if y' == y {
        assert [i, i][0] == i && [y, p - y][0] == y';
      } else {
        assert [i, i][1] == i && [y, p - y][1] == y';
      }
    }
  }

  /**
   * Completeness carries over to x == i + 1 when the entries appended for
   * x == i include every reduced curve point above i.
   */
  lemma CompleteExtend(a: int, d: int, p: int, first: int, i: int, xs: seq<int>, ys: seq<int>, kx: seq<int>, ky: seq<int>)
    requires p > 0 && |xs| == |ys| && |kx| == |ky| && CompleteWithin(a, d, p, first, i, xs, ys)
    requires forall y :: 0 <= y < p && OnCurve(a, d, p, i, y) ==>
               exists j :: 0 <= j < |kx| && kx[j] == i && ky[j] == y
    ensures CompleteWithin(a, d, p, first, i + 1, xs + kx, ys + ky)
  {
    var xs', ys' := xs + kx, ys + ky;
    forall x, y | first <= x < i + 1 && 0 <= y < p && OnCurve(a, d, p, x, y)
      ensures exists j :: 0 <= j < |xs'| && xs'[j] == x && ys'[j] == y
    {
      if x < i {
        var j :| 0 <= j < |xs| && xs[j] == x && ys[j] == y;
        assert xs'[j] == x && ys'[j] == y;
      } else {
        var j :| 0 <= j < |kx| && kx[j] == i && ky[j] == y;
        assert xs'[|xs| + j] == x && ys'[|xs| + j] == y;
      }
    }
  }

  /** y and p - y are both genuine roots when y is, and neither is p. */
  lemma GenuinePair(a: int, d: int, p: int, i: int, xs: seq<int>, ys: seq<int>, y: int)
    requires IsPrime(p) && p % 2 == 1 && |xs| == |ys| && GenuineBelow(a, d, p, xs, ys)
    requires CurveRhs(a, d, i) % p != 0 && 0 <= y < p
    requires RootsGenuine(p) ==> (y * y) % p == CurveRhs(a, d, i) % p
    ensures GenuineBelow(a, d, p, xs + [i, i], ys + [y, p - y])
  {
    var xs', ys' := xs + [i, i], ys + [y, p - y];
    if RootsGenuine(p) {
      var fx := CurveRhs(a, d, i) % p;
      ModIdem(CurveRhs(a, d, i), p);
      NegatedRoot(y, fx, p);
      ModSmall(0, p);
      assert y != 0;
      forall j | 0 <= j < |xs'|
        ensures ys'[j] < p && OnCurve(a, d, p, xs'[j], ys'[j])
      {
        if j < |xs| {
          assert xs'[j] == xs[j] && ys'[j] == ys[j];
        }
      }
    }
  }

  lemma ListedSingle(a: int, d: int, p: int, first: int, i: int, xs: seq<int>, ys: seq<int>, y: int)
    requires IsPrime(p) && p % 2 == 1 && first <= i && ListedWithin(a, d, p, first, i, xs, ys)
    requires CurveRhs(a, d, i) % p == 0 && y == 0
    ensures ListedWithin(a, d, p, first, i + 1, xs + [i], ys + [y])
  {
    var xs', ys' := xs + [i], ys + [y];
    ModSmall(0, p);
    assert InWindow(p, first, i + 1, xs', ys') by {
      forall j | 0 <= j < |xs'|
        ensures first <= xs'[j] < i + 1 && 0 <= ys'[j] <= p
      {
        if j < |xs| {
          assert xs'[j] == xs[j] && ys'[j] == ys[j];
        }
      }
    }
    assert RootsOfZero(a, d, p, xs', ys') by {
      forall j | 0 <= j < |xs'| && CurveRhs(a, d, xs'[j]) % p == 0
        ensures ys'[j] == 0
      {
        if j < |xs| {
          assert xs'[j] == xs[j] && ys'[j] == ys[j];
        }
      }
    }
    assert GenuineBelow(a, d, p, xs', ys') by {
      if RootsGenuine(p) {
        forall j | 0 <= j < |xs'|
          ensures ys'[j] < p && OnCurve(a, d, p, xs'[j], ys'[j])
        {
          if j < |xs| {
            assert xs'[j] == xs[j] && ys'[j] == ys[j];
          }
        }
      }
    }
    AppendAbove(p, xs, ys, i, [i], [y]);
    assert CountsWithin(a, d, p, first, i + 1, xs') by {
      assert forall x :: multiset(xs')[x] == multiset(xs)[x] + (if x == i then 1 else 0);
    }
    if RootsGenuine(p) {
      SingleComplete(a, d, p, i);
      CompleteExtend(a, d, p, first, i, xs, ys, [i], [y]);
    }
  }

  /** Above a zero right-hand side, the only reduced curve point is (i, 0). */
  lemma SingleComplete(a: int, d: int, p: int, i: int)
    requires IsPrime(p) && CurveRhs(a, d, i) % p == 0
    ensures forall y' :: 0 <= y' < p && OnCurve(a, d, p, i, y') ==>
              exists j :: 0 <= j < 1 && [i][j] == i && [0][j] == y'
  {
    forall y' | 0 <= y' < p && OnCurve(a, d, p, i, y')
      ensures exists j :: 0 <= j < 1 && [i][j] == i && [0][j] == y'
    {
      ReducedRootsAgree(y', 0, p);
      assert [0][0] == y';
    }
  }

  lemma ListedNone(a: int, d: int, p: int, first: int, i: int, xs: seq<int>, ys: seq<int>)
    requires IsPrime(p) && p % 2 == 1 && first <= i && ListedWithin(a, d, p, first, i, xs, ys)
    requires PointsAbove(a, d, p, i) == 0
    ensures ListedWithin(a, d, p, first, i + 1, xs, ys)
  {
    assert InWindow(p, first, i + 1, xs, ys);
    assert multiset(xs)[i] == 0;
    if RootsGenuine(p) {
      NoneComplete(a, d, p, i);
      CompleteExtend(a, d, p, first, i, xs, ys, [], []);
      assert xs + [] == xs && ys + [] == ys;
    }
  }

  /** Where the enumeration lists nothing there is no curve point: a square is 0 or passes the residue test. */
  lemma NoneComplete(a: int, d: int, p: int, i: int)
    requires IsPrime(p) && p % 2 == 1 && PointsAbove(a, d, p, i) == 0
    ensures forall y :: 0 <= y < p ==> !OnCurve(a, d, p, i, y)
  {
    var fx := CurveRhs(a, d, i) % p;
    forall y | 0 <= y < p && OnCurve(a, d, p, i, y)
      ensures false
    {
      ModIdem(CurveRhs(a, d, i), p);
      ModSmall(0, p);
      ModSmall(y, p);
      SquareIsResidue(fx, y, p);
    }
  }

  // ---------------------------------------------------------------------------
  // Group law

  /**
   * The line through P1 with slope k meets the curve a third time; this is
   * that point reflected in the x-axis, x3 == k^2 - x1 - x2 and
   * y3 == k (x1 - x3) - y1, reduced modulo p.
   */
  function Chord(p: int, P1: Point, P2: Point, k: int): Point
    requires p > 0
  {
    var x := (k * k - P1.x - P2.x) % p;
    Point(x, (k * (P1.x - x) - P1.y) % p)
  }

  /** The chord with slope n / d modulo p, or (0, -1) when d has no inverse. */
  function AlongSlope(p: int, P1: Point, P2: Point, n: int, d: int): Point
    requires p > 1
  {
    match Slope(n, d, p)
    case None => NoInverse
    case Some(k) => Chord(p, P1, P2, k)
  }

  /**
   * `addpoints`: the affine chord formula with the unreduced gradient
   * (y2 - y1) * (x2 - x1)^-1; (0, -1) when x2 - x1 has no inverse.
   */
  function AddPoints(a: int, d: int, p: int, P1: Point, P2: Point): (r: Point)
    requires p > 1
    ensures r == NoInverse <==> Gcd((P2.x - P1.x) % p, p) != 1
    ensures r == NoInverse || InField(r, p)
  {
    match ModInverse(P2.x - P1.x, p)
    case None => NoInverse
    case Some(inv) =>
      var gradient := (P2.y - P1.y) * inv;
      var x := (gradient * gradient - P2.x - P1.x) % p;
      var y := (gradient * (P2.x - x) - P2.y) % p;
      Point(x, y)
  }

  /** The x-coordinate only depends on the gradient modulo p. */
  lemma ChordX(g: int, k: int, x1: int, x2: int, p: int)
    requires p > 0 && g % p == k % p
    ensures (g * g - x2 - x1) % p == (k * k - x1 - x2) % p
  {
    ModEqMul(g, k, g, k, p);
    ModEqSub(g * g, k * k, x2 + x1, x1 + x2, p);
    assert g * g - x2 - x1 == g * g - (x2 + x1);
  }

  /**
   * Computing y3 from P2, as the source does, agrees with computing it from
   * P1, because k (x2 - x1) == y2 - y1.
   */
  lemma ChordY(g: int, k: int, x1: int, y1: int, x2: int, y2: int, x3: int, p: int)
    requires p > 0 && g % p == k % p && (k * (x2 - x1)) % p == (y2 - y1) % p
    ensures (g * (x2 - x3) - y2) % p == (k * (x1 - x3) - y1) % p
  {
    ModEqMul(g, k, x2 - x3, x2 - x3, p);
    ModEqSub(g * (x2 - x3), k * (x2 - x3), y2, y2, p);
    ModDiffFromEq(k * (x2 - x1), y2 - y1, p);
    var e := k * (x2 - x1) - (y2 - y1);
    assert k * (x2 - x3) - y2 == (k * (x1 - x3) - y1) + e;
    ModSmall(0, p);
    ModEqAdd(k * (x1 - x3) - y1, k * (x1 - x3) - y1, e, 0, p);
  }

  /** The gradient the source builds is congruent to the reduced slope. */
  lemma GradientIsSlope(n: int, inv: int, p: int)
    requires p > 1
    ensures (n * inv) % p == ((n % p) * inv) % p % p
  {
    ModIdem(n, p);
    ModEqMul(n, n % p, inv, inv, p);
    ModIdem((n % p) * inv, p);
  }

  /** `addpoints` is the chord construction with slope (y2 - y1) / (x2 - x1). */
  lemma AddIsChord(a: int, d: int, p: int, P1: Point, P2: Point)
    requires p > 1
    ensures AddPoints(a, d, p, P1, P2) == AlongSlope(p, P1, P2, P2.y - P1.y, P2.x - P1.x)
  {
    match ModInverse(P2.x - P1.x, p)
    case None =>
    case Some(inv) =>
      var n := P2.y - P1.y;
      var g := n * inv;
      var k := Slope(n, P2.x - P1.x, p).value;
      assert k == ((n % p) * inv) % p;
      GradientIsSlope(n, inv, p);
      ChordX(g, k, P1.x, P2.x, p);
      var x := (k * k - P1.x - P2.x) % p;
      ChordY(g, k, P1.x, P1.y, P2.x, P2.y, x, p);
  }

  /** Addition is commutative wherever it is defined by a slope. */
  lemma AddPointsCommutative(a: int, d: int, p: int, P1: Point, P2: Point)
    requires IsPrime(p)
    ensures AddPoints(a, d, p, P1, P2) == AddPoints(a, d, p, P2, P1)
  {
    var n, dx := P2.y - P1.y, P2.x - P1.x;
    assert AddPoints(a, d, p, P1, P2) == AlongSlope(p, P1, P2, n, dx) by {
      AddIsChord(a, d, p, P1, P2);
    }
    assert AddPoints(a, d, p, P2, P1) == AlongSlope(p, P2, P1, n, dx) by {
      AddIsChord(a, d, p, P2, P1);
      assert P1.y - P2.y == -n && P1.x - P2.x == -dx;
      SlopeNegated(n, dx, p);
    }
    match Slope(n, dx, p)
    case None =>
    case Some(k) =>
      ChordSymmetric(p, P1, P2, k);
  }

  /** The chord through P1 and P2 is the chord through P2 and P1 when k is their slope. */
  lemma ChordSymmetric(p: int, P1: Point, P2: Point, k: int)
    requires p > 0 && (k * (P2.x - P1.x)) % p == (P2.y - P1.y) % p
    ensures Chord(p, P1, P2, k) == Chord(p, P2, P1, k)
  {
    var kk := k * k;
    var x := (kk - P1.x - P2.x) % p;
    assert kk - P1.x - P2.x == kk - P2.x - P1.x;
    assert Chord(p, P1, P2, k) == Point(x, (k * (P1.x - x) - P1.y) % p);
    assert Chord(p, P2, P1, k) == Point(x, (k * (P2.x - x) - P2.y) % p);
    ChordY(k, k, P1.x, P1.y, P2.x, P2.y, x, p);
  }

  /** The source's addition cannot double: x2 == x1 leaves no inverse. */
  lemma AddSameX(a: int, d: int, p: int, P1: Point, P2: Point)
    requires IsPrime(p)
    ensures AddPoints(a, d, p, P1, P2) == NoInverse <==> P1.x % p == P2.x % p
  {
    InvertibleModPrime(P2.x - P1.x, p);
    if P1.x % p == P2.x % p {
      ModDiffFromEq(P2.x, P1.x, p);
    } else if (P2.x - P1.x) % p == 0 {
      ModEqFromDiff(P2.x, P1.x, p);
    }
  }

  /**
   * `doublepoint`: the tangent formula with the unreduced
   * lambda = (3 x^2 + a) * (2 y)^-1; (0, -1) when 2 y has no inverse.
   */
  function DoublePoint(a: int, d: int, p: int, P: Point): (r: Point)
    requires p > 1
    ensures r == NoInverse <==> Gcd((2 * P.y) % p, p) != 1
    ensures r == NoInverse || InField(r, p)
  {
    match ModInverse(2 * P.y, p)
    case None => NoInverse
    case Some(inv) =>
      var lam := (3 * P.x * P.x + a) * inv;
      var x := (lam * lam - 2 * P.x) % p;
      var y := ((lam * (P.x - x)) - P.y) % p;
      Point(x, y)
  }

  /** `doublepoint` is the chord construction with the tangent slope (3 x^2 + a) / (2 y). */
  lemma DoubleIsTangent(a: int, d: int, p: int, P: Point)
    requires p > 1
    ensures DoublePoint(a, d, p, P) == AlongSlope(p, P, P, 3 * P.x * P.x + a, 2 * P.y)
  {
    match ModInverse(2 * P.y, p)
    case None =>
    case Some(inv) =>
      var n := 3 * P.x * P.x + a;
      var g := n * inv;
      var k := Slope(n, 2 * P.y, p).value;
      assert k == ((n % p) * inv) % p;
      GradientIsSlope(n, inv, p);
      TangentChord(g, k, P, p);
  }

  /** The doubling formulas with a representative g of the slope k are the chord through P and P. */
  lemma TangentChord(g: int, k: int, P: Point, p: int)
    requires p > 0 && g % p == k % p
    ensures var x := (g * g - 2 * P.x) % p;
            Point(x, (g * (P.x - x) - P.y) % p) == Chord(p, P, P, k)
  {
    ChordX(g, k, P.x, P.x, p);
    assert g * g - 2 * P.x == g * g - P.x - P.x;
    var x := (k * k - P.x - P.x) % p;
    assert k * (P.x - P.x) == 0 && P.y - P.y == 0;
    ModSmall(0, p);
    ChordY(g, k, P.x, P.y, P.x, P.y, x, p);
  }

  /** Modulo an odd prime doubling fails exactly on points with y == 0. */
  lemma DoubleFailsOnAxis(a: int, d: int, p: int, P: Point)
    requires IsPrime(p) && p % 2 == 1
    ensures DoublePoint(a, d, p, P) == NoInverse <==> P.y % p == 0
  {
    InvertibleModPrime(2 * P.y, p);
    if P.y % p == 0 {
      ModSmall(0, p);
      ModEqMul(2, 2, P.y, 0, p);
    } else if (2 * P.y) % p == 0 {
      EuclidLemma(2, P.y, p);
      ModSmall(2, p);
    }
  }

  /**
   * `substractpoints`: P1 + (x2, -y2), with -y2 left unreduced.
   */
  function SubstractPoints(a: int, d: int, p: int, P1: Point, P2: Point): (r: Point)
    requires p > 1
    ensures r == NoInverse <==> Gcd((P2.x - P1.x) % p, p) != 1
    ensures r == NoInverse || InField(r, p)
  {
    AddPoints(a, d, p, P1, Point(P2.x, -1 * P2.y))
  }

  /** Subtracting is adding the group inverse (x, -y mod p). */
  lemma SubtractIsAddNegation(a: int, d: int, p: int, P1: Point, P2: Point)
    requires p > 1
    ensures SubstractPoints(a, d, p, P1, P2) == AddPoints(a, d, p, P1, Negate(P2, p))
  {
    var Q, N := Point(P2.x, -1 * P2.y), Negate(P2, p);
    AddIsChord(a, d, p, P1, Q);
    AddIsChord(a, d, p, P1, N);
    // the two numerators differ by a multiple of p
    assert (N.y - P1.y) - (Q.y - P1.y) == N.y + P2.y;
    ModEqFromDiff(N.y - P1.y, Q.y - P1.y, p);
    SlopeCongruent(N.y - P1.y, Q.y - P1.y, P2.x - P1.x, p);
  }

  /** Slope only depends on the numerator modulo p. */
  lemma SlopeCongruent(n: int, n': int, d: int, p: int)
    requires p > 1 && n % p == n' % p
    ensures Slope(n, d, p) == Slope(n', d, p)
  {
  }

  /** Subtracting a point from itself meets no inverse. */
  lemma SubtractSelf(a: int, d: int, p: int, P: Point)
    requires p > 1
    ensures SubstractPoints(a, d, p, P, P) == NoInverse
  {
    ModSmall(0, p);
    assert Gcd(0, p) == p;
  }

  /**
   * `multiplypoint`: P for scalar 1; P + (scalar - 1) P for odd scalars;
   * (2 P) (scalar / 2) for even ones.
   */
  function MultiplyPoint(a: int, d: int, p: int, P: Point, scalar: int): (r: Point)
    requires p > 1 && scalar >= 1
    ensures scalar >= 2 ==> r == NoInverse || InField(r, p)
    decreases scalar
  {
    if scalar == 1 then P
    else if scalar % 2 == 1 then AddPoints(a, d, p, P, MultiplyPoint(a, d, p, P, scalar - 1))
    else MultiplyPoint(a, d, p, DoublePoint(a, d, p, P), scalar / 2)
  }

  /** P doubled j times. */
  function Doubled(a: int, d: int, p: int, P: Point, j: nat): Point
    requires p > 1
  {
    if j == 0 then P else DoublePoint(a, d, p, Doubled(a, d, p, P, j - 1))
  }

  lemma {:induction false} DoubledShift(a: int, d: int, p: int, P: Point, j: nat)
    requires p > 1
    ensures Doubled(a, d, p, DoublePoint(a, d, p, P), j) == Doubled(a, d, p, P, j + 1)
    decreases j
  {
    if j > 0 {
      DoubledShift(a, d, p, P, j - 1);
    }
  }

  /** Multiplying by 2^j m is multiplying P doubled j times by m. */
  lemma MultiplyByPowerOfTwo(a: int, d: int, p: int, P: Point, j: nat, m: int)
    requires p > 1 && m >= 1
    ensures MultiplyPoint(a, d, p, P, Pow2(j) * m) == MultiplyPoint(a, d, p, Doubled(a, d, p, P, j), m)
  {
    MulAtLeast(Pow2(j), m);
    MultiplyScaled(a, d, p, P, j, m, Pow2(j) * m);
  }

  /** MultiplyByPowerOfTwo with the scalar n == 2^j m named, by induction on j. */
  lemma {:induction false} MultiplyScaled(a: int, d: int, p: int, P: Point, j: nat, m: int, n: int)
    requires p > 1 && m >= 1 && n == Pow2(j) * m && n >= 1
    ensures MultiplyPoint(a, d, p, P, n) == MultiplyPoint(a, d, p, Doubled(a, d, p, P, j), m)
    decreases j
  {
    if j > 0 {
      var t := Pow2(j - 1) * m;
      PowerSplit(j, m);
      var Q := DoublePoint(a, d, p, P);
      calc {
        MultiplyPoint(a, d, p, P, n);
        { assert n == 2 * t; }
        MultiplyPoint(a, d, p, P, 2 * t);
        { MultiplyEven(a, d, p, P, t); }
        MultiplyPoint(a, d, p, Q, t);
        { MultiplyScaled(a, d, p, Q, j - 1, m, t); }
        MultiplyPoint(a, d, p, Doubled(a, d, p, Q, j - 1), m);
        { DoubledShift(a, d, p, P, j - 1); }
        MultiplyPoint(a, d, p, Doubled(a, d, p, P, j), m);
      }
    } else {
      assert Pow2(j) == 1 && n == m;
    }
  }

  lemma MultiplyEven(a: int, d: int, p: int, P: Point, t: int)
    requires p > 1 && t >= 1
    ensures MultiplyPoint(a, d, p, P, 2 * t) == MultiplyPoint(a, d, p, DoublePoint(a, d, p, P), t)
  {
  }

  /** 2^j m is twice 2^(j-1) m, which is positive. */
  lemma PowerSplit(j: nat, m: int)
    requires j > 0 && m >= 1
    ensures Pow2(j) * m == 2 * (Pow2(j - 1) * m) && Pow2(j - 1) * m >= 1
  {
    var e := Pow2(j - 1);
    assert Pow2(j) == 2 * e;
    DoubleTheFactor(e, m);
    MulAtLeast(e, m);
  }

  lemma DoubleTheFactor(e: int, m: int)
    ensures (2 * e) * m == 2 * (e * m)
  {
  }

  /** Multiplying by 2^j doubles j times; multiplying by 2 is doubling. */
  lemma MultiplyIsDoubling(a: int, d: int, p: int, P: Point, j: nat)
    requires p > 1
    ensures MultiplyPoint(a, d, p, P, Pow2(j)) == Doubled(a, d, p, P, j)
    ensures MultiplyPoint(a, d, p, P, 2) == DoublePoint(a, d, p, P)
  {
    MultiplyByPowerOfTwo(a, d, p, P, j, 1);
  }
}
