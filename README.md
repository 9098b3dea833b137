# Elliptic curves over prime fields: a verified model

This project models the two curve engines of the repository in Dafny:

- `base/curves/montgomery_curve.py` works with Montgomery curves
  B·y² = x³ + A·x² + x modulo a prime p. It contains:
  - two square-and-multiply loops and Euler's square root;
  - Legendre symbols and an extended Euclid loop with the inverse built on it;
  - a recursive Tonelli–Shanks square root;
  - the enumeration of all points into two module-level coordinate lists;
  - the affine group law (addition, subtraction, doubling) and a Montgomery ladder.
- `base/curves/s_weirstrass_curve.py` works with short Weierstrass curves
  y² = x³ + a·x + d modulo p. It contains:
  - a recursive modular power and an iterative Tonelli–Shanks;
  - a windowed point enumeration;
  - the affine group law and a recursive double-and-add multiplication.

Both files represent points as integer pairs. (0, −1) stands for "no modular
inverse exists". The Montgomery file also returns (0, 0) for the point at
infinity.

Layout:

| file | module | contents |
|---|---|---|
| `modular.dfy` | `Modular` | `Option`, powers `Exp`/`Pow2`, congruence lemmas |
| `field.dfy` | `Field` | gcd and Bézout, primes, Euclid's lemma, modular inverse (`ModInverse`, the model of `gmpy2.invert` and `sympy.mod_inverse`), quotients `Slope`, Euler's criterion |
| `fermat.dfy` | `Fermat` | Fermat's little theorem via the binomial theorem; Euler's criterion of a unit is ±1 |
| `points.dfy` | `Points` | the `Point` pair, the two sentinels, negation, the sorted/paired shape of the coordinate lists |
| `montgomery_curve.dfy` | `MontgomeryCurve` | the Montgomery engine; the two global lists are the class `CoordinateLists` |
| `weierstrass_curve.dfy` | `WeierstrassCurve` | the short-Weierstrass engine |

How the code is modelled:

- Loops in the source are methods with loop invariants, proved against
  specification functions: `ModularPow`, `PowerModulo`, `ExtendedGcd`, both
  Tonelli–Shanks, the Montgomery ladder and both enumerations.
- Recursive helpers are functions: `Pow`, the Weierstrass `MultiplyPoint`, and
  the group-law formulas.
- Exceptions raised by a missing inverse are modelled as `None`, which the
  group-law functions turn into the (0, −1) sentinel.

## Model

| member | source | states |
|---|---|---|
| `Field.ModInverse` | base/curves/montgomery_curve.py:41 | an inverse exists exactly when gcd(x mod m, m) == 1, and it is a reduced x⁻¹ |
| `Field.Slope` | base/curves/montgomery_curve.py:212 | the quotient n/d exists exactly when d is invertible, and then k·d ≡ n |
| `Field.SlopeNegated` | base/curves/s_weirstrass_curve.py:165 | (−n)/(−d) is the same quotient as n/d modulo a prime, so the gradient does not depend on the order of the points |
| `Field.EulerCriterionZero` | base/curves/montgomery_curve.py:46-47 | modulo an odd prime, Euler's criterion is 0 exactly for multiples of p |
| `Field.EulerRoot` | base/curves/montgomery_curve.py:35-37 | for p ≡ 3 (mod 4) and a residue m, m^((p+1)/4) is a square root of m |
| `Fermat.FermatLittle` | base/curves/s_weirstrass_curve.py:135-142 | a^(p−1) ≡ 1 for every unit a modulo a prime p, so every non-zero square passes the residue test |
| `Field.ReducedRootsAgree` | base/curves/montgomery_curve.py:162-170 | modulo a prime the reduced square roots of y0² are y0 and p − y0, and only 0 for y0 == 0, so listing y and p − y lists every root |
| `Fermat.SquareCriterion` | base/curves/montgomery_curve.py:46-47 | a square that is not a multiple of p has Euler's criterion 1, so a non-residue has no root |
| `Fermat.CriterionIsSign` | base/curves/s_weirstrass_curve.py:135-138 | Euler's criterion of a unit is 1 or p − 1, the two outcomes the residue test distinguishes |
| `Points.Negate` | base/curves/s_weirstrass_curve.py:178-181 | the additive inverse keeps x and takes y to a reduced value with y + y' ≡ 0 |
| `MontgomeryCurve.ModularPow` | base/curves/montgomery_curve.py:26-33 | the result is base^exponent mod modulus for a positive exponent, and the unreduced 1 otherwise |
| `MontgomeryCurve.PowerModulo` | base/curves/montgomery_curve.py:50-59 | the result is a^b mod n for b > 0 and 1 for b == 0 |
| `MontgomeryCurve.Euler` | base/curves/montgomery_curve.py:36-37 | the result is m^((p+1)/4) mod p; for p ≡ 3 (mod 4) and a residue m it is a reduced square root of m |
| `MontgomeryCurve.FindM` | base/curves/montgomery_curve.py:40-41 | y² must equal m: B·m ≡ x³ + A·x² + x with m reduced; None exactly when B is not invertible |
| `MontgomeryCurve.FindMPeriodic` | base/curves/montgomery_curve.py:40-41 | findM depends only on x modulo p |
| `MontgomeryCurve.FindQRForSW` | base/curves/montgomery_curve.py:43-44 | the Weierstrass right-hand side x³ + a·x + b is returned reduced, in [0, p); its dependence on x alone modulo p is `FindQRForSWPeriodic` |
| `MontgomeryCurve.FindQRForSWPeriodic` | base/curves/montgomery_curve.py:43-44 | the Weierstrass right-hand side depends only on x modulo p |
| `MontgomeryCurve.Legendre` | base/curves/montgomery_curve.py:46-47 | the result is Euler's criterion; modulo an odd prime it is 0 exactly for multiples of p |
| `MontgomeryCurve.LegendreSymbol` | base/curves/montgomery_curve.py:101-102 | the same as `legendre`, computed with `power_modulo` and `(p-1) >> 1` |
| `MontgomeryCurve.ExtendedGcd` | base/curves/montgomery_curve.py:62-93 | g is gcd(a, b) and a·u + b·v == g, including the two early returns for a zero input |
| `MontgomeryCurve.InverseModulo` | base/curves/montgomery_curve.py:96-98 | the result is reduced, and it inverts a whenever gcd(a, n) == 1 |
| `MontgomeryCurve.TonelliShanksRecursive` | base/curves/montgomery_curve.py:112-142 | given a^((p−1)/2^k) ≡ 1 and a non-residue b with its inverse, the result is a reduced square root of a; each recursion has a strictly smaller (p−1)/2^k, the measure that ends it |
| `MontgomeryCurve.TonelliShanks` | base/curves/montgomery_curve.py:145-159 | None exactly when the Legendre symbol is not 1; otherwise a reduced square root |
| `MontgomeryCurve.ReducedChord` | base/curves/montgomery_curve.py:213-214 | reducing after every operation, as the source does, gives the same point as the unreduced chord formulas |
| `MontgomeryCurve.DoublePoint` | base/curves/montgomery_curve.py:239-258 | y == 0 gives (0, 0); every result is reduced or the (0, −1) sentinel |
| `MontgomeryCurve.DoubleIsTangentChord` | base/curves/montgomery_curve.py:243-246 | doubling is the chord construction with the tangent slope (3x² + 2Ax + 1)/(2By), or (0, −1) when 2By is not invertible |
| `MontgomeryCurve.AddPoints` | base/curves/montgomery_curve.py:196-225 | equal points are doubled, distinct points on a vertical line give (0, 0), and every result is reduced or (0, −1) |
| `MontgomeryCurve.AddIsChord` | base/curves/montgomery_curve.py:210-214 | for distinct x the sum is the chord construction with slope (y2 − y1)/(x2 − x1) |
| `MontgomeryCurve.AddPointsCommutative` | base/curves/montgomery_curve.py:196-225 | modulo a prime, P1 + P2 == P2 + P1 |
| `MontgomeryCurve.SubstractPoints` | base/curves/montgomery_curve.py:228-236 | as written, the function returns P1 + P2: the negated y2 is never used |
| `MontgomeryCurve.SubstractSelfCounterexample` | base/curves/montgomery_curve.py:228-236 | on B·y² = x³ + 2x² + x mod 11 the point (3, 2) lies on the curve; as written, P − P gives (4, 10), while the corrected subtraction gives (0, 0) |
| `MontgomeryCurve.SubtractPoints` | base/curves/montgomery_curve.py:228-236 | corrected subtraction: P1 + (x2, −y2 mod p) |
| `MontgomeryCurve.SubtractSelf` | base/curves/montgomery_curve.py:228-236 | with the correction, P − P is (0, 0), the point at infinity, for every reduced P and odd p |
| `MontgomeryCurve.BitLength` | base/curves/montgomery_curve.py:267 | k < 2^n, n == 0 for k == 0 and, for k > 0, 2^(n−1) ≤ k: the number of binary digits |
| `MontgomeryCurve.MultiplyPoint` | base/curves/montgomery_curve.py:261-284 | the loop computes the ladder over bits bit_length(k) down to 0; the result is reduced or (0, −1) |
| `MontgomeryCurve.LadderFirstStep` | base/curves/montgomery_curve.py:266-281 | the first step sees the clear bit above the top bit: p0 stays (0, 0) and p1 becomes (0, 0) + P |
| `MontgomeryCurve.MultiplyByZero` | base/curves/montgomery_curve.py:261-284 | 0·P is (0, 0) |
| `MontgomeryCurve.MultiplyByOne` | base/curves/montgomery_curve.py:261-284 | 1·P is (0, 0) + ((0, 0) + P) |
| `MontgomeryCurve.LadderStaysReduced` | base/curves/montgomery_curve.py:266-281 | after the first step both registers hold reduced points or (0, −1) |
| `MontgomeryCurve.ListedPair` | base/curves/montgomery_curve.py:181-183 | a non-zero residue m adds (x, y) and (x, p − y), both on the curve, and these are the only reduced curve points above x |
| `MontgomeryCurve.ListedSingle` | base/curves/montgomery_curve.py:184-188 | m == 0 adds the single point (x, 0), the only reduced curve point above x |
| `MontgomeryCurve.ListedNone` | base/curves/montgomery_curve.py:177-189 | a non-residue adds nothing, and no curve point lies above x |
| `MontgomeryCurve.CoordinateLists.constructor` | base/curves/montgomery_curve.py:7-8 | both lists start empty |
| `MontgomeryCurve.CoordinateLists.AddPoint` | base/curves/montgomery_curve.py:162-170 | appends x twice and y, p − y, where y is a non-zero root of m; for p ≡ 3 (mod 4) it is Euler's m^((p+1)/4) mod p, otherwise the Tonelli–Shanks root |
| `MontgomeryCurve.CoordinateLists.ListPointsAbove` | base/curves/montgomery_curve.py:178-188 | one loop pass keeps the enumeration invariant for x + 1 and reports how many entries it added |
| `MontgomeryCurve.CoordinateLists.GeneratePoints` | base/curves/montgomery_curve.py:172-192 | None exactly when B is not invertible, with the lists unchanged; otherwise the old lists are extended, sorted by x, by reduced points on the curve, each beside its negation, with as many entries above each x as its Legendre symbol says, and every reduced curve point among them; the count matches the entries added |
| `WeierstrassCurve.Pow` | base/curves/s_weirstrass_curve.py:116-123 | the result is a^b mod m, reduced |
| `WeierstrassCurve.IsResidue` | base/curves/s_weirstrass_curve.py:141-142 | the test passes exactly when Euler's criterion x^((p−1)/2) mod p is 1 |
| `WeierstrassCurve.SquareIsResidue` | base/curves/s_weirstrass_curve.py:141-142 | every non-zero square passes `isResidue` |
| `WeierstrassCurve.ZeroIsNotResidue` | base/curves/s_weirstrass_curve.py:141-142 | a multiple of p never passes `isResidue` |
| `WeierstrassCurve.NonResidueCriterion` | base/curves/s_weirstrass_curve.py:135-142 | a unit that fails `isResidue` has Euler's criterion p − 1 |
| `WeierstrassCurve.FactorTwos` | base/curves/s_weirstrass_curve.py:19-24 | p − 1 == q·2^s with q odd and s ≥ 1 |
| `WeierstrassCurve.LeastNonResidue` | base/curves/s_weirstrass_curve.py:25-27 | the search stops at the least z ≥ 2 that fails `isResidue`, and at the latest at p |
| `WeierstrassCurve.TonelliSetup` | base/curves/s_weirstrass_curve.py:28-31 | the initial values M = s, c = z^q, t = n^q and R = n^((q+1)/2) satisfy R² ≡ n·t; t^(2^(M−1)) ≡ 1 for a unit n and t == 0 for n ≡ 0; c^(2^(M−1)) ≡ −1 when z < p, and c == 0 when z == p |
| `WeierstrassCurve.StepRoot` | base/curves/s_weirstrass_curve.py:40-44 | the update keeps R² ≡ n·t |
| `WeierstrassCurve.StepOrder` | base/curves/s_weirstrass_curve.py:37-43 | when i is the least exponent with t^(2^i) ≡ 1 and c^(2^(M−1)) ≡ −1, the new c = b² satisfies c^(2^(i−1)) ≡ −1 and the new t = t·c satisfies t^(2^(i−1)) ≡ 1 |
| `WeierstrassCurve.TonelliShanks` | base/curves/s_weirstrass_curve.py:18-44 | the result is reduced, 0 for n ≡ 0, and a square root of n whenever a non-residue below p exists |
| `WeierstrassCurve.EulerShortcut` | base/curves/s_weirstrass_curve.py:89-90 | for p ≡ 3 (mod 4), fx^((p+1)/4) is a square root of fx, and 0 for fx == 0 |
| `WeierstrassCurve.ListedPair` | base/curves/s_weirstrass_curve.py:95-99 | a non-zero residue fx adds (x, y) and (x, p − y); with genuine roots these are the only reduced curve points above x |
| `WeierstrassCurve.ListedSingle` | base/curves/s_weirstrass_curve.py:95-96 | fx == 0 adds the single point (x, 0); with genuine roots it is the only reduced curve point above x |
| `WeierstrassCurve.ListedNone` | base/curves/s_weirstrass_curve.py:86-87 | a non-residue adds nothing, and no curve point lies above x |
| `WeierstrassCurve.ListPointsAbove` | base/curves/s_weirstrass_curve.py:86-99 | one loop pass keeps the enumeration invariant for x + 1 and adds at most two entries |
| `WeierstrassCurve.GeneratePoints` | base/curves/s_weirstrass_curve.py:75-100 | the lists cover x from start (0 when start > p) to min(start + 1000, p), sorted, each point beside its negation, with exactly PointsAbove(x) entries per x; y == 0 on a zero right-hand side; at most 2·(last − first) entries, at most 2000; whenever the roots are genuine, exactly the reduced curve points above the window |
| `WeierstrassCurve.AddPoints` | base/curves/s_weirstrass_curve.py:160-171 | (0, −1) exactly when x2 − x1 is not invertible; otherwise a reduced point |
| `WeierstrassCurve.AddIsChord` | base/curves/s_weirstrass_curve.py:165-167 | the unreduced gradient gives the chord construction with slope (y2 − y1)/(x2 − x1) |
| `WeierstrassCurve.AddPointsCommutative` | base/curves/s_weirstrass_curve.py:160-171 | modulo a prime, P1 + P2 == P2 + P1 |
| `WeierstrassCurve.AddSameX` | base/curves/s_weirstrass_curve.py:160-171 | modulo a prime, the result is (0, −1) exactly when x1 ≡ x2, so addition never doubles |
| `WeierstrassCurve.DoublePoint` | base/curves/s_weirstrass_curve.py:209-217 | (0, −1) exactly when 2y is not invertible; otherwise a reduced point |
| `WeierstrassCurve.DoubleIsTangent` | base/curves/s_weirstrass_curve.py:211-213 | doubling is the chord construction with the tangent slope (3x² + a)/(2y) |
| `WeierstrassCurve.DoubleFailsOnAxis` | base/curves/s_weirstrass_curve.py:209-217 | modulo an odd prime, doubling fails exactly on points with y ≡ 0 |
| `WeierstrassCurve.SubstractPoints` | base/curves/s_weirstrass_curve.py:187-189 | (0, −1) exactly when x2 − x1 is not invertible; otherwise a reduced point |
| `WeierstrassCurve.SubtractIsAddNegation` | base/curves/s_weirstrass_curve.py:187-189 | P1 − P2 is P1 + (x2, −y2 mod p), the group inverse |
| `WeierstrassCurve.SubtractSelf` | base/curves/s_weirstrass_curve.py:187-189 | P − P meets no inverse and gives (0, −1) |
| `WeierstrassCurve.MultiplyPoint` | base/curves/s_weirstrass_curve.py:231-240 | for a scalar ≥ 2 the result is reduced or (0, −1) |
| `WeierstrassCurve.MultiplyByPowerOfTwo` | base/curves/s_weirstrass_curve.py:238-239 | multiplying by 2^j·m is multiplying P doubled j times by m |
| `WeierstrassCurve.MultiplyIsDoubling` | base/curves/s_weirstrass_curve.py:231-240 | multiplying by 2^j doubles j times, and multiplying by 2 is one doubling |

## Left out

- Printing: every `print` in both files, the progress messages, and the count that `generatePoints` prints. The Montgomery `GeneratePoints` returns the count instead.
- `hassesTheorem` (montgomery_curve.py:11-14): it only prints the bounds from Hasse's theorem.
- `getPrime` (montgomery_curve.py:17-23): it calls gmpy2's primality test and `next_prime`. Callers of `GeneratePoints` must pass a prime instead.
- `_choose_b` (montgomery_curve.py:105-109): it draws random candidates until one is a non-residue. The non-residue is a parameter of `TonelliShanks` and `GeneratePoints`, required to have Euler's criterion p − 1.
- Python floats in the Weierstrass file: the exponents `(p-1)/2`, `(p+1)/4` and `(q+1)/2` are floats there.
  - They are modelled as exact integer division. That is exact for odd p below 2^53.
  - Even p and float rounding above 2^53 are not modelled.
  - The Weierstrass operations require an odd p (every listed operation needs p > 1).
- Exceptions: a missing modular inverse is modelled as `None`.
  - The group law turns it into (0, −1), as the `except` branches do.
  - The Montgomery `findM` exception (B not invertible) ends `GeneratePoints` with `None` and leaves the lists unchanged, because the exception is raised at x == 0 before anything is appended.
- Python's recursion limit, which `pow`, `multiplypoint` and `_tonelli_shanks_recursive` could reach, is not modelled.
- Inputs on which the source never terminates are excluded by a precondition:
  - `PowerModulo` requires a natural exponent: `b >>= 1` never reaches 0 from a negative b.
  - The Weierstrass `MultiplyPoint` requires a scalar ≥ 1: 0 and negative scalars recurse forever.
- Negative scalars in the Montgomery ladder: `MultiplyPoint` takes k as a natural number.
- Negative inputs to `ExtendedGcd` and `InverseModulo`: they take a natural a. Every caller passes a value in [2, p).
- Closure and associativity of the group law are not proved: that sums of points on the curve are on the curve, and that the ladder computes k·P in the group. The lemmas relate each operation to the chord and tangent construction instead.
- The unused parameter `start` of the Montgomery `generatePoints` is kept and ignored, as in the source.
- WeierstrassCurve.TonelliShanks: the square-root guarantee is conditional on `!AllResidues(p)`, i.e. on the existence of a non-residue in [2, p). This holds for every odd prime, but the proof (half of the units are non-residues) is not part of this model.
- WeierstrassCurve.GeneratePoints: the on-curve and every-point-listed guarantees for p ≢ 3 (mod 4) are conditional on the same fact, via `RootsGenuine(p)`.

## Findings

| source | as written | input that shows it | evidently intended | confidence | as-written member | corrected member |
|---|---|---|---|---|---|---|
| base/curves/montgomery_curve.py:228-236 | `substractpoints` stores −y2 in a local variable and passes the original `p2` to `addpoints`, so it returns P1 + P2 | A = 2, B = 1, p = 11, P = (3, 2), on the curve since 2² ≡ 27 + 18 + 3 (mod 11): P − P gives (4, 10) (that is 2P) instead of (0, 0) | add the point (x2, −y2 mod p) | not executed | `MontgomeryCurve.SubstractSelfCounterexample` | `MontgomeryCurve.SubtractSelf` |
