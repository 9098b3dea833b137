/**
 * Affine points as the curve files represent them: plain integer pairs, with
 * two pairs doubling as sentinels.
 */
module Points {

  import opened Modular

  datatype Point = Point(x: int, y: int)

  /**
   * (0, 0): what the Montgomery file returns for the point at infinity. On a
   * Montgomery curve it is also a genuine affine point, and the group-law
   * code treats it as one when it is passed back in.
   */
  const Origin := Point(0, 0)

  /** (0, -1): what both files return when a modular inverse does not exist. */
  const NoInverse := Point(0, -1)

  /** Both coordinates are reduced field elements. */
  predicate InField(P: Point, p: int)
  {
    0 <= P.x < p && 0 <= P.y < p
  }

  /** The inverse in the group: (x, y) becomes (x, -y mod p). */
  function Negate(P: Point, p: int): (r: Point)
    requires p > 0
    ensures r.x == P.x && 0 <= r.y < p && (r.y + P.y) % p == 0
  {
    var r := Point(P.x, (-P.y) % p);
    var q := (-P.y) / p;
    assert r.y + P.y == (-q) * p;
    ModOfMultiple(-q, p);
    r
  }

  /** A list of x-coordinates in ascending order, as both enumerations produce. */
  ghost predicate Sorted(xs: seq<int>)
  {
    forall j, l :: 0 <= j < l < |xs| ==> xs[j] <= xs[l]
  }

  /**
   * Two consecutive entries with the same x are a point and its negation:
   * their y-coordinates y and p - y add up to p.
   */
  ghost predicate Paired(p: int, xs: seq<int>, ys: seq<int>)
    requires |xs| == |ys|
  {
    forall j :: 0 <= j < |xs| - 1 && xs[j] == xs[j + 1] ==> ys[j] + ys[j + 1] == p
  }

  /**
   * Appending entries for a new x == i above every listed x keeps the lists
   * sorted and paired.
   */
  lemma AppendAbove(p: int, xs: seq<int>, ys: seq<int>, i: int, kx: seq<int>, ky: seq<int>)
    requires |xs| == |ys| && |kx| == |ky| && Sorted(xs) && Paired(p, xs, ys) && Paired(p, kx, ky)
    requires forall j :: 0 <= j < |xs| ==> xs[j] < i
    requires forall j :: 0 <= j < |kx| ==> kx[j] == i
    ensures Sorted(xs + kx) && Paired(p, xs + kx, ys + ky)
  {
    var xs', ys' := xs + kx, ys + ky;
    forall j | 0 <= j < |xs'| - 1 && xs'[j] == xs'[j + 1]
      ensures ys'[j] + ys'[j + 1] == p
    {
      if j < |xs| - 1 {
        assert xs'[j] == xs[j] && xs'[j + 1] == xs[j + 1];
      } else if j >= |xs| {
        assert xs'[j] == kx[j - |xs|] && xs'[j + 1] == kx[j + 1 - |xs|];
      }
    }
  }
}
