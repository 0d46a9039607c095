/**
 * The cost of a tour: the sum of the distances between consecutive entries of a path.
 * A closed tour repeats its start city at the end, so the closing edge is included.
 */
module TourCost {
  import opened Geometry

  /** Every entry of the path names a city of a list of n cities. */
  ghost predicate InRange(path: seq<nat>, n: nat) {
    forall k :: 0 <= k < |path| ==> path[k] < n
  }

  /** The distance between the cities at positions a and b of the city list. */
  function CityDistance(cities: seq<Point>, dist: (Point, Point) -> nat, a: nat, b: nat): (d: nat)
    requires a < |cities| && b < |cities|
  {
    dist(cities[a], cities[b])
  }

  /** The length of the edge from path[k] to path[k + 1]. */
  function Edge(cities: seq<Point>, dist: (Point, Point) -> nat, path: seq<nat>, k: nat): (e: nat)
    requires InRange(path, |cities|) && k + 1 < |path|
  {
    CityDistance(cities, dist, path[k], path[k + 1])
  }

  /** The sum of the edges leaving positions lo, ..., hi - 1 of the path. */
  function EdgeSum(cities: seq<Point>, dist: (Point, Point) -> nat, path: seq<nat>, lo: nat, hi: nat): (sum: nat)
    requires InRange(path, |cities|) && lo <= hi < |path|
    decreases hi - lo
  {
    if lo == hi then 0 else EdgeSum(cities, dist, path, lo, hi - 1) + Edge(cities, dist, path, hi - 1)
  }

  /** The cost of a path: the sum of all its edges (zero for a path of at most one entry). */
  function Cost(cities: seq<Point>, dist: (Point, Point) -> nat, path: seq<nat>): (cost: nat)
    requires InRange(path, |cities|)
  {
    if |path| == 0 then 0 else EdgeSum(cities, dist, path, 0, |path| - 1)
  }

  /** The cost accumulated by a left-to-right loop over the edges. */
  method CalculateCost(cities: seq<Point>, dist: (Point, Point) -> nat, path: seq<nat>) returns (cost: nat)
    requires InRange(path, |cities|)
    ensures cost == Cost(cities, dist, path)
  {
    cost := 0;
    var i := 0;
    while i < |path| - 1
      invariant 0 <= i && (|path| > 0 ==> i <= |path| - 1)
      invariant cost == if |path| == 0 then 0 else EdgeSum(cities, dist, path, 0, i)
    {
      cost := cost + CityDistance(cities, dist, path[i], path[i + 1]);
      i := i + 1;
    }
  }

  /** A sum of edges splits at any intermediate position. */
  lemma {:induction false} EdgeSumSplit(cities: seq<Point>, dist: (Point, Point) -> nat, path: seq<nat>, lo: nat, mid: nat, hi: nat)
    requires InRange(path, |cities|) && lo <= mid <= hi < |path|
    ensures EdgeSum(cities, dist, path, lo, hi) == EdgeSum(cities, dist, path, lo, mid) + EdgeSum(cities, dist, path, mid, hi)
    decreases hi - mid
  {
    if mid < hi {
      EdgeSumSplit(cities, dist, path, lo, mid, hi - 1);
    }
  }

  /** Two paths whose edges agree position by position over [lo, hi) have the same sum there. */
  lemma {:induction false} EdgeSumAgree(cities: seq<Point>, dist: (Point, Point) -> nat, p: seq<nat>, q: seq<nat>, lo: nat, hi: nat)
    requires InRange(p, |cities|) && InRange(q, |cities|)
    requires lo <= hi < |p| && hi < |q|
    requires forall k :: lo <= k <= hi ==> p[k] == q[k]
    ensures EdgeSum(cities, dist, p, lo, hi) == EdgeSum(cities, dist, q, lo, hi)
    decreases hi - lo
  {
    if lo < hi {
      EdgeSumAgree(cities, dist, p, q, lo, hi - 1);
    }
  }

  /**
   * If q, over positions [a, a + len], is p over [b, b + len] read backwards, and the
   * distance is symmetric, then both stretches have the same edge sum.
   */
  lemma {:induction false} EdgeSumReversed(cities: seq<Point>, dist: (Point, Point) -> nat, p: seq<nat>, q: seq<nat>, a: nat, b: nat, len: nat)
    requires Symmetric(dist)
    requires InRange(p, |cities|) && InRange(q, |cities|)
    requires a + len < |q| && b + len < |p|
    requires forall k :: a <= k <= a + len ==> q[k] == p[a + b + len - k]
    ensures EdgeSum(cities, dist, q, a, a + len) == EdgeSum(cities, dist, p, b, b + len)
    decreases len
  {
    if len > 0 {
      // the last edge of q's stretch is the first edge of p's stretch, walked the other way
      assert q[a + len - 1] == p[b + 1] && q[a + len] == p[b];
      assert Edge(cities, dist, q, a + len - 1) == Edge(cities, dist, p, b);
      EdgeSumSplit(cities, dist, p, b, b + 1, b + len);
      EdgeSumReversed(cities, dist, p, q, a, b + 1, len - 1);
    }
  }

  /** A closed tour [s, s] of a single city costs nothing. */
  lemma SingleCityTourCostsNothing(cities: seq<Point>, dist: (Point, Point) -> nat, s: nat)
    requires ZeroOnDiagonal(dist) && s < |cities|
    ensures InRange([s, s], |cities|) && Cost(cities, dist, [s, s]) == 0
  {
    assert EdgeSum(cities, dist, [s, s], 0, 1) == dist(cities[s], cities[s]);
  }
}
