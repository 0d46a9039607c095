/**
 * Cities and the distance between them.
 *
 * The tour algorithms only ever ask for the distance between two cities, so they
 * take that distance as a parameter `dist`. What they rely on is stated by the two
 * predicates below. The metric the program actually uses (rounded Euclidean
 * distance) is given as `EuclideanDistance`, with proofs that it has both properties.
 */
module Geometry {

  /** A city: a pair of integer coordinates. Cities are referred to by their position in the city list. */
  datatype Point = Point(x: int, y: int)

  /** The distance from p to q equals the distance from q to p. */
  ghost predicate Symmetric(dist: (Point, Point) -> nat) {
    forall p, q :: dist(p, q) == dist(q, p)
  }

  /** A city is at distance zero from itself. */
  ghost predicate ZeroOnDiagonal(dist: (Point, Point) -> nat) {
    forall p :: dist(p, p) == 0
  }

  /** r is sqrt(s) rounded half up: r - 1/2 <= sqrt(s) < r + 1/2, written without fractions. */
  ghost predicate IsRoundedRoot(s: nat, r: nat) {
    (r == 0 || r * r - r < s) && s <= r * r + r
  }

  /** The nearest integer to the square root of s, halves rounded up. */
  function RoundSqrt(s: nat): (r: nat)
    ensures IsRoundedRoot(s, r)
  {
    RoundSqrtFrom(s, 0)
  }

  /** Searches upwards from r for the rounded square root of s. */
  function RoundSqrtFrom(s: nat, r: nat): (root: nat)
    requires r == 0 || r * r - r < s
    ensures IsRoundedRoot(s, root)
    decreases s - r
  {
    if s <= r * r + r then r
    else
      assert (r + 1) * (r + 1) - (r + 1) == r * r + r;
      RoundSqrtFrom(s, r + 1)
  }

  /** At most one natural number is the rounded square root of s. */
  lemma RoundedRootIsUnique(s: nat, r1: nat, r2: nat)
    requires IsRoundedRoot(s, r1) && IsRoundedRoot(s, r2)
    ensures r1 == r2
  {
    // If r1 < r2 then r2 * r2 - r2 >= (r1 + 1) * (r1 + 1) - (r1 + 1) = r1 * r1 + r1 >= s,
    // which contradicts r2 * r2 - r2 < s; symmetrically for r2 < r1.
    if r1 < r2 {
      MonotoneStep(r1 + 1, r2);
    } else if r2 < r1 {
      MonotoneStep(r2 + 1, r1);
    }
  }

  /** n * n - n grows with n. */
  lemma MonotoneStep(a: nat, b: nat)
    requires 1 <= a <= b
    ensures a * a - a <= b * b - b
  {
    assert b * b - b - (a * a - a) == (b - a) * (b + a - 1);
  }

  /** The square of an integer is a natural number. */
  function Square(v: int): (sq: nat)
    ensures sq == v * v
  {
    if v < 0 then (-v) * (-v) else v * v
  }

  /** The rounded Euclidean distance the program computes between two cities. */
  function EuclideanDistance(p: Point, q: Point): (d: nat)
    ensures IsRoundedRoot((p.x - q.x) * (p.x - q.x) + (p.y - q.y) * (p.y - q.y), d)
  {
    RoundSqrt(Square(p.x - q.x) + Square(p.y - q.y))
  }

  /** The program's metric is symmetric, since it only uses squared coordinate differences. */
  lemma EuclideanDistanceIsSymmetric()
    ensures Symmetric(EuclideanDistance)
  {
    forall p: Point, q: Point ensures EuclideanDistance(p, q) == EuclideanDistance(q, p) {
      assert Square(p.x - q.x) == Square(q.x - p.x);
      assert Square(p.y - q.y) == Square(q.y - p.y);
    }
  }

  /** The program's metric is zero from a city to itself. */
  lemma EuclideanDistanceIsZeroOnDiagonal()
    ensures ZeroOnDiagonal(EuclideanDistance)
  {
    forall p: Point ensures EuclideanDistance(p, p) == 0 {
      assert Square(p.x - p.x) + Square(p.y - p.y) == 0;
      RoundedRootIsUnique(0, RoundSqrt(0), 0);
    }
  }
}
