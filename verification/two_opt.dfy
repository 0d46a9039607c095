/**
 * 2-opt local search on one closed tour: a move removes the edges entering position i
 * and leaving position j and reconnects the tour by reversing the segment [i..j].
 * Moves with negative gain are applied as soon as they are found; sweeps over all
 * position pairs repeat until a whole sweep applies none.
 */
module TwoOpt {
  import opened Geometry
  import opened TourCost

  /**
   * The change in cost of reversing path[i..j]: the new edges (path[i-1], path[j]) and
   * (path[i], path[j+1]) minus the old edges (path[i-1], path[i]) and (path[j], path[j+1]).
   * The successor of j is taken modulo the path length, as the source does.
   */
  function Gain(cities: seq<Point>, dist: (Point, Point) -> nat, path: seq<nat>, i: nat, j: nat): (gain: int)
    requires InRange(path, |cities|) && 1 <= i < |path| && j < |path|
    ensures i == j && j + 1 < |path| ==> gain == 0
  {
    var n := |path|;
    var a, b, c, d := path[i - 1], path[i], path[j], path[(j + 1) % n];
    var currentCost := CityDistance(cities, dist, a, b) + CityDistance(cities, dist, c, d);
    var newCost := CityDistance(cities, dist, a, c) + CityDistance(cities, dist, b, d);
    newCost - currentCost
  }

  /** The elements of s in the opposite order. */
  function Reverse(s: seq<nat>): (r: seq<nat>)
    ensures |r| == |s|
    ensures forall k :: 0 <= k < |s| ==> r[k] == s[|s| - 1 - k]
  {
    if s == [] then [] else [s[|s| - 1]] + Reverse(s[..|s| - 1])
  }

  /**
   * The path after a 2-opt move on [i..j]: the prefix before i, the segment reversed,
   * then the suffix after j. When j < i the segment is empty and the path is unchanged.
   */
  function Swapped(path: seq<nat>, i: nat, j: nat): (r: seq<nat>)
    requires i <= |path| && j < |path|
    ensures |r| == |path|
    ensures forall k {:trigger r[k]} :: 0 <= k < |path| ==> r[k] == if i <= k <= j then path[i + j - k] else path[k]
  {
    if i <= j then path[..i] + Reverse(path[i..j + 1]) + path[j + 1..] else path
  }

  /** Builds the swapped path in a fresh array: prefix copy, reversed segment, suffix copy. */
  method Apply2OptSwap(path: seq<nat>, i: nat, j: nat) returns (newPath: seq<nat>)
    requires i <= |path| && j < |path|
    ensures newPath == Swapped(path, i, j)
  {
    var out := new nat[|path|];
    forall k | 0 <= k < i {
      out[k] := path[k];
    }
    var dec := 0;
    var k: int := j;
    while k >= i
      invariant k <= j && (i <= j + 1 ==> i - 1 <= k)
      invariant dec == j - k && (dec == 0 || i + dec <= j + 1)
      invariant forall t :: 0 <= t < i ==> out[t] == path[t]
      invariant forall t :: i <= t < i + dec ==> out[t] == path[i + j - t]
    {
      out[i + dec] := path[k];
      dec := dec + 1;
      k := k - 1;
    }
    forall t | j + 1 <= t < |path| {
      out[t] := path[t];
    }
    ghost var swapped := Swapped(path, i, j);
    forall t | 0 <= t < |path| ensures out[t] == swapped[t] {
    }
    newPath := out[..];
  }

  /** A 2-opt move only reorders the cities of the path. */
  lemma SwapIsPermutation(path: seq<nat>, i: nat, j: nat)
    requires i <= |path| && j < |path|
    ensures multiset(Swapped(path, i, j)) == multiset(path)
  {
    if i <= j {
      ReverseIsPermutation(path[i..j + 1]);
      assert path == path[..i] + path[i..j + 1] + path[j + 1..];
    }
  }

  /** Reversal keeps the multiset of elements. */
  lemma {:induction false} ReverseIsPermutation(s: seq<nat>)
    ensures multiset(Reverse(s)) == multiset(s)
  {
    if s != [] {
      ReverseIsPermutation(s[..|s| - 1]);
      assert s == s[..|s| - 1] + [s[|s| - 1]];
    }
  }

  /** Applying the same move twice gives back the original path. */
  lemma SwapTwiceIsIdentity(path: seq<nat>, i: nat, j: nat)
    requires i <= |path| && j < |path|
    ensures Swapped(Swapped(path, i, j), i, j) == path
  {
    var once := Swapped(path, i, j);
    var twice := Swapped(once, i, j);
    forall k | 0 <= k < |path| ensures twice[k] == path[k] {
      if i <= k <= j {
        assert twice[k] == once[i + j - k];
      }
    }
  }

  /**
   * For a move strictly inside a path, with no wrap-around of j + 1, the cost of the
   * swapped path is the old cost plus the gain.
   */
  lemma SwapChangesCostByGain(cities: seq<Point>, dist: (Point, Point) -> nat, path: seq<nat>, i: nat, j: nat)
    requires Symmetric(dist) && InRange(path, |cities|)
    requires 1 <= i <= j && j + 2 <= |path|
    ensures InRange(Swapped(path, i, j), |cities|)
    ensures Cost(cities, dist, Swapped(path, i, j)) == Cost(cities, dist, path) + Gain(cities, dist, path, i, j)
  {
    var q := Swapped(path, i, j);
    SwapKeepsRange(path, i, j, |cities|);
    CostAroundSegment(cities, dist, path, i, j);
    CostAroundSegment(cities, dist, q, i, j);
    SwapKeepsOuterEdges(cities, dist, path, i, j);
    SwapKeepsInnerEdges(cities, dist, path, i, j);
    GainReplacesTwoEdges(cities, dist, path, i, j);
    assert q[i - 1] == path[i - 1] && q[i] == path[j] && q[j] == path[i] && q[j + 1] == path[j + 1];
  }

  /** A 2-opt move keeps every entry naming one of the n cities. */
  lemma SwapKeepsRange(path: seq<nat>, i: nat, j: nat, n: nat)
    requires InRange(path, n) && i <= |path| && j < |path|
    ensures InRange(Swapped(path, i, j), n)
  {
    var q := Swapped(path, i, j);
    forall k | 0 <= k < |q| ensures q[k] < n {
      if i <= k <= j { assert q[k] == path[i + j - k]; } else { assert q[k] == path[k]; }
    }
  }

  /** The edges before position i - 1 and from position j + 1 on are untouched by a move on [i..j]. */
  lemma SwapKeepsOuterEdges(cities: seq<Point>, dist: (Point, Point) -> nat, path: seq<nat>, i: nat, j: nat)
    requires InRange(path, |cities|) && 1 <= i <= j && j + 2 <= |path|
    ensures InRange(Swapped(path, i, j), |cities|)
    ensures EdgeSum(cities, dist, Swapped(path, i, j), 0, i - 1) == EdgeSum(cities, dist, path, 0, i - 1)
    ensures EdgeSum(cities, dist, Swapped(path, i, j), j + 1, |path| - 1) == EdgeSum(cities, dist, path, j + 1, |path| - 1)
  {
    SwapKeepsRange(path, i, j, |cities|);
    SwapKeepsStretch(cities, dist, path, i, j, 0, i - 1);
    SwapKeepsStretch(cities, dist, path, i, j, j + 1, |path| - 1);
  }

  /** A stretch [lo..hi] of positions outside [i..j] keeps its edges under a move on [i..j]. */
  lemma SwapKeepsStretch(cities: seq<Point>, dist: (Point, Point) -> nat, path: seq<nat>, i: nat, j: nat, lo: nat, hi: nat)
    requires InRange(path, |cities|) && i <= j < |path| && lo <= hi < |path|
    requires InRange(Swapped(path, i, j), |cities|)
    requires hi < i || j < lo
    ensures EdgeSum(cities, dist, Swapped(path, i, j), lo, hi) == EdgeSum(cities, dist, path, lo, hi)
  {
    var q := Swapped(path, i, j);
    forall k | lo <= k <= hi ensures path[k] == q[k] { assert q[k] == path[k]; }
    EdgeSumAgree(cities, dist, path, q, lo, hi);
  }

  /** With a symmetric distance the reversed segment [i..j] has the same edge sum as before. */
  lemma SwapKeepsInnerEdges(cities: seq<Point>, dist: (Point, Point) -> nat, path: seq<nat>, i: nat, j: nat)
    requires Symmetric(dist) && InRange(path, |cities|) && i <= j < |path|
    ensures InRange(Swapped(path, i, j), |cities|)
    ensures EdgeSum(cities, dist, Swapped(path, i, j), i, j) == EdgeSum(cities, dist, path, i, j)
  {
    var q := Swapped(path, i, j);
    SwapKeepsRange(path, i, j, |cities|);
    forall k | i <= k <= i + (j - i) ensures q[k] == path[i + i + (j - i) - k] { assert q[k] == path[i + j - k]; }
    EdgeSumReversed(cities, dist, path, q, i, i, j - i);
  }

  /**
   * For a move the sweep tries, the successor of j is not wrapped by the modulo, so the gain
   * is the two new edges minus the two edges of the path that the move removes.
   */
  lemma GainReplacesTwoEdges(cities: seq<Point>, dist: (Point, Point) -> nat, path: seq<nat>, i: nat, j: nat)
    requires InRange(path, |cities|) && 1 <= i <= j && j + 2 <= |path|
    ensures Gain(cities, dist, path, i, j)
      == CityDistance(cities, dist, path[i - 1], path[j]) + CityDistance(cities, dist, path[i], path[j + 1])
         - Edge(cities, dist, path, i - 1) - Edge(cities, dist, path, j)
  {
    assert (j + 1) % |path| == j + 1;
  }

  /** The cost of a path, split into the edges before, at, inside, at and after a segment [i..j]. */
  lemma CostAroundSegment(cities: seq<Point>, dist: (Point, Point) -> nat, path: seq<nat>, i: nat, j: nat)
    requires InRange(path, |cities|) && 1 <= i <= j && j + 2 <= |path|
    ensures Cost(cities, dist, path) ==
      EdgeSum(cities, dist, path, 0, i - 1) + Edge(cities, dist, path, i - 1)
      + EdgeSum(cities, dist, path, i, j) + Edge(cities, dist, path, j)
      + EdgeSum(cities, dist, path, j + 1, |path| - 1)
  {
    var last := |path| - 1;
    EdgeSumSplit(cities, dist, path, 0, i - 1, last);
    EdgeSumSplit(cities, dist, path, i - 1, i, last);
    EdgeSumSplit(cities, dist, path, i, j, last);
    EdgeSumSplit(cities, dist, path, j, j + 1, last);
  }

  /** No move 1 <= i < j <= |path| - 2 has negative gain. */
  ghost predicate LocallyOptimal(cities: seq<Point>, dist: (Point, Point) -> nat, path: seq<nat>) {
    && InRange(path, |cities|)
    && forall i, j :: 1 <= i < j <= |path| - 2 ==> Gain(cities, dist, path, i, j) >= 0
  }

  /** result has the length, the end points, the cities and the city range of path. */
  ghost predicate SameTourShape(cities: seq<Point>, path: seq<nat>, result: seq<nat>) {
    && |result| == |path| && InRange(result, |cities|)
    && (|path| > 0 ==> result[0] == path[0] && result[|result| - 1] == path[|path| - 1])
    && multiset(result) == multiset(path)
  }

  /** An improving move inside the sweep range keeps the tour's shape and lowers its cost. */
  lemma ImprovingSwap(cities: seq<Point>, dist: (Point, Point) -> nat, path: seq<nat>, result: seq<nat>, i: nat, j: nat)
    requires Symmetric(dist) && InRange(path, |cities|) && SameTourShape(cities, path, result)
    requires 1 <= i < j <= |result| - 2
    requires Gain(cities, dist, result, i, j) < 0
    ensures SameTourShape(cities, path, Swapped(result, i, j))
    ensures Cost(cities, dist, Swapped(result, i, j)) < Cost(cities, dist, result)
  {
    SwapChangesCostByGain(cities, dist, result, i, j);
    SwapIsPermutation(result, i, j);
    var q := Swapped(result, i, j);
    assert q[0] == result[0] && q[|q| - 1] == result[|result| - 1];
  }

  /**
   * What holds during a sweep that started from `before`: result still has the tour's shape,
   * costs no more than `before`, and strictly less once a move was applied; while none was
   * applied result is `before`, and none is applied to a locally optimal `before`.
   */
  ghost predicate SweepProgress(cities: seq<Point>, dist: (Point, Point) -> nat, path: seq<nat>, before: seq<nat>,
                                result: seq<nat>, improved: bool) {
    && InRange(before, |cities|) && SameTourShape(cities, path, result)
    && Cost(cities, dist, result) <= Cost(cities, dist, before)
    && (improved ==> Cost(cities, dist, result) < Cost(cities, dist, before))
    && (!improved ==> result == before)
    && (LocallyOptimal(cities, dist, before) ==> !improved)
  }

  /**
   * The inner loop of a sweep, for a fixed i: tries every j with i < j <= n - 2 in turn and
   * applies each move of negative gain at once. When it applies none, no move (i, j) has
   * negative gain.
   */
  method SweepRow(cities: seq<Point>, dist: (Point, Point) -> nat, ghost path: seq<nat>, ghost before: seq<nat>,
                  result: seq<nat>, improved: bool, i: nat)
    returns (newResult: seq<nat>, newImproved: bool)
    requires Symmetric(dist) && InRange(path, |cities|)
    requires SweepProgress(cities, dist, path, before, result, improved)
    requires 1 <= i < |result| - 2
    ensures SweepProgress(cities, dist, path, before, newResult, newImproved)
    ensures improved ==> newImproved
    ensures !newImproved ==> forall j :: i < j <= |newResult| - 2 ==> Gain(cities, dist, newResult, i, j) >= 0
  {
    var n := |result|;
    newResult, newImproved := result, improved;
    var j := i + 1;
    while j < n - 1
      invariant i + 1 <= j <= n - 1 && |newResult| == n
      invariant SweepProgress(cities, dist, path, before, newResult, newImproved)
      invariant improved ==> newImproved
      invariant !newImproved ==> forall j' :: i < j' < j ==> Gain(cities, dist, newResult, i, j') >= 0
    {
      var delta := Gain(cities, dist, newResult, i, j);
      if delta < 0 {
        ImprovingSwap(cities, dist, path, newResult, i, j);
        newResult := Apply2OptSwap(newResult, i, j);
        newImproved := true;
      }
      j := j + 1;
    }
  }

  /**
   * Repeats first-improvement sweeps over all pairs 1 <= i < j <= n - 2 until a sweep
   * applies no move. Terminates because every applied move lowers the (natural) cost.
   */
  method OptimizeWith2Opt(cities: seq<Point>, dist: (Point, Point) -> nat, path: seq<nat>) returns (result: seq<nat>)
    requires Symmetric(dist) && InRange(path, |cities|)
    ensures |result| == |path| && InRange(result, |cities|)
    ensures |path| > 0 ==> result[0] == path[0] && result[|result| - 1] == path[|path| - 1]
    ensures multiset(result) == multiset(path)
    ensures Cost(cities, dist, result) <= Cost(cities, dist, path)
    ensures LocallyOptimal(cities, dist, result)
    ensures LocallyOptimal(cities, dist, path) ==> result == path
    ensures |path| < 4 ==> result == path
  {
    var n := |path|;
    result := path;
    var improved := true;
    while improved
      invariant SameTourShape(cities, path, result)
      invariant Cost(cities, dist, result) <= Cost(cities, dist, path)
      invariant !improved ==> LocallyOptimal(cities, dist, result)
      invariant LocallyOptimal(cities, dist, path) ==> result == path
      decreases Cost(cities, dist, result), if improved then 1 else 0
    {
      improved := false;
      ghost var before := result;
      var i := 1;
      while i < n - 2
        invariant 1 <= i && (n >= 3 ==> i <= n - 2)
        invariant SweepProgress(cities, dist, path, before, result, improved)
        invariant !improved ==> forall i', j' :: 1 <= i' < i && i' < j' <= n - 2 ==> Gain(cities, dist, result, i', j') >= 0
      {
        result, improved := SweepRow(cities, dist, path, before, result, improved, i);
        i := i + 1;
      }
    }
  }
}
