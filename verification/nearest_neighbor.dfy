/**
 * Dual nearest-neighbour construction: two salesmen start at distinct cities and share
 * one visited set. In each round one scan finds each salesman's nearest unvisited city,
 * and exactly one city is appended to exactly one path; salesman 1 wins ties. When every
 * city is visited, both paths are closed by repeating their start city.
 *
 * The functions below are the reference behaviour (ScanUpTo, Step, Grow, TwoTours); the
 * method NearestNeighborForTwo runs the same algorithm on arrays and is proved equal to it.
 */
module NearestNeighbor {
  import opened Geometry
  import opened TourCost

  /** A salesman's nearest unvisited city and its distance, or none when all cities are visited. */
  datatype Candidate = NoCandidate | Candidate(city: nat, distance: nat)

  /**
   * What a left-to-right scan over cities 0, ..., k - 1 has found for a salesman standing
   * at `current`: an unvisited city replaces the best so far only when strictly closer.
   */
  function ScanUpTo(cities: seq<Point>, dist: (Point, Point) -> nat, visited: seq<bool>, current: nat, k: nat): (c: Candidate)
    requires |visited| == |cities| && current < |cities| && k <= |cities|
    ensures c.Candidate? ==> c.city < k
  {
    if k == 0 then NoCandidate
    else
      var best := ScanUpTo(cities, dist, visited, current, k - 1);
      var d := CityDistance(cities, dist, current, k - 1);
      if !visited[k - 1] && (best.NoCandidate? || d < best.distance) then Candidate(k - 1, d) else best
  }

  /**
   * c is the nearest unvisited city below k seen from `current`, with the lowest index among
   * equally near ones; NoCandidate exactly when every city below k is visited.
   */
  ghost predicate IsNearestBelow(cities: seq<Point>, dist: (Point, Point) -> nat, visited: seq<bool>, current: nat, k: nat, c: Candidate)
    requires |visited| == |cities| && current < |cities| && k <= |cities|
  {
    match c
    case NoCandidate => forall v :: 0 <= v < k ==> visited[v]
    case Candidate(city, d) =>
      && city < k && !visited[city] && d == CityDistance(cities, dist, current, city)
      && (forall v :: 0 <= v < k && !visited[v] ==> d <= CityDistance(cities, dist, current, v))
      && (forall v :: 0 <= v < city && !visited[v] ==> d < CityDistance(cities, dist, current, v))
  }

  /** The scan finds the nearest unvisited city, lowest index first among ties. */
  lemma {:induction false} ScanFindsNearest(cities: seq<Point>, dist: (Point, Point) -> nat, visited: seq<bool>, current: nat, k: nat)
    requires |visited| == |cities| && current < |cities| && k <= |cities|
    ensures IsNearestBelow(cities, dist, visited, current, k, ScanUpTo(cities, dist, visited, current, k))
  {
    if k > 0 {
      ScanFindsNearest(cities, dist, visited, current, k - 1);
    }
  }

  /** At most one candidate is the nearest: the specification leaves the scan no choice. */
  lemma NearestIsUnique(cities: seq<Point>, dist: (Point, Point) -> nat, visited: seq<bool>, current: nat, k: nat, c1: Candidate, c2: Candidate)
    requires |visited| == |cities| && current < |cities| && k <= |cities|
    requires IsNearestBelow(cities, dist, visited, current, k, c1)
    requires IsNearestBelow(cities, dist, visited, current, k, c2)
    ensures c1 == c2
  {
  }

  /** The construction state: the shared visited flags and the two open paths. */
  datatype Tours = Tours(visited: seq<bool>, path1: seq<nat>, path2: seq<nat>)

  /** There is one flag per city, and both paths are non-empty and end at a city below n. */
  ghost predicate WellFormed(st: Tours, n: nat) {
    && |st.visited| == n
    && |st.path1| > 0 && st.path1[|st.path1| - 1] < n
    && |st.path2| > 0 && st.path2[|st.path2| - 1] < n
  }

  /** The state before the first round: both starts visited, each path holding its start. */
  function Start(n: nat, start1: nat, start2: nat): (st: Tours)
    requires start1 < n && start2 < n
    ensures WellFormed(st, n)
  {
    Tours(seq(n, c => false)[start1 := true][start2 := true], [start1], [start2])
  }

  /**
   * The assignment of one round, given both salesmen's nearest unvisited cities: salesman 1
   * takes its city when it is at most as far as salesman 2's (ties go to salesman 1),
   * salesman 2 takes its city only when strictly nearer. Taking a city appends it to the
   * salesman's path and marks it visited.
   */
  function Assign(st: Tours, nearest1: Candidate, nearest2: Candidate): (next: Tours)
    requires WellFormed(st, |st.visited|)
    requires nearest1.Candidate? ==> nearest1.city < |st.visited|
    requires nearest2.Candidate? ==> nearest2.city < |st.visited|
    ensures WellFormed(next, |st.visited|)
  {
    var st1 :=
      if nearest1.Candidate? && (nearest2.NoCandidate? || nearest1.distance <= nearest2.distance)
      then Tours(st.visited[nearest1.city := true], st.path1 + [nearest1.city], st.path2)
      else st;
    if nearest2.Candidate? && (nearest1.NoCandidate? || nearest2.distance < nearest1.distance)
    then Tours(st1.visited[nearest2.city := true], st1.path1, st1.path2 + [nearest2.city])
    else st1
  }

  /** One round: both scans on the same visited flags, then the assignment. */
  function Step(cities: seq<Point>, dist: (Point, Point) -> nat, st: Tours): (next: Tours)
    requires WellFormed(st, |cities|)
    ensures WellFormed(next, |cities|)
  {
    Assign(st, ScanUpTo(cities, dist, st.visited, st.path1[|st.path1| - 1], |cities|),
               ScanUpTo(cities, dist, st.visited, st.path2[|st.path2| - 1], |cities|))
  }

  /** The state after `rounds` rounds. */
  function Grow(cities: seq<Point>, dist: (Point, Point) -> nat, st: Tours, rounds: nat): (last: Tours)
    requires WellFormed(st, |cities|)
    ensures WellFormed(last, |cities|)
  {
    if rounds == 0 then st else Step(cities, dist, Grow(cities, dist, st, rounds - 1))
  }

  /** The two closed tours: N - 2 rounds, then each path returns to its start. */
  function TwoTours(cities: seq<Point>, dist: (Point, Point) -> nat, start1: nat, start2: nat): (tours: (seq<nat>, seq<nat>))
    requires start1 < |cities| && start2 < |cities| && start1 != start2
  {
    var st := Grow(cities, dist, Start(|cities|, start1, start2), |cities| - 2);
    (st.path1 + [start1], st.path2 + [start2])
  }

  /** No city occurs twice in s. */
  ghost predicate NoRepeats(s: seq<nat>) {
    forall c :: multiset(s)[c] <= 1
  }

  /** Every city below n occurs exactly once in t1 and t2 together. */
  ghost predicate Partitions(t1: seq<nat>, t2: seq<nat>, n: nat) {
    && InRange(t1, n) && InRange(t2, n)
    && (forall c :: 0 <= c < n ==> c in t1 || c in t2)
    && (forall c :: c in t1 ==> c !in t2)
    && NoRepeats(t1) && NoRepeats(t2)
  }

  /** The entries of a closed tour other than its closing entry. */
  function Body(tour: seq<nat>): (body: seq<nat>)
    requires |tour| > 0
    ensures |body| == |tour| - 1
  {
    tour[..|tour| - 1]
  }

  /**
   * What holds between rounds: the starts stay first, a city is visited exactly when it is
   * on one of the paths, no city is on the paths twice, and the unvisited cities are as
   * many as the cities not yet placed.
   */
  ghost predicate Consistent(st: Tours, n: nat, start1: nat, start2: nat) {
    && WellFormed(st, n) && InRange(st.path1, n) && InRange(st.path2, n)
    && st.path1[0] == start1 && st.path2[0] == start2
    && (forall c :: 0 <= c < n ==> (st.visited[c] <==> c in st.path1 || c in st.path2))
    && (forall c :: c in st.path1 ==> c !in st.path2)
    && NoRepeats(st.path1) && NoRepeats(st.path2)
    && multiset(st.visited)[false] + |st.path1| + |st.path2| == n
  }

  /** n flags that are all false count n unvisited cities. */
  lemma {:induction false} AllUnvisited(n: nat)
    ensures multiset(seq(n, c => false))[false] == n
  {
    if n > 0 {
      AllUnvisited(n - 1);
      assert seq(n, c => false) == seq(n - 1, c => false) + [false];
    }
  }

  /** The starting state is consistent. */
  lemma StartIsConsistent(n: nat, start1: nat, start2: nat)
    requires start1 < n && start2 < n && start1 != start2
    ensures Consistent(Start(n, start1, start2), n, start1, start2)
  {
    AllUnvisited(n);
    var none := seq(n, c => false);
    assert multiset(none[start1 := true])[false] == n - 1;
  }

  /**
   * While some city is unplaced, both salesmen have a nearest unvisited city, and the
   * assignment appends exactly one of them to exactly one path: to path 1 when salesman 1's
   * distance is at most salesman 2's, otherwise to path 2. The appended city was unvisited,
   * so consistency is kept.
   */
  lemma AssignAppendsOne(cities: seq<Point>, dist: (Point, Point) -> nat, st: Tours, start1: nat, start2: nat,
                         nearest1: Candidate, nearest2: Candidate)
    requires Consistent(st, |cities|, start1, start2) && |st.path1| + |st.path2| < |cities|
    requires IsNearestBelow(cities, dist, st.visited, st.path1[|st.path1| - 1], |cities|, nearest1)
    requires IsNearestBelow(cities, dist, st.visited, st.path2[|st.path2| - 1], |cities|, nearest2)
    ensures nearest1.Candidate? && nearest2.Candidate?
    ensures Consistent(Assign(st, nearest1, nearest2), |cities|, start1, start2)
    ensures nearest1.distance <= nearest2.distance ==>
      Assign(st, nearest1, nearest2) == Tours(st.visited[nearest1.city := true], st.path1 + [nearest1.city], st.path2)
    ensures nearest2.distance < nearest1.distance ==>
      Assign(st, nearest1, nearest2) == Tours(st.visited[nearest2.city := true], st.path1, st.path2 + [nearest2.city])
  {
    var n := |cities|;
    assert false in multiset(st.visited);
    var u :| 0 <= u < n && !st.visited[u];
    if nearest1.distance <= nearest2.distance {
      AppendUnvisited(st, n, start1, start2, nearest1.city, true);
    } else {
      AppendUnvisited(st, n, start1, start2, nearest2.city, false);
    }
  }

  /** A round on a consistent state with an unplaced city places one more city and keeps consistency. */
  lemma StepAppendsOne(cities: seq<Point>, dist: (Point, Point) -> nat, st: Tours, next: Tours, start1: nat, start2: nat)
    requires Consistent(st, |cities|, start1, start2) && |st.path1| + |st.path2| < |cities|
    requires next == Step(cities, dist, st)
    ensures Consistent(next, |cities|, start1, start2)
    ensures |next.path1| + |next.path2| == |st.path1| + |st.path2| + 1
  {
    var cur1, cur2 := st.path1[|st.path1| - 1], st.path2[|st.path2| - 1];
    ScanFindsNearest(cities, dist, st.visited, cur1, |cities|);
    ScanFindsNearest(cities, dist, st.visited, cur2, |cities|);
    AssignAppendsOne(cities, dist, st, start1, start2,
      ScanUpTo(cities, dist, st.visited, cur1, |cities|), ScanUpTo(cities, dist, st.visited, cur2, |cities|));
  }

  /** Appending an unvisited city to one path and marking it visited keeps consistency. */
  lemma AppendUnvisited(st: Tours, n: nat, start1: nat, start2: nat, c: nat, first: bool)
    requires Consistent(st, n, start1, start2) && c < n && !st.visited[c]
    ensures Consistent(
      if first then Tours(st.visited[c := true], st.path1 + [c], st.path2)
      else Tours(st.visited[c := true], st.path1, st.path2 + [c]), n, start1, start2)
  {
    assert c !in st.path1 && c !in st.path2;
    assert multiset(st.path1 + [c]) == multiset(st.path1) + multiset{c};
    assert multiset(st.path2 + [c]) == multiset(st.path2) + multiset{c};
  }

  /** After k <= N - 2 rounds the state is consistent and 2 + k cities are placed. */
  lemma {:induction false} GrowIsConsistent(cities: seq<Point>, dist: (Point, Point) -> nat, start1: nat, start2: nat, rounds: nat)
    requires start1 < |cities| && start2 < |cities| && start1 != start2
    requires rounds <= |cities| - 2
    ensures Reached(cities, dist, start1, start2, rounds)
  {
    if rounds > 0 {
      GrowIsConsistent(cities, dist, start1, start2, rounds - 1);
    }
    RoundIsConsistent(cities, dist, start1, start2, rounds);
  }

  /** The state after `rounds` rounds is consistent and holds 2 + rounds placed cities. */
  ghost predicate Reached(cities: seq<Point>, dist: (Point, Point) -> nat, start1: nat, start2: nat, rounds: nat)
    requires start1 < |cities| && start2 < |cities|
  {
    var st := Grow(cities, dist, Start(|cities|, start1, start2), rounds);
    Consistent(st, |cities|, start1, start2) && |st.path1| + |st.path2| == 2 + rounds
  }

  /** The starting state, and every round after a reached state with an unplaced city, is reached. */
  lemma RoundIsConsistent(cities: seq<Point>, dist: (Point, Point) -> nat, start1: nat, start2: nat, rounds: nat)
    requires start1 < |cities| && start2 < |cities| && start1 != start2
    requires rounds <= |cities| - 2
    requires rounds > 0 ==> Reached(cities, dist, start1, start2, rounds - 1)
    ensures Reached(cities, dist, start1, start2, rounds)
  {
    if rounds == 0 {
      StartIsConsistent(|cities|, start1, start2);
    } else {
      StepAppendsOne(cities, dist, Grow(cities, dist, Start(|cities|, start1, start2), rounds - 1),
        Grow(cities, dist, Start(|cities|, start1, start2), rounds), start1, start2);
    }
  }

  /** Before the last round some city is still unvisited. */
  lemma GrowLeavesUnvisited(cities: seq<Point>, dist: (Point, Point) -> nat, start1: nat, start2: nat, rounds: nat)
    requires start1 < |cities| && start2 < |cities| && start1 != start2
    requires rounds < |cities| - 2
    ensures false in Grow(cities, dist, Start(|cities|, start1, start2), rounds).visited
  {
    GrowIsConsistent(cities, dist, start1, start2, rounds);
    var st := Grow(cities, dist, Start(|cities|, start1, start2), rounds);
    assert false in multiset(st.visited);
  }

  /** When some city is unvisited, the nearest unvisited city exists for every salesman. */
  lemma NearestExists(cities: seq<Point>, dist: (Point, Point) -> nat, visited: seq<bool>, current: nat, c: Candidate)
    requires |visited| == |cities| && current < |cities| && false in visited
    requires IsNearestBelow(cities, dist, visited, current, |cities|, c)
    ensures c.Candidate?
  {
    var u :| 0 <= u < |visited| && !visited[u];
  }

  /**
   * tour1 and tour2 are closed at their starts, have n + 2 entries between them, and their
   * bodies place every city below n exactly once.
   */
  ghost predicate ClosedPartition(tour1: seq<nat>, tour2: seq<nat>, n: nat, start1: nat, start2: nat) {
    && |tour1| >= 2 && tour1[0] == start1 && tour1[|tour1| - 1] == start1
    && |tour2| >= 2 && tour2[0] == start2 && tour2[|tour2| - 1] == start2
    && |tour1| + |tour2| == n + 2
    && Partitions(Body(tour1), Body(tour2), n)
  }

  /** The constructed tours are closed and partition the cities. */
  lemma ToursPartitionCities(cities: seq<Point>, dist: (Point, Point) -> nat, start1: nat, start2: nat)
    requires start1 < |cities| && start2 < |cities| && start1 != start2
    ensures ClosedPartition(TwoTours(cities, dist, start1, start2).0, TwoTours(cities, dist, start1, start2).1, |cities|, start1, start2)
  {
    var st := Grow(cities, dist, Start(|cities|, start1, start2), |cities| - 2);
    assert TwoTours(cities, dist, start1, start2) == (st.path1 + [start1], st.path2 + [start2]);
    GrowIsConsistent(cities, dist, start1, start2, |cities| - 2);
    LastStatePartitions(st, |cities|, start1, start2);
  }

  /** The tours are the paths after `rounds` = N - 2 rounds, each closed at its start. */
  lemma ToursAfterRounds(cities: seq<Point>, dist: (Point, Point) -> nat, start1: nat, start2: nat, rounds: nat)
    requires start1 < |cities| && start2 < |cities| && start1 != start2 && rounds == |cities| - 2
    ensures
      var st := Grow(cities, dist, Start(|cities|, start1, start2), rounds);
      TwoTours(cities, dist, start1, start2) == (st.path1 + [start1], st.path2 + [start2])
  {
  }

  /** Once all N cities are placed, closing both paths gives a closed partition of the cities. */
  lemma LastStatePartitions(st: Tours, n: nat, start1: nat, start2: nat)
    requires Consistent(st, n, start1, start2) && |st.path1| + |st.path2| == n
    ensures ClosedPartition(st.path1 + [start1], st.path2 + [start2], n, start1, start2)
  {
    AllPlacedPartitions(st, n, start1, start2);
    ClosingKeepsPartition(st.path1, st.path2, n, start1, start2);
  }

  /** Closing two paths that partition the cities, each starting at its start, gives a closed partition. */
  lemma ClosingKeepsPartition(path1: seq<nat>, path2: seq<nat>, n: nat, start1: nat, start2: nat)
    requires Partitions(path1, path2, n) && |path1| + |path2| == n
    requires |path1| > 0 && path1[0] == start1 && |path2| > 0 && path2[0] == start2
    ensures ClosedPartition(path1 + [start1], path2 + [start2], n, start1, start2)
  {
    assert Body(path1 + [start1]) == path1;
    assert Body(path2 + [start2]) == path2;
  }

  /** Once N cities are placed in a consistent state, none is unvisited and the paths partition the cities. */
  lemma AllPlacedPartitions(st: Tours, n: nat, start1: nat, start2: nat)
    requires Consistent(st, n, start1, start2) && |st.path1| + |st.path2| == n
    ensures Partitions(st.path1, st.path2, n)
  {
    assert false !in multiset(st.visited);
    forall c | 0 <= c < n ensures c in st.path1 || c in st.path2 {
      assert st.visited[c];
    }
  }

  /**
   * One scan over all cities, computing both salesmen's nearest unvisited cities on the same
   * visited flags.
   */
  method NearestUnvisited(cities: seq<Point>, dist: (Point, Point) -> nat, visited: array<bool>, currentCity1: nat, currentCity2: nat)
    returns (nearest1: Candidate, nearest2: Candidate)
    requires visited.Length == |cities| && currentCity1 < |cities| && currentCity2 < |cities|
    ensures nearest1 == ScanUpTo(cities, dist, visited[..], currentCity1, |cities|)
    ensures nearest2 == ScanUpTo(cities, dist, visited[..], currentCity2, |cities|)
    ensures IsNearestBelow(cities, dist, visited[..], currentCity1, |cities|, nearest1)
    ensures IsNearestBelow(cities, dist, visited[..], currentCity2, |cities|, nearest2)
  {
    nearest1, nearest2 := NoCandidate, NoCandidate;
    var city := 0;
    while city < |cities|
      invariant city <= |cities|
      invariant nearest1 == ScanUpTo(cities, dist, visited[..], currentCity1, city)
      invariant nearest2 == ScanUpTo(cities, dist, visited[..], currentCity2, city)
    {
      if !visited[city] {
        var distance1 := CityDistance(cities, dist, currentCity1, city);
        var distance2 := CityDistance(cities, dist, currentCity2, city);
        if nearest1.NoCandidate? || distance1 < nearest1.distance {
          nearest1 := Candidate(city, distance1);
        }
        if nearest2.NoCandidate? || distance2 < nearest2.distance {
          nearest2 := Candidate(city, distance2);
        }
      }
      city := city + 1;
    }
    ScanFindsNearest(cities, dist, visited[..], currentCity1, |cities|);
    ScanFindsNearest(cities, dist, visited[..], currentCity2, |cities|);
  }

  /** Writes city at position index of path and returns the next free position. */
  method Append(path: array<nat>, index: nat, city: nat) returns (next: nat)
    requires index < path.Length
    modifies path
    ensures next == index + 1
    ensures path[..next] == old(path[..index]) + [city]
  {
    path[index] := city;
    next := index + 1;
    assert path[..next] == path[..index] + [city];
  }

  /** The arrays and fill indices of the construction hold the state st. */
  ghost predicate Mirrors(st: Tours, visited: array<bool>, path1: array<nat>, path2: array<nat>, pathIndex1: nat, pathIndex2: nat)
    reads visited, path1, path2
  {
    && pathIndex1 == |st.path1| <= path1.Length && pathIndex2 == |st.path2| <= path2.Length
    && visited[..] == st.visited && path1[..pathIndex1] == st.path1 && path2[..pathIndex2] == st.path2
  }

  /**
   * What holds at the head of the construction loop after `rounds` rounds: the arrays, fill
   * indices and current cities hold the state reached by the reference rounds.
   */
  ghost predicate Invariant(cities: seq<Point>, dist: (Point, Point) -> nat, start1: nat, start2: nat, rounds: nat,
                            visited: array<bool>, path1: array<nat>, path2: array<nat>,
                            pathIndex1: nat, pathIndex2: nat, currentCity1: nat, currentCity2: nat)
    reads visited, path1, path2
  {
    && start1 < |cities| && start2 < |cities| && start1 != start2 && rounds <= |cities| - 2
    && path1 != path2 && path1.Length == |cities| + 1 && path2.Length == |cities| + 1
    && var st := Grow(cities, dist, Start(|cities|, start1, start2), rounds);
       && Mirrors(st, visited, path1, path2, pathIndex1, pathIndex2) && pathIndex1 + pathIndex2 == 2 + rounds
       && currentCity1 == st.path1[|st.path1| - 1] && currentCity2 == st.path2[|st.path2| - 1]
  }

  /** Arrays holding the state after one more reference round satisfy the loop invariant for the next round. */
  lemma InvariantAdvances(cities: seq<Point>, dist: (Point, Point) -> nat, start1: nat, start2: nat, rounds: nat,
                          visited: array<bool>, path1: array<nat>, path2: array<nat>,
                          pathIndex1: nat, pathIndex2: nat, currentCity1: nat, currentCity2: nat)
    requires start1 < |cities| && start2 < |cities| && start1 != start2 && rounds < |cities| - 2
    requires path1 != path2 && path1.Length == |cities| + 1 && path2.Length == |cities| + 1
    requires
      var next := Step(cities, dist, Grow(cities, dist, Start(|cities|, start1, start2), rounds));
      && Mirrors(next, visited, path1, path2, pathIndex1, pathIndex2) && pathIndex1 + pathIndex2 == 3 + rounds
      && currentCity1 == next.path1[pathIndex1 - 1] && currentCity2 == next.path2[pathIndex2 - 1]
    ensures Invariant(cities, dist, start1, start2, rounds + 1, visited, path1, path2, pathIndex1, pathIndex2, currentCity1, currentCity2)
  {
    assert Grow(cities, dist, Start(|cities|, start1, start2), rounds + 1)
      == Step(cities, dist, Grow(cities, dist, Start(|cities|, start1, start2), rounds));
  }

  /**
   * The assignment of one round on the arrays, holding the state st: salesman 1 takes its
   * nearest city when it is at most as far as salesman 2's, salesman 2 only when strictly
   * nearer; the taker appends the city, moves there and marks it visited.
   */
  method AssignNearest(visited: array<bool>, path1: array<nat>, path2: array<nat>,
                       pathIndex1: nat, pathIndex2: nat, currentCity1: nat, currentCity2: nat,
                       nearest1: Candidate, nearest2: Candidate, ghost st: Tours)
    returns (newIndex1: nat, newIndex2: nat, newCity1: nat, newCity2: nat)
    requires Mirrors(st, visited, path1, path2, pathIndex1, pathIndex2) && WellFormed(st, |st.visited|)
    requires currentCity1 == st.path1[|st.path1| - 1] && currentCity2 == st.path2[|st.path2| - 1]
    requires path1 != path2 && pathIndex1 < path1.Length && pathIndex2 < path2.Length
    requires nearest1.Candidate? ==> nearest1.city < visited.Length
    requires nearest2.Candidate? ==> nearest2.city < visited.Length
    modifies visited, path1, path2
    ensures Mirrors(Assign(st, nearest1, nearest2), visited, path1, path2, newIndex1, newIndex2)
    ensures newCity1 == Assign(st, nearest1, nearest2).path1[newIndex1 - 1]
    ensures newCity2 == Assign(st, nearest1, nearest2).path2[newIndex2 - 1]
    ensures nearest1.Candidate? && nearest2.Candidate? ==> newIndex1 + newIndex2 == pathIndex1 + pathIndex2 + 1
  {
    newIndex1, newIndex2, newCity1, newCity2 := pathIndex1, pathIndex2, currentCity1, currentCity2;
    if nearest1.Candidate? && (nearest2.NoCandidate? || nearest1.distance <= nearest2.distance) {
      newIndex1 := Append(path1, pathIndex1, nearest1.city);
      newCity1 := nearest1.city;
      visited[nearest1.city] := true;
    }
    if nearest2.Candidate? && (nearest1.NoCandidate? || nearest2.distance < nearest1.distance) {
      newIndex2 := Append(path2, pathIndex2, nearest2.city);
      newCity2 := nearest2.city;
      visited[nearest2.city] := true;
    }
  }

  /**
   * One round on the arrays, holding the state st: one scan for both salesmen, then the
   * assignment. The arrays then hold the state after the reference round.
   */
  method AddNearest(cities: seq<Point>, dist: (Point, Point) -> nat, visited: array<bool>, path1: array<nat>, path2: array<nat>,
                    pathIndex1: nat, pathIndex2: nat, currentCity1: nat, currentCity2: nat, ghost st: Tours)
    returns (newIndex1: nat, newIndex2: nat, newCity1: nat, newCity2: nat)
    requires WellFormed(st, |cities|) && false in st.visited
    requires path1 != path2 && pathIndex1 < path1.Length && pathIndex2 < path2.Length
    requires Mirrors(st, visited, path1, path2, pathIndex1, pathIndex2)
    requires currentCity1 == st.path1[|st.path1| - 1] && currentCity2 == st.path2[|st.path2| - 1]
    modifies visited, path1, path2
    ensures Mirrors(Step(cities, dist, st), visited, path1, path2, newIndex1, newIndex2)
    ensures newCity1 == Step(cities, dist, st).path1[newIndex1 - 1] && newCity2 == Step(cities, dist, st).path2[newIndex2 - 1]
    ensures newIndex1 + newIndex2 == pathIndex1 + pathIndex2 + 1
  {
    var nearest1, nearest2 := NearestUnvisited(cities, dist, visited, currentCity1, currentCity2);
    NearestExists(cities, dist, st.visited, currentCity1, nearest1);
    NearestExists(cities, dist, st.visited, currentCity2, nearest2);
    assert Step(cities, dist, st) == Assign(st, nearest1, nearest2);
    newIndex1, newIndex2, newCity1, newCity2 :=
      AssignNearest(visited, path1, path2, pathIndex1, pathIndex2, currentCity1, currentCity2, nearest1, nearest2, st);
  }

  /** One round of the construction loop, keeping the loop invariant. */
  method Round(cities: seq<Point>, dist: (Point, Point) -> nat, visited: array<bool>, path1: array<nat>, path2: array<nat>,
               pathIndex1: nat, pathIndex2: nat, currentCity1: nat, currentCity2: nat,
               ghost start1: nat, ghost start2: nat, ghost rounds: nat)
    returns (newIndex1: nat, newIndex2: nat, newCity1: nat, newCity2: nat)
    requires Invariant(cities, dist, start1, start2, rounds, visited, path1, path2, pathIndex1, pathIndex2, currentCity1, currentCity2)
    requires pathIndex1 + pathIndex2 < |cities|
    modifies visited, path1, path2
    ensures Invariant(cities, dist, start1, start2, rounds + 1, visited, path1, path2, newIndex1, newIndex2, newCity1, newCity2)
    ensures newIndex1 + newIndex2 == pathIndex1 + pathIndex2 + 1
  {
    GrowLeavesUnvisited(cities, dist, start1, start2, rounds);
    ghost var st := Grow(cities, dist, Start(|cities|, start1, start2), rounds);
    newIndex1, newIndex2, newCity1, newCity2 :=
      AddNearest(cities, dist, visited, path1, path2, pathIndex1, pathIndex2, currentCity1, currentCity2, st);
    InvariantAdvances(cities, dist, start1, start2, rounds, visited, path1, path2, newIndex1, newIndex2, newCity1, newCity2);
  }

  /** Appends each salesman's start city to its path, closing both tours. */
  method CloseTours(path1: array<nat>, path2: array<nat>, pathIndex1: nat, pathIndex2: nat, start1: nat, start2: nat)
    returns (tour1: seq<nat>, tour2: seq<nat>)
    requires path1 != path2 && pathIndex1 < path1.Length && pathIndex2 < path2.Length
    modifies path1, path2
    ensures tour1 == old(path1[..pathIndex1]) + [start1] && tour2 == old(path2[..pathIndex2]) + [start2]
  {
    var end1 := Append(path1, pathIndex1, start1);
    var end2 := Append(path2, pathIndex2, start2);
    tour1, tour2 := path1[..end1], path2[..end2];
  }

  /** The arrays before the first round: both starts visited, each path holding its start. */
  method StartPaths(cities: seq<Point>, dist: (Point, Point) -> nat, start1: nat, start2: nat)
    returns (visited: array<bool>, path1: array<nat>, path2: array<nat>, pathIndex1: nat, pathIndex2: nat)
    requires start1 < |cities| && start2 < |cities| && start1 != start2
    ensures fresh(visited) && fresh(path1) && fresh(path2)
    ensures Invariant(cities, dist, start1, start2, 0, visited, path1, path2, pathIndex1, pathIndex2, start1, start2)
  {
    var numCities := |cities|;
    visited := new bool[numCities](c => false);
    path1 := new nat[numCities + 1];
    path2 := new nat[numCities + 1];
    visited[start1] := true;
    visited[start2] := true;
    pathIndex1 := Append(path1, 0, start1);
    pathIndex2 := Append(path2, 0, start2);
    assert visited[..] == Start(numCities, start1, start2).visited;
  }

  /**
   * The rounds of the construction on arrays: a visited array shared by both salesmen, two
   * path arrays of N + 1 entries with their fill indices, and one scan per round.
   */
  method GrowPaths(cities: seq<Point>, dist: (Point, Point) -> nat, start1: nat, start2: nat)
    returns (path1: array<nat>, path2: array<nat>, pathIndex1: nat, pathIndex2: nat, ghost rounds: nat)
    requires start1 < |cities| && start2 < |cities| && start1 != start2
    ensures fresh(path1) && fresh(path2) && path1 != path2
    ensures pathIndex1 < path1.Length && pathIndex2 < path2.Length && rounds == |cities| - 2
    ensures path1[..pathIndex1] == Grow(cities, dist, Start(|cities|, start1, start2), rounds).path1
    ensures path2[..pathIndex2] == Grow(cities, dist, Start(|cities|, start1, start2), rounds).path2
  {
    var numCities := |cities|;
    var visited;
    visited, path1, path2, pathIndex1, pathIndex2 := StartPaths(cities, dist, start1, start2);
    var currentCity1, currentCity2 := start1, start2;
    rounds := 0;

    while pathIndex1 + pathIndex2 < numCities
      invariant Invariant(cities, dist, start1, start2, rounds, visited, path1, path2, pathIndex1, pathIndex2, currentCity1, currentCity2)
      decreases numCities - (pathIndex1 + pathIndex2)
    {
      pathIndex1, pathIndex2, currentCity1, currentCity2 :=
        Round(cities, dist, visited, path1, path2, pathIndex1, pathIndex2, currentCity1, currentCity2, start1, start2, rounds);
      rounds := rounds + 1;
    }
    assert rounds == numCities - 2;
  }

  /** The construction: the rounds, then each path returns to its start. */
  method NearestNeighborForTwo(cities: seq<Point>, dist: (Point, Point) -> nat, start1: nat, start2: nat)
    returns (tour1: seq<nat>, tour2: seq<nat>)
    requires start1 < |cities| && start2 < |cities| && start1 != start2
    ensures (tour1, tour2) == TwoTours(cities, dist, start1, start2)
    ensures ClosedPartition(tour1, tour2, |cities|, start1, start2)
  {
    var path1, path2, pathIndex1, pathIndex2, rounds := GrowPaths(cities, dist, start1, start2);
    tour1, tour2 := CloseTours(path1, path2, pathIndex1, pathIndex2, start1, start2);
    ToursPartitionCities(cities, dist, start1, start2);
    ToursAfterRounds(cities, dist, start1, start2, rounds);
  }
}
