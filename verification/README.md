# Two-salesman tour heuristic

The program builds two closed tours over a set of cities `0..N-1`. Two salesmen
share the cities, and the heuristic works in two phases:

1. **Dual nearest-neighbour construction.** Each salesman starts at its own city.
   The salesmen share one `visited` array. In every round, a single left-to-right
   scan finds each salesman's nearest unvisited city. Then exactly one city is
   appended to exactly one path. Salesman 1 takes its city when it is at most as
   far as salesman 2's; salesman 2 takes its city only when it is strictly nearer.
   When all cities are placed, each path returns to its start city.
2. **2-opt local search** on each tour. A sweep visits the position pairs
   `1 <= i < j <= n - 2`. Any pair with negative gain is applied at once, by
   reversing the segment `[i..j]`. Sweeps repeat until a whole sweep applies none.

The cost of a tour is the sum of the distances between consecutive entries. The
algorithms take the distance as a parameter `dist`. They rely only on two
properties of it, stated as predicates: it is symmetric, and it is zero from a city
to itself. The program's own metric (rounded Euclidean distance) is given as well,
with proofs of both properties.

Modules:

- `Geometry` (`geometry.dfy`): points, the two distance properties, and the
  integer rounded Euclidean metric.
- `TourCost` (`tour_cost.dfy`): edge sums, the cost of a path, the cost loop, and
  lemmas for splitting, comparing and reversing edge sums.
- `TwoOpt` (`two_opt.dfy`): the gain, the swap (as a function and as an array
  method), and the sweeping optimiser, with the swap's cost and permutation lemmas.
- `NearestNeighbor` (`nearest_neighbor.dfy`): the construction.
  - A functional reference: `ScanUpTo`, `Assign`, `Step`, `Grow` and `TwoTours`.
  - Its properties: the scan finds the nearest city, each round places one city,
    and the closed tours partition the cities.
  - The array method `NearestNeighborForTwo`, proved equal to the reference.

The source's scan replaces the best candidate only when a city is strictly nearer.
Among equally near cities, the lowest index therefore wins. The assignment guards
at `TwoTSPNearestNeighbor.java:115` and `:121` never both hold, so the two tours
never advance in the same round: every round adds exactly one city.

## Model

| member | source | states |
|---|---|---|
| Geometry.RoundSqrt | TwoTSPNearestNeighbor.java:203 | the result is the square root of its argument rounded half up: `r - 1/2 <= sqrt(s) < r + 1/2`, written without fractions |
| Geometry.RoundSqrtFrom | TwoTSPNearestNeighbor.java:203 | searching upwards from a value not above the rounded root reaches the rounded root |
| Geometry.RoundedRootIsUnique | TwoTSPNearestNeighbor.java:203 | at most one natural number is the rounded square root of a given number, so the rounded root is well defined |
| Geometry.MonotoneStep | TwoTSPNearestNeighbor.java:203 | `n * n - n` is monotone for `n >= 1`; this gives the uniqueness of the rounded root |
| Geometry.Square | TwoTSPNearestNeighbor.java:203 | `Math.pow(v, 2)` on an integer difference: a natural number equal to `v * v` |
| Geometry.EuclideanDistance | TwoTSPNearestNeighbor.java:198-204 | the distance is the rounded root (half up) of the summed squared coordinate differences `(x1 - x2)^2 + (y1 - y2)^2` |
| Geometry.EuclideanDistanceIsSymmetric | TwoTSPNearestNeighbor.java:198-204 | the program's metric satisfies `dist(p, q) == dist(q, p)`, because it only uses squared coordinate differences |
| Geometry.EuclideanDistanceIsZeroOnDiagonal | TwoTSPNearestNeighbor.java:198-204 | the program's metric gives distance 0 from a city to itself |
| TourCost.CalculateCost | TwoTSPNearestNeighbor.java:188-195 | the accumulating loop returns the sum of the distances between consecutive entries of the path (0 for a path of at most one entry) |
| TourCost.EdgeSumSplit | TwoTSPNearestNeighbor.java:188-195 | a sum of consecutive edges splits at any intermediate position |
| TourCost.EdgeSumAgree | TwoTSPNearestNeighbor.java:188-195 | two paths that agree on a stretch of positions have the same edge sum over it |
| TourCost.EdgeSumReversed | TwoTSPNearestNeighbor.java:188-195 | with a symmetric distance, a stretch read backwards has the same edge sum |
| TourCost.SingleCityTourCostsNothing | TwoTSPNearestNeighbor.java:188-195 | the closed tour `[s, s]` costs 0 when the distance is zero on the diagonal |
| TwoOpt.Gain | TwoTSPNearestNeighbor.java:159-170 | new edges `(a, c) + (b, d)` minus old edges `(a, b) + (c, d)`, with the successor of `j` taken `% n`; a one-city segment has gain 0; its meaning is given by `TwoOpt.GainReplacesTwoEdges` and `TwoOpt.SwapChangesCostByGain` |
| TwoOpt.Reverse | TwoTSPNearestNeighbor.java:177-182 | the reversal has the same length, and position `k` holds the input's position `len - 1 - k` |
| TwoOpt.Swapped | TwoTSPNearestNeighbor.java:173-185 | the swap keeps the length, positions outside `[i..j]` unchanged, and puts `path[i + j - k]` at each position `k` in `[i..j]` |
| TwoOpt.Apply2OptSwap | TwoTSPNearestNeighbor.java:173-185 | the prefix copy, the reversing loop and the suffix copy produce exactly the swapped path |
| TwoOpt.SwapIsPermutation | TwoTSPNearestNeighbor.java:173-185 | a swap only reorders the path: same multiset of cities |
| TwoOpt.ReverseIsPermutation | TwoTSPNearestNeighbor.java:178-182 | reversing a segment keeps its multiset of cities |
| TwoOpt.SwapTwiceIsIdentity | TwoTSPNearestNeighbor.java:173-185 | applying the same swap twice gives back the original path |
| TwoOpt.SwapChangesCostByGain | TwoTSPNearestNeighbor.java:159-170 | for `1 <= i <= j <= n - 2` and a symmetric distance, the cost after the swap is exactly the old cost plus the gain |
| TwoOpt.SwapKeepsRange | TwoTSPNearestNeighbor.java:173-185 | a swap keeps every entry a valid city index |
| TwoOpt.SwapKeepsOuterEdges | TwoTSPNearestNeighbor.java:175-183 | the edges before `i - 1` and from `j + 1` on are the same after the swap |
| TwoOpt.SwapKeepsStretch | TwoTSPNearestNeighbor.java:175-183 | any stretch of positions outside `[i..j]` keeps its edge sum under the swap |
| TwoOpt.SwapKeepsInnerEdges | TwoTSPNearestNeighbor.java:179-182 | with a symmetric distance, the reversed segment keeps its internal edge sum |
| TwoOpt.GainReplacesTwoEdges | TwoTSPNearestNeighbor.java:159-170 | for every pair `1 <= i <= j <= n - 2` the successor `(j + 1) % n` does not wrap, so the gain is the new edges `(path[i-1], path[j])` and `(path[i], path[j+1])` minus the path's edges leaving positions `i - 1` and `j` |
| TwoOpt.CostAroundSegment | TwoTSPNearestNeighbor.java:188-195 | the cost splits into the edges before, at, inside, at and after a segment `[i..j]` |
| TwoOpt.ImprovingSwap | TwoTSPNearestNeighbor.java:146-149 | a swap with negative gain keeps the tour's length, end points, cities and city range, and strictly lowers its cost |
| TwoOpt.SweepRow | TwoTSPNearestNeighbor.java:145-151 | the inner loop keeps the sweep's progress (shape kept, cost not raised, strictly lowered once a move was applied); if it applies no move, no pair `(i, j)` has negative gain |
| TwoOpt.OptimizeWith2Opt | TwoTSPNearestNeighbor.java:135-156 | the result has the input's length, first and last city and multiset of cities; its cost is at most the input's; it is locally optimal (no pair `1 <= i < j <= n - 2` has negative gain); a locally optimal input (in particular the result of an earlier call) and any input with `n < 4` come back unchanged; the loop terminates because each applied move lowers the natural-number cost |
| NearestNeighbor.ScanUpTo | TwoTSPNearestNeighbor.java:97-112 | the candidate found by scanning cities `0..k-1` is a city below `k` |
| NearestNeighbor.ScanFindsNearest | TwoTSPNearestNeighbor.java:97-112 | the scan finds an unvisited city at minimum distance from the current city, with the lowest index among equally near ones; it finds none exactly when every city is visited |
| NearestNeighbor.NearestIsUnique | TwoTSPNearestNeighbor.java:97-112 | at most one candidate satisfies that specification, so it determines the scan's result |
| NearestNeighbor.NearestExists | TwoTSPNearestNeighbor.java:97-112 | while some city is unvisited, every salesman has a nearest unvisited city |
| NearestNeighbor.Start | TwoTSPNearestNeighbor.java:83-87 | the initial state has one flag per city, and each path holds a valid start city |
| NearestNeighbor.Assign | TwoTSPNearestNeighbor.java:115-125 | the assignment keeps one flag per city and non-empty paths ending at valid cities |
| NearestNeighbor.Step | TwoTSPNearestNeighbor.java:90-125 | one round (both scans, then the assignment) keeps the state well formed |
| NearestNeighbor.Grow | TwoTSPNearestNeighbor.java:90-126 | any number of rounds keeps the state well formed |
| NearestNeighbor.AllUnvisited | TwoTSPNearestNeighbor.java:75 | a fresh `visited` array of `n` flags counts `n` unvisited cities |
| NearestNeighbor.StartIsConsistent | TwoTSPNearestNeighbor.java:83-87 | after marking and placing both starts: a city is visited exactly when it is on a path, no city is placed twice, and the unvisited cities number `N - 2` |
| NearestNeighbor.AssignAppendsOne | TwoTSPNearestNeighbor.java:115-125 | while a city is unplaced, both candidates exist, and exactly one city is appended to exactly one path: to path 1 when `d1 <= d2`, otherwise to path 2; consistency is kept |
| NearestNeighbor.StepAppendsOne | TwoTSPNearestNeighbor.java:90-125 | a round on a consistent state with an unplaced city keeps consistency and places exactly one more city |
| NearestNeighbor.AppendUnvisited | TwoTSPNearestNeighbor.java:116-124 | appending an unvisited city to one path and marking it visited keeps consistency |
| NearestNeighbor.GrowIsConsistent | TwoTSPNearestNeighbor.java:90-126 | after `k <= N - 2` rounds the state is consistent and exactly `2 + k` cities are placed |
| NearestNeighbor.RoundIsConsistent | TwoTSPNearestNeighbor.java:83-125 | the initial state is reached consistently, and each round from a reached state reaches the next |
| NearestNeighbor.GrowLeavesUnvisited | TwoTSPNearestNeighbor.java:90 | before round `N - 2` some city is still unvisited, so the loop's stopping test at line 90 is reached after exactly `N - 2` rounds |
| NearestNeighbor.ToursPartitionCities | TwoTSPNearestNeighbor.java:128-131 | each returned tour starts and ends at its start city; the lengths add up to `N + 2`; without their closing entries the tours contain every city exactly once and share none |
| NearestNeighbor.ToursAfterRounds | TwoTSPNearestNeighbor.java:126-131 | the returned tours are the paths after `N - 2` rounds, each closed with its start |
| NearestNeighbor.LastStatePartitions | TwoTSPNearestNeighbor.java:126-131 | a consistent state with all `N` cities placed gives a closed partition once both paths are closed |
| NearestNeighbor.ClosingKeepsPartition | TwoTSPNearestNeighbor.java:128-129 | closing two partitioning paths at their starts yields closed tours whose bodies still partition the cities |
| NearestNeighbor.AllPlacedPartitions | TwoTSPNearestNeighbor.java:90 | once `N` cities are placed, none is unvisited, and the two paths together hold every city exactly once |
| NearestNeighbor.NearestUnvisited | TwoTSPNearestNeighbor.java:91-112 | one scan over the `visited` array returns, for both salesmen, the nearest unvisited city (lowest index on ties), as specified by the reference scan |
| NearestNeighbor.Append | TwoTSPNearestNeighbor.java:86 | `path[index++] = city` extends the filled prefix by exactly that city |
| NearestNeighbor.InvariantAdvances | TwoTSPNearestNeighbor.java:90-126 | arrays holding the state after one more reference round satisfy the loop invariant for the next round |
| NearestNeighbor.AssignNearest | TwoTSPNearestNeighbor.java:115-125 | the two guarded blocks leave the arrays, fill indices and current cities holding the reference assignment; with both candidates present the fill indices grow by exactly one in total |
| NearestNeighbor.AddNearest | TwoTSPNearestNeighbor.java:91-125 | one loop iteration leaves the arrays holding the reference round's state, and `pathIndex1 + pathIndex2` grows by exactly one |
| NearestNeighbor.Round | TwoTSPNearestNeighbor.java:90-125 | one loop iteration keeps the loop invariant, with the round count increased by one |
| NearestNeighbor.CloseTours | TwoTSPNearestNeighbor.java:128-131 | appending the start cities and copying the filled prefixes returns each open path followed by its start |
| NearestNeighbor.StartPaths | TwoTSPNearestNeighbor.java:74-87 | the fresh arrays, with both starts marked and placed, satisfy the loop invariant before round 0 |
| NearestNeighbor.GrowPaths | TwoTSPNearestNeighbor.java:74-126 | the loop stops after exactly `N - 2` rounds, with the filled prefixes equal to the reference paths |
| NearestNeighbor.NearestNeighborForTwo | TwoTSPNearestNeighbor.java:73-132 | the array construction returns exactly the reference tours; they are closed at their starts, have `N + 2` entries together, and partition the cities |

## Left out

- `main` and `readInput` (`TwoTSPNearestNeighbor.java:11-70`): reading the city file, fixing the starts at 0 and 1, and writing the results are I/O. The city list is a parameter.
- The floating-point body of `calculateDistance` (`Math.pow`, `Math.sqrt`, `Math.round`): the algorithms take any distance as a parameter. `EuclideanDistance` computes the exact rounded root with integers. It does not model floating-point error for very large coordinates.
- Java `int` overflow: coordinates, distances, costs and gains are unbounded integers. Wrap-around in the cost sums, the gain or the squared differences is not modelled.
- The `Integer.MAX_VALUE` and `-1` sentinels (lines 91-94): "no candidate yet" is a separate `NoCandidate` value. A city at distance `Integer.MAX_VALUE` or more, which the source can never select, is not distinguished.
- NearestNeighborForTwo: requires two distinct start cities below `N`, which is what `main` passes (0 and 1, with at least two cities). Equal or out-of-range starts are not modelled; with equal starts, the loop test at line 90 counts the shared start twice and stops with one city unvisited.
- NearestNeighborForTwo: the source fills the arrays in a single method. The model splits the same statements into the methods `StartPaths`, `GrowPaths`, `Round`, `AddNearest`, `AssignNearest` and `CloseTours`, keeping their order and their effect on the arrays.
- TwoOpt.OptimizeWith2Opt: the cost and gain lemmas assume a symmetric distance, which the program's metric has (`Geometry.EuclideanDistanceIsSymmetric`). The method therefore requires `Symmetric(dist)`.
