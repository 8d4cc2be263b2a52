# Drone delivery routing, modelled in Dafny

The program reads a list of points with integer coordinates and answers in one of three modes:

- **MST**: a minimum spanning tree over all locations, built with Prim's algorithm. In this mode a location's category comes from the signs of its coordinates:
  - Medical: the open third quadrant.
  - Border: the negative half-axes and the origin.
  - Normal: everything else.
  
  A Medical location and a Normal one cannot be joined directly: their distance is infinite.
- **FAST**: a tour from location 0 through every location and back, built by arbitrary insertion. It starts from the triangle 0, 1, 2, 0. Each further location goes into the gap where it adds the least length.
- **OPT**: an exact tour. A branch-and-bound search (`genPerms`) tries every order of the locations after 0. The heuristic tour is the first incumbent. A branch with more than five positions left is pruned when this estimate does not beat the incumbent (`is_promising`): the distance already travelled, plus the cheapest connections from the unplaced locations back to the start and on from the last fixed location, plus the weight of an MST. That MST is built over the locations *numbered* p .. N - 1, where p is the number of fixed positions, and not over the locations still unplaced in the order. While the fixed prefix is 0 .. p - 1 the two sets coincide; in particular they do at the first test, p = 1. Once a later location has been swapped forward, they differ, and then the estimate need not be a lower bound on the tours below the branch. That can first happen at p = 2 with more than five positions left, so with eight or more locations.

The model has seven modules:

| module | file | contents |
|---|---|---|
| `Locations` | `locations.dfy` | Locations, their categories, and `get_distance` as a value of type `W`: finite, or infinite for "unreachable". |
| `PrimSpec` | `prim_spec.dfy` | Prim's algorithm as functions over its three parallel vectors (parents, best edge weight, in-tree flag). One run is over a list of candidate location numbers, which covers both the whole-set version and the subset version used by the pruning bound. Also the invariant the algorithm keeps. |
| `PrimTheory` | `prim_theory.dfy` | What a run guarantees. Each round keeps the invariant. A complete run puts every candidate in the tree on a finite edge. A run fails (the program exits) exactly when the candidates split into two groups with no finite edge between them. |
| `Tours` | `tours.dfy` | Path and tour lengths, the insertion cost (`FAST_distance_change`), the gap the insertion scan chooses, and the heuristic tour. Proved: the heuristic visits every location once. |
| `Search` | `search.dfy` | The pruning estimate of `is_promising`, the invariant of the exhaustive search, and what the search has covered or pruned. |
| `Drones` | `drone.dfy` | The class `Drone`, whose fields are the program's vectors and counters, updated in place by methods. Each method is proved equal to the functions above, or to keep the search invariant. |
| `Wrappers` | `wrappers.dfy` | `Option`. |

Where the program prints an error and exits, the model returns `None` or `false`.

## Model

| member | source | states |
|---|---|---|
| Locations.NewLocation | drone.cpp:294-330 | The location keeps its coordinates and number. In mode 'M' its category is the one its coordinates' signs give (Medical, Border or Normal, never `Unset`); in any other mode it is `Unset`. |
| Locations.BuildLocations | drone.cpp:492-512 | Location i is input point i, numbered i. In mode 'M' its category is the one point i's coordinates give; outside mode 'M' every location is unclassified. |
| Locations.ClassifyRegions | drone.cpp:306-326 | Medical iff both coordinates are negative. Border iff x ≤ 0, y ≤ 0 and one of them is 0. Normal iff either coordinate is positive. The rule never leaves a location unclassified. |
| Locations.DistanceInfIff | drone.cpp:443-473 | The distance is infinite exactly for a Medical/Normal pair, in either order. Otherwise it is the finite, non-negative straight-line length. |
| Locations.DistanceSymmetric | drone.cpp:443-473 | The distance does not depend on the order of the two locations. |
| Locations.DistanceSamePoint | drone.cpp:443-473 | Two locations at the same point and of the same category are at distance 0. |
| Locations.UnrestrictedIsFinite | drone.cpp:443-473 | A Border or unclassified location is at finite distance from every location, in both directions. |
| PrimSpec.ClosestUpTo | drone.cpp:568-621 | The selection scan returns None exactly when every entry outside the tree weighs infinity. Otherwise it returns an entry outside the tree with a finite weight, with no lighter outside entry and every earlier outside entry strictly heavier (the first of equal minima wins). |
| PrimTheory.OutsideNone | drone.cpp:514-536 | No candidate is outside the tree iff every visited flag is set. |
| PrimTheory.InitFrontier | drone.cpp:538-566 | The initial vectors satisfy the invariant. The root is the only candidate in the tree, and its weight is 0. |
| PrimTheory.RelaxFrontier | drone.cpp:623-656 | An update after a successful selection keeps the invariant, adds exactly the selected candidate to the tree, and leaves every entry already in the tree unchanged. |
| PrimTheory.RoundFrontier | drone.cpp:514-536 | A selection followed by an update extends the tree by one candidate and keeps the invariant. |
| PrimTheory.StuckIsCut | drone.cpp:611-617 | When the selection finds nothing while candidates remain outside, the tree and the rest are two non-empty groups with no finite edge between them. |
| PrimTheory.CutNotReachable | drone.cpp:443-473 | Such a split leaves some pair of candidates unreachable from each other. |
| PrimTheory.PrimRounds | drone.cpp:514-536 | A run passes through a sequence of trees: the initial tree first, the run's outcome last, one round between neighbours. |
| PrimTheory.FailureIsFinal | drone.cpp:611-617 | Once a round fails, every later round has failed too. |
| PrimTheory.RoundsKeepFrontier | drone.cpp:527-534 | After k successful rounds the invariant holds, exactly k more candidates are in the tree, and entries already in the tree are unchanged. |
| PrimTheory.RoundsFailOnCut | drone.cpp:1133-1141 | If a round fails before every candidate is in the tree, the input splits into two groups with no finite edge between them. |
| PrimTheory.RoundsStayOnSide | drone.cpp:1133-1141 | Rounds never take an edge across such a split: the tree stays on the root's side. |
| PrimTheory.RoundStaysOnSide | drone.cpp:623-656 | One round never takes an edge across a split. |
| PrimTheory.SpanningNotDisconnected | drone.cpp:514-536 | A run that completes proves the candidates cannot be split into two groups with no finite edge between them. |
| PrimTheory.PrimOutcome | drone.cpp:514-536 | On success, the tree satisfies the invariant, every candidate is in it with a finite weight, and the root has weight 0 with itself as parent. The run fails exactly when the candidates can be split that way; when all pairs are reachable, it succeeds. |
| PrimTheory.WeightsNonNegative | drone.cpp:658-681 | No finite weight of the MST vectors is negative. |
| PrimTheory.TotalFinite | drone.cpp:658-681 | The sum of the weights is finite exactly when every weight is. |
| Tours.BestGapIsCheapest | drone.cpp:784-804 | The gap the insertion scan chooses costs no more than any gap scanned. |
| Tours.BestGapIsFirst | drone.cpp:791-800 | The chosen gap is strictly cheaper than every gap before it: a tie keeps the earlier gap. |
| Tours.GapScanIsBest | drone.cpp:767-804 | After at least one gap, the scan has settled on one past the cheapest gap, and its recorded minimum is that gap's cost. |
| Tours.TriangleShape | drone.cpp:745-759 | The starting path 0, 1, 2, 0 is a closed walk over 0 .. 2. |
| Tours.HeuristicShape | drone.cpp:761-815 | After the insertion of locations 3 .. n - 1, the path starts and ends at 0 and visits each of 0 .. n - 1 exactly once in between. |
| Tours.InsertKeepsShape | drone.cpp:807-811 | Inserting the next location after the chosen gap turns a closed walk over 0 .. n - 1 into one over 0 .. n. |
| Tours.SpliceShape | drone.cpp:811 | Inserting location n at any position before the closing 0 gives a closed walk over 0 .. n. |
| Tours.SplicePerm | drone.cpp:811 | Adding location n to an ordering of 0 .. n - 1, at any position, gives an ordering of 0 .. n. |
| Tours.SpliceInRange | drone.cpp:811 | Inserting location n into a walk over 0 .. n - 1 keeps every entry below n + 1. |
| Tours.PathLenAppend | drone.cpp:755-757 | The length of a path splits at any join: the two parts plus the leg across. |
| Tours.InsertionSplice | drone.cpp:817-838 | Inserting a location into a gap lengthens the path by exactly that gap's insertion cost, the value `FAST_distance_change` returns. |
| Tours.InsertIsRound | drone.cpp:784-811 | Inserting location n at the position the scan settles on is one insertion round: the path grows by exactly the minimum cost found. |
| Tours.InsertStep | drone.cpp:765-813 | Consecutive heuristic walks are one insertion round apart. |
| Tours.HeuristicRounds | drone.cpp:765-813 | The walks after each outer iteration form a sequence, one insertion round between neighbours. |
| Tours.HeuristicIsTour | drone.cpp:840-854 | Without its closing 0, the heuristic walk is a tour through every location starting at 0, and its path length is that tour's length. |
| Tours.ClosedWalkIsTour | drone.cpp:840-854 | A closed walk from 0 over every location, without its closing 0, is a tour through every location from 0, and its path length is that tour's length. |
| Tours.LegSymmetric | drone.cpp:443-473 | A leg has the same length in both directions. |
| Tours.Swap | drone.cpp:987 | `std::swap` of entries i and j exchanges those two entries and leaves every other entry as it was. |
| Tours.SwapTwice | drone.cpp:987-995 | Swapping the same two entries twice restores the order. |
| Tours.SwapKeepsPerm | drone.cpp:987 | A swap keeps an ordering of 0 .. n - 1 an ordering of 0 .. n - 1. |
| Search.MinW | drone.cpp:1047-1069 | The minimum scan returns an entry of the list with no entry strictly below it, or infinity for an empty list. |
| Search.TourModeReachable | drone.cpp:443-473 | Between unclassified locations every pair is reachable. |
| Search.MstWeightTourMode | drone.cpp:1039 | Between unclassified locations the subset MST never makes the program exit, and its weight is not negative. |
| Search.PromisingDefined | drone.cpp:1003-1121 | In the tour modes `is_promising` never exits. |
| Search.PromisingMonotone | drone.cpp:1108-1118 | A branch pruned against one incumbent is also pruned against any better one. |
| Search.MinWNonNegative | drone.cpp:1047-1069 | The minimum of non-negative finite weights is a non-negative finite weight. |
| Search.LegsNonNegative | drone.cpp:1052-1061 | Between unclassified locations, both lists of connection lengths hold finite, non-negative weights. |
| Search.PromisingBelowBest | drone.cpp:1072-1118 | In the tour modes, a branch with more than five positions left survives only when the distance already travelled is below the incumbent. |
| Search.SwapExtends | drone.cpp:987-989 | Swapping a later entry into position p keeps the fixed prefix. The distance travelled grows by exactly the leg to the new entry, and the order still lists every location once, starting at 0. |
| Search.CloseExtends | drone.cpp:942-963 | At a leaf, the distance travelled plus the closing leg back to entry 0 is the length of the tour. |
| Search.NumberedIsUnplaced | drone.cpp:1013-1020 | While the fixed prefix is the identity 0 .. p - 1, the location numbers p .. N - 1 given to the pruning MST are exactly the unplaced locations. |
| Search.FirstTestExact | drone.cpp:1047-1069 | At the first pruning test (p = 1) the MST covers exactly the unplaced locations, and the connections back to the start and on from the last fixed location are the same list. |
| Search.SuffixSame | drone.cpp:985-987 | Two orders of all locations that agree on their first p entries hold the same locations after them, so the entries the loop swaps into position p are exactly the possible continuations. |
| Search.MinWSameValues | drone.cpp:1047-1069 | The minimum scan's result depends only on which weights occur, not on their order or how often. |
| Search.LegsInclude | drone.cpp:1052-1061 | When two orders agree on the fixed prefix and hold the same remaining locations, every connection length listed for one is listed for the other. |
| Search.PromisingSameRest | drone.cpp:1003-1121 | The pruning test gives the same answer for two orders that agree on the fixed prefix and hold the same remaining locations: the order of the rest does not matter. |
| Search.PrunedOnMono | drone.cpp:1108-1118 | A tour with a prefix that fails the pruning test against one incumbent has one that fails it against any better incumbent. |
| Search.KeptUnderBetter | drone.cpp:985-999 | A tour that is no shorter than the incumbent, or has a pruned prefix, stays so when the incumbent improves. |
| Search.KeptFromDeeper | drone.cpp:991 | What the search at position p + 1 settles about a tour also settles it for the search at position p. |
| Search.CoverLeaf | drone.cpp:942-977 | At a leaf the only tour that begins with the whole order is that order, so an incumbent no longer than it is no longer than every tour of the branch. |
| Search.PrunedHere | drone.cpp:979-983 | When `is_promising` fails at position p, every tour that begins with the fixed prefix has a pruned prefix, so returning without exploring the branch loses nothing the promise covers. |
| Search.CoverStep | drone.cpp:985-999 | A loop turn after which every tour continuing with entry i is no shorter than the incumbent or pruned extends that claim from entries p .. i - 1 to entries p .. i, also when the incumbent improved during the turn. |
| Search.CoverAll | drone.cpp:985-999 | Once the loop has tried every entry p .. N - 1, every tour beginning with the fixed prefix is no shorter than the incumbent or has a prefix that failed the pruning test. |
| Search.CoveredOrPrunedSmall | drone.cpp:1006 | With at most five positions left nothing is pruned, so every tour beginning with the fixed prefix is no shorter than the incumbent. |
| Search.CoveredOrPrunedFromStart | drone.cpp:877 | If every tour beginning at location 0 is no shorter than the incumbent or pruned, then every tour at all is. |
| Search.CoveredFromStart | drone.cpp:861-881 | If no tour beginning at location 0 beats the incumbent, then no tour at all does. |
| Search.SearchOutcome | drone.cpp:877 | A search from the prefix 0 that covered or pruned every order leaves every tour no shorter than the incumbent or with a pruned prefix, and with at most six locations no tour shorter than the incumbent. |
| Drones.Drone.constructor | drone.cpp:294-330 | The drone holds the input points as locations 0 .. N - 1, classified only in mode 'M', with every working vector empty. |
| Drones.Drone.PrimInitialize | drone.cpp:538-566 | Every parent is the root. Each weight is the root's distance to that candidate. Only the root is in the tree. The same holds for the subset version at drone.cpp:1145-1173. |
| Drones.Drone.FindClosestLocation | drone.cpp:568-621 | The result is the specified selection, and None where the program exits. |
| Drones.Drone.PrimUpdate | drone.cpp:623-656 | The selected candidate joins the tree, and every outside entry whose distance to it is strictly shorter takes it as its parent. The same holds for the subset version at drone.cpp:1175-1208. |
| Drones.Drone.PrimRun | drone.cpp:1124-1143 | The loop succeeds exactly when the specified run does, and then the vectors equal the run's tree. |
| Drones.Drone.PrimAlgorithm | drone.cpp:514-536 | On success every location is in the tree, on a finite edge, with the invariant holding and the root at weight 0. The run fails exactly on disconnected input. |
| Drones.Drone.MstTotalDistance | drone.cpp:658-681 | It fails exactly when some weight is infinite. Otherwise it returns the sum of the weights. |
| Drones.Drone.ResetPrim | drone.cpp:1210-1218 | The three vectors are cleared. |
| Drones.Drone.RunMst | drone.cpp:479-486 | On success the Prim vectors hold exactly the tree Prim's rounds build over all locations, and the returned weight is that tree's total, which is not negative. None is returned exactly on disconnected input. |
| Drones.Drone.FastInitialize | drone.cpp:745-759 | The path gets 0, 1, 2, 0 appended, and the total grows by the triangle's length. |
| Drones.Drone.ScanGaps | drone.cpp:767-804 | The inner loop leaves the position and cost the gap scan specifies. |
| Drones.Drone.FastArbitraryInsert | drone.cpp:761-815 | The path becomes the heuristic walk, and the running total is its length. |
| Drones.Drone.RunFast | drone.cpp:731-743 | The result is a tour through every location from 0, together with its length. |
| Drones.Drone.OptFastHelper | drone.cpp:914-930 | The incumbent is the heuristic tour without its closing 0, recorded with its length. |
| Drones.Drone.OptInitialize | drone.cpp:883-908 | After the incumbent is set, the order is 0 .. N - 1 and nothing has been travelled; `FAST_path` holds the incumbent, and the search invariant holds at position 1. |
| Drones.Drone.IsPromising | drone.cpp:1003-1121 | The result is the specified pruning test. It never fails in the tour modes. With five or fewer positions left it answers true and leaves the Prim vectors alone; otherwise a defined answer comes with the vectors cleared. |
| Drones.Drone.UnvisitedPositions | drone.cpp:1013-1020 | The list of positions p .. N - 1. |
| Drones.Drone.ConnectionMinima | drone.cpp:1047-1069 | The two minima are the cheapest connections from the unvisited entries back to entry 0 and on from entry p - 1. |
| Drones.Drone.GenPerms | drone.cpp:932-1001 | The order and the distance travelled are restored on return. The search invariant is kept. The incumbent only improves, and it changes only together with its length. The Prim vectors are as before or cleared. On return every tour that begins with the fixed prefix is no shorter than the incumbent or has a prefix of at least p entries that failed `is_promising`. From position 1 this holds for every tour, and with at most six locations no tour is shorter than the incumbent. |
| Drones.Drone.TryPositions | drone.cpp:985-999 | The loop restores the order and the distance travelled, keeps the search invariant, only improves the incumbent, and leaves the Prim vectors as before or cleared. Afterwards every tour that begins with the fixed prefix is no shorter than the incumbent or pruned. |
| Drones.Drone.CloseTour | drone.cpp:942-977 | At a leaf, a strictly shorter tour becomes the incumbent with its length. Otherwise nothing changes, and the distance travelled is restored. Either way the incumbent is no longer than the one tour with this prefix. |
| Drones.Drone.TryPosition | drone.cpp:985-999 | One loop turn restores the order and the distance travelled, keeps the search invariant, only improves the incumbent, and leaves the Prim vectors as before or cleared. Afterwards every tour that continues the prefix with entry i is no shorter than the incumbent or pruned. |
| Drones.Drone.StepIn | drone.cpp:987-989 | Entry i is swapped into position p and the leg to it is added, which extends the search invariant to position p + 1. |
| Drones.Drone.StepOut | drone.cpp:993-995 | The leg is taken off and the swap undone, which gives back the search invariant at position p. |
| Drones.Drone.RunOpt | drone.cpp:861-881 | The search ends with a tour through every location from 0, recorded with its length, and no longer than the heuristic tour. The heuristic tour is kept unless a strictly shorter one replaces it; `FAST_path` still holds it, and the distance travelled is back to 0. The Prim vectors are as before or cleared. Every tour is no shorter than the answer or has a prefix that failed `is_promising`. With at most six locations it is a shortest tour: no tour is shorter. |

## Left out

- Input and output are not modelled: `read_input`, `get_options`, `MST_print`, `FAST_print`, `OPT_print`, `main`, and the debug line `genPerms` prints at position 25. The constructor takes the points and the mode as parameters.
- Floating-point arithmetic is not modelled. Distances are exact reals, so the `+=` and `-=` of a leg in `genPerms` cancel exactly. The straight-line length is left abstract: any function of the two coordinate pairs that is symmetric, non-negative and zero on identical points. No square root is computed.
- The `Location` constructor leaves the category unset outside mode 'M'. The model writes that as a fourth category, `Unset`, which is never restricted.
- PrimTheory.PrimOutcome: the tree's minimality is not proved, only its shape, the invariant, and when a run fails. Minimality needs a theory of spanning trees and an exchange argument that goes beyond the frontier invariant the rounds keep.
- Drones.Drone.RunOpt: proved to find a shortest tour only for at most six locations. With seven, the one pruning test (p = 1) builds its MST over exactly the unplaced locations (`FirstTestExact`), so the program is exact there too, but proving that its estimate is a lower bound needs the MST's minimality, which is not proved (see `PrimTheory.PrimOutcome`). With eight or more, the estimate is not always a lower bound: after a later location has been swapped forward, the MST covers the locations numbered p .. N - 1 rather than the unplaced ones. What is proved for every N: the search keeps a valid incumbent, never makes it worse, keeps the heuristic tour unless a strictly shorter one is found, ends no longer than the heuristic tour, and leaves every tour no shorter than the answer or with a prefix that failed the pruning test.
- Drones.Drone.GenPerms: below a branch, every tour is proved no shorter than the incumbent or pruned. That it is no shorter outright is proved only where nothing is pruned, for the reasons given for `RunOpt`.
- Drones.Drone.GenPerms: requires every location to be unclassified, as in the OPT mode it runs in. Under that condition `is_promising` never exits.
- Drones.Drone.IsPromising: does not model the unsigned wrap-around of `OPT_path.size() - permLength`, which cannot happen for the p ≤ N it is called with.
- Some loop bodies of the source are separate methods here, each proved against its own contract: the gap scan (`ScanGaps`), the unvisited list (`UnvisitedPositions`), the two minima (`ConnectionMinima`), the leaf of `genPerms` (`CloseTour`), its loop (`TryPositions`), one turn of that loop (`TryPosition`), and the two halves of a turn around the recursive call (`StepIn`, `StepOut`).
- `int`, `size_t` and `double` are modelled as unbounded integers and reals, without overflow.
