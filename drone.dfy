/**
 * The Drone object: the locations read from the input and the working
 * state of the three modes, updated in place as the program does.
 *
 *   - MST mode: the three Prim vectors (parents, best edge weight, in-tree).
 *   - FAST mode: the insertion path, which always starts and ends at 0.
 *   - OPT mode: the permutation being explored, the distance along its fixed
 *     prefix, and the best tour found so far with its length.
 *
 * Each method is proved against the functions of the modules it imports, and
 * what those functions guarantee is proved there.
 */
module Drones {
  import opened Locations
  import opened Wrappers
  import opened PrimSpec
  import opened PrimTheory
  import opened Tours
  import opened Search

  class Drone {
    const metric: Metric
    const mode: char
    const locs: seq<Location>

    var parents: seq<Location>
    var distances: seq<W>
    var visited: seq<bool>

    var fastPath: seq<nat>

    var optPath: seq<nat>
    var optBestPath: seq<nat>
    var optBest: real
    var optCurrent: real

    /** A Drone holding the input points as locations 0 .. N - 1, every working vector empty. */
    constructor (e: Metric, mode: char, points: seq<(int, int)>)
      ensures metric == e && this.mode == mode && locs == BuildLocations(points, mode)
      ensures parents == [] && distances == [] && visited == []
      ensures fastPath == [] && optPath == [] && optBestPath == []
      ensures optBest == 0.0 && optCurrent == 0.0
    {
      metric := e;
      this.mode := mode;
      locs := BuildLocations(points, mode);
      parents, distances, visited := [], [], [];
      fastPath, optPath, optBestPath := [], [], [];
      optBest, optCurrent := 0.0, 0.0;
    }

    /** The three Prim vectors as one value. */
    function State(): Tree
      reads this`parents, this`distances, this`visited
    {
      Tree(parents, distances, visited)
    }

    // -------------------------------------------------------------------------
    // Prim's algorithm, over all locations or over a list of candidates
    // -------------------------------------------------------------------------

    /** prim_initialize_vectors / OPT_modified_prim_initialize_vectors, rooted at candidate 0. */
    method PrimInitialize(cand: seq<nat>)
      requires ValidCandidates(locs, cand)
      modifies this`parents, this`distances, this`visited
      ensures State() == InitTree(metric, locs, cand)
    {
      var first := At(locs, cand, 0);
      var ds: seq<W> := seq(|cand|, _ => Fin(0.0));
      var i := 0;
      while i < |cand|
        invariant 0 <= i <= |cand| && |ds| == |cand|
        invariant forall j :: 0 <= j < i ==> ds[j] == Distance(metric, first, At(locs, cand, j))
      {
        ds := ds[i := Distance(metric, first, At(locs, cand, i))];
        i := i + 1;
      }
      parents := seq(|cand|, _ => first);
      distances := ds;
      visited := seq(|cand|, _ => false)[0 := true];
      assert visited == InitTree(metric, locs, cand).visited;
    }

    /** find_closest_location: the scan for the lightest entry outside the tree; None where the program exits. */
    method FindClosestLocation() returns (r: Option<nat>)
      requires |distances| == |visited|
      ensures r == Closest(distances, visited)
    {
      var min: W := Inf;
      var index: int := -1;
      var i := 0;
      while i < |distances|
        invariant 0 <= i <= |distances|
        invariant index == -1 ==> min == Inf && ClosestUpTo(distances, visited, i) == None
        invariant index != -1 ==>
                    0 <= index < i && min == distances[index] && min.Fin?
                    && ClosestUpTo(distances, visited, i) == Some(index as nat)
      {
        if Less(distances[i], min) {
          if !visited[i] {
            min := distances[i];
            index := i;
          }
        }
        i := i + 1;
      }
      if min == Inf || index == -1 {
        return None;
      }
      return Some(index as nat);
    }

    /** prim_algorithm_update / OPT_modified_prim_update: candidate `next` joins the tree. */
    method PrimUpdate(cand: seq<nat>, next: nat)
      requires ValidCandidates(locs, cand) && Shaped(State(), |cand|) && next < |cand|
      modifies this`parents, this`distances, this`visited
      ensures State() == Relax(metric, locs, cand, old(State()), next)
    {
      ghost var t := State();
      var nl := At(locs, cand, next);
      visited := visited[next := true];
      var i := 0;
      while i < |cand|
        invariant 0 <= i <= |cand|
        invariant visited == t.visited[next := true]
        invariant |parents| == |cand| && |distances| == |cand|
        invariant forall j :: 0 <= j < i ==>
                    parents[j] == (if Improves(metric, locs, cand, t, next, j) then nl else t.parents[j])
        invariant forall j :: 0 <= j < i ==>
                    distances[j] == (if Improves(metric, locs, cand, t, next, j)
                                     then Distance(metric, nl, At(locs, cand, j)) else t.dist[j])
        invariant forall j :: i <= j < |cand| ==> parents[j] == t.parents[j] && distances[j] == t.dist[j]
      {
        if i != next {
          if !visited[i] {
            var d := Distance(metric, nl, At(locs, cand, i));
            if Less(d, distances[i]) {
              parents := parents[i := nl];
              distances := distances[i := d];
            }
          }
        }
        i := i + 1;
      }
      assert parents == Relax(metric, locs, cand, t, next).parents;
      assert distances == Relax(metric, locs, cand, t, next).dist;
    }

    /**
     * The selection loop of prim_algorithm / OPT_modified_prim_algorithm:
     * |cand| - 1 rounds after the initialisation; false where a selection
     * finds nothing and the program exits.
     */
    method PrimRun(cand: seq<nat>) returns (ok: bool)
      requires ValidCandidates(locs, cand)
      modifies this`parents, this`distances, this`visited
      ensures ok <==> Prim(metric, locs, cand).Some?
      ensures ok ==> State() == Prim(metric, locs, cand).value
    {
      PrimInitialize(cand);
      ghost var trees := PrimRounds(metric, locs, cand);
      ghost var rounds := 0;
      var count := 1;
      ok := true;
      while count != |cand| && ok
        invariant 1 <= count <= |cand| && rounds == count - 1
        invariant ok ==> trees[rounds] == Some(State())
        invariant !ok ==> count < |cand| && trees[rounds + 1].None?
        decreases |cand| - count, ok
      {
        assert RoundAfter(metric, locs, cand, trees, rounds);
        var next := FindClosestLocation();
        if next.None? {
          ok := false;
        } else {
          PrimUpdate(cand, next.value);
          count := count + 1;
          rounds := rounds + 1;
        }
      }
      if !ok {
        FailureIsFinal(metric, locs, cand, trees, rounds + 1, |cand| - 1);
      }
    }

    /**
     * prim_algorithm: the MST over all locations, rooted at location 0.  On
     * success every location is in the tree on a finite edge to its parent
     * and the root weighs nothing; it fails only on disconnected input.
     */
    method PrimAlgorithm() returns (ok: bool)
      requires |locs| >= 1
      modifies this`parents, this`distances, this`visited
      ensures ok <==> Prim(metric, locs, Range(0, |locs|)).Some?
      ensures ok ==> State() == Prim(metric, locs, Range(0, |locs|)).value
      ensures ok ==> Frontier(metric, locs, Range(0, |locs|), State())
      ensures ok ==> forall i :: 0 <= i < |locs| ==> visited[i] && distances[i].Fin?
      ensures ok ==> distances[0] == Fin(0.0) && parents[0] == locs[0]
      ensures !ok <==> Disconnected(metric, locs, Range(0, |locs|))
    {
      ok := PrimRun(Range(0, |locs|));
      PrimOutcome(metric, locs, Range(0, |locs|));
    }

    /** MST_get_total_distance: the sum of the weights; None where an infinite one makes the program exit. */
    method MstTotalDistance() returns (r: Option<real>)
      ensures r.None? <==> exists i :: 0 <= i < |distances| && distances[i] == Inf
      ensures r.Some? ==> Total(distances) == Fin(r.value)
    {
      var total := 0.0;
      var i := 0;
      while i < |distances|
        invariant 0 <= i <= |distances|
        invariant forall j :: 0 <= j < i ==> distances[j].Fin?
        invariant Total(distances[..i]) == Fin(total)
      {
        if distances[i] == Inf {
          return None;
        }
        assert distances[..i + 1][..i] == distances[..i];
        total := total + distances[i].r;
        i := i + 1;
      }
      assert distances[..i] == distances;
      return Some(total);
    }

    /** OPT_reset_prim: the three vectors are cleared. */
    method ResetPrim()
      modifies this`parents, this`distances, this`visited
      ensures parents == [] && distances == [] && visited == []
    {
      parents, distances, visited := [], [], [];
    }

    /**
     * run_MST without its input and output: the weight of the tree Prim's
     * rounds build, or None where the program exits, which happens exactly on
     * disconnected input.
     */
    method RunMst() returns (r: Option<real>)
      requires |locs| >= 1
      modifies this`parents, this`distances, this`visited
      ensures r.Some? ==> Prim(metric, locs, Range(0, |locs|)).Some? && State() == Prim(metric, locs, Range(0, |locs|)).value
      ensures r.Some? ==> Total(distances) == Fin(r.value)
      ensures r.Some? ==> r.value >= 0.0
      ensures r.None? <==> Disconnected(metric, locs, Range(0, |locs|))
    {
      var ok := PrimAlgorithm();
      if !ok {
        return None;
      }
      r := MstTotalDistance();
      TotalFinite(distances);
      WeightsNonNegative(metric, locs, Range(0, |locs|), State());
    }

    // -------------------------------------------------------------------------
    // Arbitrary insertion
    // -------------------------------------------------------------------------

    /** FAST_initialize_vectors(0, 1, 2, total): the triangle 0, 1, 2 and back to 0. */
    method FastInitialize(total0: real) returns (total: real)
      requires 3 <= |locs| && TourMode(locs)
      modifies this`fastPath
      ensures fastPath == old(fastPath) + [0, 1, 2, 0]
      ensures total == total0 + PathLen(metric, locs, [0, 1, 2, 0])
    {
      fastPath := fastPath + [0, 1, 2, 0];
      total := total0 + (Leg(metric, locs, 0, 1) + Leg(metric, locs, 1, 2) + Leg(metric, locs, 2, 0));
      assert [0, 1, 2, 0][..3] == [0, 1, 2] && [0, 1, 2][..2] == [0, 1] && [0, 1][..1] == [0];
    }

    /**
     * The inner loop of FAST_arbitrary_insert_algorithm: every gap of
     * FAST_path is priced with FAST_distance_change for location k, and a
     * gap replaces the current choice only when strictly cheaper.  `at` is
     * the position after the chosen gap.
     */
    method ScanGaps(k: nat) returns (at: nat, minChange: W)
      requires InRange(fastPath, |locs|) && k < |locs| && |fastPath| >= 2
      ensures (at, minChange) == GapScan(metric, locs, fastPath, k, |fastPath| - 1)
    {
      minChange := Inf;
      at := 0;
      var j := 0;
      while j < |fastPath| - 1
        invariant 0 <= j <= |fastPath| - 1
        invariant (at, minChange) == GapScan(metric, locs, fastPath, k, j)
      {
        var change := InsertionCost(metric, locs, fastPath, j, k);
        if Less(Fin(change), minChange) {
          minChange := Fin(change);
          at := j + 1;
        }
        j := j + 1;
      }
    }

    /**
     * FAST_arbitrary_insert_algorithm: locations 3 .. N - 1 each go after the
     * first end of the cheapest gap, and the running total follows the path.
     */
    method FastArbitraryInsert(total0: real) returns (total: real)
      requires 3 <= |locs| && TourMode(locs)
      requires fastPath == [0, 1, 2, 0] && total0 == PathLen(metric, locs, fastPath)
      modifies this`fastPath
      ensures fastPath == Heuristic(metric, locs, |locs|)
      ensures total == PathLen(metric, locs, fastPath)
    {
      ghost var walks := HeuristicRounds(metric, locs);
      total := total0;
      var i: nat := 3;
      while i < |locs|
        invariant 3 <= i <= |locs| && fastPath == walks[i]
        invariant total == PathLen(metric, locs, fastPath)
      {
        assert RoundAt(metric, locs, walks, i);
        var at, minChange := ScanGaps(i);
        total := total + minChange.r;
        fastPath := fastPath[..at] + [i] + fastPath[at..];
        i := i + 1;
      }
    }

    /**
     * run_FASTTSP without its input and output: a tour through every
     * location, starting at 0, and its length.
     */
    method RunFast() returns (total: real, tour: seq<nat>)
      requires 3 <= |locs| && TourMode(locs) && fastPath == []
      modifies this`fastPath
      ensures fastPath == Heuristic(metric, locs, |locs|) && tour == fastPath[..|locs|]
      ensures IsTour(metric, locs, tour, total)
    {
      total := FastInitialize(0.0);
      total := FastArbitraryInsert(total);
      tour := fastPath[..|locs|];
      HeuristicIsTour(metric, locs);
    }

    // -------------------------------------------------------------------------
    // Branch and bound
    // -------------------------------------------------------------------------

    /** The best tour so far is a tour through every location from 0, with its length recorded. */
    predicate Incumbent()
      reads this`optBestPath, this`optBest
    {
      IsTour(metric, locs, optBestPath, optBest)
    }

    /**
     * The state genPerms(p) runs in: OPT_path orders every location from 0,
     * OPT_current_distance is the length of its first p entries, and the
     * incumbent is a real tour.
     */
    predicate SearchState(p: nat)
      reads this`optPath, this`optCurrent, this`optBestPath, this`optBest
    {
      TourMode(locs) && PrefixState(metric, locs, optPath, optCurrent, p) && Incumbent()
    }

    /** OPT_FASTTSP_helper: the heuristic tour becomes the first incumbent. */
    method OptFastHelper()
      requires 3 <= |locs| && TourMode(locs) && fastPath == []
      modifies this`fastPath, this`optBest, this`optBestPath
      ensures optBestPath == Heuristic(metric, locs, |locs|)[..|locs|] && fastPath == optBestPath
      ensures Incumbent()
    {
      HeuristicIsTour(metric, locs);
      var total := FastInitialize(0.0);
      total := FastArbitraryInsert(total);
      optBest := total;
      fastPath := fastPath[..|fastPath| - 1];
      optBestPath := fastPath;
    }

    /** OPT_initialize: the incumbent from the heuristic, the identity order and nothing travelled. */
    method OptInitialize()
      requires 3 <= |locs| && TourMode(locs) && fastPath == []
      modifies this`fastPath, this`optBest, this`optBestPath, this`optPath, this`optCurrent
      ensures optBestPath == Heuristic(metric, locs, |locs|)[..|locs|] && fastPath == optBestPath
      ensures optPath == Range(0, |locs|) && optCurrent == 0.0
      ensures TourMode(locs) && PrefixState(metric, locs, optPath, optCurrent, 1) && IsTour(metric, locs, optBestPath, optBest)
    {
      OptFastHelper();
      var n := |locs|;
      var path := if |optPath| >= n then optPath[..n] else optPath + seq(n - |optPath|, _ => 0);
      var i := 0;
      while i < n
        invariant 0 <= i <= n && |path| == n
        invariant forall j :: 0 <= j < i ==> path[j] == j
      {
        path := path[i := i];
        i := i + 1;
      }
      assert path == Range(0, n);
      optPath := path;
      optCurrent := 0.0;
    }

    /**
     * is_promising(p): Promising on the current state; with more than five
     * positions left the Prim vectors are used and cleared, otherwise left
     * alone.  None where the program exits.
     */
    method IsPromising(p: nat) returns (r: Option<bool>)
      requires InRange(optPath, |locs|) && 1 <= p <= |optPath| <= |locs|
      modifies this`parents, this`distances, this`visited
      ensures r == Promising(metric, locs, optPath, p, optCurrent, optBest)
      ensures TourMode(locs) ==> r.Some?
      ensures |optPath| - p <= 5 ==> r == Some(true) && unchanged(this`parents, this`distances, this`visited)
      ensures |optPath| - p > 5 && r.Some? ==> parents == [] && distances == [] && visited == []
    {
      if TourMode(locs) {
        PromisingDefined(metric, locs, optPath, p, optCurrent, optBest);
      }
      if |optPath| - p <= 5 {
        return Some(true);
      }
      var unvisited := UnvisitedPositions(p, |optPath|);
      var ok := PrimRun(unvisited);
      if !ok {
        return None;
      }
      var zero, last := ConnectionMinima(p, unvisited);
      var mst := MstTotalDistance();
      TotalFinite(distances);
      if mst.None? {
        return None;
      }
      var bound := Add(Add(Add(Fin(mst.value), Fin(optCurrent)), zero), last);
      ResetPrim();
      r := Some(Less(bound, Fin(optBest)));
    }

    /** The list is_promising fills with the positions p .. N - 1 still to be fixed. */
    static method UnvisitedPositions(p: nat, n: nat) returns (unvisited: seq<nat>)
      requires p <= n
      ensures unvisited == Range(p, n)
    {
      unvisited := [];
      var i := p;
      while i < n
        invariant p <= i <= n && unvisited == Range(p, i)
      {
        assert Range(p, i) + [i] == Range(p, i + 1);
        unvisited := unvisited + [i];
        i := i + 1;
      }
    }

    /**
     * The scan of is_promising over the unvisited positions: the shortest
     * connection from OPT_path[i] to OPT_path[0] and to OPT_path[p - 1]
     * for i = p .. N - 1, infinite when no entry is below infinity.
     */
    method ConnectionMinima(p: nat, unvisited: seq<nat>) returns (zero: W, last: W)
      requires InRange(optPath, |locs|) && 1 <= p <= |optPath| && unvisited == Range(p, |optPath|)
      ensures zero == MinW(ZeroLegs(metric, locs, optPath, p))
      ensures last == MinW(LastLegs(metric, locs, optPath, p))
    {
      ghost var zeros := ZeroLegs(metric, locs, optPath, p);
      ghost var lasts := LastLegs(metric, locs, optPath, p);
      zero, last := Inf, Inf;
      var i := 0;
      while i < |unvisited|
        invariant 0 <= i <= |unvisited|
        invariant zero == MinW(zeros[..i]) && last == MinW(lasts[..i])
      {
        var toZero := Distance(metric, locs[optPath[unvisited[i]]], locs[optPath[0]]);
        var toLast := Distance(metric, locs[optPath[unvisited[i]]], locs[optPath[p - 1]]);
        assert toZero == zeros[i] && toLast == lasts[i];
        MinWStep(zeros, i);
        MinWStep(lasts, i);
        if Less(toZero, zero) {
          zero := toZero;
        }
        if Less(toLast, last) {
          last := toLast;
        }
        i := i + 1;
      }
      assert zeros[..i] == zeros && lasts[..i] == lasts;
    }

    /**
     * genPerms(p): explores the orders of OPT_path[p..] behind the fixed
     * prefix, replacing the incumbent only by a strictly shorter complete
     * tour, and hands back OPT_path and OPT_current_distance as it found them.
     * Afterwards every tour with the fixed prefix is no shorter than the
     * incumbent or has a prefix that failed is_promising; the Prim vectors are
     * as before or cleared by the last pruning test.
     */
    method GenPerms(p: nat)
      requires SearchState(p)
      modifies this`optPath, this`optCurrent, this`optBest, this`optBestPath
      modifies this`parents, this`distances, this`visited
      ensures optPath == old(optPath) && optCurrent == old(optCurrent)
      ensures SearchState(p)
      ensures optBest <= old(optBest)
      ensures optBest == old(optBest) ==> optBestPath == old(optBestPath)
      ensures unchanged(this`parents, this`distances, this`visited) || (parents == [] && distances == [] && visited == [])
      ensures CoveredOrPruned(metric, locs, optPath, p, optBest)
      ensures p == 1 ==> NoShorterUnpruned(metric, locs, optBest)
      ensures p == 1 && |locs| <= 6 ==> NoShorterTour(metric, locs, optBest)
      decreases |locs| - p, 2
    {
      if p == |optPath| {
        CloseTour(p);
        CoveredIsCoveredOrPruned(metric, locs, optPath, p, optBest);
      } else {
        var promising := IsPromising(p);
        if !promising.value {
          PrunedHere(metric, locs, optPath, optCurrent, p, optBest);
        } else {
          TryPositions(p);
        }
      }
      if p == 1 {
        SearchOutcome(metric, locs, optPath, optBest);
      }
    }

    /**
     * The loop of genPerms: every entry OPT_path[p..] in turn is tried at
     * position p, so every tour with the fixed prefix is covered or pruned.
     */
    method TryPositions(p: nat)
      requires SearchState(p) && p < |optPath|
      modifies this`optPath, this`optCurrent, this`optBest, this`optBestPath
      modifies this`parents, this`distances, this`visited
      ensures optPath == old(optPath) && optCurrent == old(optCurrent)
      ensures SearchState(p)
      ensures optBest <= old(optBest)
      ensures optBest == old(optBest) ==> optBestPath == old(optBestPath)
      ensures unchanged(this`parents, this`distances, this`visited) || (parents == [] && distances == [] && visited == [])
      ensures CoveredOrPruned(metric, locs, optPath, p, optBest)
      decreases |locs| - p, 1
    {
      var i := p;
      CoverNone(metric, locs, optPath, p, optBest);
      while i < |optPath|
        invariant p <= i <= |optPath|
        invariant optPath == old(optPath) && optCurrent == old(optCurrent)
        invariant SearchState(p)
        invariant optBest <= old(optBest)
        invariant optBest == old(optBest) ==> optBestPath == old(optBestPath)
        invariant unchanged(this`parents, this`distances, this`visited) || (parents == [] && distances == [] && visited == [])
        invariant CoveredOrPrunedUpTo(metric, locs, optPath, p, i, optBest)
      {
        ghost var best0 := optBest;
        TryPosition(p, i);
        CoverStep(metric, locs, optPath, p, i, best0, optBest);
        i := i + 1;
      }
      CoverAll(metric, locs, optPath, p, i, optBest);
    }

    /**
     * A leaf of genPerms: with the closing leg added OPT_path's length is its
     * tour length, and a strictly shorter tour than the incumbent replaces it,
     * so no tour with this prefix beats the incumbent afterwards.
     */
    method CloseTour(p: nat)
      requires SearchState(p) && p == |optPath|
      modifies this`optCurrent, this`optBest, this`optBestPath
      ensures optCurrent == old(optCurrent) && SearchState(p)
      ensures TourLength(metric, locs, optPath) < old(optBest) ==>
                optBest == TourLength(metric, locs, optPath) && optBestPath == optPath
      ensures TourLength(metric, locs, optPath) >= old(optBest) ==>
                optBest == old(optBest) && optBestPath == old(optBestPath)
      ensures Covered(metric, locs, optPath, p, optBest)
    {
      var closing := Leg(metric, locs, optPath[0], optPath[p - 1]);
      CloseExtends(metric, locs, optPath, optCurrent);
      optCurrent := optCurrent + closing;
      if optCurrent < optBest {
        optBest := optCurrent;
        optBestPath := optPath;
      }
      optCurrent := optCurrent - closing;
      CoverLeaf(metric, locs, optPath, optBest);
    }

    /**
     * One turn of genPerms' loop: OPT_path[i] moves to position p, the search
     * goes one position deeper, and the swap and the leg are undone.  The
     * tours continuing the prefix with OPT_path[i] are then covered or pruned.
     */
    method TryPosition(p: nat, i: nat)
      requires SearchState(p) && p <= i < |optPath|
      modifies this`optPath, this`optCurrent, this`optBest, this`optBestPath
      modifies this`parents, this`distances, this`visited
      ensures optPath == old(optPath) && optCurrent == old(optCurrent)
      ensures SearchState(p)
      ensures optBest <= old(optBest)
      ensures optBest == old(optBest) ==> optBestPath == old(optBestPath)
      ensures unchanged(this`parents, this`distances, this`visited) || (parents == [] && distances == [] && visited == [])
      ensures CoveredOrPruned(metric, locs, Swap(optPath, p, i), p + 1, optBest)
      decreases |locs| - p, 0
    {
      ghost var path0 := optPath;
      SwapTwice(path0, p, i);
      StepIn(p, i);
      ghost var swapped := optPath;
      GenPerms(p + 1);
      assert optPath == swapped;
      StepOut(p, i);
    }

    /** The swap and the added leg that open one turn of genPerms' loop. */
    method StepIn(p: nat, i: nat)
      requires SearchState(p) && p <= i < |optPath|
      modifies this`optPath, this`optCurrent
      ensures optPath == Swap(old(optPath), p, i)
      ensures optCurrent == old(optCurrent) + Leg(metric, locs, optPath[p], optPath[p - 1])
      ensures SearchState(p + 1)
    {
      SwapExtends(metric, locs, optPath, optCurrent, p, i);
      optPath := Swap(optPath, p, i);
      optCurrent := optCurrent + Leg(metric, locs, optPath[p], optPath[p - 1]);
    }

    /** The leg taken off and the swap undone that close one turn of genPerms' loop. */
    method StepOut(p: nat, i: nat)
      requires SearchState(p + 1) && 1 <= p <= i < |optPath|
      requires PrefixState(metric, locs, Swap(optPath, p, i), optCurrent - Leg(metric, locs, optPath[p], optPath[p - 1]), p)
      modifies this`optPath, this`optCurrent
      ensures optPath == Swap(old(optPath), p, i)
      ensures optCurrent == old(optCurrent) - Leg(metric, locs, old(optPath)[p], old(optPath)[p - 1])
      ensures SearchState(p)
    {
      optCurrent := optCurrent - Leg(metric, locs, optPath[p], optPath[p - 1]);
      optPath := Swap(optPath, p, i);
    }

    /**
     * run_OPTTSP without its input and output: the search from the identity
     * order ends with a tour through every location from 0 that is no
     * longer than the heuristic one, which stays the answer unless a strictly
     * shorter tour is found.  Every tour is no shorter than the answer or has
     * a prefix that failed is_promising; for six locations or fewer, where
     * nothing is pruned, the answer is a shortest tour.
     */
    method RunOpt()
      requires 3 <= |locs| && TourMode(locs) && fastPath == []
      modifies this`fastPath, this`optBest, this`optBestPath, this`optPath, this`optCurrent
      modifies this`parents, this`distances, this`visited
      ensures IsTour(metric, locs, optBestPath, optBest) && optPath == Range(0, |locs|)
      ensures optBest <= TourLength(metric, locs, Heuristic(metric, locs, |locs|)[..|locs|])
      ensures optBest == TourLength(metric, locs, Heuristic(metric, locs, |locs|)[..|locs|]) ==>
                optBestPath == Heuristic(metric, locs, |locs|)[..|locs|]
      ensures optCurrent == 0.0 && fastPath == Heuristic(metric, locs, |locs|)[..|locs|]
      ensures unchanged(this`parents, this`distances, this`visited) || (parents == [] && distances == [] && visited == [])
      ensures NoShorterUnpruned(metric, locs, optBest)
      ensures |locs| <= 6 ==> NoShorterTour(metric, locs, optBest)
    {
      OptInitialize();
      GenPerms(1);
    }
  }
}
