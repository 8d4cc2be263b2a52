/**
 * The pruning test of the exact tour search (is_promising).
 *
 * With more than five positions left, the test builds an MST with the
 * subset Prim run, adds the distance travelled so far and the shortest
 * connections from the unvisited part back to location path[0] and on from
 * the last fixed location, and keeps the branch when that sum is below the
 * best tour known.  The MST is built over the locations NUMBERED p .. N - 1,
 * as the program does, while the two connections go through the path
 * entries path[p] .. path[N - 1].
 */
module Search {
  import opened Locations
  import opened Wrappers
  import opened PrimSpec
  import opened PrimTheory
  import opened Tours

  /**
   * The result of a scan that starts from infinity and keeps every strictly
   * smaller value: a weight of the list no entry is below, infinite for an
   * empty list.
   */
  function MinW(ws: seq<W>): (m: W)
    ensures forall i :: 0 <= i < |ws| ==> !Less(ws[i], m)
    ensures |ws| > 0 ==> m in ws
    ensures |ws| == 0 ==> m == Inf
  {
    if ws == [] then Inf
    else
      var m := MinW(ws[..|ws| - 1]);
      if Less(ws[|ws| - 1], m) then ws[|ws| - 1] else m
  }

  /** MST_get_total_distance after a Prim run over `cand`; None where the program exits instead. */
  function MstWeight(e: Metric, locs: seq<Location>, cand: seq<nat>): Option<real>
    requires ValidCandidates(locs, cand)
  {
    match Prim(e, locs, cand)
    case None => None
    case Some(t) => if Total(t.dist).Inf? then None else Some(Total(t.dist).r)
  }

  /** The distances from each unvisited path entry to the first location of the path. */
  function ZeroLegs(e: Metric, locs: seq<Location>, path: seq<nat>, p: nat): seq<W>
    requires InRange(path, |locs|) && 1 <= p <= |path|
  {
    seq(|path| - p, i requires 0 <= i < |path| - p => Distance(e, locs[path[p + i]], locs[path[0]]))
  }

  /** The distances from each unvisited path entry to the last fixed one. */
  function LastLegs(e: Metric, locs: seq<Location>, path: seq<nat>, p: nat): seq<W>
    requires InRange(path, |locs|) && 1 <= p <= |path|
  {
    seq(|path| - p, i requires 0 <= i < |path| - p => Distance(e, locs[path[p + i]], locs[path[p - 1]]))
  }

  /** The estimate is_promising compares with the best tour: MST + travelled + two connections. */
  function LowerBound(e: Metric, locs: seq<Location>, path: seq<nat>, p: nat, mst: real, current: real): W
    requires InRange(path, |locs|) && 1 <= p <= |path|
  {
    Add(Add(Add(Fin(mst), Fin(current)), MinW(ZeroLegs(e, locs, path, p))), MinW(LastLegs(e, locs, path, p)))
  }

  /**
   * is_promising(p) with `path` the current OPT_path, `current` the distance
   * along its first p entries and `best` the best tour length so far; None
   * where the program exits.
   */
  function Promising(e: Metric, locs: seq<Location>, path: seq<nat>, p: nat, current: real, best: real): Option<bool>
    requires InRange(path, |locs|) && 1 <= p <= |path| <= |locs|
  {
    if |path| - p <= 5 then Some(true)
    else match MstWeight(e, locs, Range(p, |path|))
      case None => None
      case Some(mst) => Some(Less(LowerBound(e, locs, path, p, mst, current), Fin(best)))
  }

  // ---------------------------------------------------------------------------
  // Properties
  // ---------------------------------------------------------------------------

  /** Unclassified locations are all reachable from one another. */
  lemma TourModeReachable(e: Metric, locs: seq<Location>, cand: seq<nat>)
    requires ValidCandidates(locs, cand) && TourMode(locs)
    ensures AllReachable(e, locs, cand)
  {
    forall v, u | 0 <= v < |cand| && 0 <= u < |cand|
      ensures Distance(e, At(locs, cand, v), At(locs, cand, u)).Fin?
    {
      UnrestrictedIsFinite(e, At(locs, cand, v), At(locs, cand, u));
    }
  }

  /** Between unclassified locations the MST run never exits, and its weight is not negative. */
  lemma MstWeightTourMode(e: Metric, locs: seq<Location>, cand: seq<nat>)
    requires ValidCandidates(locs, cand) && TourMode(locs)
    ensures MstWeight(e, locs, cand).Some? && MstWeight(e, locs, cand).value >= 0.0
  {
    TourModeReachable(e, locs, cand);
    PrimOutcome(e, locs, cand);
    var t := Prim(e, locs, cand).value;
    WeightsNonNegative(e, locs, cand, t);
    TotalFinite(t.dist);
  }

  /** In the tour modes the pruning test never exits. */
  lemma PromisingDefined(e: Metric, locs: seq<Location>, path: seq<nat>, p: nat, current: real, best: real)
    requires InRange(path, |locs|) && 1 <= p <= |path| <= |locs| && TourMode(locs)
    ensures Promising(e, locs, path, p, current, best).Some?
  {
    if |path| - p > 5 {
      MstWeightTourMode(e, locs, Range(p, |path|));
    }
  }

  /** A better incumbent prunes every branch a worse one pruned. */
  lemma PromisingMonotone(e: Metric, locs: seq<Location>, path: seq<nat>, p: nat, current: real, best: real, best': real)
    requires InRange(path, |locs|) && 1 <= p <= |path| <= |locs|
    requires best' <= best && Promising(e, locs, path, p, current, best) == Some(false)
    ensures Promising(e, locs, path, p, current, best') == Some(false)
  {
  }

  /** One more entry in the scan of MinW. */
  lemma MinWStep(ws: seq<W>, i: nat)
    requires i < |ws|
    ensures MinW(ws[..i + 1]) == if Less(ws[i], MinW(ws[..i])) then ws[i] else MinW(ws[..i])
  {
    assert ws[..i + 1][..i] == ws[..i];
  }

  /** The minimum of non-negative finite weights is a non-negative finite weight. */
  lemma MinWNonNegative(ws: seq<W>)
    requires |ws| > 0 && forall i :: 0 <= i < |ws| ==> ws[i].Fin? && ws[i].r >= 0.0
    ensures MinW(ws).Fin? && MinW(ws).r >= 0.0
  {
    var m := MinW(ws);
    assert m in ws;
  }

  /** Between unclassified locations both lists of connections hold non-negative finite weights. */
  lemma LegsNonNegative(e: Metric, locs: seq<Location>, path: seq<nat>, p: nat)
    requires InRange(path, |locs|) && 1 <= p <= |path| && TourMode(locs)
    ensures forall i :: 0 <= i < |path| - p ==>
              ZeroLegs(e, locs, path, p)[i].Fin? && ZeroLegs(e, locs, path, p)[i].r >= 0.0
    ensures forall i :: 0 <= i < |path| - p ==>
              LastLegs(e, locs, path, p)[i].Fin? && LastLegs(e, locs, path, p)[i].r >= 0.0
  {
    forall i | 0 <= i < |path| - p
      ensures ZeroLegs(e, locs, path, p)[i].Fin? && ZeroLegs(e, locs, path, p)[i].r >= 0.0
      ensures LastLegs(e, locs, path, p)[i].Fin? && LastLegs(e, locs, path, p)[i].r >= 0.0
    {
      DistanceInfIff(e, locs[path[p + i]], locs[path[0]]);
      DistanceInfIff(e, locs[path[p + i]], locs[path[p - 1]]);
    }
  }

  /**
   * In the tour modes a branch with more than five positions left survives
   * only when the distance already travelled is below the best tour.
   */
  lemma PromisingBelowBest(e: Metric, locs: seq<Location>, path: seq<nat>, p: nat, current: real, best: real)
    requires InRange(path, |locs|) && 1 <= p <= |path| <= |locs| && TourMode(locs)
    requires |path| - p > 5 && Promising(e, locs, path, p, current, best) == Some(true)
    ensures current < best
  {
    MstWeightTourMode(e, locs, Range(p, |path|));
    LegsNonNegative(e, locs, path, p);
    MinWNonNegative(ZeroLegs(e, locs, path, p));
    MinWNonNegative(LastLegs(e, locs, path, p));
  }

  // ---------------------------------------------------------------------------
  // The state of the exhaustive search
  // ---------------------------------------------------------------------------

  /**
   * The order genPerms works on: every location once, 0 first, the first
   * `p` entries fixed and `current` the length of the path through them.
   */
  predicate PrefixState(e: Metric, locs: seq<Location>, path: seq<nat>, current: real, p: nat)
  {
    && |path| == |locs| && InRange(path, |locs|) && IsPerm(path, |locs|)
    && 1 <= p <= |path| && path[0] == 0
    && current == PathLen(e, locs, path[..p])
  }

  /**
   * Swapping entry i into position p keeps the prefix and extends it by the
   * leg from entry p - 1 to the new entry p.
   */
  lemma SwapExtends(e: Metric, locs: seq<Location>, path: seq<nat>, current: real, p: nat, i: nat)
    requires PrefixState(e, locs, path, current, p) && p <= i < |path|
    ensures var q := Swap(path, p, i);
            && q[..p] == path[..p]
            && PrefixState(e, locs, q, current + Leg(e, locs, q[p], q[p - 1]), p + 1)
  {
    var q := Swap(path, p, i);
    SwapKeepsPerm(path, |locs|, p, i);
    assert q[..p] == path[..p];
    assert q[..p + 1][..p] == path[..p];
    LegSymmetric(e, locs, q[p], q[p - 1]);
  }

  /** At a leaf the closing leg back to entry 0 completes the prefix length to the tour length. */
  lemma CloseExtends(e: Metric, locs: seq<Location>, path: seq<nat>, current: real)
    requires PrefixState(e, locs, path, current, |path|)
    ensures IsTour(e, locs, path, current + Leg(e, locs, path[0], path[|path| - 1]))
  {
    var t := path + [path[0]];
    assert t[..|t| - 1] == path[..|path|];
    LegSymmetric(e, locs, path[0], path[|path| - 1]);
  }

  /**
   * While the fixed prefix is the identity 0 .. p - 1, the locations numbered
   * p .. N - 1 that the pruning MST is built over are exactly the unplaced ones.
   */
  lemma NumberedIsUnplaced(e: Metric, locs: seq<Location>, path: seq<nat>, current: real, p: nat)
    requires PrefixState(e, locs, path, current, p) && path[..p] == Range(0, p)
    ensures multiset(Range(p, |path|)) == multiset(path[p..])
  {
    var n := |path|;
    assert Range(0, n) == Range(0, p) + Range(p, n);
    assert path == path[..p] + path[p..];
    forall x
      ensures multiset(Range(p, n))[x] == multiset(path[p..])[x]
    {
      assert multiset(Range(0, n))[x] == multiset(Range(0, p))[x] + multiset(Range(p, n))[x];
      assert multiset(path)[x] == multiset(path[..p])[x] + multiset(path[p..])[x];
    }
  }

  /**
   * The first pruning test, at position 1: the MST covers exactly the
   * unplaced locations, and both connections are measured from location 0.
   */
  lemma FirstTestExact(e: Metric, locs: seq<Location>, path: seq<nat>, current: real)
    requires PrefixState(e, locs, path, current, 1)
    ensures multiset(Range(1, |path|)) == multiset(path[1..])
    ensures ZeroLegs(e, locs, path, 1) == LastLegs(e, locs, path, 1)
  {
    assert path[..1] == Range(0, 1);
    NumberedIsUnplaced(e, locs, path, current, 1);
  }

  // ---------------------------------------------------------------------------
  // Orders that agree on a prefix
  // ---------------------------------------------------------------------------

  /** Two orders of the same locations that agree on their first p entries hold the same rest. */
  lemma SuffixSame(path: seq<nat>, t: seq<nat>, n: nat, p: nat)
    requires IsPerm(path, n) && IsPerm(t, n) && p <= |t| && p <= |path| && t[..p] == path[..p]
    ensures multiset(t[p..]) == multiset(path[p..])
  {
    assert path == path[..p] + path[p..];
    assert t == t[..p] + t[p..];
    assert multiset(path) == multiset(t);
    forall x
      ensures multiset(path[p..])[x] == multiset(t[p..])[x]
    {
      assert multiset(path)[x] == multiset(path[..p])[x] + multiset(path[p..])[x];
      assert multiset(t)[x] == multiset(t[..p])[x] + multiset(t[p..])[x];
    }
  }

  /** The scan's minimum depends only on which weights occur, not on their order. */
  lemma MinWSameValues(a: seq<W>, b: seq<W>)
    requires forall w :: w in a <==> w in b
    ensures MinW(a) == MinW(b)
  {
    if a != [] {
      assert a[0] in b;
    }
    if b != [] {
      assert b[0] in a;
    }
  }

  /** Every connection weight of `a` is one of `b`'s, when both agree on the prefix and hold the same rest. */
  lemma LegsInclude(e: Metric, locs: seq<Location>, a: seq<nat>, b: seq<nat>, p: nat)
    requires InRange(a, |locs|) && InRange(b, |locs|) && |a| == |b| && 1 <= p <= |a|
    requires a[..p] == b[..p] && multiset(a[p..]) == multiset(b[p..])
    ensures forall w :: w in ZeroLegs(e, locs, a, p) ==> w in ZeroLegs(e, locs, b, p)
    ensures forall w :: w in LastLegs(e, locs, a, p) ==> w in LastLegs(e, locs, b, p)
  {
    assert a[0] == a[..p][0] && b[0] == b[..p][0];
    assert a[p - 1] == a[..p][p - 1] && b[p - 1] == b[..p][p - 1];
    forall j | 0 <= j < |a| - p
      ensures ZeroLegs(e, locs, a, p)[j] in ZeroLegs(e, locs, b, p)
      ensures LastLegs(e, locs, a, p)[j] in LastLegs(e, locs, b, p)
    {
      assert a[p..][j] in multiset(b[p..]);
      var k :| 0 <= k < |b| - p && b[p..][k] == a[p..][j];
      assert ZeroLegs(e, locs, b, p)[k] == ZeroLegs(e, locs, a, p)[j];
      assert LastLegs(e, locs, b, p)[k] == LastLegs(e, locs, a, p)[j];
    }
  }

  /** The pruning test depends on the fixed prefix and on which locations are left, not on their order. */
  lemma PromisingSameRest(e: Metric, locs: seq<Location>, a: seq<nat>, b: seq<nat>, p: nat, current: real, best: real)
    requires InRange(a, |locs|) && InRange(b, |locs|) && |a| == |b| <= |locs| && 1 <= p <= |a|
    requires a[..p] == b[..p] && multiset(a[p..]) == multiset(b[p..])
    ensures Promising(e, locs, a, p, current, best) == Promising(e, locs, b, p, current, best)
  {
    if |a| - p > 5 {
      LegsInclude(e, locs, a, b, p);
      LegsInclude(e, locs, b, a, p);
      MinWSameValues(ZeroLegs(e, locs, a, p), ZeroLegs(e, locs, b, p));
      MinWSameValues(LastLegs(e, locs, a, p), LastLegs(e, locs, b, p));
    }
  }

  // ---------------------------------------------------------------------------
  // What the search has looked at
  // ---------------------------------------------------------------------------

  /** `t` orders every location, starts at 0, and begins with the first p entries of `path`. */
  predicate Completes(locs: seq<Location>, path: seq<nat>, p: nat, t: seq<nat>)
  {
    && |t| == |locs| > 0 && InRange(t, |locs|) && IsPerm(t, |locs|) && t[0] == 0
    && p <= |t| && p <= |path| && t[..p] == path[..p]
  }

  /** No tour beginning with path[..p] is shorter than `best`. */
  ghost predicate Covered(e: Metric, locs: seq<Location>, path: seq<nat>, p: nat, best: real)
  {
    forall t {:trigger Completes(locs, path, p, t)} :: Completes(locs, path, p, t) ==> best <= TourLength(e, locs, t)
  }

  /** is_promising fails for the first q entries of `t` against the incumbent `best`. */
  predicate PrunedAt(e: Metric, locs: seq<Location>, t: seq<nat>, q: nat, best: real)
  {
    && InRange(t, |locs|) && 1 <= q < |t| <= |locs| && |t| - q > 5
    && Promising(e, locs, t, q, PathLen(e, locs, t[..q]), best) == Some(false)
  }

  /** Some prefix of `t` at least p entries long fails the pruning test. */
  ghost predicate PrunedOn(e: Metric, locs: seq<Location>, t: seq<nat>, p: nat, best: real)
  {
    exists q :: p <= q && PrunedAt(e, locs, t, q, best)
  }

  /** `t` is no shorter than `best`, or one of its prefixes at least p entries long is pruned. */
  ghost predicate Settled(e: Metric, locs: seq<Location>, t: seq<nat>, p: nat, best: real)
    requires InRange(t, |locs|) && |t| > 0
  {
    best <= TourLength(e, locs, t) || PrunedOn(e, locs, t, p, best)
  }

  /**
   * The promise of the branch and bound below path[..p]: every tour
   * beginning with it is no shorter than `best`, or one of its prefixes is
   * pruned.
   */
  ghost predicate CoveredOrPruned(e: Metric, locs: seq<Location>, path: seq<nat>, p: nat, best: real)
  {
    forall t {:trigger Completes(locs, path, p, t)} :: Completes(locs, path, p, t) ==> Settled(e, locs, t, p, best)
  }

  /** The same, for the tours beginning with path[..p] and going on with one of path[p..i]. */
  ghost predicate CoveredOrPrunedUpTo(e: Metric, locs: seq<Location>, path: seq<nat>, p: nat, i: nat, best: real)
    requires p <= i <= |path|
  {
    forall t {:trigger Completes(locs, path, p, t)} ::
      Completes(locs, path, p, t) && p < |t| && t[p] in path[p..i] ==> Settled(e, locs, t, p, best)
  }

  /** A better incumbent prunes every tour a worse one pruned. */
  lemma PrunedOnMono(e: Metric, locs: seq<Location>, t: seq<nat>, p: nat, best0: real, best: real)
    requires PrunedOn(e, locs, t, p, best0) && best <= best0
    ensures PrunedOn(e, locs, t, p, best)
  {
    var q :| p <= q && PrunedAt(e, locs, t, q, best0);
    PromisingMonotone(e, locs, t, q, PathLen(e, locs, t[..q]), best0, best);
    assert PrunedAt(e, locs, t, q, best);
  }

  /** A tour covered or pruned under one incumbent stays so under a better one. */
  lemma KeptUnderBetter(e: Metric, locs: seq<Location>, t: seq<nat>, p: nat, best0: real, best: real)
    requires InRange(t, |locs|) && |t| > 0 && best <= best0
    requires Settled(e, locs, t, p, best0)
    ensures Settled(e, locs, t, p, best)
  {
    if best0 > TourLength(e, locs, t) {
      PrunedOnMono(e, locs, t, p, best0, best);
    }
  }

  /** A tour pruned below position p + 1 is pruned below position p. */
  lemma KeptFromDeeper(e: Metric, locs: seq<Location>, t: seq<nat>, p: nat, best: real)
    requires InRange(t, |locs|) && |t| > 0
    requires Settled(e, locs, t, p + 1, best)
    ensures Settled(e, locs, t, p, best)
  {
    if best > TourLength(e, locs, t) {
      var r :| p + 1 <= r && PrunedAt(e, locs, t, r, best);
    }
  }

  /** At a leaf the only tour beginning with the whole order is the order itself. */
  lemma CoverLeaf(e: Metric, locs: seq<Location>, path: seq<nat>, best: real)
    requires |path| == |locs| > 0 && InRange(path, |locs|)
    requires best <= TourLength(e, locs, path)
    ensures Covered(e, locs, path, |path|, best)
  {
    forall t | Completes(locs, path, |path|, t)
      ensures best <= TourLength(e, locs, t)
    {
      assert t == t[..|path|] && path == path[..|path|];
    }
  }

  /** What is covered is covered or pruned. */
  lemma CoveredIsCoveredOrPruned(e: Metric, locs: seq<Location>, path: seq<nat>, p: nat, best: real)
    requires Covered(e, locs, path, p, best)
    ensures CoveredOrPruned(e, locs, path, p, best)
  {
  }

  /** A failed pruning test at position p prunes every tour that begins with path[..p]. */
  lemma PrunedHere(e: Metric, locs: seq<Location>, path: seq<nat>, current: real, p: nat, best: real)
    requires PrefixState(e, locs, path, current, p)
    requires Promising(e, locs, path, p, current, best) == Some(false)
    ensures CoveredOrPruned(e, locs, path, p, best)
  {
    forall t | Completes(locs, path, p, t)
      ensures PrunedOn(e, locs, t, p, best)
    {
      SuffixSame(path, t, |locs|, p);
      PromisingSameRest(e, locs, path, t, p, current, best);
      assert PrunedAt(e, locs, t, p, best);
    }
  }

  /** Before the loop at position p has tried any entry, nothing is claimed. */
  lemma CoverNone(e: Metric, locs: seq<Location>, path: seq<nat>, p: nat, best: real)
    requires p <= |path|
    ensures CoveredOrPrunedUpTo(e, locs, path, p, p, best)
  {
    assert path[p..p] == [];
  }

  /**
   * A loop turn after which the tours going on with path[i] are covered or
   * pruned, under an incumbent no worse than before, extends the loop's
   * claim from path[p..i] to path[p..i + 1].
   */
  lemma CoverStep(e: Metric, locs: seq<Location>, path: seq<nat>, p: nat, i: nat, best0: real, best: real)
    requires |path| == |locs| && 1 <= p <= i < |path|
    requires CoveredOrPrunedUpTo(e, locs, path, p, i, best0) && best <= best0
    requires CoveredOrPruned(e, locs, Swap(path, p, i), p + 1, best)
    ensures CoveredOrPrunedUpTo(e, locs, path, p, i + 1, best)
  {
    var q := Swap(path, p, i);
    assert path[p..i + 1] == path[p..i] + [path[i]];
    forall t | Completes(locs, path, p, t) && p < |t| && t[p] in path[p..i + 1]
      ensures Settled(e, locs, t, p, best)
    {
      if t[p] in path[p..i] {
        KeptUnderBetter(e, locs, t, p, best0, best);
      } else {
        assert t[..p + 1] == q[..p + 1];
        assert Completes(locs, q, p + 1, t);
        KeptFromDeeper(e, locs, t, p, best);
      }
    }
  }

  /** Once the loop at position p has tried every remaining entry, every tour beginning with path[..p] is covered or pruned. */
  lemma CoverAll(e: Metric, locs: seq<Location>, path: seq<nat>, p: nat, i: nat, best: real)
    requires |path| == |locs| && IsPerm(path, |locs|) && 1 <= p < |path| && i == |path|
    requires CoveredOrPrunedUpTo(e, locs, path, p, i, best)
    ensures CoveredOrPruned(e, locs, path, p, best)
  {
    forall t | Completes(locs, path, p, t)
      ensures Settled(e, locs, t, p, best)
    {
      SuffixSame(path, t, |locs|, p);
      assert t[p] in multiset(t[p..]);
    }
  }

  /** With at most five positions left nothing is pruned, so covered-or-pruned is covered. */
  lemma CoveredOrPrunedSmall(e: Metric, locs: seq<Location>, path: seq<nat>, p: nat, best: real)
    requires |locs| - p <= 5 && CoveredOrPruned(e, locs, path, p, best)
    ensures Covered(e, locs, path, p, best)
  {
    forall t | Completes(locs, path, p, t)
      ensures best <= TourLength(e, locs, t)
    {
      assert !PrunedOn(e, locs, t, p, best);
    }
  }

  /** No tour is shorter than `best`. */
  ghost predicate NoShorterTour(e: Metric, locs: seq<Location>, best: real)
  {
    forall t, len :: IsTour(e, locs, t, len) ==> best <= len
  }

  /** Every tour is no shorter than `best`, or one of its prefixes fails the pruning test. */
  ghost predicate NoShorterUnpruned(e: Metric, locs: seq<Location>, best: real)
  {
    forall t, len {:trigger IsTour(e, locs, t, len), PrunedOn(e, locs, t, 1, best)} ::
      IsTour(e, locs, t, len) ==> best <= len || PrunedOn(e, locs, t, 1, best)
  }

  /** The promise for the tours that begin at 0 holds for every tour. */
  lemma CoveredOrPrunedFromStart(e: Metric, locs: seq<Location>, path: seq<nat>, best: real)
    requires 1 <= |path| && path[0] == 0 && CoveredOrPruned(e, locs, path, 1, best)
    ensures NoShorterUnpruned(e, locs, best)
  {
    forall t, len | IsTour(e, locs, t, len)
      ensures best <= len || PrunedOn(e, locs, t, 1, best)
    {
      assert t[..1] == path[..1];
      assert Completes(locs, path, 1, t);
    }
  }

  /** Covering the tours that begin at 0 covers every tour. */
  lemma CoveredFromStart(e: Metric, locs: seq<Location>, path: seq<nat>, best: real)
    requires 1 <= |path| && path[0] == 0 && Covered(e, locs, path, 1, best)
    ensures NoShorterTour(e, locs, best)
  {
    forall t, len | IsTour(e, locs, t, len)
      ensures best <= len
    {
      assert t[..1] == path[..1];
      assert Completes(locs, path, 1, t);
    }
  }

  /** What a search from the prefix [0] that covered or pruned every order establishes. */
  lemma SearchOutcome(e: Metric, locs: seq<Location>, path: seq<nat>, best: real)
    requires 1 <= |path| && path[0] == 0 && CoveredOrPruned(e, locs, path, 1, best)
    ensures NoShorterUnpruned(e, locs, best)
    ensures |locs| <= 6 ==> NoShorterTour(e, locs, best)
  {
    CoveredOrPrunedFromStart(e, locs, path, best);
    if |locs| <= 6 {
      CoveredOrPrunedSmall(e, locs, path, 1, best);
      CoveredFromStart(e, locs, path, best);
    }
  }
}
