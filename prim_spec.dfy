/**
 * Prim's algorithm as functions over the three parallel vectors it keeps:
 * the parent of each candidate, the weight of its best known edge into the
 * tree, and whether it is in the tree already.
 *
 * A run is over a non-empty list of candidates, each a location number; the
 * whole-set MST uses all locations in order, the pruning bound of the exact
 * tour search a sub-list.  Entry `i` of each vector belongs to candidate
 * `cand[i]`, and candidate 0 is the root.
 */
module PrimSpec {
  import opened Locations
  import opened Wrappers

  datatype Tree = Tree(parents: seq<Location>, dist: seq<W>, visited: seq<bool>)

  predicate ValidCandidates(locs: seq<Location>, cand: seq<nat>)
  {
    |cand| > 0 && forall i :: 0 <= i < |cand| ==> cand[i] < |locs|
  }

  predicate Shaped(t: Tree, n: nat)
  {
    |t.parents| == n && |t.dist| == n && |t.visited| == n
  }

  /** The location of candidate `i`. */
  function At(locs: seq<Location>, cand: seq<nat>, i: nat): Location
    requires ValidCandidates(locs, cand) && i < |cand|
  {
    locs[cand[i]]
  }

  /** The root is in the tree; every other candidate hangs off it at its distance. */
  function InitTree(e: Metric, locs: seq<Location>, cand: seq<nat>): (t: Tree)
    requires ValidCandidates(locs, cand)
    ensures Shaped(t, |cand|)
  {
    var first := At(locs, cand, 0);
    Tree(seq(|cand|, _ => first),
         seq(|cand|, i requires 0 <= i < |cand| => Distance(e, first, At(locs, cand, i))),
         seq(|cand|, i => i == 0))
  }

  /**
   * `k` is the entry find_closest_location picks: not in the tree, at a finite
   * weight, no unvisited entry strictly lighter, and every earlier unvisited
   * entry strictly heavier (the strict `<` keeps the first of equal minima).
   */
  ghost predicate IsClosest(dist: seq<W>, visited: seq<bool>, k: nat, upTo: nat)
    requires |dist| == |visited| && upTo <= |dist|
  {
    && k < upTo && !visited[k] && dist[k].Fin?
    && (forall j :: 0 <= j < upTo && !visited[j] ==> !Less(dist[j], dist[k]))
    && (forall j :: 0 <= j < k && !visited[j] ==> Less(dist[k], dist[j]))
  }

  /** The scan of find_closest_location over the first `upTo` entries. */
  function ClosestUpTo(dist: seq<W>, visited: seq<bool>, upTo: nat): (r: Option<nat>)
    requires |dist| == |visited| && upTo <= |dist|
    ensures r.None? <==> forall j :: 0 <= j < upTo && !visited[j] ==> dist[j] == Inf
    ensures r.Some? ==> IsClosest(dist, visited, r.value, upTo)
  {
    if upTo == 0 then None
    else
      var r := ClosestUpTo(dist, visited, upTo - 1);
      var i := upTo - 1;
      var min := if r.None? then Inf else dist[r.value];
      if Less(dist[i], min) && !visited[i] then Some(i) else r
  }

  function Closest(dist: seq<W>, visited: seq<bool>): Option<nat>
    requires |dist| == |visited|
  {
    ClosestUpTo(dist, visited, |dist|)
  }

  /** Whether adding `next` to the tree gives entry `i` a strictly shorter edge. */
  predicate Improves(e: Metric, locs: seq<Location>, cand: seq<nat>, t: Tree, next: nat, i: nat)
    requires ValidCandidates(locs, cand) && Shaped(t, |cand|) && next < |cand| && i < |cand|
  {
    i != next && !t.visited[i] && Less(Distance(e, At(locs, cand, next), At(locs, cand, i)), t.dist[i])
  }

  /** prim_algorithm_update: put `next` in the tree and relax the edges out of it. */
  function Relax(e: Metric, locs: seq<Location>, cand: seq<nat>, t: Tree, next: nat): (t': Tree)
    requires ValidCandidates(locs, cand) && Shaped(t, |cand|) && next < |cand|
    ensures Shaped(t', |cand|)
  {
    var n := |cand|;
    var nl := At(locs, cand, next);
    Tree(seq(n, i requires 0 <= i < n =>
               if Improves(e, locs, cand, t, next, i) then nl else t.parents[i]),
         seq(n, i requires 0 <= i < n =>
               if Improves(e, locs, cand, t, next, i) then Distance(e, nl, At(locs, cand, i)) else t.dist[i]),
         t.visited[next := true])
  }

  /** One round: find_closest_location, then prim_algorithm_update; None when the selection finds nothing. */
  function Round(e: Metric, locs: seq<Location>, cand: seq<nat>, t: Tree): (r: Option<Tree>)
    requires ValidCandidates(locs, cand) && Shaped(t, |cand|)
    ensures r.Some? ==> Shaped(r.value, |cand|)
  {
    match Closest(t.dist, t.visited)
    case None => None
    case Some(k) => Some(Relax(e, locs, cand, t, k))
  }

  /** `steps` rounds from `t`; None as soon as one of them finds nothing. */
  function Grow(e: Metric, locs: seq<Location>, cand: seq<nat>, t: Tree, steps: nat): (r: Option<Tree>)
    requires ValidCandidates(locs, cand) && Shaped(t, |cand|)
    ensures r.Some? ==> Shaped(r.value, |cand|)
    decreases steps
  {
    if steps == 0 then Some(t)
    else match Grow(e, locs, cand, t, steps - 1)
      case None => None
      case Some(u) => Round(e, locs, cand, u)
  }

  /** A complete run: |cand| - 1 selections after the initialisation. */
  function Prim(e: Metric, locs: seq<Location>, cand: seq<nat>): Option<Tree>
    requires ValidCandidates(locs, cand)
  {
    Grow(e, locs, cand, InitTree(e, locs, cand), |cand| - 1)
  }

  /** Sum of the weights, infinite as soon as one weight is. */
  function Total(ws: seq<W>): W
  {
    if ws == [] then Fin(0.0) else Add(Total(ws[..|ws| - 1]), ws[|ws| - 1])
  }

  /** How many entries are not in the tree yet. */
  function Outside(visited: seq<bool>): nat
  {
    multiset(visited)[false]
  }

  // ---------------------------------------------------------------------------
  // The invariant of Prim's algorithm
  // ---------------------------------------------------------------------------

  ghost predicate ParentInTree(locs: seq<Location>, cand: seq<nat>, t: Tree, i: nat)
    requires ValidCandidates(locs, cand) && Shaped(t, |cand|) && i < |cand|
  {
    exists v :: 0 <= v < |cand| && t.visited[v] && t.parents[i] == At(locs, cand, v)
  }

  /**
   * Every entry's weight is the distance to its parent, a candidate in the
   * tree, and entries in the tree have finite weight.
   */
  ghost predicate EdgesToTree(e: Metric, locs: seq<Location>, cand: seq<nat>, t: Tree)
    requires ValidCandidates(locs, cand) && Shaped(t, |cand|)
  {
    && (forall i :: 0 <= i < |cand| && t.visited[i] ==> t.dist[i].Fin?)
    && (forall i :: 0 <= i < |cand| ==> t.dist[i] == Distance(e, t.parents[i], At(locs, cand, i)))
    && (forall i :: 0 <= i < |cand| ==> ParentInTree(locs, cand, t, i))
  }

  /** The root is in the tree, and the weight of every entry outside it is its minimum distance to the tree. */
  ghost predicate MinToTree(e: Metric, locs: seq<Location>, cand: seq<nat>, t: Tree)
    requires ValidCandidates(locs, cand) && Shaped(t, |cand|)
  {
    && t.visited[0]
    && (forall i, v :: 0 <= i < |cand| && 0 <= v < |cand| && !t.visited[i] && t.visited[v] ==>
          !Less(Distance(e, At(locs, cand, v), At(locs, cand, i)), t.dist[i]))
  }

  /** The invariant Prim's algorithm keeps between two rounds. */
  ghost predicate Frontier(e: Metric, locs: seq<Location>, cand: seq<nat>, t: Tree)
  {
    && ValidCandidates(locs, cand) && Shaped(t, |cand|)
    && EdgesToTree(e, locs, cand, t)
    && MinToTree(e, locs, cand, t)
  }

  /** No finite edge joins a candidate marked true in `side` to one marked false. */
  ghost predicate NoEdgeAcross(e: Metric, locs: seq<Location>, cand: seq<nat>, side: seq<bool>)
    requires ValidCandidates(locs, cand) && |side| == |cand|
  {
    forall v, u :: 0 <= v < |cand| && 0 <= u < |cand| && side[v] && !side[u] ==>
      Distance(e, At(locs, cand, v), At(locs, cand, u)) == Inf
  }

  /** `side` splits the candidates into two non-empty parts with no finite edge across. */
  ghost predicate IsCut(e: Metric, locs: seq<Location>, cand: seq<nat>, side: seq<bool>)
    requires ValidCandidates(locs, cand)
  {
    && |side| == |cand|
    && true in side && false in side
    && NoEdgeAcross(e, locs, cand, side)
  }

  ghost predicate Disconnected(e: Metric, locs: seq<Location>, cand: seq<nat>)
    requires ValidCandidates(locs, cand)
  {
    exists side :: IsCut(e, locs, cand, side)
  }

  ghost predicate AllReachable(e: Metric, locs: seq<Location>, cand: seq<nat>)
    requires ValidCandidates(locs, cand)
  {
    forall v, u :: 0 <= v < |cand| && 0 <= u < |cand| ==> Distance(e, At(locs, cand, v), At(locs, cand, u)).Fin?
  }
}
