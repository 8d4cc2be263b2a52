/**
 * What Prim's algorithm guarantees: the frontier invariant is kept by every
 * update, a run of |cand| - 1 selections puts every candidate in the tree,
 * and a selection finds nothing only when the candidates are disconnected
 * under the unreachable rule.
 */
module PrimTheory {
  import opened Locations
  import opened Wrappers
  import opened PrimSpec

  lemma LessTrans(a: W, b: W, c: W)
    requires Less(a, b) && Less(b, c)
    ensures Less(a, c)
  {
  }

  lemma OutsideUpdate(bs: seq<bool>, k: nat)
    requires k < |bs| && !bs[k]
    ensures Outside(bs[k := true]) + 1 == Outside(bs)
  {
    assert multiset(bs[k := true]) == multiset(bs) - multiset{false} + multiset{true};
  }

  lemma OutsideNone(bs: seq<bool>)
    ensures Outside(bs) == 0 <==> forall i :: 0 <= i < |bs| ==> bs[i]
  {
    if Outside(bs) == 0 {
      forall i | 0 <= i < |bs| ensures bs[i] {
        assert bs[i] in multiset(bs);
      }
    }
  }

  lemma {:induction false} OutsideAllButFirst(n: nat)
    requires n > 0
    ensures Outside(seq(n, i => i == 0)) == n - 1
  {
    if n > 1 {
      var s := seq(n, i => i == 0);
      assert s == seq(n - 1, i => i == 0) + [false];
      OutsideAllButFirst(n - 1);
    }
  }

  /** The initial vectors satisfy the invariant, with one candidate in the tree. */
  lemma InitFrontier(e: Metric, locs: seq<Location>, cand: seq<nat>)
    requires ValidCandidates(locs, cand)
    ensures Frontier(e, locs, cand, InitTree(e, locs, cand))
    ensures Outside(InitTree(e, locs, cand).visited) == |cand| - 1
    ensures InitTree(e, locs, cand).dist[0] == Fin(0.0)
  {
    var t := InitTree(e, locs, cand);
    var first := At(locs, cand, 0);
    DistanceSamePoint(e, first, first);
    forall i | 0 <= i < |cand| ensures ParentInTree(locs, cand, t, i) {
      assert t.visited[0] && t.parents[i] == At(locs, cand, 0);
    }
    OutsideAllButFirst(|cand|);
  }

  /** An update after a successful selection keeps every weight outside the tree minimal. */
  lemma RelaxMinToTree(e: Metric, locs: seq<Location>, cand: seq<nat>, t: Tree, k: nat)
    requires ValidCandidates(locs, cand) && Shaped(t, |cand|)
    requires MinToTree(e, locs, cand, t)
    requires Closest(t.dist, t.visited) == Some(k)
    ensures MinToTree(e, locs, cand, Relax(e, locs, cand, t, k))
  {
    var n := |cand|;
    var t' := Relax(e, locs, cand, t, k);
    assert IsClosest(t.dist, t.visited, k, n);
    forall i, v | 0 <= i < n && 0 <= v < n && !t'.visited[i] && t'.visited[v]
      ensures !Less(Distance(e, At(locs, cand, v), At(locs, cand, i)), t'.dist[i])
    {
      var d := Distance(e, At(locs, cand, v), At(locs, cand, i));
      if v != k {
        assert !Less(d, t.dist[i]);
        if Improves(e, locs, cand, t, k, i) && Less(d, t'.dist[i]) {
          LessTrans(d, t'.dist[i], t.dist[i]);
        }
      }
    }
  }

  /** An update after a successful selection keeps every entry on a finite edge to a parent in the tree. */
  lemma RelaxEdgesToTree(e: Metric, locs: seq<Location>, cand: seq<nat>, t: Tree, k: nat)
    requires ValidCandidates(locs, cand) && Shaped(t, |cand|)
    requires EdgesToTree(e, locs, cand, t)
    requires Closest(t.dist, t.visited) == Some(k)
    ensures EdgesToTree(e, locs, cand, Relax(e, locs, cand, t, k))
  {
    var n := |cand|;
    var t' := Relax(e, locs, cand, t, k);
    assert IsClosest(t.dist, t.visited, k, n);
    forall i | 0 <= i < n ensures ParentInTree(locs, cand, t', i) {
      if Improves(e, locs, cand, t, k, i) {
        assert t'.visited[k] && t'.parents[i] == At(locs, cand, k);
      } else {
        assert ParentInTree(locs, cand, t, i);
        var v :| 0 <= v < n && t.visited[v] && t.parents[i] == At(locs, cand, v);
        assert t'.visited[v] && t'.parents[i] == At(locs, cand, v);
      }
    }
  }

  /** One update after a successful selection keeps the invariant and grows the tree by one. */
  lemma RelaxFrontier(e: Metric, locs: seq<Location>, cand: seq<nat>, t: Tree, k: nat)
    requires Frontier(e, locs, cand, t)
    requires Closest(t.dist, t.visited) == Some(k)
    ensures Frontier(e, locs, cand, Relax(e, locs, cand, t, k))
    ensures Relax(e, locs, cand, t, k).visited == t.visited[k := true]
    ensures Outside(Relax(e, locs, cand, t, k).visited) + 1 == Outside(t.visited)
    ensures forall i :: 0 <= i < |cand| && t.visited[i] ==>
              Relax(e, locs, cand, t, k).dist[i] == t.dist[i] && Relax(e, locs, cand, t, k).parents[i] == t.parents[i]
  {
    assert IsClosest(t.dist, t.visited, k, |cand|);
    RelaxMinToTree(e, locs, cand, t, k);
    RelaxEdgesToTree(e, locs, cand, t, k);
    OutsideUpdate(t.visited, k);
  }

  /** A round that finds an entry keeps the invariant and grows the tree by one. */
  lemma RoundFrontier(e: Metric, locs: seq<Location>, cand: seq<nat>, t: Tree)
    requires Frontier(e, locs, cand, t)
    ensures Round(e, locs, cand, t).Some? ==> Extends(e, locs, cand, t, Round(e, locs, cand, t).value, 1)
  {
    if Round(e, locs, cand, t).Some? {
      RelaxFrontier(e, locs, cand, t, Closest(t.dist, t.visited).value);
    }
  }

  /**
   * `r` satisfies the invariant, holds exactly `steps` more candidates than
   * `t`, and agrees with `t` on every entry already in `t`'s tree.
   */
  ghost predicate Extends(e: Metric, locs: seq<Location>, cand: seq<nat>, t: Tree, r: Tree, steps: nat)
    requires ValidCandidates(locs, cand) && Shaped(t, |cand|)
  {
    && Frontier(e, locs, cand, r)
    && Outside(r.visited) + steps == Outside(t.visited)
    && forall i :: 0 <= i < |cand| && t.visited[i] ==>
         r.visited[i] && r.dist[i] == t.dist[i] && r.parents[i] == t.parents[i]
  }

  /** When no entry outside a non-full tree has a finite weight, the tree is one side of a cut. */
  lemma StuckIsCut(e: Metric, locs: seq<Location>, cand: seq<nat>, t: Tree)
    requires ValidCandidates(locs, cand) && Shaped(t, |cand|)
    requires MinToTree(e, locs, cand, t)
    requires Outside(t.visited) > 0
    requires Closest(t.dist, t.visited).None?
    ensures IsCut(e, locs, cand, t.visited)
  {
    OutsideNone(t.visited);
    var u :| 0 <= u < |cand| && !t.visited[u];
    forall v, w | 0 <= v < |cand| && 0 <= w < |cand| && t.visited[v] && !t.visited[w]
      ensures Distance(e, At(locs, cand, v), At(locs, cand, w)) == Inf
    {
      assert t.dist[w] == Inf;
    }
    assert t.visited[0];
  }

  /** A cut has an unreachable pair across it. */
  lemma CutNotReachable(e: Metric, locs: seq<Location>, cand: seq<nat>, side: seq<bool>)
    requires ValidCandidates(locs, cand)
    requires IsCut(e, locs, cand, side)
    ensures !AllReachable(e, locs, cand)
  {
    var v :| 0 <= v < |cand| && side[v];
    var u :| 0 <= u < |cand| && !side[u];
    assert Distance(e, At(locs, cand, v), At(locs, cand, u)) == Inf;
  }

  /** Entry k + 1 of `ts` is what one more round makes of entry k; a failed run stays failed. */
  ghost predicate RoundAfter(e: Metric, locs: seq<Location>, cand: seq<nat>, ts: seq<Option<Tree>>, k: nat)
    requires ValidCandidates(locs, cand)
  {
    && k + 1 < |ts|
    && (ts[k].Some? ==> Shaped(ts[k].value, |cand|) && ts[k + 1] == Round(e, locs, cand, ts[k].value))
    && (ts[k].None? ==> ts[k + 1].None?)
  }

  /**
   * The trees a run passes through: the initial tree first, the outcome of
   * the complete run last, one round between neighbours, and once a round
   * fails every later entry is None.
   */
  lemma PrimRounds(e: Metric, locs: seq<Location>, cand: seq<nat>) returns (ts: seq<Option<Tree>>)
    requires ValidCandidates(locs, cand)
    ensures |ts| == |cand| && ts[0] == Some(InitTree(e, locs, cand)) && ts[|cand| - 1] == Prim(e, locs, cand)
    ensures forall k :: 0 <= k < |cand| - 1 ==> RoundAfter(e, locs, cand, ts, k)
  {
    ts := GrowRounds(e, locs, cand, InitTree(e, locs, cand), |cand| - 1);
  }

  /** The trees after 0, 1, ..., `steps` rounds from `t`. */
  lemma {:induction false} GrowRounds(e: Metric, locs: seq<Location>, cand: seq<nat>, t: Tree, steps: nat)
    returns (ts: seq<Option<Tree>>)
    requires ValidCandidates(locs, cand) && Shaped(t, |cand|)
    ensures |ts| == steps + 1 && ts[0] == Some(t) && ts[steps] == Grow(e, locs, cand, t, steps)
    ensures forall k :: 0 <= k < steps ==> RoundAfter(e, locs, cand, ts, k)
    decreases steps
  {
    if steps == 0 {
      ts := [Some(t)];
    } else {
      var prev := GrowRounds(e, locs, cand, t, steps - 1);
      ts := prev + [Grow(e, locs, cand, t, steps)];
      assert RoundAfter(e, locs, cand, ts, steps - 1);
      forall k | 0 <= k < steps - 1
        ensures RoundAfter(e, locs, cand, ts, k)
      {
        assert RoundAfter(e, locs, cand, prev, k);
      }
    }
  }

  /** In a sequence of rounds, a failure is final. */
  lemma {:induction false} FailureIsFinal(e: Metric, locs: seq<Location>, cand: seq<nat>, ts: seq<Option<Tree>>, k: nat, m: nat)
    requires ValidCandidates(locs, cand) && k <= m < |ts| && ts[k].None?
    requires forall j :: k <= j < m ==> RoundAfter(e, locs, cand, ts, j)
    ensures ts[m].None?
    decreases m - k
  {
    if k < m {
      assert RoundAfter(e, locs, cand, ts, k);
      FailureIsFinal(e, locs, cand, ts, k + 1, m);
    }
  }

  /** Every candidate in the tree lies on the same side of `side` as the root. */
  ghost predicate TreeOnRootSide(cand: seq<nat>, t: Tree, side: seq<bool>)
    requires Shaped(t, |cand|) && |side| == |cand| > 0
  {
    forall v :: 0 <= v < |cand| && t.visited[v] ==> side[v] == side[0]
  }

  /** A round never takes an edge across a cut, so the tree stays on the root's side. */
  lemma RoundStaysOnSide(e: Metric, locs: seq<Location>, cand: seq<nat>, t: Tree, side: seq<bool>)
    requires Frontier(e, locs, cand, t) && |side| == |cand| && NoEdgeAcross(e, locs, cand, side)
    requires TreeOnRootSide(cand, t, side)
    ensures Round(e, locs, cand, t).Some? ==> TreeOnRootSide(cand, Round(e, locs, cand, t).value, side)
  {
    if Round(e, locs, cand, t).Some? {
      var k := Closest(t.dist, t.visited).value;
      assert IsClosest(t.dist, t.visited, k, |cand|);
      assert ParentInTree(locs, cand, t, k);
      var v :| 0 <= v < |cand| && t.visited[v] && t.parents[k] == At(locs, cand, v);
      DistanceSymmetric(e, At(locs, cand, v), At(locs, cand, k));
      assert side[k] == side[v];
    }
  }

  /**
   * `ts` is a sequence of rounds from a tree satisfying the invariant: one
   * round between neighbours.
   */
  ghost predicate Rounds(e: Metric, locs: seq<Location>, cand: seq<nat>, ts: seq<Option<Tree>>)
    requires ValidCandidates(locs, cand)
  {
    && |ts| > 0 && ts[0].Some? && Frontier(e, locs, cand, ts[0].value)
    && forall k :: 0 <= k < |ts| - 1 ==> RoundAfter(e, locs, cand, ts, k)
  }

  /** Rounds that all succeed keep the invariant and add one candidate each. */
  lemma {:induction false} RoundsKeepFrontier(e: Metric, locs: seq<Location>, cand: seq<nat>, ts: seq<Option<Tree>>, k: nat)
    requires ValidCandidates(locs, cand) && Rounds(e, locs, cand, ts) && k < |ts|
    ensures ts[k].Some? ==> Extends(e, locs, cand, ts[0].value, ts[k].value, k)
  {
    if k > 0 && ts[k].Some? {
      assert RoundAfter(e, locs, cand, ts, k - 1);
      assert ts[k - 1].Some?;
      RoundsKeepFrontier(e, locs, cand, ts, k - 1);
      RoundExtends(e, locs, cand, ts[0].value, ts[k - 1].value, k - 1);
    }
  }

  /** One more successful round extends an extension by one. */
  lemma RoundExtends(e: Metric, locs: seq<Location>, cand: seq<nat>, t: Tree, u: Tree, k: nat)
    requires ValidCandidates(locs, cand) && Shaped(t, |cand|) && Extends(e, locs, cand, t, u, k)
    ensures Round(e, locs, cand, u).Some? ==> Extends(e, locs, cand, t, Round(e, locs, cand, u).value, k + 1)
  {
    RoundFrontier(e, locs, cand, u);
  }

  /** Rounds that stop at a selection finding nothing do so only on disconnected input. */
  lemma {:induction false} RoundsFailOnCut(e: Metric, locs: seq<Location>, cand: seq<nat>, ts: seq<Option<Tree>>, k: nat)
      returns (side: seq<bool>)
    requires ValidCandidates(locs, cand) && Rounds(e, locs, cand, ts) && k < |ts|
    requires k <= Outside(ts[0].value.visited) && ts[k].None?
    ensures IsCut(e, locs, cand, side)
  {
    assert RoundAfter(e, locs, cand, ts, k - 1);
    if ts[k - 1].None? {
      side := RoundsFailOnCut(e, locs, cand, ts, k - 1);
    } else {
      var u := ts[k - 1].value;
      RoundsKeepFrontier(e, locs, cand, ts, k - 1);
      StuckIsCut(e, locs, cand, u);
      side := u.visited;
    }
  }

  /** Successful rounds keep the tree on the root's side of a cut. */
  lemma {:induction false} RoundsStayOnSide(e: Metric, locs: seq<Location>, cand: seq<nat>, ts: seq<Option<Tree>>, k: nat, side: seq<bool>)
    requires ValidCandidates(locs, cand) && Rounds(e, locs, cand, ts) && k < |ts|
    requires |side| == |cand| && NoEdgeAcross(e, locs, cand, side)
    requires TreeOnRootSide(cand, ts[0].value, side)
    ensures ts[k].Some? ==> Shaped(ts[k].value, |cand|) && TreeOnRootSide(cand, ts[k].value, side)
  {
    if k > 0 && ts[k].Some? {
      assert RoundAfter(e, locs, cand, ts, k - 1);
      assert ts[k - 1].Some?;
      RoundsStayOnSide(e, locs, cand, ts, k - 1, side);
      RoundsKeepFrontier(e, locs, cand, ts, k - 1);
      ExtensionStaysOnSide(e, locs, cand, ts[0].value, ts[k - 1].value, k - 1, side);
    }
  }

  /** The step of RoundsStayOnSide: the round after an extension on the root's side stays there. */
  lemma ExtensionStaysOnSide(e: Metric, locs: seq<Location>, cand: seq<nat>, t: Tree, u: Tree, k: nat, side: seq<bool>)
    requires ValidCandidates(locs, cand) && Shaped(t, |cand|) && Extends(e, locs, cand, t, u, k)
    requires |side| == |cand| && NoEdgeAcross(e, locs, cand, side) && TreeOnRootSide(cand, u, side)
    ensures Round(e, locs, cand, u).Some? ==> TreeOnRootSide(cand, Round(e, locs, cand, u).value, side)
  {
    RoundStaysOnSide(e, locs, cand, u, side);
  }

  /** A tree holding every candidate leaves no cut: a successful run means connected input. */
  lemma SpanningNotDisconnected(e: Metric, locs: seq<Location>, cand: seq<nat>)
    requires ValidCandidates(locs, cand) && Prim(e, locs, cand).Some?
    ensures !Disconnected(e, locs, cand)
  {
    var ts := PrimRounds(e, locs, cand);
    InitFrontier(e, locs, cand);
    assert Rounds(e, locs, cand, ts);
    var n := |cand| - 1;
    RoundsKeepFrontier(e, locs, cand, ts, n);
    var r := ts[n].value;
    OutsideNone(r.visited);
    forall side | |side| == |cand| && NoEdgeAcross(e, locs, cand, side)
      ensures forall v :: 0 <= v < |cand| ==> side[v] == side[0]
    {
      RoundsStayOnSide(e, locs, cand, ts, n, side);
    }
  }

  /**
   * A complete run of Prim's algorithm: on success every candidate is in the
   * tree, every weight is finite and is the distance to a parent in the tree,
   * and the root keeps its zero self-distance; it fails exactly when the
   * candidates are disconnected, so never when every pair is reachable.
   */
  lemma PrimOutcome(e: Metric, locs: seq<Location>, cand: seq<nat>)
    requires ValidCandidates(locs, cand)
    ensures Prim(e, locs, cand).Some? ==>
              var r := Prim(e, locs, cand).value;
              && Frontier(e, locs, cand, r)
              && (forall i :: 0 <= i < |cand| ==> r.visited[i] && r.dist[i].Fin?)
              && r.dist[0] == Fin(0.0) && r.parents[0] == At(locs, cand, 0)
    ensures Prim(e, locs, cand).None? <==> Disconnected(e, locs, cand)
    ensures AllReachable(e, locs, cand) ==> Prim(e, locs, cand).Some?
  {
    var ts := PrimRounds(e, locs, cand);
    InitFrontier(e, locs, cand);
    assert Rounds(e, locs, cand, ts);
    var n := |cand| - 1;
    match ts[n]
    case Some(r) =>
      RoundsKeepFrontier(e, locs, cand, ts, n);
      OutsideNone(r.visited);
      SpanningNotDisconnected(e, locs, cand);
    case None =>
      var side := RoundsFailOnCut(e, locs, cand, ts, n);
      CutNotReachable(e, locs, cand, side);
  }

  /** Weights of a tree satisfying the invariant are never negative. */
  lemma WeightsNonNegative(e: Metric, locs: seq<Location>, cand: seq<nat>, t: Tree)
    requires Frontier(e, locs, cand, t)
    ensures forall i :: 0 <= i < |t.dist| && t.dist[i].Fin? ==> t.dist[i].r >= 0.0
  {
    forall i | 0 <= i < |t.dist| && t.dist[i].Fin? ensures t.dist[i].r >= 0.0 {
      DistanceInfIff(e, t.parents[i], At(locs, cand, i));
    }
  }

  /** The total is infinite exactly when some weight is, and never negative otherwise. */
  lemma {:induction false} TotalFinite(ws: seq<W>)
    ensures Total(ws) == Inf <==> exists i :: 0 <= i < |ws| && ws[i] == Inf
    ensures (forall i :: 0 <= i < |ws| && ws[i].Fin? ==> ws[i].r >= 0.0) && Total(ws).Fin? ==> Total(ws).r >= 0.0
  {
    if ws != [] {
      var m := |ws| - 1;
      TotalFinite(ws[..m]);
      assert forall i :: 0 <= i < m ==> ws[..m][i] == ws[i];
    }
  }
}
