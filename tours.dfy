/**
 * Tours over numbered locations: path and cycle lengths, the cost of
 * inserting a location between two neighbours (FAST_distance_change), and
 * the tour the arbitrary-insertion heuristic builds.
 *
 * Both tour modes leave every location unclassified, so get_distance is the
 * straight-line length there and never infinite; lengths in this module are
 * therefore plain reals built from `Len`.
 */
module Tours {
  import opened Locations

  /** The location numbers lo, lo + 1, ..., hi - 1. */
  function Range(lo: nat, hi: nat): (s: seq<nat>)
    requires lo <= hi
    ensures |s| == hi - lo
    ensures forall i :: 0 <= i < |s| ==> s[i] == lo + i
  {
    seq(hi - lo, i requires 0 <= i < hi - lo => lo + i)
  }

  /** `p` lists each of the location numbers 0 .. n - 1 exactly once. */
  predicate IsPerm(p: seq<nat>, n: nat)
  {
    multiset(p) == multiset(Range(0, n))
  }

  predicate InRange(p: seq<nat>, n: nat)
  {
    forall i :: 0 <= i < |p| ==> p[i] < n
  }

  /** Every location is unclassified, as the constructor leaves it outside MST mode. */
  predicate TourMode(locs: seq<Location>)
  {
    forall i :: 0 <= i < |locs| ==> locs[i].kind == Unset
  }

  /** The straight-line length between the locations numbered `a` and `b`. */
  function Leg(e: Metric, locs: seq<Location>, a: nat, b: nat): real
    requires a < |locs| && b < |locs|
  {
    Len(e, locs[a], locs[b])
  }

  /** Length of the open path through the numbered locations, in order. */
  function PathLen(e: Metric, locs: seq<Location>, p: seq<nat>): real
    requires InRange(p, |locs|)
    decreases |p|
  {
    if |p| <= 1 then 0.0
    else PathLen(e, locs, p[..|p| - 1]) + Leg(e, locs, p[|p| - 2], p[|p| - 1])
  }

  /** Length of the closed tour that returns from the last location to the first. */
  function TourLength(e: Metric, locs: seq<Location>, t: seq<nat>): real
    requires InRange(t, |locs|) && |t| > 0
  {
    PathLen(e, locs, t) + Leg(e, locs, t[|t| - 1], t[0])
  }

  /** `t` is a tour through every location, starting at 0, and `len` is its length. */
  predicate IsTour(e: Metric, locs: seq<Location>, t: seq<nat>, len: real)
  {
    && |t| == |locs| > 0 && InRange(t, |locs|) && IsPerm(t, |locs|) && t[0] == 0
    && len == TourLength(e, locs, t)
  }

  /** FAST_distance_change: what putting `k` between entries `j` and `j + 1` of `p` adds. */
  function InsertionCost(e: Metric, locs: seq<Location>, p: seq<nat>, j: nat, k: nat): real
    requires InRange(p, |locs|) && j + 1 < |p| && k < |locs|
  {
    Leg(e, locs, p[j], k) + Leg(e, locs, k, p[j + 1]) - Leg(e, locs, p[j], p[j + 1])
  }

  /**
   * The gap chosen by the inner loop of FAST_arbitrary_insert_algorithm over
   * the gaps 0 .. upTo - 1: the cheapest one, and the first of several
   * equally cheap ones, because only a strictly smaller cost replaces the
   * current choice.
   */
  function BestGap(e: Metric, locs: seq<Location>, p: seq<nat>, k: nat, upTo: nat): (g: nat)
    requires InRange(p, |locs|) && k < |locs| && 0 < upTo < |p|
    ensures g < upTo
  {
    if upTo == 1 then 0
    else
      var g := BestGap(e, locs, p, k, upTo - 1);
      if InsertionCost(e, locs, p, upTo - 1, k) < InsertionCost(e, locs, p, g, k) then upTo - 1 else g
  }

  /** The chosen gap is a cheapest one among the gaps scanned. */
  lemma {:induction false} BestGapIsCheapest(e: Metric, locs: seq<Location>, p: seq<nat>, k: nat, upTo: nat)
    requires InRange(p, |locs|) && k < |locs| && 0 < upTo < |p|
    ensures forall j :: 0 <= j < upTo ==>
              InsertionCost(e, locs, p, BestGap(e, locs, p, k, upTo), k) <= InsertionCost(e, locs, p, j, k)
  {
    if upTo > 1 {
      BestGapIsCheapest(e, locs, p, k, upTo - 1);
      var g := BestGap(e, locs, p, k, upTo - 1);
      var best := BestGap(e, locs, p, k, upTo);
      var cg := InsertionCost(e, locs, p, g, k);
      var cb := InsertionCost(e, locs, p, best, k);
      assert cb <= cg;
      forall j | 0 <= j < upTo
        ensures cb <= InsertionCost(e, locs, p, j, k)
      {
        if j < upTo - 1 {
          assert cg <= InsertionCost(e, locs, p, j, k);
        }
      }
    }
  }

  /** The chosen gap is strictly cheaper than every gap before it: ties go to the first. */
  lemma {:induction false} BestGapIsFirst(e: Metric, locs: seq<Location>, p: seq<nat>, k: nat, upTo: nat)
    requires InRange(p, |locs|) && k < |locs| && 0 < upTo < |p|
    ensures forall j :: 0 <= j < BestGap(e, locs, p, k, upTo) ==>
              InsertionCost(e, locs, p, BestGap(e, locs, p, k, upTo), k) < InsertionCost(e, locs, p, j, k)
  {
    if upTo > 1 {
      BestGapIsCheapest(e, locs, p, k, upTo - 1);
      BestGapIsFirst(e, locs, p, k, upTo - 1);
      var g := BestGap(e, locs, p, k, upTo - 1);
      var best := BestGap(e, locs, p, k, upTo);
      if best != g {
        assert best == upTo - 1;
        var cb := InsertionCost(e, locs, p, best, k);
        forall j | 0 <= j < best
          ensures cb < InsertionCost(e, locs, p, j, k)
        {
          assert InsertionCost(e, locs, p, g, k) <= InsertionCost(e, locs, p, j, k);
        }
      }
    }
  }

  /**
   * The inner loop of FAST_arbitrary_insert_algorithm after scanning gaps
   * 0 .. j - 1: the insertion position (one past the chosen gap, 0 before
   * any gap is seen) and the cost of the choice (infinite before any).
   */
  function GapScan(e: Metric, locs: seq<Location>, p: seq<nat>, k: nat, j: nat): (nat, W)
    requires InRange(p, |locs|) && k < |locs| && j < |p|
  {
    if j == 0 then (0, Inf)
    else
      var (at, min) := GapScan(e, locs, p, k, j - 1);
      var c := InsertionCost(e, locs, p, j - 1, k);
      if Less(Fin(c), min) then (j, Fin(c)) else (at, min)
  }

  /** After at least one gap, the scan has settled on the best gap so far and its cost. */
  lemma {:induction false} GapScanIsBest(e: Metric, locs: seq<Location>, p: seq<nat>, k: nat, j: nat)
    requires InRange(p, |locs|) && k < |locs| && 0 < j < |p|
    ensures GapScan(e, locs, p, k, j).0 == BestGap(e, locs, p, k, j) + 1
    ensures GapScan(e, locs, p, k, j).1 == Fin(InsertionCost(e, locs, p, BestGap(e, locs, p, k, j), k))
  {
    if j > 1 {
      GapScanIsBest(e, locs, p, k, j - 1);
      var g := BestGap(e, locs, p, k, j - 1);
      var cg := InsertionCost(e, locs, p, g, k);
      var c := InsertionCost(e, locs, p, j - 1, k);
      var prev := GapScan(e, locs, p, k, j - 1);
      var next := GapScan(e, locs, p, k, j);
      if c < cg {
        assert Less(Fin(c), prev.1);
        assert BestGap(e, locs, p, k, j) == j - 1 && next.0 == j && next.1 == Fin(c);
      } else {
        assert !Less(Fin(c), prev.1);
        assert BestGap(e, locs, p, k, j) == g && next.0 == prev.0 && next.1 == prev.1;
      }
    }
  }

  /** `k` put into `p` right after its cheapest gap's first end. */
  function Insert(e: Metric, locs: seq<Location>, p: seq<nat>, k: nat): (q: seq<nat>)
    requires InRange(p, |locs|) && k < |locs| && |p| >= 2
  {
    var g := BestGap(e, locs, p, k, |p| - 1);
    p[..g + 1] + [k] + p[g + 1..]
  }

  /**
   * `p` is a closed walk over the locations 0 .. n - 1: it starts and ends at
   * location 0 and visits every location below n exactly once in between.
   */
  predicate ClosedWalk(p: seq<nat>, n: nat)
  {
    && |p| == n + 1 && p[0] == 0 && p[n] == 0
    && IsPerm(p[..n], n) && InRange(p, n)
  }

  /** FAST_path after the locations 3 .. n - 1 have been inserted into the triangle 0, 1, 2. */
  function Heuristic(e: Metric, locs: seq<Location>, n: nat): (p: seq<nat>)
    requires 3 <= n <= |locs|
    ensures |p| == n + 1 && InRange(p, n)
    decreases n
  {
    if n == 3 then [0, 1, 2, 0]
    else
      var p := Heuristic(e, locs, n - 1);
      Insert(e, locs, p, n - 1)
  }

  /**
   * `q` is what one round of FAST_arbitrary_insert_algorithm makes of the
   * walk `p` through n locations: location n goes where the gap scan
   * settles, and the length grows by exactly the cost the scan found.
   */
  ghost predicate InsertionRound(e: Metric, locs: seq<Location>, p: seq<nat>, n: nat, q: seq<nat>)
  {
    && n < |locs| && |p| == n + 1 && InRange(p, |locs|)
    && var (at, min) := GapScan(e, locs, p, n, n);
       && 0 < at <= n && min.Fin?
       && q == p[..at] + [n] + p[at..]
       && InRange(q, |locs|)
       && PathLen(e, locs, q) == PathLen(e, locs, p) + min.r
  }

  // ---------------------------------------------------------------------------
  // Properties
  // ---------------------------------------------------------------------------

  /** The starting triangle 0, 1, 2 and back to 0 visits 0 .. 2 once each. */
  lemma TriangleShape()
    ensures ClosedWalk([0, 1, 2, 0], 3)
  {
    assert [0, 1, 2, 0][..3] == Range(0, 3);
  }

  /** The heuristic walk over n locations starts and ends at 0 and visits every location once in between. */
  lemma {:induction false} HeuristicShape(e: Metric, locs: seq<Location>, n: nat)
    requires 3 <= n <= |locs|
    ensures ClosedWalk(Heuristic(e, locs, n), n)
    decreases n
  {
    if n == 3 {
      TriangleShape();
    } else {
      HeuristicShape(e, locs, n - 1);
      InsertKeepsShape(e, locs, Heuristic(e, locs, n - 1), n);
    }
  }

  /** Inserting location n before the closing 0 turns a closed walk over 0 .. n - 1 into one over 0 .. n. */
  lemma InsertKeepsShape(e: Metric, locs: seq<Location>, p: seq<nat>, m: nat)
    requires 1 < m <= |locs| && ClosedWalk(p, m - 1)
    ensures ClosedWalk(Insert(e, locs, p, m - 1), m)
  {
    var g := BestGap(e, locs, p, m - 1, |p| - 1);
    SpliceShape(p, m - 1, g);
  }

  /** Location n spliced in anywhere before the closing 0. */
  lemma SpliceShape(p: seq<nat>, n: nat, g: nat)
    requires ClosedWalk(p, n) && g < n
    ensures ClosedWalk(p[..g + 1] + [n] + p[g + 1..], n + 1)
  {
    var q := p[..g + 1] + [n] + p[g + 1..];
    var s := p[..n];
    assert q[..n + 1] == s[..g + 1] + [n] + s[g + 1..];
    SplicePerm(s, n, g + 1);
  }

  /** Adding location n to an ordering of 0 .. n - 1, at any position, orders 0 .. n. */
  lemma SplicePerm(s: seq<nat>, n: nat, at: nat)
    requires IsPerm(s, n) && at <= |s|
    ensures IsPerm(s[..at] + [n] + s[at..], n + 1)
  {
    assert s == s[..at] + s[at..];
    assert Range(0, n + 1) == Range(0, n) + [n];
  }

  /** A walk over fewer locations is in range of more. */
  lemma WalkInRange(p: seq<nat>, n: nat, m: nat)
    requires InRange(p, n) && n <= m
    ensures InRange(p, m)
  {
  }

  /** Splicing a location below n + 1 into a walk over 0 .. n - 1 stays below n + 1. */
  lemma SpliceInRange(p: seq<nat>, n: nat, g: nat)
    requires InRange(p, n) && g < |p|
    ensures InRange(p[..g + 1] + [n] + p[g + 1..], n + 1)
  {
    var q := p[..g + 1] + [n] + p[g + 1..];
    forall i | 0 <= i < |q| ensures q[i] < n + 1 {
      if i > g + 1 {
        assert q[i] == p[i - 1];
      }
    }
  }

  /** One more heuristic step inserts the next location into the current walk. */
  lemma HeuristicNext(e: Metric, locs: seq<Location>, n: nat)
    requires 3 <= n < |locs|
    ensures Heuristic(e, locs, n + 1) == Insert(e, locs, Heuristic(e, locs, n), n)
  {
  }

  /** Path length splits at any join: the two parts plus the leg across. */
  lemma {:induction false} PathLenAppend(e: Metric, locs: seq<Location>, a: seq<nat>, b: seq<nat>)
    requires InRange(a, |locs|) && InRange(b, |locs|) && |a| > 0 && |b| > 0
    ensures InRange(a + b, |locs|)
    ensures PathLen(e, locs, a + b) == PathLen(e, locs, a) + Leg(e, locs, a[|a| - 1], b[0]) + PathLen(e, locs, b)
    decreases |b|
  {
    var ab := a + b;
    if |b| == 1 {
      assert ab[..|ab| - 1] == a;
    } else {
      var b' := b[..|b| - 1];
      PathLenAppend(e, locs, a, b');
      var last := Leg(e, locs, b[|b| - 2], b[|b| - 1]);
      assert PathLen(e, locs, ab) == PathLen(e, locs, a + b') + last by {
        assert ab[..|ab| - 1] == a + b';
        assert ab[|ab| - 2] == b[|b| - 2] && ab[|ab| - 1] == b[|b| - 1];
      }
      assert PathLen(e, locs, b) == PathLen(e, locs, b') + last;
      assert b'[0] == b[0];
    }
  }

  /** Inserting `k` into gap `j` lengthens the path by exactly the insertion cost. */
  lemma InsertionSplice(e: Metric, locs: seq<Location>, p: seq<nat>, j: nat, k: nat)
    requires InRange(p, |locs|) && j + 1 < |p| && k < |locs|
    ensures InRange(p[..j + 1] + [k] + p[j + 1..], |locs|)
    ensures PathLen(e, locs, p[..j + 1] + [k] + p[j + 1..]) == PathLen(e, locs, p) + InsertionCost(e, locs, p, j, k)
  {
    var a, b := p[..j + 1], p[j + 1..];
    assert p == a + b;
    PathLenAppend(e, locs, a, b);
    PathLenAppend(e, locs, a, [k]);
    PathLenAppend(e, locs, a + [k], b);
    assert a + [k] + b == p[..j + 1] + [k] + p[j + 1..];
  }

  /** Entry n + 1 of `ws` is one insertion round after entry n. */
  ghost predicate RoundAt(e: Metric, locs: seq<Location>, ws: seq<seq<nat>>, n: nat)
  {
    n + 1 < |ws| && InsertionRound(e, locs, ws[n], n, ws[n + 1])
  }

  /** Inserting location n into any walk through n locations is one insertion round. */
  lemma InsertIsRound(e: Metric, locs: seq<Location>, p: seq<nat>, n: nat)
    requires 0 < n < |locs| && |p| == n + 1 && InRange(p, |locs|)
    ensures InsertionRound(e, locs, p, n, Insert(e, locs, p, n))
  {
    GapScanIsBest(e, locs, p, n, n);
    InsertionSplice(e, locs, p, BestGap(e, locs, p, n, n), n);
  }

  /** Each heuristic walk is one insertion round away from the next. */
  lemma InsertStep(e: Metric, locs: seq<Location>, n: nat)
    requires 3 <= n < |locs|
    ensures InsertionRound(e, locs, Heuristic(e, locs, n), n, Heuristic(e, locs, n + 1))
  {
    var p := Heuristic(e, locs, n);
    WalkInRange(p, n, |locs|);
    InsertIsRound(e, locs, p, n);
    HeuristicNext(e, locs, n);
  }

  /** In a list holding the heuristic walks by size, each one is a round away from the next. */
  lemma WalksAreRounds(e: Metric, locs: seq<Location>, ws: seq<seq<nat>>, n: nat)
    requires 3 <= n < |locs| && |ws| == |locs| + 1
    requires forall m :: 3 <= m <= |locs| ==> ws[m] == Heuristic(e, locs, m)
    ensures RoundAt(e, locs, ws, n)
  {
    InsertStep(e, locs, n);
    assert ws[n] == Heuristic(e, locs, n) && ws[n + 1] == Heuristic(e, locs, n + 1);
  }

  /**
   * The walks the heuristic passes through, indexed by how many locations
   * they hold: the triangle at 3, the heuristic tour at N, and one insertion
   * round between neighbours.
   */
  lemma HeuristicRounds(e: Metric, locs: seq<Location>) returns (ws: seq<seq<nat>>)
    requires 3 <= |locs|
    ensures |ws| == |locs| + 1 && ws[3] == [0, 1, 2, 0] && ws[|locs|] == Heuristic(e, locs, |locs|)
    ensures forall n :: 3 <= n <= |locs| ==> |ws[n]| == n + 1 && InRange(ws[n], |locs|)
    ensures forall n :: 3 <= n < |locs| ==> RoundAt(e, locs, ws, n)
  {
    ws := seq(|locs| + 1, n requires 0 <= n <= |locs| => if n < 3 then [] else Heuristic(e, locs, n));
    forall n | 3 <= n <= |locs|
      ensures |ws[n]| == n + 1 && InRange(ws[n], |locs|)
    {
      WalkInRange(ws[n], n, |locs|);
    }
    assert forall m :: 3 <= m <= |locs| ==> ws[m] == Heuristic(e, locs, m);
    forall n | 3 <= n < |locs|
      ensures RoundAt(e, locs, ws, n)
    {
      WalksAreRounds(e, locs, ws, n);
    }
  }

  /**
   * Without its closing 0, the heuristic walk is a tour: it lists every
   * location once, starts at 0, and its closed length is the walk's length.
   */
  lemma HeuristicIsTour(e: Metric, locs: seq<Location>)
    requires 3 <= |locs|
    ensures var p := Heuristic(e, locs, |locs|);
            IsTour(e, locs, p[..|locs|], PathLen(e, locs, p))
  {
    HeuristicShape(e, locs, |locs|);
    ClosedWalkIsTour(e, locs, Heuristic(e, locs, |locs|));
  }

  /**
   * A closed walk over every location is a tour once its closing 0 is
   * dropped, and its length is the tour's closed length.
   */
  lemma ClosedWalkIsTour(e: Metric, locs: seq<Location>, p: seq<nat>)
    requires 1 <= |locs| && ClosedWalk(p, |locs|)
    ensures IsTour(e, locs, p[..|locs|], PathLen(e, locs, p))
  {
    var q := p[..|locs|];
    assert p[..|p| - 1] == q;
    assert q[|q| - 1] == p[|p| - 2] && q[0] == p[|p| - 1];
    assert InRange(q, |locs|);
  }

  /** Reversing the direction of a leg does not change its length. */
  lemma LegSymmetric(e: Metric, locs: seq<Location>, a: nat, b: nat)
    requires a < |locs| && b < |locs|
    ensures Leg(e, locs, a, b) == Leg(e, locs, b, a)
  {
    DistanceSymmetric(e, locs[a], locs[b]);
  }

  /** std::swap of entries `i` and `j`. */
  function Swap(s: seq<nat>, i: nat, j: nat): (r: seq<nat>)
    requires i < |s| && j < |s|
    ensures |r| == |s| && r[i] == s[j] && r[j] == s[i]
    ensures forall k :: 0 <= k < |s| && k != i && k != j ==> r[k] == s[k]
  {
    s[i := s[j]][j := s[i]]
  }

  /** Swapping the same two entries again restores the sequence. */
  lemma SwapTwice(s: seq<nat>, i: nat, j: nat)
    requires i < |s| && j < |s|
    ensures Swap(Swap(s, i, j), i, j) == s
  {
  }

  /** Swapping two entries keeps a permutation a permutation. */
  lemma SwapKeepsPerm(p: seq<nat>, n: nat, i: nat, j: nat)
    requires IsPerm(p, n) && i < |p| && j < |p|
    ensures IsPerm(Swap(p, i, j), n)
  {
    var r := p[i := p[j]];
    assert multiset(r) == multiset(p) - multiset{p[i]} + multiset{p[j]};
    if i != j {
      assert multiset(r[j := p[i]]) == multiset(r) - multiset{p[j]} + multiset{p[i]};
    }
  }
}
