/**
 * Locations, their categories and the distance rule between two of them.
 *
 * A location is a point with integer coordinates and its input number.  In
 * MST mode its category is derived from the sign pattern of its coordinates;
 * in the two tour modes the category is never set, which the model writes as
 * `Unset`, a category that takes part in no restriction.
 */
module Locations {

  datatype LocationType = Medical | Border | Normal | Unset

  datatype Location = Location(x: int, y: int, num: int, kind: LocationType)

  /** A distance as the program sees it: finite, or positive infinity ("unreachable"). */
  datatype W = Inf | Fin(r: real)

  /** Strict `<` on distances, with infinity above every finite value and not below itself. */
  predicate Less(a: W, b: W)
  {
    match (a, b)
    case (Fin(u), Fin(v)) => u < v
    case (Fin(_), Inf) => true
    case (Inf, _) => false
  }

  /** Addition on distances: infinity absorbs everything. */
  function Add(a: W, b: W): W
  {
    if a.Fin? && b.Fin? then Fin(a.r + b.r) else Inf
  }

  /** The Euclidean part of the distance, on the coordinates of the two points. */
  type Euclid = (int, int, int, int) -> real

  ghost predicate IsPlaneMetric(e: Euclid)
  {
    && (forall x1, y1, x2, y2 :: e(x1, y1, x2, y2) == e(x2, y2, x1, y1))
    && (forall x1, y1, x2, y2 :: e(x1, y1, x2, y2) >= 0.0)
    && (forall x, y :: e(x, y, x, y) == 0.0)
  }

  /**
   * The straight-line distance is not computed here: it is any function of
   * the two coordinate pairs that is symmetric, non-negative and zero on
   * identical points, which is all the algorithms rely on.
   */
  type Metric = e: Euclid | IsPlaneMetric(e) witness (x1: int, y1: int, x2: int, y2: int) => 0.0

  /** The category rule of the Location constructor in MST mode. */
  function Classify(x: int, y: int): LocationType
  {
    if x < 0 && y < 0 then Medical
    else if (x < 0 && y == 0) || (y < 0 && x == 0) || (x == 0 && y == 0) then Border
    else Normal
  }

  /** The Location constructor: the category is set only in MST mode. */
  function NewLocation(x: int, y: int, num: int, mode: char): (l: Location)
    ensures l.x == x && l.y == y && l.num == num
    ensures mode == 'M' ==> l.kind == Classify(x, y) && l.kind != Unset
    ensures mode != 'M' ==> l.kind == Unset
  {
    Location(x, y, num, if mode == 'M' then Classify(x, y) else Unset)
  }

  /** The location sequence built from the input points, location i numbered i. */
  function BuildLocations(points: seq<(int, int)>, mode: char): (locs: seq<Location>)
    ensures |locs| == |points|
    ensures forall i :: 0 <= i < |locs| ==> locs[i].num == i && locs[i].x == points[i].0 && locs[i].y == points[i].1
    ensures mode == 'M' ==> forall i :: 0 <= i < |locs| ==> locs[i].kind == Classify(points[i].0, points[i].1)
    ensures mode != 'M' ==> forall i :: 0 <= i < |locs| ==> locs[i].kind == Unset
  {
    seq(|points|, i requires 0 <= i < |points| => NewLocation(points[i].0, points[i].1, i, mode))
  }

  /** The pair of categories that may never be connected directly. */
  predicate Restricted(t1: LocationType, t2: LocationType)
  {
    (t1 == Medical && t2 == Normal) || (t2 == Medical && t1 == Normal)
  }

  /** Straight-line length between two locations, ignoring categories. */
  function Len(e: Metric, a: Location, b: Location): real
  {
    e(a.x, a.y, b.x, b.y)
  }

  /** get_distance: unreachable for a Medical/Normal pair, Euclidean otherwise. */
  function Distance(e: Metric, a: Location, b: Location): W
  {
    if Restricted(a.kind, b.kind) then Inf else Fin(Len(e, a, b))
  }

  // ---------------------------------------------------------------------------
  // Properties
  // ---------------------------------------------------------------------------

  /**
   * The classification, restated as regions of the plane: Medical is the open
   * third quadrant, Border its two bounding half-axes together with the
   * origin, and Normal everything with a positive coordinate.
   */
  lemma ClassifyRegions(x: int, y: int)
    ensures Classify(x, y) == Medical <==> x < 0 && y < 0
    ensures Classify(x, y) == Border <==> x <= 0 && y <= 0 && (x == 0 || y == 0)
    ensures Classify(x, y) == Normal <==> x > 0 || y > 0
    ensures Classify(x, y) != Unset
  {
  }

  /** The distance is infinite exactly for a Medical/Normal pair, in either order. */
  lemma DistanceInfIff(e: Metric, a: Location, b: Location)
    ensures Distance(e, a, b) == Inf <==>
              (a.kind == Medical && b.kind == Normal) || (a.kind == Normal && b.kind == Medical)
    ensures Distance(e, a, b) != Inf ==> Distance(e, a, b) == Fin(Len(e, a, b)) && Len(e, a, b) >= 0.0
  {
  }

  /** The distance is symmetric. */
  lemma DistanceSymmetric(e: Metric, a: Location, b: Location)
    ensures Distance(e, a, b) == Distance(e, b, a)
    ensures Len(e, a, b) == Len(e, b, a)
  {
  }

  /** Two locations at the same point (hence of the same category) are at distance zero. */
  lemma DistanceSamePoint(e: Metric, a: Location, b: Location)
    requires a.x == b.x && a.y == b.y && a.kind == b.kind
    ensures Distance(e, a, b) == Fin(0.0)
  {
  }

  /** A Border or unclassified location is reachable from every location. */
  lemma UnrestrictedIsFinite(e: Metric, a: Location, b: Location)
    requires a.kind == Border || a.kind == Unset
    ensures Distance(e, a, b) == Fin(Len(e, a, b))
    ensures Distance(e, b, a) == Fin(Len(e, b, a))
  {
  }
}
