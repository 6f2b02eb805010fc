/**
 * The snap resolver of scrollViewWillEndDragging: the proposed rest offset is moved so
 * that the laid-out cell edge nearest to the overlay's left edge lines up with it.
 */
module Snap {
  import opened Wrappers
  import opened FloatExtensions

  /** CGPoint. */
  datatype Point = Point(x: real, y: real)

  /** Distance of every candidate edge from the target edge (the `differences` array). */
  function Distances(xOffsets: seq<real>, target: real): (ds: seq<real>)
    ensures |ds| == |xOffsets|
    ensures forall i :: 0 <= i < |ds| ==> ds[i] == Fabs(xOffsets[i] - target)
  {
    seq(|xOffsets|, i requires 0 <= i < |xOffsets| => Fabs(xOffsets[i] - target))
  }

  /** Sequence.min(): the least element, or nothing for an empty sequence. */
  function Minimum(s: seq<real>): (r: Option<real>)
    ensures r.None? <==> |s| == 0
    ensures r.Some? ==> r.value in s && forall i :: 0 <= i < |s| ==> r.value <= s[i]
  {
    if |s| == 0 then None
    else match Minimum(s[1..])
      case None => Some(s[0])
      case Some(m) => Some(if s[0] <= m then s[0] else m)
  }

  /** Array.index(of:): the first position holding `v`, or nothing when `v` is absent. */
  function FirstIndexOf(s: seq<real>, v: real): (r: Option<nat>)
    ensures r.None? <==> v !in s
    ensures r.Some? ==> r.value < |s| && s[r.value] == v
    ensures r.Some? ==> forall i :: 0 <= i < r.value ==> s[i] != v
  {
    if |s| == 0 then None
    else if s[0] == v then Some(0)
    else match FirstIndexOf(s[1..], v)
      case None => None
      case Some(j) => Some(j + 1)
  }

  /**
   * The reference definition of the chosen candidate: `p` is nearest to `target`
   * and every candidate before it is strictly farther.
   */
  ghost predicate IsFirstNearest(xOffsets: seq<real>, target: real, p: int)
  {
    && 0 <= p < |xOffsets|
    && (forall i :: 0 <= i < |xOffsets| ==> Fabs(xOffsets[p] - target) <= Fabs(xOffsets[i] - target))
    && (forall i :: 0 <= i < p ==> Fabs(xOffsets[p] - target) < Fabs(xOffsets[i] - target))
  }

  /** At most one index is the first nearest one. */
  lemma FirstNearestUnique(xOffsets: seq<real>, target: real, p: int, q: int)
    requires IsFirstNearest(xOffsets, target, p) && IsFirstNearest(xOffsets, target, q)
    ensures p == q
  {
    // each is at least as near as the other, so neither can be strictly nearer
    assert Fabs(xOffsets[p] - target) == Fabs(xOffsets[q] - target);
  }

  /** `differences.index(of: differences.min())`: the position of the first least distance. */
  function NearestIndex(xOffsets: seq<real>, target: real): (r: Option<nat>)
    ensures r.None? <==> |xOffsets| == 0
    ensures r.Some? ==> IsFirstNearest(xOffsets, target, r.value)
  {
    var differences := Distances(xOffsets, target);
    match Minimum(differences)
    case None => None
    case Some(m) => FirstIndexOf(differences, m)
  }

  /**
   * The corrected x offset: the chosen candidate edge minus the overlay's distance from
   * the collection view origin; nothing when there is no candidate (the code's early return).
   */
  function SnapOffset(targetX: real, xOffsets: seq<real>, overlayDistance: real): (r: Option<real>)
    ensures r.None? <==> |xOffsets| == 0
    ensures r.Some? ==> r.value + overlayDistance in xOffsets
  {
    match NearestIndex(xOffsets, targetX + overlayDistance)
    case None => None
    case Some(p) => Some(xOffsets[p] - overlayDistance)
  }

  /**
   * The whole write through `targetContentOffset`: nothing when the layout gives no
   * attributes or no candidate edge, and otherwise the target with only its x replaced.
   */
  function SnapTarget(target: Point, attributes: Option<seq<real>>, overlayDistance: real): (r: Option<Point>)
    ensures r.None? <==> attributes.None? || |attributes.value| == 0
    ensures r.Some? ==> r.value.y == target.y
    ensures r.Some? ==> r.value.x + overlayDistance in attributes.value
  {
    match attributes
    case None => None
    case Some(xOffsets) =>
      match SnapOffset(target.x, xOffsets, overlayDistance)
      case None => None
      case Some(x) => Some(target.(x := x))
  }

  /** The resolver returns exactly the first nearest candidate edge, shifted by the overlay distance. */
  lemma SnapOffsetIsFirstNearest(targetX: real, xOffsets: seq<real>, overlayDistance: real, p: int)
    requires IsFirstNearest(xOffsets, targetX + overlayDistance, p)
    ensures SnapOffset(targetX, xOffsets, overlayDistance) == Some(xOffsets[p] - overlayDistance)
  {
    var q := NearestIndex(xOffsets, targetX + overlayDistance);
    FirstNearestUnique(xOffsets, targetX + overlayDistance, p, q.value);
  }

  /** No candidate edge is strictly closer to the target edge than the one snapped to. */
  lemma SnapOffsetOptimal(targetX: real, xOffsets: seq<real>, overlayDistance: real, i: int)
    requires 0 <= i < |xOffsets|
    ensures SnapOffset(targetX, xOffsets, overlayDistance).Some?
    ensures var r := SnapOffset(targetX, xOffsets, overlayDistance).value;
      Fabs(r + overlayDistance - (targetX + overlayDistance))
        <= Fabs(xOffsets[i] - (targetX + overlayDistance))
  {
    var p := NearestIndex(xOffsets, targetX + overlayDistance).value;
    assert SnapOffset(targetX, xOffsets, overlayDistance).value + overlayDistance == xOffsets[p];
  }

  /** A target whose overlay edge already sits on a candidate edge is left where it is. */
  lemma AlignedTargetStays(targetX: real, xOffsets: seq<real>, overlayDistance: real)
    requires targetX + overlayDistance in xOffsets
    ensures SnapOffset(targetX, xOffsets, overlayDistance) == Some(targetX)
  {
    var t := targetX + overlayDistance;
    var k :| 0 <= k < |xOffsets| && xOffsets[k] == t;
    var p := NearestIndex(xOffsets, t).value;
    // candidate k is at distance zero, so the chosen candidate is too
    assert Fabs(xOffsets[p] - t) <= Fabs(xOffsets[k] - t);
    assert xOffsets[p] == t;
  }

  /** Snapping an already snapped target changes nothing. */
  lemma SnapOffsetIdempotent(targetX: real, xOffsets: seq<real>, overlayDistance: real, once: real)
    requires SnapOffset(targetX, xOffsets, overlayDistance) == Some(once)
    ensures SnapOffset(once, xOffsets, overlayDistance) == Some(once)
  {
    AlignedTargetStays(once, xOffsets, overlayDistance);
  }

  /** The worked example: edges 0, 90, 180, overlay at 45, proposed offset 40 snaps to 45. */
  lemma SnapOffsetExample()
    ensures SnapOffset(40.0, [0.0, 90.0, 180.0], 45.0) == Some(45.0)
  {
    SnapOffsetIsFirstNearest(40.0, [0.0, 90.0, 180.0], 45.0, 1);
  }

  /** A tie between two equally near edges goes to the earlier one. */
  lemma SnapOffsetTieGoesFirst()
    ensures SnapOffset(50.0, [0.0, 100.0], 0.0) == Some(0.0)
  {
    SnapOffsetIsFirstNearest(50.0, [0.0, 100.0], 0.0, 0);
  }
}
