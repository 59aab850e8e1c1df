/** The `intersects` predicates: line-line, line-polygon, polygon-polygon, and the
    fallback that swaps its arguments. */
module Intersects {

  import opened Vectors
  import opened Lines
  import opened Rects
  import opened Intersection
  import opened Transforms

  /** Line-line `intersectsImpl`: some pair of in-range parameters names a common
      point of the two lines, and the directions are not parallel. Collinear and
      parallel pairs never intersect. */
  function LineLine(lhs: BasicLine, rhs: BasicLine): (b: bool)
    requires !IsNullLine(lhs) && !IsNullLine(rhs)
    ensures b <==> Den(lhs, rhs) != 0.0 && exists s, t :: MeetWithin(lhs, rhs, s, t)
    ensures b ==> IntersectLines(lhs, rhs).result != Collinear && IntersectLines(lhs, rhs).result != Parallel
  {
    IntersectingIff(lhs, rhs);
    IntersectLines(lhs, rhs).result == Intersecting
  }

  /** Line-line `intersects` does not depend on the order of its operands. */
  lemma LineLineSymmetric(lhs: BasicLine, rhs: BasicLine)
    requires !IsNullLine(lhs) && !IsNullLine(rhs)
    ensures LineLine(lhs, rhs) == LineLine(rhs, lhs)
  {
    IntersectLinesSwap(lhs, rhs);
  }

  /** The loop of line-polygon `intersectsImpl` from edge `i` on: it returns at the first
      edge the line intersects. */
  function AnyEdgeHitFrom(line: BasicLine, r: Rect, i: nat): (b: bool)
    requires !IsNullLine(line) && Proper(r) && i <= EdgeCount(r)
    ensures b <==> exists j :: i <= j < EdgeCount(r) && LineLine(line, Edge(r, j))
    decreases EdgeCount(r) - i
  {
    if i == EdgeCount(r) then false
    else
      ProperEdgeNonNull(r, i);
      if LineLine(line, Edge(r, i)) then true else AnyEdgeHitFrom(line, r, i + 1)
  }

  /** Line-polygon `intersectsImpl`: true iff the line intersects some edge. */
  function LinePolygon(line: BasicLine, r: Rect): (b: bool)
    requires !IsNullLine(line) && Proper(r)
    ensures b <==> exists j :: 0 <= j < EdgeCount(r) && LineLine(line, Edge(r, j))
  {
    AnyEdgeHitFrom(line, r, 0)
  }

  /** The fallback overload for `(polygon, line)` swaps the arguments. */
  function PolygonLine(r: Rect, line: BasicLine): (b: bool)
    requires !IsNullLine(line) && Proper(r)
    ensures b <==> exists j :: 0 <= j < EdgeCount(r) && LineLine(Edge(r, j), line)
  {
    forall j | 0 <= j < EdgeCount(r)
      ensures LineLine(line, Edge(r, j)) == LineLine(Edge(r, j), line)
    {
      ProperEdgeNonNull(r, j);
      LineLineSymmetric(line, Edge(r, j));
    }
    LinePolygon(line, r)
  }

  /** `intersects(line, polygon)` holds exactly when `intersection(line, polygon)`
      reports a distance. */
  lemma LinePolygonIffIntersection(line: BasicLine, r: Rect)
    requires !IsNullLine(line) && Proper(r)
    ensures LinePolygon(line, r) <==> IntersectLinePolygon(line, r).Some?
  {
    forall j | 0 <= j < EdgeCount(r)
      ensures LineLine(line, Edge(r, j)) <==> IntersectLines(Edge(r, j), line).result == Intersecting
    {
      ProperEdgeNonNull(r, j);
      IntersectLinesSwap(line, Edge(r, j));
    }
  }

  /** The loop of polygon-polygon `intersectsImpl` from edge `i` of `a` on. */
  function AnyEdgeMeetsFrom(a: Rect, b: Rect, i: nat): (res: bool)
    requires Proper(a) && Proper(b) && i <= EdgeCount(a)
    ensures res <==> exists j :: i <= j < EdgeCount(a) && LinePolygon(Edge(a, j), b)
    decreases EdgeCount(a) - i
  {
    if i == EdgeCount(a) then false
    else
      ProperEdgeNonNull(a, i);
      if LinePolygon(Edge(a, i), b) then true else AnyEdgeMeetsFrom(a, b, i + 1)
  }

  /** Polygon-polygon `intersectsImpl`: true iff some edge of `a` intersects some edge of
      `b`. */
  function PolygonPolygon(a: Rect, b: Rect): (res: bool)
    requires Proper(a) && Proper(b)
    ensures res <==> exists i, j :: 0 <= i < EdgeCount(a) && 0 <= j < EdgeCount(b) && LineLine(Edge(a, i), Edge(b, j))
  {
    AnyEdgeMeetsFrom(a, b, 0)
  }

  /** Polygon-polygon `intersects` is symmetric, because line-line `intersects` is. */
  lemma PolygonPolygonSymmetric(a: Rect, b: Rect)
    requires Proper(a) && Proper(b)
    ensures PolygonPolygon(a, b) == PolygonPolygon(b, a)
  {
    if !PolygonPolygon(b, a) {
      NoPairSwaps(a, b);
    }
    if !PolygonPolygon(a, b) {
      NoPairSwaps(b, a);
    }
  }

  /** When no edge pair of `b` and `a` meets, no edge pair of `a` and `b` meets either. */
  lemma NoPairSwaps(a: Rect, b: Rect)
    requires Proper(a) && Proper(b) && !PolygonPolygon(b, a)
    ensures !PolygonPolygon(a, b)
  {
    EdgesNonNull(a);
    EdgesNonNull(b);
    forall i, j | 0 <= i < EdgeCount(a) && 0 <= j < EdgeCount(b)
      ensures !LineLine(Edge(a, i), Edge(b, j))
    {
      LineLineSymmetric(Edge(a, i), Edge(b, j));
    }
  }

  /** Every edge of a proper rect is non-null. */
  lemma EdgesNonNull(r: Rect)
    requires Proper(r)
    ensures forall i :: 0 <= i < EdgeCount(r) ==> !IsNullLine(Edge(r, i))
  {
    forall i | 0 <= i < EdgeCount(r) ensures !IsNullLine(Edge(r, i)) {
      ProperEdgeNonNull(r, i);
    }
  }

  /** Two segments chained end to start never intersect, in either order: the shared
      vertex sits at parameter 0 on the second and at parameter -1 on the first, which is
      outside a segment's range, and no other pair of parameters meets. */
  lemma ChainedSegmentsMiss(l1: BasicLine, l2: BasicLine)
    requires l1.kind == Segment && l2.kind == Segment
    requires !IsNullLine(l1) && !IsNullLine(l2)
    requires l2.location == SecondVertex(l1)
    ensures !LineLine(l1, l2) && !LineLine(l2, l1)
  {
    assert PointAt(l1, -1.0) == PointAt(l2, 0.0);
    if Den(l1, l2) != 0.0 {
      IntersectLinesSwap(l1, l2);
      if exists a, b :: MeetWithin(l1, l2, a, b) {
        var a, b :| MeetWithin(l1, l2, a, b);
        MeetingParamsUnique(l1, l2, a, b);
        MeetingParamsUnique(l1, l2, -1.0, 0.0);
      }
      if exists a, b :: MeetWithin(l2, l1, a, b) {
        var a, b :| MeetWithin(l2, l1, a, b);
        MeetingParamsUnique(l2, l1, a, b);
        MeetingParamsUnique(l2, l1, 0.0, -1.0);
      }
    } else {
      IntersectLinesSwap(l1, l2);
    }
  }

  /** In a non-null rect of translations only, no edge intersects any edge of the same
      rect: equal and opposite edges are parallel, and neighbouring edges are chained. */
  lemma TranslatedEdgePairMisses(r: Rect, i: nat, j: nat)
    requires forall k :: 0 <= k < |r.components| ==> IsTranslation(r.components[k])
    requires !IsNullRect(r) && i < 4 && j < 4
    ensures !IsNullLine(Edge(r, i)) && !IsNullLine(Edge(r, j))
    ensures !LineLine(Edge(r, i), Edge(r, j))
  {
    TranslatedRectNullIffZeroArea(r);
    ProperEdgeNonNull(r, i);
    ProperEdgeNonNull(r, j);
    TranslatedEdgeDirections(r);
    if j == NextIndex(i) {
      EdgeJoinsVertices(r, i);
      EdgeJoinsVertices(r, j);
      ChainedSegmentsMiss(Edge(r, i), Edge(r, j));
    } else if i == NextIndex(j) {
      EdgeJoinsVertices(r, i);
      EdgeJoinsVertices(r, j);
      ChainedSegmentsMiss(Edge(r, j), Edge(r, i));
    } else {
      assert Den(Edge(r, i), Edge(r, j)) == 0.0;
    }
  }

  /** A non-null rect of translations only (an AABB, say) intersects neither itself nor
      any of its own edges. */
  lemma TranslatedRectMissesItself(r: Rect)
    requires forall k :: 0 <= k < |r.components| ==> IsTranslation(r.components[k])
    requires !IsNullRect(r)
    ensures Proper(r)
    ensures forall i :: 0 <= i < EdgeCount(r) ==> !LinePolygon(Edge(r, i), r) && !PolygonLine(r, Edge(r, i))
    ensures !PolygonPolygon(r, r)
  {
    TranslatedRectNullIffZeroArea(r);
    forall i, j | 0 <= i < 4 && 0 <= j < 4
      ensures !IsNullLine(Edge(r, i)) && !LineLine(Edge(r, i), Edge(r, j))
    {
      TranslatedEdgePairMisses(r, i, j);
    }
  }

  /** Every AABB with a non-zero span, the unit one among them: its edge 0 does not
      intersect it, in either argument order, and it does not intersect itself. */
  lemma AabbMissesItself(span: Vec2, t: Vec2)
    requires span.x != 0.0 && span.y != 0.0
    ensures Proper(Aabb(span, t))
    ensures !LinePolygon(Edge(Aabb(span, t), 0), Aabb(span, t))
    ensures !PolygonLine(Aabb(span, t), Edge(Aabb(span, t), 0))
    ensures !PolygonPolygon(Aabb(span, t), Aabb(span, t))
  {
    var r := Aabb(span, t);
    assert r.components == [ComponentTranslation(t)];
    TranslatedRectMissesItself(r);
  }
}
