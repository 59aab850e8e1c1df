/** `contains(polygon, point)`: ray-cast parity. A ray starts at the point with direction
    `(1, 0)`, and the point is contained when an odd number of edges report an
    intersection with it. */
module Containment {

  import opened Vectors
  import opened Lines
  import opened Transforms
  import opened Rects
  import opened Intersection

  /** The test ray: origin at the point, direction `(1, 0)`. */
  function TestRay(p: Vec2): (ray: BasicLine)
    ensures ray.kind == Ray && ray.location == p && ray.direction == Vec2(1.0, 0.0)
    ensures !IsNullLine(ray)
  {
    MakeLine(Ray, p, Vec2(1.0, 0.0))
  }

  /** 1 when `intersection(edge i, ray)` is intersecting, 0 otherwise: collinear and
      parallel edges never contribute. */
  function Crosses(r: Rect, p: Vec2, i: nat): nat
    requires Proper(r) && i < EdgeCount(r)
  {
    ProperEdgeNonNull(r, i);
    if IntersectLines(Edge(r, i), TestRay(p)).result == Intersecting then 1 else 0
  }

  /** The number of edges the test ray crosses. */
  function CrossingCount(r: Rect, p: Vec2): nat
    requires Proper(r)
  {
    Crosses(r, p, 0) + Crosses(r, p, 1) + Crosses(r, p, 2) + Crosses(r, p, 3)
  }

  /** The callback runs once per crossing edge. */
  lemma CallbackCountIsCrossingCount(r: Rect, p: Vec2)
    requires Proper(r)
    ensures |ForEachIntersectionReversed(r, TestRay(p))| == CrossingCount(r, p)
  {
    var ray := TestRay(p);
    ForEachIntersectionInEdgeOrder(ray, r);
    ProperEdgeNonNull(r, 0);
    ProperEdgeNonNull(r, 1);
    ProperEdgeNonNull(r, 2);
    ProperEdgeNonNull(r, 3);
    HitsSingle(Edge(r, 0), ray);
    HitsSingle(Edge(r, 1), ray);
    HitsSingle(Edge(r, 2), ray);
    HitsSingle(Edge(r, 3), ray);
  }

  /** `containsImpl(polygon, vector)` on a non-null rect: the point is contained exactly
      when the test ray crosses an odd number of edges. */
  function Contains(r: Rect, p: Vec2): (b: bool)
    requires Proper(r)
    ensures b <==> CrossingCount(r, p) % 2 == 1
  {
    CallbackCountIsCrossingCount(r, p);
    |ForEachIntersectionReversed(r, TestRay(p))| % 2 == 1
  }

  /** An edge crosses the test ray from `p` exactly when it is not horizontal, and its
      point at height `p.y` has an in-range parameter and lies at or left of `p`: the
      routine's parameters make the ray count points `p - b * (1, 0)` with `b >= 0`. */
  lemma RayCrossingIff(e: BasicLine, p: Vec2)
    requires !IsNullLine(e)
    ensures var d := e.direction;
            IntersectLines(e, TestRay(p)).result == Intersecting <==>
            d.y != 0.0 && IsWithinRange(e.kind, (e.location.y - p.y) / d.y) &&
            PointAt(e, (e.location.y - p.y) / d.y).x <= p.x
  {
    var ray, d := TestRay(p), e.direction;
    var den := Den(e, ray);
    assert den == -d.y;
    if d.y != 0.0 {
      var w := Offset(e, ray);
      var a := (e.location.y - p.y) / d.y;
      assert NumA(e, ray) == w.y;
      assert NumA(e, ray) / den == a by {
        NegatedQuotientOf(p.y - e.location.y, d.y);
      }
      var b := NumB(e, ray) / den;
      assert b * den == NumB(e, ray);
      assert a * d.y == e.location.y - p.y;
      // b * (-d.y) == d.x * w.y - d.y * w.x, so b == w.x + a * d.x.
      assert b * d.y == (w.x + a * d.x) * d.y by {
        assert b * d.y == d.y * w.x - d.x * w.y;
        assert (a * d.x) * d.y == (a * d.y) * d.x;
      }
      CancelFactor(b, w.x + a * d.x, d.y);
      assert PointAt(e, a).x == e.location.x - d.x * a;
    }
  }

  lemma NegatedQuotientOf(q: real, k: real)
    requires k != 0.0
    ensures q / (-k) == (-q) / k
  {
  }

  /** For `k > 0`, `0 <= q / k < 1` exactly when `0 <= q < k`. */
  lemma UnitRangeScaled(q: real, k: real)
    requires k > 0.0
    ensures 0.0 <= q / k < 1.0 <==> 0.0 <= q < k
  {
    var a := q / k;
    assert a * k == q;
    ScalingKeepsOrder(0.0, a, k);
    ScalingKeepsOrder(a, 1.0, k);
  }

  /** Multiplying both sides by a positive factor keeps the order. */
  lemma ScalingKeepsOrder(x: real, y: real, k: real)
    requires k > 0.0
    ensures x < y <==> x * k < y * k
    ensures x <= y <==> x * k <= y * k
  {
    assert y * k - x * k == (y - x) * k;
    ProductSign(y - x, k);
  }

  /** Multiplying by a positive factor keeps the sign. */
  lemma ProductSign(x: real, k: real)
    requires k > 0.0
    ensures x > 0.0 ==> x * k > 0.0
    ensures x < 0.0 ==> x * k < 0.0
    ensures x == 0.0 ==> x * k == 0.0
  {
  }

  /** In an AABB with `span.y > 0`, the test ray from `p` crosses only the right edge,
      when `p` is at or right of it with `p.y` in `(top - span.y, top]` of its mirror
      image, or only the left edge, when `p` is at or right of it with `p.y` in
      `[bottom, bottom + span.y)`; the horizontal edges never count. So the points
      strictly inside the box are never contained. */
  lemma AabbContainsIff(span: Vec2, t: Vec2, p: Vec2)
    requires span.x != 0.0 && span.y > 0.0
    ensures Proper(Aabb(span, t))
    ensures Contains(Aabb(span, t), p) <==>
            (t.x + span.x <= p.x && t.y - span.y < p.y <= t.y) ||
            (t.x <= p.x && t.y + span.y <= p.y < t.y + span.y + span.y)
  {
    AabbIsProper(span, t);
    AabbHorizontalEdgesMiss(span, t, p);
    AabbRightEdgeCrossing(span, t, p);
    AabbLeftEdgeCrossing(span, t, p);
  }

  /** An AABB with non-zero span elements is a proper rect, with its edges laid out
      bottom, right, top, left. */
  lemma AabbIsProper(span: Vec2, t: Vec2)
    requires span.x != 0.0 && span.y != 0.0
    ensures Proper(Aabb(span, t))
    ensures Edge(Aabb(span, t), 0) == MakeLine(Segment, t, Vec2(span.x, 0.0))
    ensures Edge(Aabb(span, t), 1) == MakeLine(Segment, Vec2(t.x + span.x, t.y), Vec2(0.0, span.y))
    ensures Edge(Aabb(span, t), 2) == MakeLine(Segment, Vec2(t.x + span.x, t.y + span.y), Vec2(-span.x, 0.0))
    ensures Edge(Aabb(span, t), 3) == MakeLine(Segment, Vec2(t.x, t.y + span.y), Vec2(0.0, -span.y))
  {
    var r := Aabb(span, t);
    assert r.components == [ComponentTranslation(t)];
    NonZeroProduct(span.x, span.y);
    TranslatedRectNullIffZeroArea(r);
    AabbEdges(span, t);
  }

  /** The horizontal edges of an AABB never cross the test ray. */
  lemma AabbHorizontalEdgesMiss(span: Vec2, t: Vec2, p: Vec2)
    requires span.x != 0.0 && span.y != 0.0
    ensures Proper(Aabb(span, t))
    ensures Crosses(Aabb(span, t), p, 0) == 0 && Crosses(Aabb(span, t), p, 2) == 0
  {
    AabbIsProper(span, t);
    RayCrossingIff(Edge(Aabb(span, t), 0), p);
    RayCrossingIff(Edge(Aabb(span, t), 2), p);
  }

  /** The right edge's mirror image runs down from the bottom-right corner. */
  lemma AabbRightEdgeCrossing(span: Vec2, t: Vec2, p: Vec2)
    requires span.x != 0.0 && span.y > 0.0
    ensures Proper(Aabb(span, t))
    ensures Crosses(Aabb(span, t), p, 1) == 1 <==> t.x + span.x <= p.x && t.y - span.y < p.y <= t.y
  {
    AabbIsProper(span, t);
    RayCrossingIff(Edge(Aabb(span, t), 1), p);
    UnitRangeScaled(t.y - p.y, span.y);
  }

  /** The left edge's mirror image runs up from the top-left corner. */
  lemma AabbLeftEdgeCrossing(span: Vec2, t: Vec2, p: Vec2)
    requires span.x != 0.0 && span.y > 0.0
    ensures Proper(Aabb(span, t))
    ensures Crosses(Aabb(span, t), p, 3) == 1 <==> t.x <= p.x && t.y + span.y <= p.y < t.y + span.y + span.y
  {
    AabbIsProper(span, t);
    RayCrossingIff(Edge(Aabb(span, t), 3), p);
    NegatedQuotientOf(t.y + span.y - p.y, span.y);
    UnitRangeScaled(p.y - (t.y + span.y), span.y);
  }

  /** The span-(1, 1) AABB at the origin contains `p` exactly when `p` is at or right
      of x = 1 with `p.y` in `(-1, 0]`, or at or right of x = 0 with `p.y` in `[1, 2)`. */
  lemma UnitAabbContainsIff(p: Vec2)
    ensures Proper(UnitAabb())
    ensures Contains(UnitAabb(), p) <==> (1.0 <= p.x && -1.0 < p.y <= 0.0) || (0.0 <= p.x && 1.0 <= p.y < 2.0)
  {
    AabbContainsIff(Vec2(1.0, 1.0), Zero(), p);
  }

  /** The unit-rect expectations under exact arithmetic. The far corner is contained,
      and the points just outside the origin corner and the point below-right of the far
      corner are not, as expected. The centre and the left edge's midpoint are not
      contained. The far-corner neighbours right of it, above it, above-right of it and
      above-left of it are contained. */
  lemma UnitAabbContainmentCases()
    ensures Proper(UnitAabb())
    ensures Contains(UnitAabb(), Vec2(1.0, 1.0))
    ensures !Contains(UnitAabb(), Vec2(-0.00001, 0.0)) && !Contains(UnitAabb(), Vec2(0.0, -0.00001))
    ensures !Contains(UnitAabb(), Vec2(-0.00001, -0.00001)) && !Contains(UnitAabb(), Vec2(-0.00001, 0.00001))
    ensures !Contains(UnitAabb(), Vec2(0.00001, -0.00001))
    ensures !Contains(UnitAabb(), Vec2(1.00001, 0.99999))
    ensures !Contains(UnitAabb(), Vec2(0.5, 0.5)) && !Contains(UnitAabb(), Vec2(0.0, 0.5))
    ensures Contains(UnitAabb(), Vec2(1.00001, 1.0)) && Contains(UnitAabb(), Vec2(1.0, 1.00001))
    ensures Contains(UnitAabb(), Vec2(1.00001, 1.00001)) && Contains(UnitAabb(), Vec2(0.99999, 1.00001))
  {
    UnitAabbContainsIff(Vec2(-0.00001, -0.00001));
    UnitAabbContainsIff(Vec2(-0.00001, 0.00001));
    UnitAabbContainsIff(Vec2(0.00001, -0.00001));
    UnitAabbContainsIff(Vec2(1.00001, 1.00001));
    UnitAabbContainsIff(Vec2(0.99999, 1.00001));
    UnitAabbContainsIff(Vec2(1.0, 1.0));
    UnitAabbContainsIff(Vec2(-0.00001, 0.0));
    UnitAabbContainsIff(Vec2(0.0, -0.00001));
    UnitAabbContainsIff(Vec2(1.00001, 0.99999));
    UnitAabbContainsIff(Vec2(0.5, 0.5));
    UnitAabbContainsIff(Vec2(0.0, 0.5));
    UnitAabbContainsIff(Vec2(1.00001, 1.0));
    UnitAabbContainsIff(Vec2(1.0, 1.00001));
  }
}
