/** The bounding helpers: the scalar bounds `left/right/top/bottomBounding`, the corner
    helpers, and `boundingRect`, for AABBs, for polygons, for any object through its
    scalar bounds, and for a pair of points.

    The AABB overloads read a `position()` alongside the span, so they are modelled over
    a plain box record holding both; the polygon overloads work on a rect's vertices. */
module Bounding {

  import opened Vectors
  import opened Rects
  import opened BoundingRect

  /** An axis-aligned box: a position and a span, which may be negative. */
  datatype Box = Box(position: Vec2, span: Vec2)

  /** A box is null when either span element is zero, as for a rect. */
  predicate IsNullBox(b: Box)
  {
    b.span.x == 0.0 || b.span.y == 0.0
  }

  /** The two points a box is given by: its position and its position plus its span. */
  function Ends(b: Box): seq<Vec2>
  {
    [b.position, Add(b.position, b.span)]
  }

  /** The box as the AABB rect `Rect(span, translation)` it describes. */
  function AsAabb(b: Box): Rect
  {
    Aabb(b.span, b.position)
  }

  /** Of two points, the element-wise minimum and maximum are the least and greatest
      coordinates. */
  lemma PairExtremes(p: Vec2, q: Vec2)
    ensures IsLeast([p, q], 0, Min(p.x, q.x)) && IsLeast([p, q], 1, Min(p.y, q.y))
    ensures IsGreatest([p, q], 0, Max(p.x, q.x)) && IsGreatest([p, q], 1, Max(p.y, q.y))
  {
    var s := [p, q];
    assert At(s[0], 0) == p.x && At(s[1], 0) == q.x && At(s[0], 1) == p.y && At(s[1], 1) == q.y;
  }

  // AABB overloads.

  function Left(b: Box): (l: real)
    requires !IsNullBox(b)
    ensures IsLeast(Ends(b), 0, l)
  {
    PairExtremes(b.position, Add(b.position, b.span));
    Min(b.position.x, b.position.x + b.span.x)
  }

  function Right(b: Box): (r: real)
    requires !IsNullBox(b)
    ensures IsGreatest(Ends(b), 0, r)
  {
    PairExtremes(b.position, Add(b.position, b.span));
    Max(b.position.x, b.position.x + b.span.x)
  }

  function Top(b: Box): (t: real)
    requires !IsNullBox(b)
    ensures IsLeast(Ends(b), 1, t)
  {
    PairExtremes(b.position, Add(b.position, b.span));
    Min(b.position.y, b.position.y + b.span.y)
  }

  function Bottom(b: Box): (t: real)
    requires !IsNullBox(b)
    ensures IsGreatest(Ends(b), 1, t)
  {
    PairExtremes(b.position, Add(b.position, b.span));
    Max(b.position.y, b.position.y + b.span.y)
  }

  /** The far corner, `position + span`, each corner helper starts from. */
  function FarCorner(b: Box): Vec2 { Add(b.position, b.span) }

  function TopLeft(b: Box): Vec2
    requires !IsNullBox(b)
  {
    var far := FarCorner(b);
    Vec2(Min(b.position.x, far.x), Min(b.position.y, far.y))
  }

  function TopRight(b: Box): Vec2
    requires !IsNullBox(b)
  {
    var far := FarCorner(b);
    Vec2(Max(b.position.x, far.x), Min(b.position.y, far.y))
  }

  function BottomLeft(b: Box): Vec2
    requires !IsNullBox(b)
  {
    var far := FarCorner(b);
    Vec2(Min(b.position.x, far.x), Max(b.position.y, far.y))
  }

  function BottomRight(b: Box): Vec2
    requires !IsNullBox(b)
  {
    var far := FarCorner(b);
    Vec2(Max(b.position.x, far.x), Max(b.position.y, far.y))
  }

  /** The left bound never exceeds the right one, nor the top the bottom, and they are
      apart by the span's magnitude. */
  lemma BoxBoundsOrdered(b: Box)
    requires !IsNullBox(b)
    ensures Left(b) <= Right(b) && Top(b) <= Bottom(b)
    ensures Right(b) - Left(b) == Abs(b.span.x) && Bottom(b) - Top(b) == Abs(b.span.y)
  {
  }

  /** The corner helpers pair the scalar bounds. */
  lemma BoxCornersPairBounds(b: Box)
    requires !IsNullBox(b)
    ensures TopLeft(b) == Vec2(Left(b), Top(b)) && TopRight(b) == Vec2(Right(b), Top(b))
    ensures BottomLeft(b) == Vec2(Left(b), Bottom(b)) && BottomRight(b) == Vec2(Right(b), Bottom(b))
  {
  }

  /** `boundingRect(aabb)`: the same box with its span made non-negative. */
  function BoxBoundingRect(b: Box): (r: Box)
    requires !IsNullBox(b)
    ensures r.span.x > 0.0 && r.span.y > 0.0
    ensures BoundsExactly(AsAabb(r), Ends(b))
  {
    var far := FarCorner(b);
    var topLeft := Vec2(Min(b.position.x, far.x), Min(b.position.y, far.y));
    var bottomRight := Vec2(Max(b.position.x, far.x), Max(b.position.y, far.y));
    var r := Box(topLeft, Sub(bottomRight, topLeft));
    PairExtremes(b.position, far);
    assert Position(AsAabb(r)) == topLeft;
    r
  }

  /** Bounding an already bounding box changes nothing, and the extreme corners are
      kept; so is the region, `[left, right] x [top, bottom]`. */
  lemma BoxBoundingRectIdempotent(b: Box)
    requires !IsNullBox(b)
    ensures BoxBoundingRect(BoxBoundingRect(b)) == BoxBoundingRect(b)
    ensures TopLeft(BoxBoundingRect(b)) == TopLeft(b) && BottomRight(BoxBoundingRect(b)) == BottomRight(b)
    ensures Left(BoxBoundingRect(b)) == Left(b) && Right(BoxBoundingRect(b)) == Right(b)
    ensures Top(BoxBoundingRect(b)) == Top(b) && Bottom(BoxBoundingRect(b)) == Bottom(b)
  {
  }

  /** A box and the AABB rect it describes have the same tightest box: the bounding
      rect of the rect's four vertices is the one of the box's two ends. */
  lemma BoxAgreesWithAabb(b: Box)
    requires !IsNullBox(b)
    ensures BoundsExactly(AsAabb(BoxBoundingRect(b)), Vertices(AsAabb(b)))
  {
    AabbBoundingRect(b.span, b.position);
    var r := BoxBoundingRect(b);
    assert r.position == Vec2(Min(b.position.x, b.position.x + b.span.x), Min(b.position.y, b.position.y + b.span.y));
    assert r.span == Vec2(Abs(b.span.x), Abs(b.span.y));
  }

  // Polygon overloads: running extremes from vertex 0.

  /** Left fold of `std::min` over the coordinates along `axis`, from the first point. */
  function LeastAlong(vs: seq<Vec2>, axis: nat): (m: real)
    requires |vs| > 0 && axis < 2
    ensures IsLeast(vs, axis, m)
  {
    if |vs| == 1 then
      assert At(vs[0], axis) == At(vs[0], axis);
      At(vs[0], axis)
    else
      var init := vs[..|vs| - 1];
      var m := LeastAlong(init, axis);
      LeastExtends(init, vs[|vs| - 1], axis, m);
      assert init + [vs[|vs| - 1]] == vs;
      Min(m, At(vs[|vs| - 1], axis))
  }

  /** Left fold of `std::max` over the coordinates along `axis`, from the first point. */
  function GreatestAlong(vs: seq<Vec2>, axis: nat): (m: real)
    requires |vs| > 0 && axis < 2
    ensures IsGreatest(vs, axis, m)
  {
    if |vs| == 1 then
      assert At(vs[0], axis) == At(vs[0], axis);
      At(vs[0], axis)
    else
      var init := vs[..|vs| - 1];
      var m := GreatestAlong(init, axis);
      GreatestExtends(init, vs[|vs| - 1], axis, m);
      assert init + [vs[|vs| - 1]] == vs;
      Max(m, At(vs[|vs| - 1], axis))
  }

  function PolygonLeft(r: Rect): real
    requires !IsNullRect(r)
  {
    LeastAlong(Vertices(r), 0)
  }

  function PolygonTop(r: Rect): real
    requires !IsNullRect(r)
  {
    LeastAlong(Vertices(r), 1)
  }

  function PolygonRight(r: Rect): real
    requires !IsNullRect(r)
  {
    GreatestAlong(Vertices(r), 0)
  }

  function PolygonBottom(r: Rect): real
    requires !IsNullRect(r)
  {
    GreatestAlong(Vertices(r), 1)
  }

  /** Each scalar bound of a polygon is at or beyond every vertex on its side, and some
      vertex attains it. */
  lemma PolygonBoundsAreExtremes(r: Rect)
    requires !IsNullRect(r)
    ensures forall i :: 0 <= i < VertexCount(r) ==>
              PolygonLeft(r) <= Vertex(r, i).x <= PolygonRight(r) && PolygonTop(r) <= Vertex(r, i).y <= PolygonBottom(r)
    ensures exists i :: 0 <= i < VertexCount(r) && Vertex(r, i).x == PolygonLeft(r)
    ensures exists i :: 0 <= i < VertexCount(r) && Vertex(r, i).x == PolygonRight(r)
    ensures exists i :: 0 <= i < VertexCount(r) && Vertex(r, i).y == PolygonTop(r)
    ensures exists i :: 0 <= i < VertexCount(r) && Vertex(r, i).y == PolygonBottom(r)
  {
    var vs := Vertices(r);
    forall i | 0 <= i < VertexCount(r)
      ensures PolygonLeft(r) <= Vertex(r, i).x <= PolygonRight(r) && PolygonTop(r) <= Vertex(r, i).y <= PolygonBottom(r)
    {
      assert At(vs[i], 0) == Vertex(r, i).x && At(vs[i], 1) == Vertex(r, i).y;
    }
    var a :| 0 <= a < |vs| && At(vs[a], 0) == PolygonLeft(r);
    var b :| 0 <= b < |vs| && At(vs[b], 0) == PolygonRight(r);
    var c :| 0 <= c < |vs| && At(vs[c], 1) == PolygonTop(r);
    var d :| 0 <= d < |vs| && At(vs[d], 1) == PolygonBottom(r);
    assert Vertex(r, a).x == PolygonLeft(r) && Vertex(r, b).x == PolygonRight(r);
    assert Vertex(r, c).y == PolygonTop(r) && Vertex(r, d).y == PolygonBottom(r);
  }

  /** `topLeftBounding(polygon)`: one loop keeping the running least x and least y. */
  function PolygonTopLeft(r: Rect): (c: Vec2)
    requires !IsNullRect(r)
    ensures IsLeast(Vertices(r), 0, c.x) && IsLeast(Vertices(r), 1, c.y)
  {
    Vec2(LeastAlong(Vertices(r), 0), LeastAlong(Vertices(r), 1))
  }

  /** `topRightBounding(polygon)`: the running greatest x and least y. */
  function PolygonTopRight(r: Rect): (c: Vec2)
    requires !IsNullRect(r)
    ensures IsGreatest(Vertices(r), 0, c.x) && IsLeast(Vertices(r), 1, c.y)
  {
    Vec2(GreatestAlong(Vertices(r), 0), LeastAlong(Vertices(r), 1))
  }

  /** `bottomLeftBounding(polygon)`: the running least x and greatest y. */
  function PolygonBottomLeft(r: Rect): (c: Vec2)
    requires !IsNullRect(r)
    ensures IsLeast(Vertices(r), 0, c.x) && IsGreatest(Vertices(r), 1, c.y)
  {
    Vec2(LeastAlong(Vertices(r), 0), GreatestAlong(Vertices(r), 1))
  }

  /** `boundingRect(polygon)`: position at the least coordinates, span to the greatest;
      the same tightest box `makeBoundingRect` returns. */
  function PolygonBoundingRect(r: Rect): (b: Box)
    requires !IsNullRect(r)
    ensures BoundsExactly(AsAabb(b), Vertices(r))
    ensures b.span.x >= 0.0 && b.span.y >= 0.0
  {
    var vs := Vertices(r);
    var position := Vec2(LeastAlong(vs, 0), LeastAlong(vs, 1));
    var b := Box(position, Sub(Vec2(GreatestAlong(vs, 0), GreatestAlong(vs, 1)), position));
    assert Position(AsAabb(b)) == position;
    assert IsLeast(vs, 0, position.x) && IsGreatest(vs, 0, position.x + b.span.x);
    b
  }

  /** The polygon corner helpers are the corners of the polygon's bounding box: top-left
      is its position, top-right and bottom-left lie one span away along x and y. */
  lemma PolygonCornersAreBoxCorners(r: Rect)
    requires !IsNullRect(r)
    ensures var b := PolygonBoundingRect(r);
      && PolygonTopLeft(r) == b.position
      && PolygonTopRight(r) == Vec2(b.position.x + b.span.x, b.position.y)
      && PolygonBottomLeft(r) == Vec2(b.position.x, b.position.y + b.span.y)
  {
  }

  // Generic-object overloads, built from an object's four scalar bounds.

  function GenericTopLeft<T>(obj: T, left: T --> real, top: T --> real): Vec2
    requires left.requires(obj) && top.requires(obj)
  {
    Vec2(left(obj), top(obj))
  }

  function GenericBottomRight<T>(obj: T, right: T --> real, bottom: T --> real): Vec2
    requires right.requires(obj) && bottom.requires(obj)
  {
    Vec2(right(obj), bottom(obj))
  }

  /** `boundingRect(object)`, which asserts a non-null object with at least two vertices:
      the top-left corner and the offset to the bottom-right one. */
  function GenericBoundingRect<T>(obj: T, isNull: T -> bool, vertexCount: T -> nat,
                                  left: T --> real, top: T --> real, right: T --> real, bottom: T --> real): (b: Box)
    requires !isNull(obj) && 2 <= vertexCount(obj)
    requires left.requires(obj) && top.requires(obj) && right.requires(obj) && bottom.requires(obj)
    ensures b.position == Vec2(left(obj), top(obj))
    ensures Add(b.position, b.span) == Vec2(right(obj), bottom(obj))
  {
    var position := GenericTopLeft(obj, left, top);
    Box(position, Sub(GenericBottomRight(obj, right, bottom), position))
  }

  /** For a polygon, the generic overload built from the polygon's scalar bounds gives
      the polygon overload's box. */
  lemma GenericAgreesWithPolygon(r: Rect)
    requires !IsNullRect(r)
    ensures GenericBoundingRect(r, IsNullRect, VertexCount, PolygonLeft, PolygonTop, PolygonRight, PolygonBottom)
         == PolygonBoundingRect(r)
  {
  }

  /** For a box, the generic overload built from the box's scalar bounds gives the box
      overload's result. */
  lemma GenericAgreesWithBox(b: Box)
    requires !IsNullBox(b)
    ensures GenericBoundingRect(b, IsNullBox, (c: Box) => 4, Left, Top, Right, Bottom) == BoxBoundingRect(b)
  {
  }

  /** `boundingRect(v1, v2)`: position at the element-wise minimum, span the element-wise
      magnitude of `v1 - v2`. It is the tightest box around the two points. */
  function BoundingRectOfTwo(v1: Vec2, v2: Vec2): (b: Box)
    ensures BoundsExactly(AsAabb(b), [v1, v2])
    ensures Add(b.position, b.span) == Vec2(Max(v1.x, v2.x), Max(v1.y, v2.y))
  {
    var d := Sub(v1, v2);
    var b := Box(Vec2(Min(v1.x, v2.x), Min(v1.y, v2.y)), Vec2(Abs(d.x), Abs(d.y)));
    PairExtremes(v1, v2);
    assert Position(AsAabb(b)) == b.position;
    b
  }

  /** The order of the two points does not matter, and for two points that differ in
      both coordinates the result is the box overload's for the box from `v1` to `v2`. */
  lemma BoundingRectOfTwoSymmetric(v1: Vec2, v2: Vec2)
    ensures BoundingRectOfTwo(v1, v2) == BoundingRectOfTwo(v2, v1)
    ensures v1.x != v2.x && v1.y != v2.y ==> BoundingRectOfTwo(v1, v2) == BoxBoundingRect(Box(v1, Sub(v2, v1)))
  {
    if v1.x != v2.x && v1.y != v2.y {
      var b := Box(v1, Sub(v2, v1));
      assert FarCorner(b) == v2;
    }
  }
}
