/** Rects: four corners generated from a span and pushed through an ordered list of
    transform components, with edges as segments between consecutive corners. */
module Rects {

  import opened Vectors
  import opened Lines
  import opened Transforms

  /** `Rect<V, Components...>`: the span and the component values, in template order. */
  datatype Rect = Rect(span: Vec2, components: seq<Transform>)

  /** The axis-aligned bounding box type `Rect<V, component::Translation<V>>`, built
      with the `(span, translation)` constructor. */
  function Aabb(span: Vec2, translation: Vec2): Rect
  {
    Rect(span, [ComponentTranslation(translation)])
  }

  /** A default-constructed rect: zero span, default components. */
  function DefaultRect(components: seq<Transform>): (r: Rect)
    ensures IsNullRect(r)
  {
    Rect(Vectors.Default(), components)
  }

  function VertexCount(r: Rect): nat { 4 }

  function EdgeCount(r: Rect): nat { 4 }

  /** A rect is null when either span element is zero. */
  predicate IsNullRect(r: Rect)
  {
    r.span.x == 0.0 || r.span.y == 0.0
  }

  /** Corner `i` before any transform: x is the span's x for corners 1 and 2, y is the
      span's y for corners 2 and 3, and every other element is 0. */
  function RawCorner(span: Vec2, i: nat): Vec2
  {
    Vec2(if i == 1 || i == 2 then span.x else 0.0, if i == 2 || i == 3 then span.y else 0.0)
  }

  /** `rect.vertex(i)`: the raw corner through every component, in order. */
  function Vertex(r: Rect, i: nat): Vec2
    requires i < VertexCount(r) && !IsNullRect(r)
  {
    ApplyAll(r.components, RawCorner(r.span, i))
  }

  /** The index after `i` around the four corners, `(i + 1) % vertexCount()`, written
      as a case split: the remainder only wraps at the last corner. */
  function NextIndex(i: nat): (j: nat)
    requires i < 4
    ensures j < 4
  {
    if i == 3 then 0 else i + 1
  }

  /** `rect.edge(i)`: the segment from vertex `i` to the next vertex. */
  function Edge(r: Rect, i: nat): BasicLine
    requires i < EdgeCount(r) && !IsNullRect(r)
  {
    var first := Vertex(r, i);
    var second := Vertex(r, NextIndex(i));
    MakeLine(Segment, first, Sub(second, first))
  }

  /** All vertices, in index order. */
  function Vertices(r: Rect): (vs: seq<Vec2>)
    requires !IsNullRect(r)
    ensures |vs| == VertexCount(r)
    ensures forall i :: 0 <= i < |vs| ==> vs[i] == Vertex(r, i)
  {
    [Vertex(r, 0), Vertex(r, 1), Vertex(r, 2), Vertex(r, 3)]
  }

  /** All edges, in index order. */
  function Edges(r: Rect): (es: seq<BasicLine>)
    requires !IsNullRect(r)
    ensures |es| == EdgeCount(r)
    ensures forall i :: 0 <= i < |es| ==> es[i] == Edge(r, i)
  {
    [Edge(r, 0), Edge(r, 1), Edge(r, 2), Edge(r, 3)]
  }

  /** What the polygon routines need of a rect: it is not null, and none of its edges
      is null (each edge reaches the line-line intersection, which asserts that). */
  predicate Proper(r: Rect)
  {
    !IsNullRect(r) && AllNonNull(Edges(r))
  }

  /** Before transforms, consecutive corners differ by `(span.x, 0)`, `(0, span.y)`,
      `(-span.x, 0)` and `(0, -span.y)`: the raw corners trace the box `[0, span]`. */
  lemma RawCornersTraceBox(span: Vec2)
    ensures Sub(RawCorner(span, 1), RawCorner(span, 0)) == Vec2(span.x, 0.0)
    ensures Sub(RawCorner(span, 2), RawCorner(span, 1)) == Vec2(0.0, span.y)
    ensures Sub(RawCorner(span, 3), RawCorner(span, 2)) == Vec2(-span.x, 0.0)
    ensures Sub(RawCorner(span, 0), RawCorner(span, 3)) == Vec2(0.0, -span.y)
    ensures RawCorner(span, 0) == Zero()
  {
  }

  /** The components act in list order: a rect whose list is `ts1 + ts2` has the
      vertices of the `ts1` rect pushed through `ts2`. */
  lemma VertexFoldsInOrder(span: Vec2, ts1: seq<Transform>, ts2: seq<Transform>, i: nat)
    requires i < 4 && !IsNullRect(Rect(span, ts1))
    ensures Vertex(Rect(span, ts1 + ts2), i) == ApplyAll(ts2, Vertex(Rect(span, ts1), i))
  {
    ApplyAllConcat(ts1, ts2, RawCorner(span, i));
  }

  /** The edges close the loop: their directions sum to the zero vector. */
  lemma EdgesCloseLoop(r: Rect)
    requires !IsNullRect(r)
    ensures Add(Add(Add(Edge(r, 0).direction, Edge(r, 1).direction), Edge(r, 2).direction), Edge(r, 3).direction) == Zero()
  {
  }

  /** An AABB's vertices are its raw corners moved by its translation. */
  lemma AabbVertices(span: Vec2, t: Vec2, i: nat)
    requires i < 4 && !IsNullRect(Aabb(span, t))
    ensures Vertex(Aabb(span, t), i) == Add(RawCorner(span, i), t)
  {
    ApplyAllSingle(ComponentTranslation(t), RawCorner(span, i));
  }

  /** A rect whose components are all translations has the raw box's edge directions:
      `(span.x, 0)`, `(0, span.y)`, `(-span.x, 0)`, `(0, -span.y)`. */
  lemma TranslatedEdgeDirections(r: Rect)
    requires !IsNullRect(r)
    requires forall i :: 0 <= i < |r.components| ==> IsTranslation(r.components[i])
    ensures Edge(r, 0).direction == Vec2(r.span.x, 0.0)
    ensures Edge(r, 1).direction == Vec2(0.0, r.span.y)
    ensures Edge(r, 2).direction == Vec2(-r.span.x, 0.0)
    ensures Edge(r, 3).direction == Vec2(0.0, -r.span.y)
  {
    var s := r.span;
    TranslationsKeepDifferences(r.components, RawCorner(s, 1), RawCorner(s, 0));
    TranslationsKeepDifferences(r.components, RawCorner(s, 2), RawCorner(s, 1));
    TranslationsKeepDifferences(r.components, RawCorner(s, 3), RawCorner(s, 2));
    TranslationsKeepDifferences(r.components, RawCorner(s, 0), RawCorner(s, 3));
  }

  /** For a rect of translations only, being null is having zero area: the cross
      product of the first two edges is `span.x * span.y`. A non-null one is Proper. */
  lemma TranslatedRectNullIffZeroArea(r: Rect)
    requires forall i :: 0 <= i < |r.components| ==> IsTranslation(r.components[i])
    ensures IsNullRect(r) <==> r.span.x * r.span.y == 0.0
    ensures !IsNullRect(r) ==> Cross(Edge(r, 0).direction, Edge(r, 1).direction) == r.span.x * r.span.y
    ensures !IsNullRect(r) ==> Proper(r)
  {
    if !IsNullRect(r) {
      TranslatedEdgeDirections(r);
      NonZeroProduct(r.span.x, r.span.y);
    }
  }

  lemma NonZeroProduct(a: real, b: real)
    requires a != 0.0 && b != 0.0
    ensures a * b != 0.0
  {
  }

  /** An AABB's edges run counter-clockwise from its translation: along the bottom,
      up the right side, back along the top and down the left side. */
  lemma AabbEdges(span: Vec2, t: Vec2)
    requires !IsNullRect(Aabb(span, t))
    ensures Edge(Aabb(span, t), 0) == MakeLine(Segment, t, Vec2(span.x, 0.0))
    ensures Edge(Aabb(span, t), 1) == MakeLine(Segment, Vec2(t.x + span.x, t.y), Vec2(0.0, span.y))
    ensures Edge(Aabb(span, t), 2) == MakeLine(Segment, Vec2(t.x + span.x, t.y + span.y), Vec2(-span.x, 0.0))
    ensures Edge(Aabb(span, t), 3) == MakeLine(Segment, Vec2(t.x, t.y + span.y), Vec2(0.0, -span.y))
  {
    var r := Aabb(span, t);
    TranslatedEdgeDirections(r);
    assert Edge(r, 0).location == t by { AabbVertices(span, t, 0); }
    assert Edge(r, 1).location == Vec2(t.x + span.x, t.y) by { AabbVertices(span, t, 1); }
    assert Edge(r, 2).location == Vec2(t.x + span.x, t.y + span.y) by { AabbVertices(span, t, 2); }
    assert Edge(r, 3).location == Vec2(t.x, t.y + span.y) by { AabbVertices(span, t, 3); }
  }

  /** The span-(1, 1) AABB at the origin has the edges
      `((0,0),(1,0))`, `((1,0),(0,1))`, `((1,1),(-1,0))`, `((0,1),(0,-1))`. */
  lemma UnitAabbEdges()
    ensures Edges(UnitAabb()) == [MakeLine(Segment, Vec2(0.0, 0.0), Vec2(1.0, 0.0)), MakeLine(Segment, Vec2(1.0, 0.0), Vec2(0.0, 1.0)),
                                  MakeLine(Segment, Vec2(1.0, 1.0), Vec2(-1.0, 0.0)), MakeLine(Segment, Vec2(0.0, 1.0), Vec2(0.0, -1.0))]
  {
    AabbEdges(Vec2(1.0, 1.0), Zero());
  }

  /** The AABB with span `(1, 1)` at the origin, the rect most tests use. */
  function UnitAabb(): Rect { Aabb(Vec2(1.0, 1.0), Zero()) }

  /** Edge `i` runs from vertex `i` to the next vertex. */
  lemma EdgeJoinsVertices(r: Rect, i: nat)
    requires i < EdgeCount(r) && !IsNullRect(r)
    ensures Edge(r, i).kind == Segment
    ensures FirstVertex(Edge(r, i)) == Vertex(r, i)
    ensures SecondVertex(Edge(r, i)) == Vertex(r, NextIndex(i))
  {
  }

  /** Each edge of a proper rect is non-null. */
  lemma ProperEdgeNonNull(r: Rect, i: nat)
    requires Proper(r) && i < EdgeCount(r)
    ensures !IsNullLine(Edge(r, i))
  {
    assert Edges(r)[i] == Edge(r, i);
  }
}
