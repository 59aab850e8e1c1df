/** `makeBoundingRect(polygon)`: the axis-aligned bounding box of a polygon's vertices,
    returned as an AABB `Rect(span, translation)`. */
module BoundingRect {

  import opened Vectors
  import opened Transforms
  import opened Rects

  /** `m` is the least coordinate along `axis` among `vs`, and some point attains it. */
  predicate IsLeast(vs: seq<Vec2>, axis: nat, m: real)
    requires axis < 2
  {
    (forall i :: 0 <= i < |vs| ==> m <= At(vs[i], axis)) &&
    (exists i :: 0 <= i < |vs| && At(vs[i], axis) == m)
  }

  /** `m` is the greatest coordinate along `axis` among `vs`, and some point attains it. */
  predicate IsGreatest(vs: seq<Vec2>, axis: nat, m: real)
    requires axis < 2
  {
    (forall i :: 0 <= i < |vs| ==> At(vs[i], axis) <= m) &&
    (exists i :: 0 <= i < |vs| && At(vs[i], axis) == m)
  }

  /** A rect shaped like an AABB: a single `component::Translation`. */
  predicate IsAabb(box: Rect)
  {
    |box.components| == 1 && box.components[0].ComponentTranslation?
  }

  /** The lower corner of an AABB, its translation. */
  function Position(box: Rect): Vec2
    requires IsAabb(box)
  {
    box.components[0].translation
  }

  /** The AABB's lower corner holds the least coordinates of `lows` and its upper corner,
      position plus span, the greatest coordinates of `highs`. */
  predicate Spans(box: Rect, lows: seq<Vec2>, highs: seq<Vec2>)
  {
    IsAabb(box) &&
    IsLeast(lows, 0, Position(box).x) && IsLeast(lows, 1, Position(box).y) &&
    IsGreatest(highs, 0, Position(box).x + box.span.x) && IsGreatest(highs, 1, Position(box).y + box.span.y)
  }

  /** The AABB is the tightest box around `vs`. */
  predicate BoundsExactly(box: Rect, vs: seq<Vec2>)
  {
    Spans(box, vs, vs)
  }

  /** `v` lies in the closed box between the AABB's corners. */
  predicate Inside(box: Rect, v: Vec2)
    requires IsAabb(box)
  {
    var p := Position(box);
    p.x <= v.x <= p.x + box.span.x && p.y <= v.y <= p.y + box.span.y
  }

  /** A running minimum extended by one more point stays the minimum. */
  lemma LeastExtends(vs: seq<Vec2>, v: Vec2, axis: nat, m: real)
    requires axis < 2 && IsLeast(vs, axis, m)
    ensures IsLeast(vs + [v], axis, Min(m, At(v, axis)))
  {
    var ws := vs + [v];
    var k :| 0 <= k < |vs| && At(vs[k], axis) == m;
    assert ws[k] == vs[k] && ws[|vs|] == v;
    forall i | 0 <= i < |ws|
      ensures Min(m, At(v, axis)) <= At(ws[i], axis)
    {
      if i < |vs| {
        assert ws[i] == vs[i];
      }
    }
  }

  /** A running maximum extended by one more point stays the maximum. */
  lemma GreatestExtends(vs: seq<Vec2>, v: Vec2, axis: nat, m: real)
    requires axis < 2 && IsGreatest(vs, axis, m)
    ensures IsGreatest(vs + [v], axis, Max(m, At(v, axis)))
  {
    var ws := vs + [v];
    var k :| 0 <= k < |vs| && At(vs[k], axis) == m;
    assert ws[k] == vs[k] && ws[|vs|] == v;
    forall i | 0 <= i < |ws|
      ensures At(ws[i], axis) <= Max(m, At(v, axis))
    {
      if i < |vs| {
        assert ws[i] == vs[i];
      }
    }
  }

  /** `makeBoundingRectImpl`, with the running corners started at vertex 0: the result
      is the AABB from the least to the greatest vertex coordinates, with a non-negative
      span, and every vertex lies inside it. */
  method MakeBoundingRect(r: Rect) returns (box: Rect)
    requires !IsNullRect(r)
    ensures BoundsExactly(box, Vertices(r))
    ensures box.span.x >= 0.0 && box.span.y >= 0.0
    ensures forall i :: 0 <= i < VertexCount(r) ==> Inside(box, Vertex(r, i))
  {
    var vs := Vertices(r);
    var topLeft, bottomRight := vs[0], vs[0];
    var i := 1;
    assert vs[..1] == [vs[0]];
    while i < VertexCount(r)
      invariant 1 <= i <= VertexCount(r)
      invariant IsLeast(vs[..i], 0, topLeft.x) && IsLeast(vs[..i], 1, topLeft.y)
      invariant IsGreatest(vs[..i], 0, bottomRight.x) && IsGreatest(vs[..i], 1, bottomRight.y)
    {
      var v := vs[i];
      assert vs[..i + 1] == vs[..i] + [v];
      LeastExtends(vs[..i], v, 0, topLeft.x);
      LeastExtends(vs[..i], v, 1, topLeft.y);
      GreatestExtends(vs[..i], v, 0, bottomRight.x);
      GreatestExtends(vs[..i], v, 1, bottomRight.y);
      topLeft := Vec2(Min(topLeft.x, v.x), Min(topLeft.y, v.y));
      bottomRight := Vec2(Max(bottomRight.x, v.x), Max(bottomRight.y, v.y));
      i := i + 1;
    }
    assert vs[..i] == vs;
    box := Aabb(Sub(bottomRight, topLeft), topLeft);
    assert Position(box) == topLeft;
    forall j | 0 <= j < VertexCount(r)
      ensures Inside(box, Vertex(r, j))
    {
      assert vs[j] == Vertex(r, j);
      assert At(vs[j], 0) == vs[j].x && At(vs[j], 1) == vs[j].y;
    }
  }

  /** The tightest box is unique: it is fixed by the points alone. */
  lemma BoundsAreUnique(b1: Rect, b2: Rect, vs: seq<Vec2>)
    requires BoundsExactly(b1, vs) && BoundsExactly(b2, vs)
    ensures b1 == b2
  {
    var p1, p2 := Position(b1), Position(b2);
    var i1 :| 0 <= i1 < |vs| && At(vs[i1], 0) == p1.x;
    var i2 :| 0 <= i2 < |vs| && At(vs[i2], 0) == p2.x;
    var j1 :| 0 <= j1 < |vs| && At(vs[j1], 1) == p1.y;
    var j2 :| 0 <= j2 < |vs| && At(vs[j2], 1) == p2.y;
    assert p1 == p2;
    var k1 :| 0 <= k1 < |vs| && At(vs[k1], 0) == p1.x + b1.span.x;
    var k2 :| 0 <= k2 < |vs| && At(vs[k2], 0) == p2.x + b2.span.x;
    var l1 :| 0 <= l1 < |vs| && At(vs[l1], 1) == p1.y + b1.span.y;
    var l2 :| 0 <= l2 < |vs| && At(vs[l2], 1) == p2.y + b2.span.y;
    assert b1.span == b2.span;
    assert b1.components == [ComponentTranslation(p1)];
  }

  /** A non-null AABB's tightest box has span `(|span.x|, |span.y|)` at the least corner;
      so an AABB with a positive span is its own bounding rect. */
  lemma AabbBoundingRect(span: Vec2, t: Vec2)
    requires !IsNullRect(Aabb(span, t))
    ensures BoundsExactly(Aabb(Vec2(Abs(span.x), Abs(span.y)), Vec2(Min(t.x, t.x + span.x), Min(t.y, t.y + span.y))),
                          Vertices(Aabb(span, t)))
    ensures span.x > 0.0 && span.y > 0.0 ==> BoundsExactly(Aabb(span, t), Vertices(Aabb(span, t)))
  {
    var vs := Vertices(Aabb(span, t));
    AabbVertices(span, t, 0);
    AabbVertices(span, t, 1);
    AabbVertices(span, t, 2);
    AabbVertices(span, t, 3);
    assert vs == [t, Vec2(t.x + span.x, t.y), Vec2(t.x + span.x, t.y + span.y), Vec2(t.x, t.y + span.y)];
    var box := Aabb(Vec2(Abs(span.x), Abs(span.y)), Vec2(Min(t.x, t.x + span.x), Min(t.y, t.y + span.y)));
    assert Position(box) == Vec2(Min(t.x, t.x + span.x), Min(t.y, t.y + span.y));
    assert IsLeast(vs, 0, Position(box).x) by {
      if span.x < 0.0 { assert At(vs[1], 0) == Position(box).x; } else { assert At(vs[0], 0) == Position(box).x; }
    }
    assert IsLeast(vs, 1, Position(box).y) by {
      if span.y < 0.0 { assert At(vs[2], 1) == Position(box).y; } else { assert At(vs[0], 1) == Position(box).y; }
    }
    assert IsGreatest(vs, 0, Position(box).x + box.span.x) by {
      if span.x < 0.0 { assert At(vs[0], 0) == Position(box).x + box.span.x; } else { assert At(vs[1], 0) == Position(box).x + box.span.x; }
    }
    assert IsGreatest(vs, 1, Position(box).y + box.span.y) by {
      if span.y < 0.0 { assert At(vs[0], 1) == Position(box).y + box.span.y; } else { assert At(vs[2], 1) == Position(box).y + box.span.y; }
    }
  }

  /** The AABB with span `(10, 10)` at `(-5, -5)` is its own bounding rect, so the
      rect `makeBoundingRect` returns for it compares equal to it. */
  lemma TranslatedAabbBoundsItself()
    ensures BoundsExactly(Aabb(Vec2(10.0, 10.0), Vec2(-5.0, -5.0)), Vertices(Aabb(Vec2(10.0, 10.0), Vec2(-5.0, -5.0))))
  {
    AabbBoundingRect(Vec2(10.0, 10.0), Vec2(-5.0, -5.0));
  }

  // As written, the running corners start from sentinels: the top-left corner from
  // `numeric_limits::max()` and the bottom-right corner from `numeric_limits::min()`.
  // For integers `min()` is the most negative value, but for floating-point types it is
  // the smallest positive value, so a polygon lying wholly below or left of zero gets a
  // bottom-right corner at that positive value.

  /** Left fold of element-wise `std::min` over `vs`, starting from `acc`. */
  function LowFold(vs: seq<Vec2>, acc: Vec2): Vec2
  {
    if vs == [] then acc else LowFold(vs[1..], Vec2(Min(acc.x, vs[0].x), Min(acc.y, vs[0].y)))
  }

  /** Left fold of element-wise `std::max` over `vs`, starting from `acc`. */
  function HighFold(vs: seq<Vec2>, acc: Vec2): Vec2
  {
    if vs == [] then acc else HighFold(vs[1..], Vec2(Max(acc.x, vs[0].x), Max(acc.y, vs[0].y)))
  }

  /** The low fold is the least point coordinates of the accumulator and the points. */
  lemma {:induction false} LowFoldIsLeast(vs: seq<Vec2>, acc: Vec2)
    ensures IsLeast([acc] + vs, 0, LowFold(vs, acc).x) && IsLeast([acc] + vs, 1, LowFold(vs, acc).y)
  {
    if vs == [] {
      assert At(([acc] + vs)[0], 0) == acc.x && At(([acc] + vs)[0], 1) == acc.y;
    } else {
      var next := Vec2(Min(acc.x, vs[0].x), Min(acc.y, vs[0].y));
      LowFoldIsLeast(vs[1..], next);
      var ws, us := [acc] + vs, [next] + vs[1..];
      var m := LowFold(vs, acc);
      assert m == LowFold(vs[1..], next);
      forall axis | 0 <= axis < 2
        ensures IsLeast(ws, axis, At(m, axis))
      {
        var k :| 0 <= k < |us| && At(us[k], axis) == At(m, axis);
        if k == 0 {
          if At(next, axis) == At(acc, axis) { assert At(ws[0], axis) == At(m, axis); }
          else { assert At(ws[1], axis) == At(m, axis); }
        } else {
          assert ws[k + 1] == us[k];
        }
        forall i | 0 <= i < |ws|
          ensures At(m, axis) <= At(ws[i], axis)
        {
          if i >= 2 { assert ws[i] == us[i - 1]; }
          else { assert At(m, axis) <= At(us[0], axis); }
        }
      }
      assert At(m, 0) == m.x && At(m, 1) == m.y;
    }
  }

  /** The high fold is the greatest point coordinates of the accumulator and the points. */
  lemma {:induction false} HighFoldIsGreatest(vs: seq<Vec2>, acc: Vec2)
    ensures IsGreatest([acc] + vs, 0, HighFold(vs, acc).x) && IsGreatest([acc] + vs, 1, HighFold(vs, acc).y)
  {
    if vs == [] {
      assert At(([acc] + vs)[0], 0) == acc.x && At(([acc] + vs)[0], 1) == acc.y;
    } else {
      var next := Vec2(Max(acc.x, vs[0].x), Max(acc.y, vs[0].y));
      HighFoldIsGreatest(vs[1..], next);
      var ws, us := [acc] + vs, [next] + vs[1..];
      var m := HighFold(vs, acc);
      assert m == HighFold(vs[1..], next);
      forall axis | 0 <= axis < 2
        ensures IsGreatest(ws, axis, At(m, axis))
      {
        var k :| 0 <= k < |us| && At(us[k], axis) == At(m, axis);
        if k == 0 {
          if At(next, axis) == At(acc, axis) { assert At(ws[0], axis) == At(m, axis); }
          else { assert At(ws[1], axis) == At(m, axis); }
        } else {
          assert ws[k + 1] == us[k];
        }
        forall i | 0 <= i < |ws|
          ensures At(ws[i], axis) <= At(m, axis)
        {
          if i >= 2 { assert ws[i] == us[i - 1]; }
          else { assert At(us[0], axis) <= At(m, axis); }
        }
      }
      assert At(m, 0) == m.x && At(m, 1) == m.y;
    }
  }

  /** `makeBoundingRectImpl` as written, with the sentinels as parameters: `ceiling` for
      `numeric_limits::max()` and `floor` for `numeric_limits::min()`. The sentinels take
      part in the extremes as if they were extra points. */
  function SentinelBoundingRect(r: Rect, ceiling: real, floor: real): (box: Rect)
    requires !IsNullRect(r)
    ensures Spans(box, [Vec2(ceiling, ceiling)] + Vertices(r), [Vec2(floor, floor)] + Vertices(r))
  {
    var topLeft := LowFold(Vertices(r), Vec2(ceiling, ceiling));
    var bottomRight := HighFold(Vertices(r), Vec2(floor, floor));
    LowFoldIsLeast(Vertices(r), Vec2(ceiling, ceiling));
    HighFoldIsGreatest(Vertices(r), Vec2(floor, floor));
    Aabb(Sub(bottomRight, topLeft), topLeft)
  }

  /** With a positive `floor`, the smallest positive floating-point value, an AABB lying
      wholly below and left of it, such as span `(1, 1)` at `(-5, -5)`, gets its
      bottom-right corner at `(floor, floor)`: the result is not its bounding rect. */
  lemma SentinelMisplacesNegativeBox(span: Vec2, t: Vec2, ceiling: real, floor: real)
    requires span.x > 0.0 && span.y > 0.0 && floor > 0.0
    requires t.x + span.x < floor && t.y + span.y < floor
    requires t.x <= ceiling && t.y <= ceiling
    ensures SentinelBoundingRect(Aabb(span, t), ceiling, floor) == Aabb(Vec2(floor - t.x, floor - t.y), t)
    ensures !BoundsExactly(SentinelBoundingRect(Aabb(span, t), ceiling, floor), Vertices(Aabb(span, t)))
  {
    var r := Aabb(span, t);
    var vs := Vertices(r);
    var lows, highs := [Vec2(ceiling, ceiling)] + vs, [Vec2(floor, floor)] + vs;
    AabbVertexList(span, t);
    assert IsLeast(lows, 0, t.x) && IsLeast(lows, 1, t.y) by {
      assert At(lows[1], 0) == t.x && At(lows[1], 1) == t.y;
    }
    assert IsGreatest(highs, 0, floor) && IsGreatest(highs, 1, floor) by {
      assert At(highs[0], 0) == floor && At(highs[0], 1) == floor;
    }
    SentinelResult(r, ceiling, floor, t, Vec2(floor, floor));
    var box := SentinelBoundingRect(r, ceiling, floor);
    if BoundsExactly(box, vs) {
      AabbBoundingRect(span, t);
      BoundsAreUnique(box, r, vs);
      assert false;
    }
  }

  /** The vertices of an AABB, bottom-left first and counter-clockwise. */
  lemma AabbVertexList(span: Vec2, t: Vec2)
    requires !IsNullRect(Aabb(span, t))
    ensures Vertices(Aabb(span, t)) == [t, Vec2(t.x + span.x, t.y), Vec2(t.x + span.x, t.y + span.y), Vec2(t.x, t.y + span.y)]
  {
    AabbVertices(span, t, 0);
    AabbVertices(span, t, 1);
    AabbVertices(span, t, 2);
    AabbVertices(span, t, 3);
  }

  /** The as-written result is pinned down by the extremes over the sentinel-extended
      point lists. */
  lemma SentinelResult(r: Rect, ceiling: real, floor: real, lo: Vec2, hi: Vec2)
    requires !IsNullRect(r)
    requires IsLeast([Vec2(ceiling, ceiling)] + Vertices(r), 0, lo.x) && IsLeast([Vec2(ceiling, ceiling)] + Vertices(r), 1, lo.y)
    requires IsGreatest([Vec2(floor, floor)] + Vertices(r), 0, hi.x) && IsGreatest([Vec2(floor, floor)] + Vertices(r), 1, hi.y)
    ensures SentinelBoundingRect(r, ceiling, floor) == Aabb(Sub(hi, lo), lo)
  {
    var box := SentinelBoundingRect(r, ceiling, floor);
    var p := Position(box);
    var lows, highs := [Vec2(ceiling, ceiling)] + Vertices(r), [Vec2(floor, floor)] + Vertices(r);
    ExtremesAreUnique(lows, highs, 0, p.x, lo.x, p.x + box.span.x, hi.x);
    ExtremesAreUnique(lows, highs, 1, p.y, lo.y, p.y + box.span.y, hi.y);
    assert box.components == [ComponentTranslation(lo)];
  }

  /** Least and greatest coordinates are unique. */
  lemma ExtremesAreUnique(lows: seq<Vec2>, highs: seq<Vec2>, axis: nat, lo1: real, lo2: real, hi1: real, hi2: real)
    requires axis < 2
    requires IsLeast(lows, axis, lo1) && IsLeast(lows, axis, lo2)
    requires IsGreatest(highs, axis, hi1) && IsGreatest(highs, axis, hi2)
    ensures lo1 == lo2 && hi1 == hi2
  {
    var i1 :| 0 <= i1 < |lows| && At(lows[i1], axis) == lo1;
    var i2 :| 0 <= i2 < |lows| && At(lows[i2], axis) == lo2;
    var j1 :| 0 <= j1 < |highs| && At(highs[j1], axis) == hi1;
    var j2 :| 0 <= j2 < |highs| && At(highs[j2], axis) == hi2;
  }

  /** When the sentinels lie outside the points' range, as `numeric_limits::min()`
      does for integers, the as-written routine gives the tightest box. */
  lemma SentinelsHarmlessOutsideRange(r: Rect, ceiling: real, floor: real)
    requires !IsNullRect(r)
    requires forall i :: 0 <= i < 4 ==> floor <= Vertex(r, i).x <= ceiling && floor <= Vertex(r, i).y <= ceiling
    ensures BoundsExactly(SentinelBoundingRect(r, ceiling, floor), Vertices(r))
  {
    var box := SentinelBoundingRect(r, ceiling, floor);
    var vs := Vertices(r);
    var p := Position(box);
    assert forall k :: 0 <= k < |vs| ==> vs[k] == Vertex(r, k);
    LowSentinelDropsOut(Vec2(ceiling, ceiling), vs, 0, p.x);
    LowSentinelDropsOut(Vec2(ceiling, ceiling), vs, 1, p.y);
    HighSentinelDropsOut(Vec2(floor, floor), vs, 0, p.x + box.span.x);
    HighSentinelDropsOut(Vec2(floor, floor), vs, 1, p.y + box.span.y);
  }

  /** A leading point at or above every other point along `axis` does not change the
      least coordinate. */
  lemma LowSentinelDropsOut(c: Vec2, vs: seq<Vec2>, axis: nat, m: real)
    requires axis < 2 && |vs| > 0
    requires forall k :: 0 <= k < |vs| ==> At(vs[k], axis) <= At(c, axis)
    requires IsLeast([c] + vs, axis, m)
    ensures IsLeast(vs, axis, m)
  {
    var lows := [c] + vs;
    assert forall k :: 0 <= k < |vs| ==> vs[k] == lows[k + 1];
    var i :| 0 <= i < |lows| && At(lows[i], axis) == m;
    if i == 0 {
      assert At(vs[0], axis) == m;
    } else {
      assert At(vs[i - 1], axis) == m;
    }
  }

  /** A leading point at or below every other point along `axis` does not change the
      greatest coordinate. */
  lemma HighSentinelDropsOut(c: Vec2, vs: seq<Vec2>, axis: nat, m: real)
    requires axis < 2 && |vs| > 0
    requires forall k :: 0 <= k < |vs| ==> At(c, axis) <= At(vs[k], axis)
    requires IsGreatest([c] + vs, axis, m)
    ensures IsGreatest(vs, axis, m)
  {
    var highs := [c] + vs;
    assert forall k :: 0 <= k < |vs| ==> vs[k] == highs[k + 1];
    var i :| 0 <= i < |highs| && At(highs[i], axis) == m;
    if i == 0 {
      assert At(vs[0], axis) == m;
    } else {
      assert At(vs[i - 1], axis) == m;
    }
  }
}
