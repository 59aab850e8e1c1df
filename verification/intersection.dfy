/** Parametric line-line intersection, and the polygon-edge iteration built on it.

    The routine measures both parameters against `w = rhs.location - lhs.location`, so
    the point it names on a line `l` at parameter `d` is `l.location - d * l.direction`
    (`PointAt`), the mirror image of the textbook parametrisation. The per-kind range
    checks apply to that parameter. */
module Intersection {

  import opened Vectors
  import opened Lines
  import opened Rects
  import opened Optionals

  /** `LineIntersectionResult`. */
  datatype LineIntersectionResult = None | Intersecting | Parallel | Collinear

  /** The `(result, distance)` tuple; the distance is value-initialised (0) unless the
      result is `Intersecting`. */
  datatype Intersection = Intersection(result: LineIntersectionResult, dist: real)

  /** `isWithinRange`: which parameters count as lying on a line of the given kind. A
      segment's range is half-open, so parameter 1 is rejected. */
  predicate IsWithinRange(kind: LineType, d: real)
  {
    match kind
    case Segment => 0.0 <= d && d < 1.0
    case Ray => 0.0 <= d
    case Line => true
  }

  /** The point the intersection routine assigns to parameter `d` on `l`. */
  function PointAt(l: BasicLine, d: real): Vec2
  {
    Sub(l.location, MulScalar(l.direction, d))
  }

  /** The shared denominator, the cross product of the two directions. */
  function Den(lhs: BasicLine, rhs: BasicLine): real
  {
    Cross(lhs.direction, rhs.direction)
  }

  /** `rhs.location - lhs.location`, the rhs start in lhs-local coordinates. */
  function Offset(lhs: BasicLine, rhs: BasicLine): Vec2
  {
    Sub(rhs.location, lhs.location)
  }

  /** The lhs numerator, `D2.x * w.y - D2.y * w.x`. */
  function NumA(lhs: BasicLine, rhs: BasicLine): real
  {
    Cross(rhs.direction, Offset(lhs, rhs))
  }

  /** The rhs numerator, `D1.x * w.y - D1.y * w.x`. */
  function NumB(lhs: BasicLine, rhs: BasicLine): real
  {
    Cross(lhs.direction, Offset(lhs, rhs))
  }

  /** Line-line `intersectionImpl` on non-null lines: collinear or parallel when the
      directions are parallel, otherwise intersecting exactly when both parameters are
      in range, with the lhs parameter as the distance. */
  function IntersectLines(lhs: BasicLine, rhs: BasicLine): (r: Intersection)
    requires !IsNullLine(lhs) && !IsNullLine(rhs)
    ensures (r.result == Collinear || r.result == Parallel) <==> Den(lhs, rhs) == 0.0
    ensures r.result != Intersecting ==> r.dist == 0.0
    ensures r.result == Intersecting ==> IsWithinRange(lhs.kind, r.dist) && r.dist * Den(lhs, rhs) == NumA(lhs, rhs)
    ensures r.result == Intersecting ==> IsWithinRange(rhs.kind, NumB(lhs, rhs) / Den(lhs, rhs))
  {
    var den := Den(lhs, rhs);
    var numA := NumA(lhs, rhs);
    var numB := NumB(lhs, rhs);
    if den == 0.0 && (numA == 0.0 || numB == 0.0) then
      Intersection(Collinear, 0.0)
    else if den == 0.0 then
      Intersection(Parallel, 0.0)
    else if IsWithinRange(lhs.kind, numA / den) && IsWithinRange(rhs.kind, numB / den) then
      Intersection(Intersecting, numA / den)
    else
      Intersection(None, 0.0)
  }

  /** `lhs` at parameter `a` and `rhs` at parameter `b` name the same point, and both
      parameters are within their line's range. */
  predicate MeetWithin(lhs: BasicLine, rhs: BasicLine, a: real, b: real)
  {
    IsWithinRange(lhs.kind, a) && IsWithinRange(rhs.kind, b) && PointAt(lhs, a) == PointAt(rhs, b)
  }

  /** The carrier lines of `lhs` and `rhs` share a point. */
  ghost predicate CarriersMeet(lhs: BasicLine, rhs: BasicLine)
  {
    exists a, b :: PointAt(lhs, a) == PointAt(rhs, b)
  }

  // Algebra of the intermediates.

  /** The two parameters name the same point exactly when the offset is
      `b * D2 - a * D1`. */
  lemma MeetIsOffset(lhs: BasicLine, rhs: BasicLine, a: real, b: real)
    ensures PointAt(lhs, a) == PointAt(rhs, b) <==>
            Offset(lhs, rhs) == Sub(MulScalar(rhs.direction, b), MulScalar(lhs.direction, a))
  {
  }

  /** Crossing the offset `b * D2 - a * D1` with each direction isolates one parameter:
      `D2 x w == a * den` and `D1 x w == b * den`. */
  lemma CrossIsolatesParameters(d1: Vec2, d2: Vec2, a: real, b: real)
    ensures Cross(d2, Sub(MulScalar(d2, b), MulScalar(d1, a))) == a * Cross(d1, d2)
    ensures Cross(d1, Sub(MulScalar(d2, b), MulScalar(d1, a))) == b * Cross(d1, d2)
  {
    var w := Sub(MulScalar(d2, b), MulScalar(d1, a));
    assert w.x == d2.x * b - d1.x * a && w.y == d2.y * b - d1.y * a;
    calc {
      Cross(d2, w);
      d2.x * (d2.y * b - d1.y * a) - d2.y * (d2.x * b - d1.x * a);
      a * (d1.x * d2.y - d1.y * d2.x);
    }
    calc {
      Cross(d1, w);
      d1.x * (d2.y * b - d1.y * a) - d1.y * (d2.x * b - d1.x * a);
      b * (d1.x * d2.y - d1.y * d2.x);
    }
  }

  /** Cramer's rule for the offset: `numB * D2 - numA * D1 == den * w`. */
  lemma CramerIdentity(d1: Vec2, d2: Vec2, w: Vec2)
    ensures Cross(d1, w) * d2.x - Cross(d2, w) * d1.x == Cross(d1, d2) * w.x
    ensures Cross(d1, w) * d2.y - Cross(d2, w) * d1.y == Cross(d1, d2) * w.y
  {
    calc {
      Cross(d1, w) * d2.x - Cross(d2, w) * d1.x;
      (d1.x * w.y - d1.y * w.x) * d2.x - (d2.x * w.y - d2.y * w.x) * d1.x;
      (d1.x * d2.y - d1.y * d2.x) * w.x;
    }
    calc {
      Cross(d1, w) * d2.y - Cross(d2, w) * d1.y;
      (d1.x * w.y - d1.y * w.x) * d2.y - (d2.x * w.y - d2.y * w.x) * d1.y;
      (d1.x * d2.y - d1.y * d2.x) * w.y;
    }
  }

  /** With a non-zero denominator, the parameters `numA / den` and `numB / den` name
      the same point on the two lines. */
  lemma IntersectionPoint(lhs: BasicLine, rhs: BasicLine)
    requires Den(lhs, rhs) != 0.0
    ensures PointAt(lhs, NumA(lhs, rhs) / Den(lhs, rhs)) == PointAt(rhs, NumB(lhs, rhs) / Den(lhs, rhs))
  {
    var den, w := Den(lhs, rhs), Offset(lhs, rhs);
    var a, b := NumA(lhs, rhs) / den, NumB(lhs, rhs) / den;
    var d1, d2 := lhs.direction, rhs.direction;
    CramerIdentity(d1, d2, w);
    assert a * den == NumA(lhs, rhs) && b * den == NumB(lhs, rhs);
    assert (b * d2.x - a * d1.x) * den == w.x * den by {
      assert (b * d2.x - a * d1.x) * den == (b * den) * d2.x - (a * den) * d1.x;
    }
    assert (b * d2.y - a * d1.y) * den == w.y * den by {
      assert (b * d2.y - a * d1.y) * den == (b * den) * d2.y - (a * den) * d1.y;
    }
    CancelFactor(b * d2.x - a * d1.x, w.x, den);
    CancelFactor(b * d2.y - a * d1.y, w.y, den);
    MeetIsOffset(lhs, rhs, a, b);
  }

  lemma CancelFactor(p: real, q: real, k: real)
    requires k != 0.0 && p * k == q * k
    ensures p == q
  {
    assert (p - q) * k == 0.0;
  }

  /** With a non-zero denominator, the meeting parameters are unique: any pair that
      names a common point is `(numA / den, numB / den)`. */
  lemma MeetingParamsUnique(lhs: BasicLine, rhs: BasicLine, a: real, b: real)
    requires Den(lhs, rhs) != 0.0
    requires PointAt(lhs, a) == PointAt(rhs, b)
    ensures a == NumA(lhs, rhs) / Den(lhs, rhs)
    ensures b == NumB(lhs, rhs) / Den(lhs, rhs)
  {
    MeetIsOffset(lhs, rhs, a, b);
    CrossIsolatesParameters(lhs.direction, rhs.direction, a, b);
  }

  /** For parallel non-null directions the two numerators vanish together: the rhs start
      lies on the lhs carrier exactly when the lhs start lies on the rhs carrier. */
  lemma NumeratorsVanishTogether(lhs: BasicLine, rhs: BasicLine)
    requires !IsNullLine(lhs) && !IsNullLine(rhs)
    requires Den(lhs, rhs) == 0.0
    ensures NumA(lhs, rhs) == 0.0 <==> NumB(lhs, rhs) == 0.0
  {
    var d1, d2, w := lhs.direction, rhs.direction, Offset(lhs, rhs);
    // With den == 0, numB * d2 == numA * d1 element-wise.
    CramerIdentity(d1, d2, w);
    assert Cross(d1, w) * d2.x == Cross(d2, w) * d1.x;
    assert Cross(d1, w) * d2.y == Cross(d2, w) * d1.y;
    if NumA(lhs, rhs) == 0.0 {
      if d2.x != 0.0 {
        ZeroProduct(d2.x, Cross(d1, w));
      } else {
        assert d2.y != 0.0 by { assert d2 != Zero(); }
        ZeroProduct(d2.y, Cross(d1, w));
      }
    }
    if NumB(lhs, rhs) == 0.0 {
      if d1.x != 0.0 {
        ZeroProduct(d1.x, Cross(d2, w));
      } else {
        assert d1.y != 0.0 by { assert d1 != Zero(); }
        ZeroProduct(d1.y, Cross(d2, w));
      }
    }
  }

  lemma ZeroProduct(p: real, q: real)
    requires p != 0.0
    ensures p * q == 0.0 <==> q == 0.0
  {
    if p * q == 0.0 {
      CancelFactor(q, 0.0, p);
    }
  }

  /** With parallel directions, the carriers meet exactly when the rhs start lies on
      the lhs carrier, `numB == 0`. */
  lemma ParallelCarriersMeetIff(lhs: BasicLine, rhs: BasicLine)
    requires !IsNullLine(lhs)
    requires Den(lhs, rhs) == 0.0
    ensures CarriersMeet(lhs, rhs) <==> NumB(lhs, rhs) == 0.0
  {
    if CarriersMeet(lhs, rhs) {
      var a, b :| PointAt(lhs, a) == PointAt(rhs, b);
      MeetIsOffset(lhs, rhs, a, b);
      CrossIsolatesParameters(lhs.direction, rhs.direction, a, b);
    }
    if NumB(lhs, rhs) == 0.0 {
      var t := StartOnCarrier(lhs, rhs);
      assert PointAt(lhs, t) == PointAt(rhs, 0.0);
    }
  }

  /** When `numB == 0`, the rhs start is the lhs point at some parameter. */
  lemma StartOnCarrier(lhs: BasicLine, rhs: BasicLine) returns (t: real)
    requires !IsNullLine(lhs)
    requires NumB(lhs, rhs) == 0.0
    ensures PointAt(lhs, t) == rhs.location
  {
    var d1, w := lhs.direction, Offset(lhs, rhs);
    assert d1.x * w.y == d1.y * w.x;
    if d1.x != 0.0 {
      t := -w.x / d1.x;
      assert t * d1.x == -w.x;
      assert (t * d1.y) * d1.x == (-w.y) * d1.x by {
        assert (t * d1.y) * d1.x == (t * d1.x) * d1.y;
      }
      CancelFactor(t * d1.y, -w.y, d1.x);
    } else {
      assert d1.y != 0.0 by { assert d1 != Zero(); }
      t := -w.y / d1.y;
      assert t * d1.y == -w.y;
      ZeroProduct(d1.y, w.x);
    }
  }

  // Classification.

  /** The result is collinear exactly when the directions are parallel and the carrier
      lines share a point (and so coincide). */
  lemma CollinearIff(lhs: BasicLine, rhs: BasicLine)
    requires !IsNullLine(lhs) && !IsNullLine(rhs)
    ensures IntersectLines(lhs, rhs).result == Collinear <==> Den(lhs, rhs) == 0.0 && CarriersMeet(lhs, rhs)
  {
    if Den(lhs, rhs) == 0.0 {
      NumeratorsVanishTogether(lhs, rhs);
      ParallelCarriersMeetIff(lhs, rhs);
    }
  }

  /** The result is parallel exactly when the carrier lines share no point at all. */
  lemma ParallelIff(lhs: BasicLine, rhs: BasicLine)
    requires !IsNullLine(lhs) && !IsNullLine(rhs)
    ensures IntersectLines(lhs, rhs).result == Parallel <==> !CarriersMeet(lhs, rhs)
  {
    CollinearIff(lhs, rhs);
    if Den(lhs, rhs) != 0.0 {
      IntersectionPoint(lhs, rhs);
    }
  }

  /** The result is intersecting exactly when the directions are not parallel and some
      pair of in-range parameters names a common point; the reported distance is then
      the lhs parameter of that point. */
  lemma IntersectingIff(lhs: BasicLine, rhs: BasicLine)
    requires !IsNullLine(lhs) && !IsNullLine(rhs)
    ensures IntersectLines(lhs, rhs).result == Intersecting <==>
            Den(lhs, rhs) != 0.0 && exists a, b :: MeetWithin(lhs, rhs, a, b)
    ensures IntersectLines(lhs, rhs).result == Intersecting ==>
            forall a, b :: MeetWithin(lhs, rhs, a, b) ==> a == IntersectLines(lhs, rhs).dist
  {
    var r := IntersectLines(lhs, rhs);
    if Den(lhs, rhs) != 0.0 {
      var a0, b0 := NumA(lhs, rhs) / Den(lhs, rhs), NumB(lhs, rhs) / Den(lhs, rhs);
      if r.result == Intersecting {
        IntersectionPoint(lhs, rhs);
        assert MeetWithin(lhs, rhs, a0, b0);
      }
      if exists a, b :: MeetWithin(lhs, rhs, a, b) {
        var a, b :| MeetWithin(lhs, rhs, a, b);
        MeetingParamsUnique(lhs, rhs, a, b);
      }
      forall a, b | MeetWithin(lhs, rhs, a, b)
        ensures a == a0
      {
        MeetingParamsUnique(lhs, rhs, a, b);
      }
    }
  }

  /** The result is none exactly when the carriers cross at a single point that lies
      outside at least one line's range. */
  lemma NoneIff(lhs: BasicLine, rhs: BasicLine)
    requires !IsNullLine(lhs) && !IsNullLine(rhs)
    ensures IntersectLines(lhs, rhs).result == None <==>
            Den(lhs, rhs) != 0.0 && !exists a, b :: MeetWithin(lhs, rhs, a, b)
  {
    IntersectingIff(lhs, rhs);
  }

  /** Swapping the operands negates the denominator and exchanges the numerators up to
      sign, so the classification is the same and the distance becomes the former rhs
      parameter. */
  lemma IntersectLinesSwap(lhs: BasicLine, rhs: BasicLine)
    requires !IsNullLine(lhs) && !IsNullLine(rhs)
    ensures Den(rhs, lhs) == -Den(lhs, rhs)
    ensures NumA(rhs, lhs) == -NumB(lhs, rhs) && NumB(rhs, lhs) == -NumA(lhs, rhs)
    ensures IntersectLines(rhs, lhs).result == IntersectLines(lhs, rhs).result
    ensures IntersectLines(lhs, rhs).result == Intersecting ==>
            IntersectLines(rhs, lhs).dist == NumB(lhs, rhs) / Den(lhs, rhs)
  {
    var den := Den(lhs, rhs);
    if den != 0.0 {
      NegatedQuotient(NumB(lhs, rhs), den);
      NegatedQuotient(NumA(lhs, rhs), den);
    }
  }

  lemma NegatedQuotient(p: real, q: real)
    requires q != 0.0
    ensures (-p) / (-q) == p / q
  {
  }

  /** The line `(1, 2) + (1, 1)`, the first operand of the line tests. */
  function TestLine(): BasicLine { MakeLine(Line, Vec2(1.0, 2.0), Vec2(1.0, 1.0)) }

  /** A line is collinear with itself. */
  lemma LineWithItselfIsCollinear()
    ensures IntersectLines(TestLine(), TestLine()).result == Collinear
  {
  }

  /** Reversing the second line's direction keeps the pair collinear. */
  lemma ReversedLineIsCollinear()
    ensures IntersectLines(TestLine(), MakeLine(Line, Vec2(1.0, 2.0), Vec2(-1.0, -1.0))).result == Collinear
  {
  }

  /** Moving the reversed line to `(-1, 5)` makes the pair parallel. */
  lemma RelocatedLineIsParallel()
    ensures IntersectLines(TestLine(), MakeLine(Line, Vec2(-1.0, 5.0), Vec2(-1.0, -1.0))).result == Parallel
  {
  }

  /** Raising that direction's x by 0.1 makes the pair intersect. */
  lemma PerturbedLineIntersects()
    ensures IntersectLines(TestLine(), MakeLine(Line, Vec2(-1.0, 5.0), Vec2(-0.9, -1.0))).result == Intersecting
  {
  }

  /** Two segments that cross in their interiors, at `(1, 0)` halfway along each in the
      textbook sense, are reported as `None`: the routine's parameters are both `-1/2`. */
  lemma CrossingSegmentsReportNone()
    ensures var a, b := MakeLine(Segment, Vec2(0.0, 0.0), Vec2(2.0, 0.0)), MakeLine(Segment, Vec2(1.0, -1.0), Vec2(0.0, 2.0));
            Add(a.location, MulScalar(a.direction, 0.5)) == Add(b.location, MulScalar(b.direction, 0.5)) &&
            Den(a, b) == 4.0 && NumA(a, b) / Den(a, b) == -0.5 && NumB(a, b) / Den(a, b) == -0.5 &&
            IntersectLines(a, b).result == None
  {
    var a, b := MakeLine(Segment, Vec2(0.0, 0.0), Vec2(2.0, 0.0)), MakeLine(Segment, Vec2(1.0, -1.0), Vec2(0.0, 2.0));
    var na, nb, d := NumA(a, b), NumB(a, b), Den(a, b);
    assert na == -2.0 && nb == -2.0 && d == 4.0;
    QuotientOf(na, d, -2.0, 4.0);
    QuotientOf(nb, d, -2.0, 4.0);
  }

  lemma QuotientOf(n: real, d: real, n0: real, d0: real)
    requires n == n0 && d == d0 && d0 != 0.0
    ensures n / d == n0 / d0
  {
  }

  // Polygon edges.

  /** One callback invocation of `forEachIntersection`: the edge and its distance. */
  datatype Hit = Hit(edge: BasicLine, dist: real)

  /** The callback invocations for `edges` in order: one per edge that `intersection(edge,
      line)` classifies as intersecting, carrying that call's distance, which is the
      edge's own parameter. */
  function Hits(edges: seq<BasicLine>, line: BasicLine): (hs: seq<Hit>)
    requires AllNonNull(edges) && !IsNullLine(line)
    ensures |hs| <= |edges|
    ensures forall k :: 0 <= k < |hs| ==>
              hs[k].edge in edges && IntersectLines(hs[k].edge, line) == Intersection(Intersecting, hs[k].dist)
    ensures forall i :: 0 <= i < |edges| && IntersectLines(edges[i], line).result == Intersecting ==>
              Hit(edges[i], IntersectLines(edges[i], line).dist) in hs
  {
    TraceRecordsHits(edges, line);
    Trace(edges, line)
  }

  /** The edge loop itself, front to back. */
  function Trace(edges: seq<BasicLine>, line: BasicLine): seq<Hit>
    requires AllNonNull(edges) && !IsNullLine(line)
    decreases |edges|
  {
    if edges == [] then []
    else
      var x := IntersectLines(edges[0], line);
      (if x.result == Intersecting then [Hit(edges[0], x.dist)] else []) + Trace(edges[1..], line)
  }

  lemma {:induction false} TraceRecordsHits(edges: seq<BasicLine>, line: BasicLine)
    requires AllNonNull(edges) && !IsNullLine(line)
    ensures var hs := Trace(edges, line);
            |hs| <= |edges| &&
            (forall k :: 0 <= k < |hs| ==>
               hs[k].edge in edges && IntersectLines(hs[k].edge, line) == Intersection(Intersecting, hs[k].dist)) &&
            (forall i :: 0 <= i < |edges| && IntersectLines(edges[i], line).result == Intersecting ==>
               Hit(edges[i], IntersectLines(edges[i], line).dist) in hs)
    decreases |edges|
  {
    if edges != [] {
      TraceRecordsHits(edges[1..], line);
      assert forall i :: 1 <= i < |edges| ==> edges[i] == edges[1..][i - 1];
    }
  }

  /** The trace of a single edge. */
  lemma HitsSingle(e: BasicLine, line: BasicLine)
    requires !IsNullLine(e) && !IsNullLine(line)
    ensures var x := IntersectLines(e, line);
            Hits([e], line) == if x.result == Intersecting then [Hit(e, x.dist)] else []
  {
    assert [e][1..] == [];
    assert Trace([e][1..], line) == [];
  }

  /** Iteration is in edge order: the trace of `e1 + e2` is the trace of `e1` followed by
      that of `e2`. */
  lemma HitsAppend(e1: seq<BasicLine>, e2: seq<BasicLine>, line: BasicLine)
    requires AllNonNull(e1) && AllNonNull(e2) && !IsNullLine(line)
    ensures AllNonNull(e1 + e2)
    ensures Hits(e1 + e2, line) == Hits(e1, line) + Hits(e2, line)
  {
    TraceAppend(e1, e2, line);
  }

  lemma {:induction false} TraceAppend(e1: seq<BasicLine>, e2: seq<BasicLine>, line: BasicLine)
    requires AllNonNull(e1) && AllNonNull(e2) && !IsNullLine(line)
    ensures AllNonNull(e1 + e2)
    ensures Trace(e1 + e2, line) == Trace(e1, line) + Trace(e2, line)
    decreases |e1|
  {
    assert AllNonNull(e1 + e2) by {
      forall i | 0 <= i < |e1 + e2| ensures !IsNullLine((e1 + e2)[i]) {
        if i < |e1| { assert (e1 + e2)[i] == e1[i]; } else { assert (e1 + e2)[i] == e2[i - |e1|]; }
      }
    }
    if e1 == [] {
      assert e1 + e2 == e2;
    } else {
      TraceAppend(e1[1..], e2, line);
      assert (e1 + e2)[1..] == e1[1..] + e2;
    }
  }

  /** `forEachIntersection(line, polygon)` on a rect: the trace over edges `0..3`. */
  function ForEachIntersection(line: BasicLine, r: Rect): (hs: seq<Hit>)
    requires !IsNullLine(line) && Proper(r)
    ensures |hs| <= EdgeCount(r)
    ensures forall k :: 0 <= k < |hs| ==> 0.0 <= hs[k].dist < 1.0
    ensures forall i :: 0 <= i < EdgeCount(r) && IntersectLines(Edge(r, i), line).result == Intersecting ==>
              Hit(Edge(r, i), IntersectLines(Edge(r, i), line).dist) in hs
  {
    Hits(Edges(r), line)
  }

  /** `forEachIntersection(polygon, line)`: the same trace with the arguments swapped. */
  function ForEachIntersectionReversed(r: Rect, line: BasicLine): (hs: seq<Hit>)
    requires !IsNullLine(line) && Proper(r)
    ensures hs == ForEachIntersection(line, r)
  {
    ForEachIntersection(line, r)
  }

  /** The trace of four edges is the four single-edge traces in order. */
  lemma HitsOfFour(e0: BasicLine, e1: BasicLine, e2: BasicLine, e3: BasicLine, line: BasicLine)
    requires !IsNullLine(e0) && !IsNullLine(e1) && !IsNullLine(e2) && !IsNullLine(e3) && !IsNullLine(line)
    ensures Hits([e0, e1, e2, e3], line) == Hits([e0], line) + Hits([e1], line) + Hits([e2], line) + Hits([e3], line)
  {
    var s1, s2, s3 := [e0], [e0, e1], [e0, e1, e2];
    assert AllNonNull(s1) && AllNonNull([e1]) && AllNonNull([e2]) && AllNonNull([e3]);
    assert AllNonNull(s2) && AllNonNull(s3);
    assert Hits(s2, line) == Hits(s1, line) + Hits([e1], line) by {
      assert s2 == s1 + [e1];
      HitsAppend(s1, [e1], line);
    }
    assert Hits(s3, line) == Hits(s2, line) + Hits([e2], line) by {
      assert s3 == s2 + [e2];
      HitsAppend(s2, [e2], line);
    }
    assert Hits([e0, e1, e2, e3], line) == Hits(s3, line) + Hits([e3], line) by {
      assert [e0, e1, e2, e3] == s3 + [e3];
      HitsAppend(s3, [e3], line);
    }
  }

  /** The trace of a rect is the four per-edge traces in edge order. */
  lemma ForEachIntersectionInEdgeOrder(line: BasicLine, r: Rect)
    requires !IsNullLine(line) && Proper(r)
    ensures ForEachIntersection(line, r) ==
            Hits([Edge(r, 0)], line) + Hits([Edge(r, 1)], line) + Hits([Edge(r, 2)], line) + Hits([Edge(r, 3)], line)
  {
    var es := Edges(r);
    assert es == [es[0], es[1], es[2], es[3]];
    assert !IsNullLine(es[0]) && !IsNullLine(es[1]) && !IsNullLine(es[2]) && !IsNullLine(es[3]);
    HitsOfFour(es[0], es[1], es[2], es[3], line);
  }

  /** The running minimum kept by the callback of line-polygon `intersectionImpl`: a
      later distance replaces the kept one only when strictly smaller in magnitude. */
  function Closest(hs: seq<Hit>): (r: Optional<real>)
    ensures r.NullOpt? <==> hs == []
  {
    if hs == [] then NullOpt
    else
      var prev := Closest(hs[..|hs| - 1]);
      var d := hs[|hs| - 1].dist;
      if prev.NullOpt? || Abs(d) < Abs(prev.value) then Some(d) else prev
  }

  /** `hs[k]` has the smallest magnitude, and every earlier hit is strictly larger. */
  predicate EarliestSmallest(hs: seq<Hit>, k: nat)
  {
    k < |hs| &&
    (forall j :: 0 <= j < k ==> Abs(hs[k].dist) < Abs(hs[j].dist)) &&
    (forall j :: k < j < |hs| ==> Abs(hs[k].dist) <= Abs(hs[j].dist))
  }

  /** The kept distance is that of the earliest hit of smallest magnitude. */
  lemma ClosestIsEarliestSmallest(hs: seq<Hit>)
    requires hs != []
    ensures exists k: nat :: EarliestSmallest(hs, k) && Closest(hs) == Some(hs[k].dist)
  {
    var k := EarliestSmallestIndex(hs);
  }

  lemma {:induction false} EarliestSmallestIndex(hs: seq<Hit>) returns (k: nat)
    requires hs != []
    ensures EarliestSmallest(hs, k) && Closest(hs) == Some(hs[k].dist)
  {
    var n := |hs|;
    var p := hs[..n - 1];
    var d := hs[n - 1].dist;
    if p == [] {
      k := 0;
    } else {
      var k' := EarliestSmallestIndex(p);
      assert forall j :: 0 <= j < n - 1 ==> p[j] == hs[j];
      if Abs(d) < Abs(p[k'].dist) {
        k := n - 1;
        assert forall j :: 0 <= j < n - 1 ==> Abs(p[k'].dist) <= Abs(p[j].dist);
      } else {
        k := k';
      }
    }
  }

  /** Line-polygon `intersectionImpl` on a rect: the distance of smallest magnitude
      reported by `forEachIntersection`, or nothing when no edge intersects. */
  function IntersectLinePolygon(line: BasicLine, r: Rect): (d: Optional<real>)
    requires !IsNullLine(line) && Proper(r)
    ensures d.NullOpt? <==> forall i :: 0 <= i < EdgeCount(r) ==> IntersectLines(Edge(r, i), line).result != Intersecting
    ensures d.Some? ==> 0.0 <= d.value < 1.0
    ensures d.Some? ==> exists i :: 0 <= i < EdgeCount(r) && IntersectLines(Edge(r, i), line) == Intersection(Intersecting, d.value)
    ensures d.Some? ==> forall i :: 0 <= i < EdgeCount(r) && IntersectLines(Edge(r, i), line).result == Intersecting ==>
              Abs(d.value) <= Abs(IntersectLines(Edge(r, i), line).dist)
  {
    ClosestHit(line, r);
    Closest(ForEachIntersection(line, r))
  }

  lemma ClosestHit(line: BasicLine, r: Rect)
    requires !IsNullLine(line) && Proper(r)
    ensures var d := Closest(ForEachIntersection(line, r));
            (d.NullOpt? <==> forall i :: 0 <= i < EdgeCount(r) ==> IntersectLines(Edge(r, i), line).result != Intersecting) &&
            (d.Some? ==> 0.0 <= d.value < 1.0) &&
            (d.Some? ==> exists i :: 0 <= i < EdgeCount(r) && IntersectLines(Edge(r, i), line) == Intersection(Intersecting, d.value)) &&
            (d.Some? ==> forall i :: 0 <= i < EdgeCount(r) && IntersectLines(Edge(r, i), line).result == Intersecting ==>
                           Abs(d.value) <= Abs(IntersectLines(Edge(r, i), line).dist))
  {
    var hs := ForEachIntersection(line, r);
    if hs != [] {
      ClosestIsSmallestHit(hs);
      var d := Closest(hs).value;
      var k :| 0 <= k < |hs| && hs[k].dist == d;
      var es := Edges(r);
      assert hs[k].edge in es;
      var i :| 0 <= i < |es| && es[i] == hs[k].edge;
      assert IntersectLines(Edge(r, i), line) == Intersection(Intersecting, d);
      forall i | 0 <= i < EdgeCount(r) && IntersectLines(Edge(r, i), line).result == Intersecting
        ensures Abs(d) <= Abs(IntersectLines(Edge(r, i), line).dist)
      {
        assert Hit(Edge(r, i), IntersectLines(Edge(r, i), line).dist) in hs;
      }
    }
  }

  /** The kept distance is one of the hits' and no hit is smaller in magnitude. */
  lemma ClosestIsSmallestHit(hs: seq<Hit>)
    requires hs != []
    ensures Closest(hs).Some?
    ensures exists k :: 0 <= k < |hs| && hs[k].dist == Closest(hs).value
    ensures forall h :: h in hs ==> Abs(Closest(hs).value) <= Abs(h.dist)
  {
    var k := EarliestSmallestIndex(hs);
    forall h | h in hs ensures Abs(Closest(hs).value) <= Abs(h.dist) {
      var j :| 0 <= j < |hs| && hs[j] == h;
      assert j < k ==> Abs(hs[k].dist) < Abs(hs[j].dist);
    }
  }

  /** `intersection(polygon, line)`: the same result with the arguments swapped. */
  function IntersectPolygonLine(r: Rect, line: BasicLine): (d: Optional<real>)
    requires !IsNullLine(line) && Proper(r)
    ensures d == IntersectLinePolygon(line, r)
  {
    IntersectLinePolygon(line, r)
  }
}
