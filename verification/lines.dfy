/** Lines, rays and segments: a location plus a direction displacement, with a
    kind fixed when the line is made. */
module Lines {

  import opened Vectors

  /** The kind of a line; it decides which intersection parameters count as
      lying on it. */
  datatype LineType = Line | Ray | Segment

  /** `BasicLine<V, kind>`. `direction` is the displacement to the second defining
      point, not that point itself. */
  datatype BasicLine = BasicLine(kind: LineType, location: Vec2, direction: Vec2)

  /** The `(location, direction)` constructor: the first argument is stored as the
      location and the second as the direction. */
  function MakeLine(kind: LineType, location: Vec2, direction: Vec2): (l: BasicLine)
    ensures l.kind == kind && l.location == location && l.direction == direction
  {
    BasicLine(kind, location, direction)
  }

  /** A default-constructed line of the given kind. */
  function DefaultLine(kind: LineType): (l: BasicLine)
    ensures l.location == Zero() && l.direction == Zero()
    ensures IsNullLine(l)
  {
    BasicLine(kind, Vectors.Default(), Vectors.Default())
  }

  function FirstVertex(l: BasicLine): Vec2 { l.location }

  /** The second defining point; the direction is its displacement from the first. */
  function SecondVertex(l: BasicLine): (v: Vec2)
    ensures Sub(v, FirstVertex(l)) == l.direction
  {
    Add(l.location, l.direction)
  }

  /** A line is null when its direction is the zero vector; the location plays no part. */
  predicate IsNullLine(l: BasicLine)
  {
    l.direction == Zero()
  }

  /** Every line of a sequence is non-null; the intersection routines assert this of
      each edge they are given. */
  predicate AllNonNull(ls: seq<BasicLine>)
  {
    forall i :: 0 <= i < |ls| ==> !IsNullLine(ls[i])
  }

  /** Nullness depends on the direction alone. */
  lemma NullIgnoresLocation(l: BasicLine, p: Vec2)
    ensures IsNullLine(l.(location := p)) == IsNullLine(l)
    ensures IsNullLine(l) <==> l.direction.x == 0.0 && l.direction.y == 0.0
  {
  }

  /** Two lines of the same kind are equal exactly when location and direction are. */
  lemma EqualityComparesLocationAndDirection(a: BasicLine, b: BasicLine)
    requires a.kind == b.kind
    ensures a == b <==> a.location == b.location && a.direction == b.direction
  {
  }

  /** The defining points give back the line: the first is the location and the
      second minus the first is the direction. */
  lemma VerticesDetermineLine(l: BasicLine)
    ensures MakeLine(l.kind, FirstVertex(l), Sub(SecondVertex(l), FirstVertex(l))) == l
    ensures SecondVertex(l) == Add(FirstVertex(l), l.direction)
  {
  }

  /** Line, Ray and Segment with the same data differ only in their kind. */
  lemma KindsDifferOnlyInTag(p: Vec2, d: Vec2)
    ensures MakeLine(Line, p, d) != MakeLine(Ray, p, d)
    ensures MakeLine(Ray, p, d) != MakeLine(Segment, p, d)
    ensures MakeLine(Line, p, d).(kind := Segment) == MakeLine(Segment, p, d)
  {
  }

  /** The constructor keeps its arguments in order, so the line built from
      `({1, 1}, {2, 2})` has direction `{2, 2}` and location `{1, 1}`, not the
      swapped values. */
  lemma ConstructorKeepsArgumentOrder()
    ensures MakeLine(Line, Vec2(1.0, 1.0), Vec2(2.0, 2.0)).direction != Vec2(1.0, 1.0)
    ensures MakeLine(Line, Vec2(1.0, 1.0), Vec2(2.0, 2.0)).location != Vec2(2.0, 2.0)
  {
  }
}
