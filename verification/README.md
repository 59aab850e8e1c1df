# georithm geometry kernel in Dafny

This project models the exact-arithmetic 2D core of georithm, a header-only C++
geometry library. It covers these parts:

- **Vectors.** Element-wise `+ - * / %`, `zero`, exact equality, `lengthSq` and `scalarProduct`. Vector `+=`/`-=` go through the `zip_elements` loop.
- **Lines, rays and segments.** Each is a location plus a direction, with a kind tag.
- **Line-line intersection.** The routine classifies a pair as collinear, parallel, intersecting or none. Intersecting requires both parameters to be in range.
- **Polygon iteration.** `forEachIntersection` walks a polygon's edges, and line-polygon `intersection` keeps the closest hit.
- **Derived predicates.** `intersects` (line-line, line-polygon, polygon-polygon and the swapped fallback) and `contains`, which is ray-cast parity.
- **`overlaps`.** The combination of `intersects` and `contains`.
- **Rects.** Four corners generated from a span and pushed through an ordered list of transform components. The components the source admits are `component::Translation`, `transform::Translate`, `Scale` and `Shear`.
- **Bounding boxes.** `makeBoundingRect` and the `Bounding.hpp` helpers.

Values are Dafny `real`. The library never uses an epsilon, and every modelled
operation is ring or field arithmetic, so the model is exact. Integer vectors appear
only for `%=`, where C++ truncating `%` is written out.

Modules follow the headers:

| file | module | source |
|---|---|---|
| `optionals.dfy` | `Optionals` | `std::optional` |
| `range_algorithms.dfy` | `RangeAlgorithms` | `RangeAlgorithms.hpp` |
| `vectors.dfy` | `Vectors` | `Vector.hpp` |
| `lines.dfy` | `Lines` | `Line.hpp`, `Defines.hpp` |
| `transforms.dfy` | `Transforms` | `component/Translation.hpp`, `transform/*.hpp` except rotation |
| `rects.dfy` | `Rects` | `Rect.hpp` |
| `intersection.dfy` | `Intersection` | `Intersection.hpp` |
| `intersects.dfy` | `Intersects` | `Intersects.hpp` |
| `containment.dfy` | `Containment` | `Contains.hpp` |
| `overlapping.dfy` | `Overlapping` | `Overlaps.hpp` |
| `bounding_rect.dfy` | `BoundingRect` | `BoundingRect.hpp` |
| `bounding.dfy` | `Bounding` | `Bounding.hpp` |

## Behaviour as written

The model follows the code. Where the code departs from the textbook geometry, the
model keeps the code's behaviour and proves what follows from it.

- **Negated parameters.** The line-line routine takes `w = rhs.location - lhs.location`. With its numerators, the parameters it returns are the negatives of the usual ones: the point it assigns to parameter `d` on line `l` is `l.location - d * l.direction` (`Intersection.PointAt`). `Intersection.IntersectingIff` characterises `Intersecting` in those terms.
  - Two segments that cross in their interiors are reported as `None` (`Intersection.CrossingSegmentsReportNone`).
  - Two segments chained end to start never intersect (`Intersects.ChainedSegmentsMiss`).
- **Half-open segments.** A segment's range is `0 <= d < 1`, so parameter 1 is outside.
- **Null rects.** `Rect::isNull` is true when *either* span element is zero.
- **Containment.** `contains` is ray-cast parity. The test ray is `Ray(p, (1, 0))`, and the edge is the first operand of each intersection call.
  - With the negated parameters, an edge counts when its *mirror image* (`location - a * direction` for `a` in `[0, 1)`) meets the point's horizontal at or left of the point.
  - For an AABB with a positive span in y, `Containment.AabbContainsIff` gives the exact region. No point strictly inside the box is contained.
- **Test expectations that do not follow under exact arithmetic.** Each is proved as a statement about the model:
  - `test/RectTest.cpp:72-74` expects the unit rect to intersect its own edge 0 and itself. `Intersects.AabbMissesItself` proves neither happens for any AABB.
  - `test/RectTest.cpp:80-83` and `test/RectTest.cpp:117-129` expect centre points to be contained and points beyond the far corner not to be. `Containment.UnitAabbContainmentCases` decides all thirteen points of `:117-129`. The centre (`:117`) and `(0, 0.5)` (`:118`) are not contained. Four far-corner neighbours are contained:
    - `(1.00001, 1)` at `:125` (also `:83`);
    - `(1, 1.00001)` at `:126`;
    - `(1.00001, 1.00001)` at `:127`;
    - `(0.99999, 1.00001)` at `:129`.
    The other seven expectations hold.
  - `test/LineTest.cpp:28-31` expects the constructor to swap its arguments. `Lines.ConstructorKeepsArgumentOrder` proves it does not.
  - `test/RectTest.cpp:165-169` expects the bounding rect of the span-`(10, 10)` AABB at `(-5, -5)` to differ from it. `BoundingRect.TranslatedAabbBoundsItself` proves the AABB is its own tightest box; by `BoundingRect.BoundsAreUnique`, that box is what `makeBoundingRect` returns.

## Model

| member | source | states |
|---|---|---|
| Vectors.Zero | include/georithm/Vector.hpp:44-47 | every element of `zero()` is 0 |
| Vectors.Default | include/georithm/Vector.hpp:236 | a default-constructed vector equals `zero()` |
| Vectors.AddAssign | include/georithm/Vector.hpp:103-111 | after `a += b` through the pairwise loop, each element is `a[i] + b[i]`, the same as binary `+` |
| Vectors.SubAssign | include/georithm/Vector.hpp:113-121 | after `a -= b` each element is `a[i] - b[i]`, the same as binary `-` |
| Vectors.ScalarOperatorsAreUniform | include/georithm/Vector.hpp:123-162 | scalar `+= -= *= /=` apply the same scalar to every element |
| Vectors.EqualityIsElementWise | include/georithm/Vector.hpp:101 | two vectors are equal iff every element is equal |
| Vectors.ZeroIsIdentity | test/VectorTest.cpp:30-39 | adding or subtracting zero leaves a vector unchanged, and `v - v` is zero |
| Vectors.RoundTrips | test/VectorTest.cpp:41-55 | `(a + b) - b == a`, `(a + k) - k == a`, `(a + 1) - 2 == a - 1`, and `(a * k) / k == a` for `k != 0` |
| Vectors.InnerProductWithSelf | include/georithm/Vector.hpp:249-265 | the inner-product fold of a range with itself equals its sum-of-squares fold |
| Vectors.InnerProductSymmetric | include/georithm/Vector.hpp:258-265 | the inner-product fold does not depend on operand order |
| Vectors.LengthSqIsSelfProduct | include/georithm/Vector.hpp:249-265 | `lengthSq(v) == v.x² + v.y²` and `scalarProduct(v, v) == lengthSq(v)` |
| Vectors.ScalarProductIsDot | include/georithm/Vector.hpp:258-265 | `scalarProduct(a, b) == a.x*b.x + a.y*b.y`, symmetric in `a` and `b` |
| Vectors.LengthSqNonNegative | include/georithm/Vector.hpp:249-256 | `lengthSq` is never negative and is 0 at zero |
| Vectors.CppRemTruncates | include/georithm/Vector.hpp:164-173 | C++ `%` completes truncating division, is smaller in magnitude than the divisor, and has the dividend's sign |
| Vectors.ModScalarExamples | test/VectorTest.cpp:57-58 | `{7, 2} %= 5` gives `{2, 2}`, and `-7` keeps its sign where Dafny's `%` would not |
| RangeAlgorithms.ZipElements | include/georithm/RangeAlgorithms.hpp:19-28 | positions in `[first, last)` become `op(old, paired element)` and all others are unchanged; exactly `last - first` positions are visited, in order |
| Lines.MakeLine | include/georithm/Line.hpp:28-32 | the first argument becomes the location and the second the direction |
| Lines.DefaultLine | include/georithm/Line.hpp:75-76 | a default line has zero location and direction and is null |
| Lines.SecondVertex | include/georithm/Line.hpp:64-67 | the second vertex minus the first vertex is the direction |
| Lines.NullIgnoresLocation | include/georithm/Line.hpp:69-72 | a line is null iff its direction is zero; moving it never changes that |
| Lines.EqualityComparesLocationAndDirection | include/georithm/Line.hpp:37 | two lines of one kind are equal iff location and direction are |
| Lines.VerticesDetermineLine | include/georithm/Line.hpp:59-67 | rebuilding a line from its two vertices gives the same line |
| Lines.KindsDifferOnlyInTag | include/georithm/Line.hpp:79-84 | Line, Ray and Segment with the same data differ only in the kind |
| Lines.ConstructorKeepsArgumentOrder | test/LineTest.cpp:28-31 | the line built from `({1,1}, {2,2})` has direction `{2,2}`, not `{1,1}` |
| Transforms.TranslationAdds | include/georithm/component/Translation.hpp:43-46 | every translation variant adds its vector, keeps differences, and is undone by the opposite translation |
| Transforms.DefaultsAreIdentity | include/georithm/component/Translation.hpp:20-49 | default translations, default scale `(1, 1)` and default shear map every vector to itself |
| Transforms.ScaleIsElementWise | include/georithm/transform/Scale.hpp:49-58 | scale multiplies element by element, is undone by the reciprocal scale, and scales signed area by `s.x * s.y` |
| Transforms.ShearSkews | include/georithm/transform/Shear.hpp:49-52 | shear gives `(x + s.x*y, y + s.y*x)` from the original vector; a zero factor leaves that element alone; area scales by `1 - s.x*s.y` |
| Transforms.ApplyAllConcat | include/georithm/Rect.hpp:59 | applying the list `ts1 + ts2` is applying `ts1` and then `ts2` |
| Transforms.TranslationsKeepDifferences | include/georithm/transform/Translate.hpp:49-52 | a list of translations keeps the difference between any two points |
| Rects.DefaultRect | test/RectTest.cpp:27-28 | a default rect is null |
| Rects.RawCornersTraceBox | include/georithm/Rect.hpp:56-58 | before transforms, corners start at zero and step by `(s.x,0)`, `(0,s.y)`, `(-s.x,0)`, `(0,-s.y)` |
| Rects.VertexFoldsInOrder | include/georithm/Rect.hpp:59 | components act in template order, each output feeding the next |
| Rects.EdgesCloseLoop | include/georithm/Rect.hpp:63-70 | the four edge directions sum to zero |
| Rects.AabbVertices | include/georithm/BoundingRect.hpp:21-22 | an AABB's vertices are its raw corners plus its translation |
| Rects.TranslatedEdgeDirections | include/georithm/Rect.hpp:63-70 | under translations only, edge directions are the raw box's steps |
| Rects.TranslatedRectNullIffZeroArea | include/georithm/Rect.hpp:82-85 | under translations only, a rect is null iff `span.x * span.y == 0`; otherwise every edge is non-null |
| Rects.AabbEdges | include/georithm/Rect.hpp:63-70 | an AABB's edges run bottom, right, top, left from its translation |
| Rects.UnitAabbEdges | test/RectTest.cpp:30-43 | the unit AABB's edges are `((0,0),(1,0))`, `((1,0),(0,1))`, `((1,1),(-1,0))`, `((0,1),(0,-1))` |
| Rects.EdgeJoinsVertices | include/georithm/Rect.hpp:63-70 | edge `i` is a segment from vertex `i` to vertex `(i+1) mod 4` |
| Intersection.IntersectLines | include/georithm/Intersection.hpp:37-62 | collinear or parallel iff `den == 0`; a result other than intersecting carries distance 0; an intersecting result has both parameters in range, with distance `numA/den` |
| Intersection.IntersectionPoint | include/georithm/Intersection.hpp:44-57 | for `den != 0`, `numA/den` on lhs and `numB/den` on rhs name the same point |
| Intersection.MeetingParamsUnique | include/georithm/Intersection.hpp:47-57 | for `den != 0`, any parameter pair naming a common point is `(numA/den, numB/den)` |
| Intersection.NumeratorsVanishTogether | include/georithm/Intersection.hpp:50-51 | for parallel non-null directions, `numA == 0` iff `numB == 0` |
| Intersection.ParallelCarriersMeetIff | include/georithm/Intersection.hpp:50-54 | for parallel directions, the carrier lines meet iff `numB == 0` |
| Intersection.CollinearIff | include/georithm/Intersection.hpp:50-51 | collinear iff the directions are parallel and the carrier lines share a point |
| Intersection.ParallelIff | include/georithm/Intersection.hpp:53-54 | parallel iff the carrier lines share no point |
| Intersection.IntersectingIff | include/georithm/Intersection.hpp:56-60 | intersecting iff `den != 0` and some in-range parameter pair names a common point; the distance is that point's lhs parameter |
| Intersection.NoneIff | include/georithm/Intersection.hpp:56-61 | none iff the carriers cross once, outside at least one range |
| Intersection.IntersectLinesSwap | include/georithm/Intersection.hpp:42-57 | swapping the operands negates `den`, exchanges the numerators up to sign, and keeps the classification |
| Intersection.LineWithItselfIsCollinear | test/LineTest.cpp:55-58 | the line `(1,2)+(1,1)` is collinear with itself |
| Intersection.ReversedLineIsCollinear | test/LineTest.cpp:60-62 | it stays collinear with the direction reversed |
| Intersection.RelocatedLineIsParallel | test/LineTest.cpp:64-66 | moved to `(-1,5)` the pair is parallel |
| Intersection.PerturbedLineIntersects | test/LineTest.cpp:69-70 | with direction x raised by 0.1 the pair is intersecting |
| Intersection.CrossingSegmentsReportNone | include/georithm/Intersection.hpp:44-49 | segments crossing at their textbook midpoints get parameters `-1/2` and are classified none |
| Intersection.Hits | include/georithm/Intersection.hpp:68-76 | the callback trace holds exactly the intersecting edges, each with its intersection distance |
| Intersection.HitsAppend | include/georithm/Intersection.hpp:68-76 | the trace of `e1 + e2` is the trace of `e1` followed by that of `e2` |
| Intersection.ForEachIntersection | include/georithm/Intersection.hpp:64-77 | at most four callbacks, each distance in `[0, 1)`, one for every intersecting edge |
| Intersection.ForEachIntersectionReversed | include/georithm/Intersection.hpp:96-101 | the `(polygon, line)` overload gives the same trace |
| Intersection.ForEachIntersectionInEdgeOrder | include/georithm/Intersection.hpp:68-76 | edges are visited in index order `0..3` |
| Intersection.Closest | include/georithm/Intersection.hpp:85-92 | the kept distance is empty iff there were no hits |
| Intersection.ClosestIsEarliestSmallest | include/georithm/Intersection.hpp:86-92 | the kept distance is the earliest hit of smallest magnitude |
| Intersection.IntersectLinePolygon | include/georithm/Intersection.hpp:79-94 | empty iff no edge intersects; otherwise an attained edge distance in `[0,1)` of least magnitude |
| Intersection.ClosestHit | include/georithm/Intersection.hpp:79-94 | the running minimum over the trace meets the line-polygon contract |
| Intersection.IntersectPolygonLine | include/georithm/Intersection.hpp:103-108 | the `(polygon, line)` overload gives the same result |
| Intersects.LineLine | include/georithm/Intersects.hpp:21-26 | true iff the directions are not parallel and some in-range parameter pair meets; never for collinear or parallel pairs |
| Intersects.LineLineSymmetric | include/georithm/Intersects.hpp:21-26 | line-line `intersects` is symmetric |
| Intersects.AnyEdgeHitFrom | include/georithm/Intersects.hpp:32-37 | the early-return loop from edge `i` is true iff some later edge intersects |
| Intersects.LinePolygon | include/georithm/Intersects.hpp:28-38 | true iff the line intersects some edge |
| Intersects.PolygonLine | include/georithm/Intersects.hpp:52-57 | the swapped fallback is true iff some edge intersects the line |
| Intersects.LinePolygonIffIntersection | include/georithm/Intersects.hpp:28-38 | `intersects(line, polygon)` iff `intersection(line, polygon)` reports a distance |
| Intersects.AnyEdgeMeetsFrom | include/georithm/Intersects.hpp:44-49 | the polygon-polygon loop from edge `i` is true iff some later edge meets the other polygon |
| Intersects.PolygonPolygon | include/georithm/Intersects.hpp:40-50 | true iff some edge of one intersects some edge of the other |
| Intersects.PolygonPolygonSymmetric | include/georithm/Intersects.hpp:40-50 | polygon-polygon `intersects` is symmetric |
| Intersects.ChainedSegmentsMiss | include/georithm/Intersection.hpp:44-61 | two segments joined end to start never intersect, in either order |
| Intersects.TranslatedEdgePairMisses | include/georithm/Intersects.hpp:21-26 | no two edges of a translated rect intersect |
| Intersects.TranslatedRectMissesItself | include/georithm/Intersects.hpp:28-50 | a translated rect intersects neither itself nor any of its edges |
| Intersects.AabbMissesItself | test/RectTest.cpp:72-74 | an AABB does not intersect its edge 0, in either order, nor itself |
| Containment.TestRay | include/georithm/Contains.hpp:29 | the test ray is a non-null ray at the point with direction `(1, 0)` |
| Containment.CallbackCountIsCrossingCount | include/georithm/Contains.hpp:50-52 | the callback count is the number of edges whose intersection with the ray is intersecting |
| Containment.Contains | include/georithm/Contains.hpp:21-55 | contained iff that count is odd |
| Containment.RayCrossingIff | include/georithm/Contains.hpp:29-52 | an edge counts iff it is not horizontal and its point at the ray's height has an in-range parameter at or left of the point |
| Containment.AabbContainsIff | include/georithm/Contains.hpp:21-55 | for an AABB with `span.y > 0`, the exact region of contained points |
| Containment.UnitAabbContainsIff | test/RectTest.cpp:109-129 | the unit AABB contains `p` iff `1 <= x` with `-1 < y <= 0`, or `0 <= x` with `1 <= y < 2` |
| Containment.UnitAabbContainmentCases | test/RectTest.cpp:117-129 | for each of the thirteen tested points, whether it is contained |
| Overlapping.Overlaps | include/georithm/Overlaps.hpp:19-24 | intersecting shapes overlap, as does containment either way; nothing else overlaps |
| Overlapping.OverlapsSymmetric | include/georithm/Overlaps.hpp:23 | `overlaps` is symmetric whenever `intersects` is for the pair |
| BoundingRect.LeastExtends | include/georithm/BoundingRect.hpp:37-38 | one `std::min` step keeps a running least coordinate |
| BoundingRect.MakeBoundingRect | include/georithm/BoundingRect.hpp:24-45 | the result is the AABB from the least to the greatest vertex coordinates; its span is non-negative; every vertex is inside |
| BoundingRect.BoundsAreUnique | include/georithm/BoundingRect.hpp:34-44 | the tightest box around a set of points is unique |
| BoundingRect.AabbBoundingRect | test/RectTest.cpp:159-163 | a non-null AABB's tightest box has span `|span|` at its least corner, so a positive-span AABB bounds itself |
| BoundingRect.TranslatedAabbBoundsItself | test/RectTest.cpp:165-169 | the span-`(10,10)` AABB at `(-5,-5)` is its own tightest box |
| BoundingRect.LowFoldIsLeast | include/georithm/BoundingRect.hpp:34-41 | the min fold from an accumulator is the least coordinate of accumulator and points |
| BoundingRect.HighFoldIsGreatest | include/georithm/BoundingRect.hpp:34-41 | the max fold from an accumulator is the greatest coordinate of accumulator and points |
| BoundingRect.SentinelBoundingRect | include/georithm/BoundingRect.hpp:31-44 | as written, the sentinels take part in the extremes as extra points |
| BoundingRect.SentinelMisplacesNegativeBox | include/georithm/BoundingRect.hpp:32 | with a positive `floor`, a box wholly below it gets its far corner at `(floor, floor)` and is not bounded tightly |
| BoundingRect.SentinelsHarmlessOutsideRange | include/georithm/BoundingRect.hpp:31-41 | when the sentinels lie beyond every vertex, the as-written result is the tightest box |
| Bounding.Left | include/georithm/Bounding.hpp:25-30 | the least x of the box's two ends |
| Bounding.Right | include/georithm/Bounding.hpp:32-37 | the greatest x of the box's two ends |
| Bounding.Top | include/georithm/Bounding.hpp:39-44 | the least y of the box's two ends |
| Bounding.Bottom | include/georithm/Bounding.hpp:46-51 | the greatest y of the box's two ends |
| Bounding.BoxBoundsOrdered | include/georithm/Bounding.hpp:25-51 | `left <= right`, `top <= bottom`, apart by the span's magnitude |
| Bounding.BoxCornersPairBounds | include/georithm/Bounding.hpp:53-83 | each corner helper pairs the matching scalar bounds |
| Bounding.BoxBoundingRect | include/georithm/Bounding.hpp:86-94 | a positive span, and the tightest box around the box's two ends |
| Bounding.BoxBoundingRectIdempotent | include/georithm/Bounding.hpp:86-94 | applying it twice equals applying it once; corners and bounds are kept |
| Bounding.BoxAgreesWithAabb | include/georithm/Bounding.hpp:86-94 | the box's bounding rect is the tightest box of the AABB rect's four vertices |
| Bounding.LeastAlong | include/georithm/Bounding.hpp:99-109 | the running `std::min` from vertex 0 is the least coordinate, attained by a vertex |
| Bounding.GreatestAlong | include/georithm/Bounding.hpp:123-133 | the running `std::max` from vertex 0 is the greatest coordinate, attained by a vertex |
| Bounding.PolygonBoundsAreExtremes | include/georithm/Bounding.hpp:99-145 | each polygon bound is at or beyond every vertex and attained by one |
| Bounding.PolygonTopLeft | include/georithm/Bounding.hpp:147-163 | x is the least vertex x and y the least vertex y, each attained by some vertex |
| Bounding.PolygonTopRight | include/georithm/Bounding.hpp:165-181 | x is the greatest vertex x and y the least vertex y, each attained |
| Bounding.PolygonBottomLeft | include/georithm/Bounding.hpp:183-199 | x is the least vertex x and y the greatest vertex y, each attained |
| Bounding.PolygonCornersAreBoxCorners | include/georithm/Bounding.hpp:147-222 | the polygon corner helpers are the bounding box's corners: top-left is its position, and top-right and bottom-left lie one span away along x and y |
| Bounding.PolygonBoundingRect | include/georithm/Bounding.hpp:201-222 | position at the least coordinates and span to the greatest: the tightest box, with a non-negative span |
| Bounding.GenericBoundingRect | include/georithm/Bounding.hpp:251-258 | position is `(left, top)` and position plus span is `(right, bottom)` |
| Bounding.GenericAgreesWithPolygon | include/georithm/Bounding.hpp:227-258 | for a polygon, the generic overload gives the polygon overload's box |
| Bounding.GenericAgreesWithBox | include/georithm/Bounding.hpp:227-258 | for a box, the generic overload gives the box overload's result |
| Bounding.BoundingRectOfTwo | include/georithm/Bounding.hpp:260-264 | the tightest box around the two points; position plus span is the element-wise maximum |
| Bounding.BoundingRectOfTwoSymmetric | include/georithm/Bounding.hpp:260-264 | the order of the points does not matter; when the points differ in both elements, the result equals the box overload's for the box from `v1` to `v2` |

## Left out

- Rotation (`transform/Rotate.hpp`) and `length` (`Vector.hpp:267-277`): they need trigonometry, square roots and float-to-int conversion.
- Concepts, traits and the forwarding wrappers (`Concepts.hpp`, `BasicConcepts.hpp`, `GeometricTraits.hpp`, `Utility.hpp`): no runtime behaviour. Dafny types and preconditions take their place.
- `ArithmeticOperators.hpp`: a mixin defining `a op b` as `(copy of a) op= b`. The binary operators are defined directly on `Vec2`.
- Iterator accessors of `Vector`: a vector is a two-field record, with `Elements` for the element range.
- Floating-point behaviour: rounding, NaN, infinities and the `-0.0` comparison in `isWithinRange` are not modelled. Values are exact reals.
- Other dimensions: everything is fixed at 2D.
- Integer element types: only `%=` is modelled on integers. `/=` on integers, which truncates, is not modelled.
- Other polygon types: the polygon routines are modelled on `Rect`, the only polygonal type in these headers.
- Mutable accessors (`location()`, `direction()`, `span()` by reference): replaced by datatype updates.
- Equality of lines, rects and components: defaulted `operator==`, modelled by datatype equality.
- Generic callbacks of `forEachIntersection`: modelled as the ordered trace of `(edge, distance)` invocations.
- The commented-out collinear handling in `Contains.hpp`: not modelled, because it is not compiled.
- `Overlapping.Overlaps`: modelled generically, over the three predicates passed as function values. With these headers `contains` exists only for polygon × point, and `intersects` exists for no pair that has `contains` both ways, so no concrete shape pair instantiates it.
- Every `boundingRect` overload in `Bounding.hpp` returns a braced `{position, span}` into an `AABB_t<ValueType>` these headers do not define. This covers the AABB overload, the polygon overload (`Bounding.hpp:201-222`), the generic overload (`:251-258`) and the two-point overload (`:260-264`). The `detail::AABB_t` of `BoundingRect.hpp:21-22` takes a vector type and is a `Rect(span, translation)`. The model returns a `Box(position, span)` record from all of these overloads, in the braced order, not in the `Rect` constructor's `(span, translation)` order. `Bounding.BoxAgreesWithAabb` and `BoundingRect.MakeBoundingRect` connect the two forms.
- The `position()` that the `Bounding.hpp` AABB overloads call does not exist on the shown `Rect`, so those overloads take a `Box` as well.
- The vector `abs` and `transmuteElementWise` used at `Bounding.hpp:263` are not part of this model. They are taken as element-wise `|x|` and element-wise `std::min`.
- `transform::Translation` (the `Translation` constructor of `Transforms.Transform`): a rect's component list may hold it in the model. The source rejects it. Its `transform` is protected (`transform/Translation.hpp:49-50`), so it fails the `TransformComponent` constraint (`Concepts.hpp:138-143`) that `Rect.hpp:21` places on every component. The model keeps it so that the class's own translation can still be stated. It says nothing about which component lists compile.
- The polygon corner helpers compute two running extremes in one loop. They are modelled as two folds, which give the same values.
- `Intersection.IntersectLinePolygon`: modelled for every line kind. In the source, the closest-distance lambda at `Intersection.hpp:87` takes `const TLine&`, but `Intersection.hpp:74` calls it with the polygon's `Segment` edge. So `intersection(line, polygon)` compiles only when the line is itself a `Segment`.
- `Containment.AabbContainsIff`: characterises containment only for AABBs with `span.y > 0`. `Containment.Contains` itself covers every proper rect.
- The `2 <= vertexCount` and `2 < count` assertions always hold for a rect. They appear as preconditions only in `Bounding.GenericBoundingRect`.

## Findings

| source | as written | input that shows it | evidently intended | confidence | as-written member | corrected member |
|---|---|---|---|---|---|---|
| include/georithm/BoundingRect.hpp:32 | the running bottom-right corner starts at `numeric_limits::min()`, which for floating-point types is the smallest positive value, not the most negative one | an AABB with span `(1, 1)` at `(-5, -5)` and any positive sentinel `f`: the result has span `(f + 5, f + 5)` instead of `(1, 1)` | start from `numeric_limits::lowest()`, or from vertex 0, so the far corner is the greatest vertex coordinate | high; not executed | BoundingRect.SentinelMisplacesNegativeBox | BoundingRect.MakeBoundingRect |
