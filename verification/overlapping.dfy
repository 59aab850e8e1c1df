/** `overlaps(lhs, rhs)`: two shapes overlap when they intersect or either contains
    the other. The routine is generic over the shape types; the predicates it combines
    are passed in as function values, so the model does not depend on which pairs of
    shapes have `intersects` and `contains` overloads. */
module Overlapping {

  /** `overlaps(a, b)`, which asserts that neither operand is null. */
  function Overlaps<A, B>(a: A, b: B, isNullA: A -> bool, isNullB: B -> bool,
                          intersects: (A, B) -> bool, containsAB: (A, B) -> bool, containsBA: (B, A) -> bool): (r: bool)
    requires !isNullA(a) && !isNullB(b)
    ensures intersects(a, b) ==> r
    ensures containsAB(a, b) || containsBA(b, a) ==> r
    ensures !r <==> !intersects(a, b) && !containsAB(a, b) && !containsBA(b, a)
  {
    intersects(a, b) || containsAB(a, b) || containsBA(b, a)
  }

  /** With the operands swapped, the two containment tests trade places; so when
      `intersects` gives the same answer both ways round, so does `overlaps`. */
  lemma OverlapsSymmetric<A, B>(a: A, b: B, isNullA: A -> bool, isNullB: B -> bool,
                                intersectsAB: (A, B) -> bool, intersectsBA: (B, A) -> bool,
                                containsAB: (A, B) -> bool, containsBA: (B, A) -> bool)
    requires !isNullA(a) && !isNullB(b)
    requires intersectsAB(a, b) == intersectsBA(b, a)
    ensures Overlaps(a, b, isNullA, isNullB, intersectsAB, containsAB, containsBA)
         == Overlaps(b, a, isNullB, isNullA, intersectsBA, containsBA, containsAB)
  {
  }
}
