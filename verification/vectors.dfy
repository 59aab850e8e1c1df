/** Two-dimensional vectors over exact arithmetic.

    The library's `Vector<T, N>` is modelled at `N = 2` with `T = real`: every
    operation the geometry kernel uses is ring or field arithmetic, and equality is
    exact, element by element. Integer vectors appear only for `%=`, whose
    element type must be integral. */
module Vectors {

  import RangeAlgorithms

  /** A 2D vector; `x` is element 0 and `y` is element 1. */
  datatype Vec2 = Vec2(x: real, y: real)

  /** The elements in index order, the range `begin()..end()` iterates over. */
  function Elements(v: Vec2): (s: seq<real>)
    ensures |s| == 2
  {
    [v.x, v.y]
  }

  /** `v[i]`. */
  function At(v: Vec2, i: nat): real
    requires i < 2
  {
    if i == 0 then v.x else v.y
  }

  /** `Vector::zero()`; also the value of a default-constructed vector, whose
      element array is value-initialised. */
  function Zero(): (z: Vec2)
    ensures forall i :: 0 <= i < 2 ==> At(z, i) == 0.0
  {
    Vec2(0.0, 0.0)
  }

  /** The value of `Vector<T, 2>{}`: the element array `m_Values{}` is value-initialised. */
  function Default(): (v: Vec2)
    ensures v == Zero()
  {
    Vec2(0.0, 0.0)
  }

  // Binary operators; each is `(copy of a) op= b`.

  function Add(a: Vec2, b: Vec2): Vec2 { Vec2(a.x + b.x, a.y + b.y) }

  function Sub(a: Vec2, b: Vec2): Vec2 { Vec2(a.x - b.x, a.y - b.y) }

  function AddScalar(v: Vec2, k: real): Vec2 { Vec2(v.x + k, v.y + k) }

  function SubScalar(v: Vec2, k: real): Vec2 { Vec2(v.x - k, v.y - k) }

  function MulScalar(v: Vec2, k: real): Vec2 { Vec2(v.x * k, v.y * k) }

  /** `v /= k`, which asserts a non-zero divisor. */
  function DivScalar(v: Vec2, k: real): Vec2
    requires k != 0.0
  {
    Vec2(v.x / k, v.y / k)
  }

  /** Vector `a += b`, through the pairwise combine loop. */
  method AddAssign(a: Vec2, b: Vec2) returns (r: Vec2)
    ensures forall i :: 0 <= i < 2 ==> At(r, i) == At(a, i) + At(b, i)
    ensures r == Add(a, b)
  {
    var e, _ := RangeAlgorithms.ZipElements(Elements(a), 0, 2, Elements(b), 0, (l: real, m: real) => l + m);
    r := Vec2(e[0], e[1]);
  }

  /** Vector `a -= b`, through the pairwise combine loop. */
  method SubAssign(a: Vec2, b: Vec2) returns (r: Vec2)
    ensures forall i :: 0 <= i < 2 ==> At(r, i) == At(a, i) - At(b, i)
    ensures r == Sub(a, b)
  {
    var e, _ := RangeAlgorithms.ZipElements(Elements(a), 0, 2, Elements(b), 0, (l: real, m: real) => l - m);
    r := Vec2(e[0], e[1]);
  }

  /** The scalar compound operators apply the same scalar to every element. */
  lemma ScalarOperatorsAreUniform(v: Vec2, k: real)
    ensures forall i :: 0 <= i < 2 ==> At(AddScalar(v, k), i) == At(v, i) + k
    ensures forall i :: 0 <= i < 2 ==> At(SubScalar(v, k), i) == At(v, i) - k
    ensures forall i :: 0 <= i < 2 ==> At(MulScalar(v, k), i) == At(v, i) * k
    ensures k != 0.0 ==> forall i :: 0 <= i < 2 ==> At(DivScalar(v, k), i) == At(v, i) / k
  {
  }

  /** Equality is exact and element-wise. */
  lemma EqualityIsElementWise(a: Vec2, b: Vec2)
    ensures a == b <==> forall i :: 0 <= i < 2 ==> At(a, i) == At(b, i)
  {
    if forall i :: 0 <= i < 2 ==> At(a, i) == At(b, i) {
      assert At(a, 0) == At(b, 0) && At(a, 1) == At(b, 1);
    }
  }

  /** Zero is the additive identity. */
  lemma ZeroIsIdentity(v: Vec2)
    ensures Add(v, Zero()) == v && Add(Zero(), v) == v
    ensures Sub(v, Zero()) == v && Sub(v, v) == Zero()
  {
  }

  /** Subtracting what was added restores the vector, for vectors and scalars;
      multiplying then dividing by the same non-zero scalar does too. */
  lemma RoundTrips(a: Vec2, b: Vec2, k: real)
    ensures Sub(Add(a, b), b) == a
    ensures SubScalar(AddScalar(a, k), k) == a
    ensures SubScalar(AddScalar(a, 1.0), 2.0) == SubScalar(a, 1.0)
    ensures k != 0.0 ==> DivScalar(MulScalar(a, k), k) == a
  {
  }

  // Norms and products, as left folds over the elements (`std::accumulate` and
  // `std::inner_product`, both starting from 0).

  /** Left fold `acc + e * e` over `s`. */
  function SumOfSquares(s: seq<real>): real
  {
    if s == [] then 0.0 else SumOfSquares(s[..|s| - 1]) + s[|s| - 1] * s[|s| - 1]
  }

  /** Left fold `acc + a[i] * b[i]` over two equally long ranges. */
  function InnerProduct(a: seq<real>, b: seq<real>): real
    requires |a| == |b|
  {
    if a == [] then 0.0 else InnerProduct(a[..|a| - 1], b[..|b| - 1]) + a[|a| - 1] * b[|b| - 1]
  }

  function LengthSq(v: Vec2): real { SumOfSquares(Elements(v)) }

  function ScalarProduct(a: Vec2, b: Vec2): real { InnerProduct(Elements(a), Elements(b)) }

  /** The inner product of a range with itself is its sum of squares. */
  lemma {:induction false} InnerProductWithSelf(s: seq<real>)
    ensures InnerProduct(s, s) == SumOfSquares(s)
  {
    if s != [] {
      InnerProductWithSelf(s[..|s| - 1]);
    }
  }

  /** The inner product does not depend on the order of its operands. */
  lemma {:induction false} InnerProductSymmetric(a: seq<real>, b: seq<real>)
    requires |a| == |b|
    ensures InnerProduct(a, b) == InnerProduct(b, a)
  {
    if a != [] {
      InnerProductSymmetric(a[..|a| - 1], b[..|b| - 1]);
    }
  }

  /** `lengthSq(v)` is the sum of the squared elements and equals `scalarProduct(v, v)`. */
  lemma LengthSqIsSelfProduct(v: Vec2)
    ensures LengthSq(v) == v.x * v.x + v.y * v.y
    ensures ScalarProduct(v, v) == LengthSq(v)
  {
    InnerProductWithSelf(Elements(v));
    SumOfSquaresPair(v.x, v.y);
  }

  lemma SumOfSquaresPair(p: real, q: real)
    ensures SumOfSquares([p, q]) == p * p + q * q
  {
    var s := [p, q];
    assert s[..|s| - 1] == [p];
    assert [p][..0] == [];
    assert SumOfSquares([p]) == SumOfSquares([]) + p * p;
    assert SumOfSquares(s) == SumOfSquares([p]) + q * q;
  }

  lemma InnerProductPair(p: real, q: real, r: real, t: real)
    ensures InnerProduct([p, q], [r, t]) == p * r + q * t
  {
    var a, b := [p, q], [r, t];
    assert a[..|a| - 1] == [p];
    assert b[..|b| - 1] == [r];
    assert [p][..0] == [];
    assert [r][..0] == [];
    assert InnerProduct([p], [r]) == InnerProduct([], []) + p * r;
    assert InnerProduct(a, b) == InnerProduct([p], [r]) + q * t;
  }

  /** `scalarProduct(a, b)` is the sum of the element products and is symmetric. */
  lemma ScalarProductIsDot(a: Vec2, b: Vec2)
    ensures ScalarProduct(a, b) == a.x * b.x + a.y * b.y
    ensures ScalarProduct(a, b) == ScalarProduct(b, a)
  {
    InnerProductSymmetric(Elements(a), Elements(b));
    InnerProductPair(a.x, a.y, b.x, b.y);
  }

  /** The squared length is never negative and is 0 at the zero vector. */
  lemma LengthSqNonNegative(v: Vec2)
    ensures LengthSq(v) >= 0.0
    ensures LengthSq(Zero()) == 0.0
  {
    LengthSqIsSelfProduct(v);
    LengthSqIsSelfProduct(Zero());
    SquareNonNegative(v.x);
    SquareNonNegative(v.y);
  }

  lemma SquareNonNegative(a: real)
    ensures a * a >= 0.0
  {
    if a < 0.0 {
      assert a * a == (-a) * (-a);
    }
  }

  /** The 2D cross product `a.x * b.y - a.y * b.x`, the signed area spanned by two
      vectors. The intersection routine spells it out for its denominator and numerators. */
  function Cross(a: Vec2, b: Vec2): real
  {
    a.x * b.y - a.y * b.x
  }

  // Scalar helpers.

  /** `|x|` on values. */
  function Abs(x: real): real { if x < 0.0 then -x else x }

  /** `std::min(a, b)`: `b` only when it is strictly smaller. */
  function Min(a: real, b: real): (m: real)
    ensures m <= a && m <= b && (m == a || m == b)
  {
    if b < a then b else a
  }

  /** `std::max(a, b)`: `b` only when `a` is strictly smaller. */
  function Max(a: real, b: real): (m: real)
    ensures m >= a && m >= b && (m == a || m == b)
  {
    if a < b then b else a
  }

  // Integer vectors and C++ `%`.

  /** A 2D vector of integers, used where the element type must be integral. */
  datatype IVec2 = IVec2(x: int, y: int)

  function IAbs(a: int): nat { if a < 0 then -a else a }

  /** C++ `a / b` on integers: the quotient truncated toward zero. */
  function TruncDiv(a: int, b: int): int
    requires b != 0
  {
    var q := IAbs(a) / IAbs(b);
    if (a < 0) == (b < 0) then q else -q
  }

  /** C++ `a % b` on integers: `a - b * (a / b)` with the truncating quotient. */
  function CppRem(a: int, b: int): int
    requires b != 0
  {
    a - b * TruncDiv(a, b)
  }

  /** The C++ remainder is smaller in magnitude than the divisor, takes the sign of
      the dividend, and completes the truncating division. */
  lemma CppRemTruncates(a: int, b: int)
    requires b != 0
    ensures a == b * TruncDiv(a, b) + CppRem(a, b)
    ensures IAbs(CppRem(a, b)) < IAbs(b)
    ensures CppRem(a, b) != 0 ==> (CppRem(a, b) < 0 <==> a < 0)
  {
    var q, m := TruncDivParts(a, b);
    var B := IAbs(b);
    NegTimes(B, q);
    // b * TruncDiv(a, b) is B * q with the dividend's sign.
    if b < 0 {
      assert b == -B;
    } else {
      assert b == B;
    }
    assert b * TruncDiv(a, b) == (if a < 0 then -(B * q) else B * q);
    assert CppRem(a, b) == (if a < 0 then -m else m);
  }

  /** The magnitudes' Euclidean quotient and remainder, and the truncating quotient
      built from them. */
  lemma TruncDivParts(a: int, b: int) returns (q: int, m: int)
    requires b != 0
    ensures IAbs(a) == IAbs(b) * q + m && 0 <= m < IAbs(b)
    ensures TruncDiv(a, b) == if (a < 0) == (b < 0) then q else -q
  {
    q, m := IAbs(a) / IAbs(b), IAbs(a) % IAbs(b);
  }

  lemma NegTimes(x: int, y: int)
    ensures (-x) * y == -(x * y) && x * (-y) == -(x * y) && (-x) * (-y) == x * y
  {
  }

  /** `v %= k`, which asserts a non-zero divisor and applies C++ `%` to every element. */
  function ModScalar(v: IVec2, k: int): IVec2
    requires k != 0
  {
    IVec2(CppRem(v.x, k), CppRem(v.y, k))
  }

  /** `{7, 2} %= 5` gives `{2, 2}`; a negative element keeps its sign, unlike
      the Euclidean remainder. */
  lemma ModScalarExamples()
    ensures ModScalar(IVec2(7, 2), 5) == IVec2(2, 2)
    ensures ModScalar(IVec2(-7, 2), 5) == IVec2(-2, 2)
    ensures -7 % 5 == 3
  {
  }
}
