/** Transform components: pure vector-to-vector maps that a rect pushes its raw
    corners through, in order. */
module Transforms {

  import opened Vectors

  /** One component of a rect's transform list.
      - `ComponentTranslation` is `component::Translation` (public `transform`);
      - `Translate` is `transform::Translate`;
      - `Translation` is `transform::Translation`, whose `transform` is protected, so
        the class fails the component constraint a rect places on its components;
      - `Scale` multiplies element-wise;
      - `Shear` skews x by a multiple of y and y by a multiple of x. */
  datatype Transform =
    | ComponentTranslation(translation: Vec2)
    | Translate(translation: Vec2)
    | Translation(translation: Vec2)
    | Scale(scale: Vec2)
    | Shear(shear: Vec2)

  /** The three translation variants. */
  predicate IsTranslation(t: Transform)
  {
    t.ComponentTranslation? || t.Translate? || t.Translation?
  }

  // Default-constructed components: translations and shear hold a value-initialised
  // (zero) vector, scale holds (1, 1).

  function DefaultComponentTranslation(): Transform { ComponentTranslation(Vectors.Default()) }

  function DefaultTranslate(): Transform { Translate(Vectors.Default()) }

  function DefaultTranslation(): Transform { Translation(Vectors.Default()) }

  function DefaultScale(): Transform { Scale(Vec2(1.0, 1.0)) }

  function DefaultShear(): Transform { Shear(Vectors.Default()) }

  /** `component.transform(v)`. Each component takes its argument by value (or by
      const reference, for shear) and is const, so it never changes. */
  function Apply(t: Transform, v: Vec2): Vec2
  {
    match t
    case ComponentTranslation(d) => Add(v, d)
    case Translate(d) => Add(v, d)
    case Translation(d) => Add(v, d)
    case Scale(s) => Vec2(v.x * s.x, v.y * s.y)
    case Shear(s) => Vec2(v.x + s.x * v.y, v.y + s.y * v.x)
  }

  /** The components applied to `v` in list order, each output feeding the next. */
  function ApplyAll(ts: seq<Transform>, v: Vec2): Vec2
  {
    if ts == [] then v else ApplyAll(ts[1..], Apply(ts[0], v))
  }

  /** Every translation variant adds its vector and keeps differences between points. */
  lemma TranslationAdds(t: Transform, u: Vec2, v: Vec2)
    requires IsTranslation(t)
    ensures Apply(t, v) == Add(v, t.translation)
    ensures Sub(Apply(t, u), Apply(t, v)) == Sub(u, v)
    ensures Apply(t.(translation := Vectors.Sub(Zero(), t.translation)), Apply(t, v)) == v
  {
  }

  /** Default-constructed components map every vector to itself. */
  lemma DefaultsAreIdentity(v: Vec2)
    ensures Apply(DefaultComponentTranslation(), v) == v
    ensures Apply(DefaultTranslate(), v) == v
    ensures Apply(DefaultTranslation(), v) == v
    ensures Apply(DefaultScale(), v) == v
    ensures Apply(DefaultShear(), v) == v
  {
  }

  /** Scale multiplies element by element; a scale with non-zero factors is undone
      by the reciprocal scale, and the signed area scales by the product of the factors. */
  lemma ScaleIsElementWise(s: Vec2, u: Vec2, v: Vec2)
    ensures forall i :: 0 <= i < 2 ==> At(Apply(Scale(s), v), i) == At(v, i) * At(s, i)
    ensures s.x != 0.0 && s.y != 0.0 ==> Apply(Scale(Vec2(1.0 / s.x, 1.0 / s.y)), Apply(Scale(s), v)) == v
    ensures Cross(Apply(Scale(s), u), Apply(Scale(s), v)) == s.x * s.y * Cross(u, v)
  {
    if s.x != 0.0 && s.y != 0.0 {
      assert v.x * s.x * (1.0 / s.x) == v.x;
      assert v.y * s.y * (1.0 / s.y) == v.y;
    }
  }

  /** Shear computes both terms from the original vector: with `s.y = 0` the y
      element is kept, with `s.x = 0` the x element is kept, and the signed area of
      any two vectors is multiplied by `1 - s.x * s.y`. */
  lemma ShearSkews(s: Vec2, u: Vec2, v: Vec2)
    ensures Apply(Shear(s), v) == Vec2(v.x + s.x * v.y, v.y + s.y * v.x)
    ensures s.y == 0.0 ==> Apply(Shear(s), v).y == v.y
    ensures s.x == 0.0 ==> Apply(Shear(s), v).x == v.x
    ensures Cross(Apply(Shear(s), u), Apply(Shear(s), v)) == (1.0 - s.x * s.y) * Cross(u, v)
  {
  }

  /** A one-element list applies its component once. */
  lemma ApplyAllSingle(t: Transform, v: Vec2)
    ensures ApplyAll([t], v) == Apply(t, v)
  {
    assert [t][1..] == [];
  }

  /** Applying a concatenated list is applying the first part, then the second:
      the components run strictly in list order. */
  lemma {:induction false} ApplyAllConcat(ts1: seq<Transform>, ts2: seq<Transform>, v: Vec2)
    ensures ApplyAll(ts1 + ts2, v) == ApplyAll(ts2, ApplyAll(ts1, v))
    decreases |ts1|
  {
    if ts1 == [] {
      assert ts1 + ts2 == ts2;
    } else {
      assert (ts1 + ts2)[1..] == ts1[1..] + ts2;
      ApplyAllConcat(ts1[1..], ts2, Apply(ts1[0], v));
    }
  }

  /** A list made only of translations moves every point by the same vector, so it
      keeps differences between points. */
  lemma {:induction false} TranslationsKeepDifferences(ts: seq<Transform>, u: Vec2, v: Vec2)
    requires forall i :: 0 <= i < |ts| ==> IsTranslation(ts[i])
    ensures Sub(ApplyAll(ts, u), ApplyAll(ts, v)) == Sub(u, v)
    decreases |ts|
  {
    if ts != [] {
      TranslationAdds(ts[0], u, v);
      TranslationsKeepDifferences(ts[1..], Apply(ts[0], u), Apply(ts[0], v));
    }
  }
}
