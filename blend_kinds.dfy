/** The concrete controllers: float and Vector2 values, scaled by
    multiplication, compared component by component, and blended by sum,
    product or maximum. Each fold of a blend over the channel list is tied
    to an independent definition of what it computes. */
module BlendKinds {
  import opened Vectors
  import Ranges
  import opened BlendEffects

  function ScaleFloat(a: real, b: real): real { a * b }

  function EqualsFloat(a: real, b: real): bool { a == b }

  function Additive(a: real, b: real): real { a + b }

  function Multiply(a: real, b: real): real { a * b }

  function Maximum(a: real, b: real): real { Ranges.Max(a, b) }

  function ScaleVector2(a: Vector2, b: real): Vector2 {
    Vector2(a.x * b, a.y * b)
  }

  /** Equal exactly when the vectors are the same. */
  function EqualsVector2(a: Vector2, b: Vector2): (r: bool)
    ensures r <==> a == b
  {
    a.x == b.x && a.y == b.y
  }

  function AdditiveVector2(a: Vector2, b: Vector2): Vector2 {
    Vector2(a.x + b.x, a.y + b.y)
  }

  /** Vector2.Scale: the component-wise product. */
  function MultiplyVector2(a: Vector2, b: Vector2): Vector2 {
    Vector2(a.x * b.x, a.y * b.y)
  }

  /** Vector2.Max: the component-wise maximum. */
  function MaximumVector2(a: Vector2, b: Vector2): Vector2 {
    Vector2(Ranges.Max(a.x, b.x), Ranges.Max(a.y, b.y))
  }

  /** The sum of a list, from the front. */
  function Sum(vs: seq<real>): real {
    if vs == [] then 0.0 else vs[0] + Sum(vs[1..])
  }

  /** The product of a list, from the front. */
  function Product(vs: seq<real>): real {
    if vs == [] then 1.0 else vs[0] * Product(vs[1..])
  }

  lemma {:induction false} SumAppend(vs: seq<real>, v: real)
    ensures Sum(vs + [v]) == Sum(vs) + v
  {
    if vs != [] {
      assert (vs + [v])[1..] == vs[1..] + [v];
      SumAppend(vs[1..], v);
    }
  }

  lemma {:induction false} ProductAppend(vs: seq<real>, v: real)
    ensures Product(vs + [v]) == Product(vs) * v
  {
    if vs != [] {
      assert (vs + [v])[1..] == vs[1..] + [v];
      ProductAppend(vs[1..], v);
    }
  }

  /** The additive controller's channel output: the base plus every value. */
  lemma {:induction false} AdditiveFold(base: real, vs: seq<real>)
    ensures BlendAll(Additive, base, vs) == base + Sum(vs)
  {
    if vs != [] {
      var init := vs[..|vs| - 1];
      AdditiveFold(base, init);
      SumAppend(init, vs[|vs| - 1]);
      assert init + [vs[|vs| - 1]] == vs;
    }
  }

  /** The multiplying controller's channel output: the base times every value. */
  lemma {:induction false} MultiplyFold(base: real, vs: seq<real>)
    ensures BlendAll(Multiply, base, vs) == base * Product(vs)
  {
    if vs != [] {
      var init := vs[..|vs| - 1];
      MultiplyFold(base, init);
      ProductAppend(init, vs[|vs| - 1]);
      assert init + [vs[|vs| - 1]] == vs;
    }
  }

  /** The maximum controller's channel output: the largest of the base and
      the values. */
  lemma {:induction false} MaximumFold(base: real, vs: seq<real>)
    ensures var r := BlendAll(Maximum, base, vs);
      && r >= base && (forall k :: 0 <= k < |vs| ==> r >= vs[k])
      && (r == base || r in vs)
  {
    if vs != [] {
      var init := vs[..|vs| - 1];
      MaximumFold(base, init);
      var r0 := BlendAll(Maximum, base, init);
      assert forall k :: 0 <= k < |init| ==> vs[k] == init[k];
      assert r0 in init ==> r0 in vs;
    }
  }

  /** The x and the y components of a list of vectors. */
  function Xs(vs: seq<Vector2>): (r: seq<real>)
    ensures |r| == |vs| && forall k :: 0 <= k < |vs| ==> r[k] == vs[k].x
  {
    if vs == [] then [] else Xs(vs[..|vs| - 1]) + [vs[|vs| - 1].x]
  }

  function Ys(vs: seq<Vector2>): (r: seq<real>)
    ensures |r| == |vs| && forall k :: 0 <= k < |vs| ==> r[k] == vs[k].y
  {
    if vs == [] then [] else Ys(vs[..|vs| - 1]) + [vs[|vs| - 1].y]
  }

  /** `g` applies `f` to each component alone. */
  ghost predicate Componentwise(f: (real, real) -> real, g: (Vector2, Vector2) -> Vector2) {
    forall a, b :: g(a, b) == Vector2(f(a.x, b.x), f(a.y, b.y))
  }

  /** The three Vector2 blends are the float blends, component by component. */
  lemma BlendsComponentwise()
    ensures Componentwise(Additive, AdditiveVector2)
    ensures Componentwise(Multiply, MultiplyVector2)
    ensures Componentwise(Maximum, MaximumVector2)
  {
  }

  /** A blend that works on each component alone folds each component alone. */
  lemma {:induction false} ComponentwiseFold(f: (real, real) -> real, g: (Vector2, Vector2) -> Vector2, base: Vector2, vs: seq<Vector2>)
    requires Componentwise(f, g)
    ensures BlendAll(g, base, vs) == Vector2(BlendAll(f, base.x, Xs(vs)), BlendAll(f, base.y, Ys(vs)))
  {
    if vs != [] {
      var init := vs[..|vs| - 1];
      ComponentwiseFold(f, g, base, init);
      assert Xs(vs)[..|vs| - 1] == Xs(init);
      assert Ys(vs)[..|vs| - 1] == Ys(init);
    }
  }

  /** The additive Vector2 controller's channel output, per component. */
  lemma AdditiveVector2Fold(base: Vector2, vs: seq<Vector2>)
    ensures BlendAll(AdditiveVector2, base, vs) == Vector2(base.x + Sum(Xs(vs)), base.y + Sum(Ys(vs)))
  {
    BlendsComponentwise();
    ComponentwiseFold(Additive, AdditiveVector2, base, vs);
    AdditiveFold(base.x, Xs(vs));
    AdditiveFold(base.y, Ys(vs));
  }

  /** The multiplying Vector2 controller's channel output: each component is
      the multiplying float controller's output on that component, which
      MultiplyFold gives as the base times the product of the values. */
  lemma MultiplyVector2Fold(base: Vector2, vs: seq<Vector2>)
    ensures BlendAll(MultiplyVector2, base, vs) == Vector2(BlendAll(Multiply, base.x, Xs(vs)), BlendAll(Multiply, base.y, Ys(vs)))
  {
    BlendsComponentwise();
    ComponentwiseFold(Multiply, MultiplyVector2, base, vs);
  }

  /** The maximum Vector2 controller's channel output: each component is the
      largest of the base's and the values'. */
  lemma MaximumVector2Fold(base: Vector2, vs: seq<Vector2>)
    ensures var r := BlendAll(MaximumVector2, base, vs);
      && r.x >= base.x && r.y >= base.y
      && (forall k :: 0 <= k < |vs| ==> r.x >= vs[k].x && r.y >= vs[k].y)
      && (r.x == base.x || exists k :: 0 <= k < |vs| && r.x == vs[k].x)
      && (r.y == base.y || exists k :: 0 <= k < |vs| && r.y == vs[k].y)
  {
    BlendsComponentwise();
    ComponentwiseFold(Maximum, MaximumVector2, base, vs);
    MaximumFold(base.x, Xs(vs));
    MaximumFold(base.y, Ys(vs));
  }
}
