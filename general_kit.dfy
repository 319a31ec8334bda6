/** The two general helpers of GeneralKit: exchanging two variables and the
    null-or-empty test on a collection. */
module GeneralKit {
  import opened Wrappers

  /** Swap(ref a, ref b): the two `ref` arguments are modelled as in- and
      out-parameters, so a call site reads `a, b := Swap(a, b);`. */
  method Swap<T>(a: T, b: T) returns (a': T, b': T)
    ensures a' == b && b' == a
  {
    var c := a;
    a' := b;
    b' := c;
  }

  /** Two swaps in a row leave both variables as they were. */
  method SwapTwice<T>(a: T, b: T) returns (a': T, b': T)
    ensures a' == a && b' == b
  {
    a', b' := Swap(a, b);
    a', b' := Swap(a', b');
  }

  /** IsNullOrEmpty: a `null` collection is `None`; a collection is seen through
      its elements, whose number is `Count`. */
  predicate IsNullOrEmpty<T>(collection: Option<seq<T>>) {
    collection.None? || |collection.value| == 0
  }

  /** IsNullOrEmpty holds exactly when there is no collection or it holds no
      element at all. */
  lemma {:induction false} IsNullOrEmptyIffNoElement<T>(collection: Option<seq<T>>)
    ensures IsNullOrEmpty(collection) <==> !exists x :: collection.Some? && x in collection.value
  {
    if collection.Some? && |collection.value| > 0 {
      assert collection.value[0] in collection.value;
    }
  }
}
