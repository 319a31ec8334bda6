/** Finding the first element of a sequence that satisfies a predicate: the
    common specification of the linear searches of the library. */
module Search {
  import opened Wrappers

  /** The first element of a sequence that satisfies `matches`. */
  function FirstMatch<X>(s: seq<X>, matches: X -> bool): (r: Option<X>)
    ensures r.Some? ==> r.value in s && matches(r.value)
  {
    if s == [] then None
    else if matches(s[0]) then Some(s[0])
    else FirstMatch(s[1..], matches)
  }

  /** FirstMatch finds nothing exactly when no element matches, and otherwise the
      element at the least matching index. */
  lemma {:induction false} FirstMatchIsLeast<X>(s: seq<X>, matches: X -> bool)
    ensures FirstMatch(s, matches).None? <==> forall k :: 0 <= k < |s| ==> !matches(s[k])
    ensures forall k :: 0 <= k < |s| && matches(s[k]) && (forall j :: 0 <= j < k ==> !matches(s[j])) ==>
      FirstMatch(s, matches) == Some(s[k])
  {
    if s != [] {
      FirstMatchIsLeast(s[1..], matches);
      forall k | 0 <= k < |s| && !matches(s[0]) && matches(s[k]) && (forall j :: 0 <= j < k ==> !matches(s[j]))
        ensures FirstMatch(s, matches) == Some(s[k])
      {
        assert k > 0 && s[k] == s[1..][k - 1];
        assert forall j :: 0 <= j < k - 1 ==> !matches(s[1..][j]) by {
          forall j | 0 <= j < k - 1 ensures !matches(s[1..][j]) {
            assert s[1..][j] == s[j + 1];
          }
        }
      }
      if FirstMatch(s, matches).None? {
        forall k | 0 <= k < |s| ensures !matches(s[k]) {
          if k > 0 { assert s[k] == s[1..][k - 1]; }
        }
      }
    }
  }

  /** FirstMatch of a concatenation: the first part's matches, if it has one. */
  lemma {:induction false} FirstMatchOfConcat<X>(a: seq<X>, b: seq<X>, matches: X -> bool)
    ensures FirstMatch(a + b, matches) == (if FirstMatch(a, matches).Some? then FirstMatch(a, matches) else FirstMatch(b, matches))
    decreases |a|
  {
    if a != [] {
      assert (a + b)[1..] == a[1..] + b;
      FirstMatchOfConcat(a[1..], b, matches);
    } else {
      assert a + b == b;
    }
  }
}
