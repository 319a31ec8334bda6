/** The index-selection extensions of `Random`: choosing an index by
    cumulative probabilities, and shuffling part of a list in place. */
module RandomExtension {
  import opened Ints
  import opened Wrappers
  import opened Randoms
  import ArrayExtension

  /** The sum of f(i) for a <= i < b. */
  function Sum(f: int -> real, a: int, b: int): real
    decreases b - a
  {
    if b <= a then 0.0 else Sum(f, a, b - 1) + f(b - 1)
  }

  /** `r` is the index the cumulative rule picks among start..last for the
      draw x: the first i < last at which what is left of x, after taking away
      the probabilities before i, falls below f(i); otherwise `last`, which
      absorbs the leftover probability. */
  ghost predicate IsCumulativeChoice(f: int -> real, start: int, last: int, x: real, r: int) {
    (r == last || start <= r < last)
    && (forall j :: start <= j < r && j < last ==> x - Sum(f, start, j) >= f(j))
    && (r < last ==> x - Sum(f, start, r) < f(r))
  }

  /** Choose(Func<int, float>, startIndex, count): the count is taken as given. */
  method ChooseBy(random: Random, getProbability: int -> real, startIndex: int32, count: int32) returns (r: int32)
    modifies random
    ensures random.seed == NextSeed(old(random.seed))
    ensures IsCumulativeChoice(getProbability, startIndex, Wrap32(startIndex + count - 1), Unit(random.seed), r)
    ensures startIndex <= Wrap32(startIndex + count - 1) ==> startIndex <= r <= Wrap32(startIndex + count - 1)
  {
    var lastIndex := Wrap32(startIndex + count - 1);
    var rest := random.Next01();
    r := CumulativeScan(getProbability, startIndex, lastIndex, rest);
  }

  /** The loop both Choose overloads run: walk from start towards last,
      taking each probability away from what is left of the draw. */
  method CumulativeScan(f: int -> real, startIndex: int32, lastIndex: int32, x: real) returns (r: int32)
    ensures IsCumulativeChoice(f, startIndex, lastIndex, x, r)
  {
    var rest := x;
    var i := startIndex;
    while i < lastIndex
      invariant startIndex <= i
      invariant rest == x - Sum(f, startIndex, i)
      invariant forall j :: startIndex <= j < i ==> x - Sum(f, startIndex, j) >= f(j)
      decreases lastIndex as int - i
    {
      var current := f(i);
      if rest < current {
        return i;
      }
      rest := rest - current;
      i := i + 1;
    }
    return lastIndex;
  }

  /** The count Choose(IList<float>, ...) actually uses: a count below 1 or
      running past the end becomes Count - startIndex. */
  function NormalizedCount(total: int, startIndex: int32, count: int32): int32 {
    var available := Wrap32(total - startIndex);
    if count < 1 || count > available then available else count
  }

  /** A list read as a function of the index (0 outside the list). */
  function At(probabilities: seq<real>): int -> real {
    i => if 0 <= i < |probabilities| then probabilities[i] else 0.0
  }

  /** Choose(IList<float>, startIndex, count): the list indexer throws when a
      negative start is read. */
  method Choose(random: Random, probabilities: seq<real>, startIndex: int32, count: int32) returns (r: Result<int32>)
    requires |probabilities| < 0x8000_0000
    modifies random
    ensures random.seed == NextSeed(old(random.seed))
    ensures var last := Wrap32(startIndex + NormalizedCount(|probabilities|, startIndex, count) - 1);
      && (r.Err? <==> startIndex < 0 && startIndex < last)
      && (r.Err? ==> r.error == ArgumentOutOfRange)
      && (r.Ok? ==> IsCumulativeChoice(At(probabilities), startIndex, last, Unit(random.seed), r.value))
    ensures 0 <= startIndex < |probabilities| ==> r.Ok? && startIndex <= r.value < |probabilities|
  {
    var n := NormalizedCount(|probabilities|, startIndex, count);
    var lastIndex := Wrap32(startIndex + n - 1);
    var rest := random.Next01();
    if startIndex < 0 && startIndex < lastIndex {
      return Err(ArgumentOutOfRange);
    }
    var i := CumulativeScan(At(probabilities), startIndex, lastIndex, rest);
    return Ok(i);
  }

  /** The last index Sort shuffles: startIndex + count - 1, or the end of the
      list when that range is empty or runs past the end. */
  function ShuffleEnd(length: int, startIndex: int32, count: int32): int {
    var lastIndex := Wrap32(startIndex + count);
    (if lastIndex <= startIndex || lastIndex > length then length else lastIndex) - 1
  }

  /** Positions start + k and partners[k] all lie in [0, n). */
  ghost predicate Within(start: int, partners: seq<int>, n: int) {
    && (partners != [] ==> 0 <= start && start + |partners| <= n)
    && forall k :: 0 <= k < |partners| ==> 0 <= partners[k] < n
  }

  lemma WithinNext(start: int, partners: seq<int>, x: int, n: int)
    requires Within(start, partners, n) && 0 <= start + |partners| < n && 0 <= x < n
    ensures Within(start, partners + [x], n)
  {
    var ps := partners + [x];
    forall k | 0 <= k < |ps| ensures 0 <= ps[k] < n {
      if k < |partners| {
        assert ps[k] == partners[k];
      }
    }
  }

  lemma WithinPrefix(start: int, partners: seq<int>, m: int, n: int)
    requires Within(start, partners, n) && 0 <= m <= |partners|
    ensures Within(start, partners[..m], n)
  {
    forall k | 0 <= k < m ensures 0 <= partners[..m][k] < n {
      assert partners[..m][k] == partners[k];
    }
  }

  /** Each partners[k] was drawn from [start + k, last]. */
  ghost predicate Drawn(start: int, partners: seq<int>, last: int) {
    forall k :: 0 <= k < |partners| ==> start + k <= partners[k] <= last
  }

  lemma DrawnPrefix(start: int, partners: seq<int>, m: int, last: int)
    requires Drawn(start, partners, last) && 0 <= m <= |partners|
    ensures Drawn(start, partners[..m], last)
  {
    forall k | 0 <= k < m ensures start + k <= partners[..m][k] <= last {
      assert partners[..m][k] == partners[k];
    }
  }

  lemma DrawnNext(start: int, partners: seq<int>, x: int, last: int, n: int)
    requires Drawn(start, partners, last) && Within(start, partners, n)
    requires 0 <= start + |partners| <= x <= last < n
    ensures Drawn(start, partners + [x], last) && Within(start, partners + [x], n)
  {
    WithinNext(start, partners, x, n);
    var ps := partners + [x];
    forall k | 0 <= k < |ps| ensures start + k <= ps[k] <= last {
      if k < |partners| {
        assert ps[k] == partners[k];
      }
    }
  }

  /** `s` after exchanging position start + k with partners[k], for each k
      in turn. */
  function Swaps<T>(s: seq<T>, start: int, partners: seq<int>): (r: seq<T>)
    requires Within(start, partners, |s|)
    ensures |r| == |s|
    decreases |partners|
  {
    if partners == [] then s
    else
      var n := |partners| - 1;
      WithinPrefix(start, partners, n, |s|);
      Exchange(Swaps(s, start, partners[..n]), start + n, partners[n])
  }

  /** `t` with positions i and j exchanged. */
  function Exchange<T>(t: seq<T>, i: int, j: int): (r: seq<T>)
    requires 0 <= i < |t| && 0 <= j < |t|
    ensures |r| == |t| && r[i] == t[j] && r[j] == t[i]
  {
    t[i := t[j]][j := t[i]]
  }

  /** An exchange keeps the multiset of entries. */
  lemma ExchangePermutes<T>(t: seq<T>, i: int, j: int)
    requires 0 <= i < |t| && 0 <= j < |t|
    ensures multiset(Exchange(t, i, j)) == multiset(t)
  {
  }

  lemma ExchangeElsewhere<T>(t: seq<T>, i: int, j: int, k: int)
    requires 0 <= i < |t| && 0 <= j < |t| && 0 <= k < |t| && k != i && k != j
    ensures Exchange(t, i, j)[k] == t[k]
  {
  }

  /** The exchanges only rearrange the elements. */
  lemma {:induction false} SwapsPermutes<T>(s: seq<T>, start: int, partners: seq<int>)
    requires Within(start, partners, |s|)
    ensures multiset(Swaps(s, start, partners)) == multiset(s)
    decreases |partners|
  {
    if partners != [] {
      var n := |partners| - 1;
      WithinPrefix(start, partners, n, |s|);
      SwapsPermutes(s, start, partners[..n]);
      ExchangePermutes(Swaps(s, start, partners[..n]), start + n, partners[n]);
    }
  }

  /** With each partner between its position and `last`, nothing outside
      [start, last] moves. */
  lemma {:induction false} SwapsOutside<T>(s: seq<T>, start: int, partners: seq<int>, last: int)
    requires Within(start, partners, |s|)
    requires Drawn(start, partners, last)
    ensures forall k :: 0 <= k < |s| && !(start <= k <= last) ==> Swaps(s, start, partners)[k] == s[k]
    decreases |partners|
  {
    if partners != [] {
      var n := |partners| - 1;
      WithinPrefix(start, partners, n, |s|);
      DrawnPrefix(start, partners, n, last);
      SwapsOutside(s, start, partners[..n], last);
      var t := Swaps(s, start, partners[..n]);
      forall k | 0 <= k < |s| && !(start <= k <= last) ensures Swaps(s, start, partners)[k] == s[k] {
        ExchangeElsewhere(t, start + n, partners[n], k);
      }
    }
  }

  /** One more exchange, of position start + |partners| with x. */
  lemma {:induction false} SwapsNext<T>(s: seq<T>, start: int, partners: seq<int>, x: int)
    requires Within(start, partners, |s|)
    requires 0 <= start + |partners| < |s| && 0 <= x < |s|
    ensures Within(start, partners + [x], |s|)
    ensures Swaps(s, start, partners + [x]) == Exchange(Swaps(s, start, partners), start + |partners|, x)
  {
    WithinNext(start, partners, x, |s|);
    SwapsLast(s, start, partners + [x], partners, x);
  }

  /** Swaps unfolded once: the last exchange comes after all the others. */
  lemma {:induction false} SwapsLast<T>(s: seq<T>, start: int, ps: seq<int>, prefix: seq<int>, x: int)
    requires Within(start, ps, |s|) && Within(start, prefix, |s|)
    requires ps == prefix + [x] && 0 <= start + |prefix| < |s| && 0 <= x < |s|
    ensures Swaps(s, start, ps) == Exchange(Swaps(s, start, prefix), start + |prefix|, x)
  {
    assert ps[..|prefix|] == prefix;
    assert ps[|prefix|] == x;
  }

  /** partners[k] is the value of the (k+1)-th Range(start + k, last + 1) draw
      of a generator that started from `seed`. */
  ghost predicate DrawnFromSeed(seed: uint32, start: int32, last: int, partners: seq<int>) {
    && -0x8000_0000 <= last < 0x7FFF_FFFF
    && forall k :: 0 <= k < |partners| && start as int + k <= 0x7FFF_FFFF ==>
         partners[k] == RangeAsWritten((start as int + k) as int32, (last + 1) as int32, Unit(SeedAfter(seed, k + 1)))
  }

  lemma DrawnFromSeedNext(seed: uint32, start: int32, last: int, partners: seq<int>, x: int)
    requires DrawnFromSeed(seed, start, last, partners)
    requires start as int + |partners| <= 0x7FFF_FFFF
    requires x == RangeAsWritten((start as int + |partners|) as int32, (last + 1) as int32, Unit(SeedAfter(seed, |partners| + 1)))
    ensures DrawnFromSeed(seed, start, last, partners + [x])
  {
    var ps := partners + [x];
    forall k | 0 <= k < |ps| && start as int + k <= 0x7FFF_FFFF
      ensures ps[k] == RangeAsWritten((start as int + k) as int32, (last + 1) as int32, Unit(SeedAfter(seed, k + 1)))
    {
      if k < |partners| {
        assert ps[k] == partners[k];
      }
    }
  }

  /** The exchange of one turn of Shuffle's loop. */
  method SwapNext<T>(list: array<T>, ghost original: seq<T>, start: int, ghost partners: seq<int>, i: int, x: int)
    requires |original| == list.Length && i == start + |partners|
    requires Within(start, partners, |original|)
    requires 0 <= start + |partners| < list.Length && 0 <= x < list.Length
    requires list[..] == Swaps(original, start, partners)
    modifies list
    ensures Within(start, partners + [x], |original|)
    ensures list[..] == Swaps(original, start, partners + [x])
  {
    SwapsNext(original, start, partners, x);
    var temp := list[i];
    list[i] := list[x];
    list[x] := temp;
  }

  /** The draw of one turn of Shuffle's loop: Range(i, last + 1) for the
      position i = startIndex + |partners|, one more step of the generator. */
  method DrawPartner(random: Random, ghost seed: uint32, startIndex: int32, i: int32, lastIndex: int, ghost partners: seq<int>)
    returns (swapIndex: int32)
    requires i as int == startIndex as int + |partners| < lastIndex < 0x7FFF_FFFF
    requires random.seed == SeedAfter(seed, |partners|)
    requires DrawnFromSeed(seed, startIndex, lastIndex, partners)
    modifies random
    ensures random.seed == SeedAfter(seed, |partners| + 1)
    ensures DrawnFromSeed(seed, startIndex, lastIndex, partners + [swapIndex as int])
    ensures 0 <= i ==> i as int <= swapIndex as int <= lastIndex
  {
    swapIndex := random.Range(i, (lastIndex + 1) as int32);
    DrawnFromSeedNext(seed, startIndex, lastIndex, partners, swapIndex as int);
  }

  /** Sort(list, startIndex, count): swaps each position i of the range with a
      partner drawn from [i, last]. A negative start throws on the first list
      access, after one draw and before any swap. `partners` records the draws. */
  method Shuffle<T>(random: Random, list: array<T>, startIndex: int32, count: int32)
    returns (outcome: Outcome, ghost partners: seq<int>)
    requires list.Length < 0x8000_0000
    modifies random, list
    ensures var last := ShuffleEnd(list.Length, startIndex, count);
      && (outcome.Fail? <==> startIndex < 0 && startIndex < last)
      && (outcome.Fail? ==> outcome.error == ArgumentOutOfRange && list[..] == old(list[..]) && partners == [])
      && (forall k :: 0 <= k < |partners| ==> startIndex + k <= partners[k] <= last)
      && (outcome.Done? ==> |partners| == if startIndex < last then last - startIndex else 0)
      && (partners != [] ==> 0 <= startIndex)
      && list[..] == Swaps(old(list[..]), startIndex, partners)
      && (forall k :: 0 <= k < list.Length && !(startIndex <= k <= last) ==> list[k] == old(list[k]))
    ensures multiset(list[..]) == multiset(old(list[..]))
    ensures random.seed == SeedAfter(old(random.seed), |partners| + if outcome.Fail? then 1 else 0)
    ensures DrawnFromSeed(old(random.seed), startIndex, ShuffleEnd(list.Length, startIndex, count), partners)
  {
    var lastIndex := ShuffleEnd(list.Length, startIndex, count);
    partners := [];
    var i := startIndex;
    while i < lastIndex
      invariant startIndex <= i && (i <= lastIndex || i == startIndex)
      invariant i == startIndex + |partners|
      invariant Drawn(startIndex, partners, lastIndex)
      invariant partners != [] ==> 0 <= startIndex
      invariant Within(startIndex, partners, list.Length)
      invariant list[..] == Swaps(old(list[..]), startIndex, partners)
      invariant random.seed == SeedAfter(old(random.seed), |partners|)
      invariant DrawnFromSeed(old(random.seed), startIndex, lastIndex, partners)
      decreases lastIndex - i
    {
      var swapIndex := DrawPartner(random, old(random.seed), startIndex, i, lastIndex, partners);
      if i < 0 {
        return Fail(ArgumentOutOfRange), partners;
      }
      DrawnNext(startIndex, partners, swapIndex, lastIndex, list.Length);
      SwapNext(list, old(list[..]), startIndex, partners, i, swapIndex);
      partners := partners + [swapIndex];
      i := i + 1;
    }
    outcome := Done;
    SwapsPermutes(old(list[..]), startIndex, partners);
    SwapsOutside(old(list[..]), startIndex, partners, lastIndex);
  }
}
