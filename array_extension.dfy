/** The target and list extension methods: filling a range, finding the
    nearest value, resizing a list, and a stable bubble sort of a range. */
module ArrayExtension {
  import opened Ints
  import opened Wrappers

  /** The three-assignment exchange of list[i] and list[j]. */
  method SwapElements<T>(list: array<T>, i: int, j: int)
    requires 0 <= i < list.Length && 0 <= j < list.Length
    modifies list
    ensures list[..] == old(list[..])[i := old(list[j])][j := old(list[i])]
    ensures multiset(list[..]) == multiset(old(list[..]))
  {
    var temp := list[i];
    list[i] := list[j];
    list[j] := temp;
  }

  /** SetValues(array, value, index, count): writes array[index..index+count),
      or index to the end when count <= 0. An index outside the array throws,
      after the writes that came before it. */
  method SetValues<T>(target: array<T>, value: T, index: int32, count: int32) returns (outcome: Outcome)
    modifies target
    ensures var last := if count > 0 then Wrap32(index + count) else target.Length;
      && (outcome.Fail? <==> index < last && (index < 0 || last > target.Length))
      && (outcome.Fail? ==> outcome.error == IndexOutOfRange)
      && forall k :: 0 <= k < target.Length ==> target[k] == if 0 <= index <= k < last then value else old(target[k])
  {
    var lastIndex := if count > 0 then Wrap32(index + count) else target.Length;
    var i: int := index;
    while i < lastIndex
      invariant index <= i && (i <= lastIndex || i == index)
      invariant i > index ==> 0 <= index && i <= target.Length
      invariant forall k :: 0 <= k < target.Length ==> target[k] == if 0 <= index <= k < i then value else old(target[k])
      decreases lastIndex - i
    {
      if i < 0 || i >= target.Length {
        return Fail(IndexOutOfRange);
      }
      target[i] := value;
      i := i + 1;
    }
    outcome := Done;
  }

  /** SetValues(array2, value, beginRow, beginCol, endRow, endCol): writes the
      inclusive rectangle row by row; an end <= 0 stands for the last index.
      The first access outside the array throws, after the writes before it:
      a first row outside the array or a negative first column writes
      nothing, columns past the end leave only the first row's part inside
      written, and rows past the end leave the rows inside written. */
  method SetValues2D<T>(target: array2<T>, value: T, beginRow: int, beginCol: int, endRow: int, endCol: int)
    returns (outcome: Outcome)
    modifies target
    ensures var lastRow := if endRow <= 0 then target.Length0 - 1 else endRow;
      var lastCol := if endCol <= 0 then target.Length1 - 1 else endCol;
      && (outcome.Fail? <==>
            (beginRow <= lastRow && beginCol <= lastCol
             && (beginRow < 0 || beginCol < 0 || lastRow >= target.Length0 || lastCol >= target.Length1)))
      && (outcome.Fail? ==> outcome.error == IndexOutOfRange)
      && forall r, c :: 0 <= r < target.Length0 && 0 <= c < target.Length1 ==>
            target[r, c] == if 0 <= beginRow <= r <= lastRow && 0 <= beginCol <= c <= lastCol
                                && (lastCol < target.Length1 || r == beginRow)
                             then value else old(target[r, c])
  {
    var lastRow := if endRow <= 0 then target.Length0 - 1 else endRow;
    var lastCol := if endCol <= 0 then target.Length1 - 1 else endCol;
    var i := beginRow;
    while i <= lastRow
      invariant beginRow <= i && (i <= lastRow + 1 || i == beginRow)
      invariant i > beginRow && beginCol <= lastCol ==> 0 <= beginRow && 0 <= beginCol && lastCol < target.Length1 && i <= target.Length0
      invariant forall r, c :: 0 <= r < target.Length0 && 0 <= c < target.Length1 ==>
        target[r, c] == if 0 <= beginRow <= r < i && 0 <= beginCol <= c <= lastCol then value else old(target[r, c])
      decreases lastRow - i
    {
      outcome := FillRow(target, value, i, beginCol, lastCol);
      if outcome.Fail? {
        return;
      }
      i := i + 1;
    }
    outcome := Done;
  }

  /** The inner loop of SetValues2D: row i, columns first..last. The first
      access outside the array throws; a row outside it or a negative first
      column writes nothing, columns past the end leave the row's part
      inside written. */
  method FillRow<T>(target: array2<T>, value: T, i: int, first: int, last: int) returns (outcome: Outcome)
    modifies target
    ensures outcome.Fail? <==> first <= last && (i < 0 || i >= target.Length0 || first < 0 || last >= target.Length1)
    ensures outcome.Fail? ==> outcome.error == IndexOutOfRange
    ensures forall r, c :: 0 <= r < target.Length0 && 0 <= c < target.Length1 ==>
      target[r, c] == if r == i && 0 <= first <= c <= last then value else old(target[r, c])
  {
    var j := first;
    while j <= last
      invariant first <= j && (j <= last + 1 || j == first)
      invariant j > first ==> 0 <= i < target.Length0 && 0 <= first && j <= target.Length1
      invariant forall r, c :: 0 <= r < target.Length0 && 0 <= c < target.Length1 ==>
        target[r, c] == if r == i && 0 <= first <= c < j then value else old(target[r, c])
      decreases last - j
    {
      if i < 0 || i >= target.Length0 || j < 0 || j >= target.Length1 {
        return Fail(IndexOutOfRange);
      }
      target[i, j] := value;
      j := j + 1;
    }
    outcome := Done;
  }

  function Abs(x: real): real {
    if x < 0.0 then -x else x
  }

  /** FindNearest(items, value): -1 for a null or empty target, otherwise the
      smallest index whose item is nearest to `value`. */
  method FindNearest(items: Option<seq<real>>, value: real) returns (r: int)
    ensures r == -1 <==> items.None? || |items.value| == 0
    ensures r != -1 ==> 0 <= r < |items.value|
    ensures r != -1 ==> forall i :: 0 <= i < |items.value| ==> Abs(value - items.value[r]) <= Abs(value - items.value[i])
    ensures r != -1 ==> forall i :: 0 <= i < r ==> Abs(value - items.value[r]) < Abs(value - items.value[i])
  {
    if items.None? || |items.value| == 0 {
      return -1;
    }
    var s := items.value;
    r := 0;
    var minError := Abs(value - s[0]);
    for i := 1 to |s|
      invariant 0 <= r < i && minError == Abs(value - s[r])
      invariant forall k :: 0 <= k < i ==> minError <= Abs(value - s[k])
      invariant forall k :: 0 <= k < r ==> minError < Abs(value - s[k])
    {
      var error := Abs(value - s[i]);
      if error < minError {
        minError := error;
        r := i;
      }
    }
  }

  /** A .NET List<T> (or IList) changed in place. */
  class List<T> {
    var items: seq<T>

    constructor (items: seq<T>)
      ensures this.items == items
    {
      this.items := items;
    }

    /** Resize(List<T>, newSize, newValue): RemoveRange for a shorter size,
        which throws before any change when newSize is negative; Add in a
        loop for a longer one. */
    method Resize(newSize: int, newValue: T) returns (outcome: Outcome)
      modifies this
      ensures outcome.Fail? <==> newSize < 0
      ensures outcome.Fail? ==> outcome.error == ArgumentOutOfRange && items == old(items)
      ensures outcome.Done? ==> |items| == newSize
      ensures outcome.Done? ==> items[..Min(|old(items)|, newSize)] == old(items)[..Min(|old(items)|, newSize)]
      ensures outcome.Done? ==> forall k :: |old(items)| <= k < newSize ==> items[k] == newValue
    {
      if |items| != newSize {
        if |items| > newSize {
          if newSize < 0 {
            return Fail(ArgumentOutOfRange);
          }
          items := items[..newSize];
        } else {
          var addCount := newSize - |items|;
          while addCount > 0
            invariant 0 <= addCount && |items| + addCount == newSize
            invariant |old(items)| <= |items| && items[..|old(items)|] == old(items)
            invariant forall k :: |old(items)| <= k < |items| ==> items[k] == newValue
          {
            items := items + [newValue];
            addCount := addCount - 1;
          }
        }
      }
      outcome := Done;
    }

    /** Resize(IList, newSize, newValue): RemoveAt from the end down to
        newSize, so a negative newSize empties the list and then throws on
        RemoveAt(-1); Add in a loop for a longer size. */
    method ResizeNonGeneric(newSize: int, newValue: T) returns (outcome: Outcome)
      modifies this
      ensures outcome.Fail? <==> newSize < 0
      ensures outcome.Fail? ==> outcome.error == ArgumentOutOfRange && items == []
      ensures outcome.Done? ==> |items| == newSize
      ensures outcome.Done? ==> items[..Min(|old(items)|, newSize)] == old(items)[..Min(|old(items)|, newSize)]
      ensures outcome.Done? ==> forall k :: |old(items)| <= k < newSize ==> items[k] == newValue
    {
      if |items| != newSize {
        if |items| > newSize {
          var i := |items| - 1;
          while i >= newSize
            invariant -1 <= i < |old(items)| && |items| == i + 1 && newSize - 1 <= i
            invariant items == old(items)[..i + 1]
          {
            if i < 0 {
              assert |items| == 0;
              return Fail(ArgumentOutOfRange);
            }
            items := items[..i];
            i := i - 1;
          }
        } else {
          var addCount := newSize - |items|;
          while addCount > 0
            invariant 0 <= addCount && |items| + addCount == newSize
            invariant |old(items)| <= |items| && items[..|old(items)|] == old(items)
            invariant forall k :: |old(items)| <= k < |items| ==> items[k] == newValue
          {
            items := items + [newValue];
            addCount := addCount - 1;
          }
        }
      }
      outcome := Done;
    }
  }

  function Min(a: int, b: int): int {
    if a < b then a else b
  }

  /** A `Comparison<T>` that orders consistently (a total preorder): "not
      greater" means "not ranked higher" for some real-valued ranking of the
      values. */
  ghost predicate RankedBy<T(!new)>(compare: (T, T) -> int, rank: T -> real) {
    forall x, y {:trigger compare(x, y)} :: compare(x, y) <= 0 <==> rank(x) <= rank(y)
  }

  /** s[lo..hi) is ordered by `compare`. */
  ghost predicate SortedBetween<T>(s: seq<T>, compare: (T, T) -> int, lo: int, hi: int)
    requires 0 <= lo && hi <= |s|
  {
    forall p, q :: lo <= p < q < hi ==> compare(s[p], s[q]) <= 0
  }

  /** The count Sort uses: a count <= 0 means "to the end of the list". */
  function SortCount(length: int, index: int32, count: int32): int32 {
    if count <= 0 then Wrap32(length - index) else count
  }

  /** The last index of pass k: index + n - 1, decremented k times, all in
      int32 arithmetic. */
  function PassEnd(index: int, n: int, k: int): int32 {
    Wrap32(index + n - 1 - k)
  }

  /** A pass over list[lo..last] reads list[lo] first (when it runs at all)
      and reaches list[last]: it throws when either lies outside the list. */
  predicate PassThrows(length: int, lo: int, last: int) {
    lo < last && (lo < 0 || last >= length)
  }

  /** Some pass of Sort throws: there are Wrap32(n - 1) passes. */
  ghost predicate SortThrows(length: int, index: int, n: int) {
    exists k :: 0 <= k < Wrap32(n - 1) && PassThrows(length, index, PassEnd(index, n, k))
  }

  /** Decrementing a wrapped value wraps the decremented value. */
  lemma WrapDecrement(x: int)
    ensures Wrap32(Wrap32(x) - 1) == Wrap32(x - 1)
  {
    var m := x % 0x1_0000_0000;
    assert (x - 1) % 0x1_0000_0000 == if m == 0 then 0xFFFF_FFFF else m - 1;
  }

  /** The end of the next pass is this one's, decremented in int32. */
  lemma PassEndNext(index: int, n: int, i: int)
    ensures Wrap32(PassEnd(index, n, i) - 1) == PassEnd(index, n, i + 1)
  {
    WrapDecrement(index + n - 1 - i);
  }

  /** No pass up to and including pass i has thrown. */
  lemma NoThrowSoFar(length: int, index: int, n: int, i: int)
    requires forall k :: 0 <= k < i ==> !PassThrows(length, index, PassEnd(index, n, k))
    requires !PassThrows(length, index, PassEnd(index, n, i))
    ensures forall k :: 0 <= k < i + 1 ==> !PassThrows(length, index, PassEnd(index, n, k))
  {
  }

  /** The count wraps to int.MinValue only for a negative index. */
  lemma SortCountFacts(length: int, index: int32, count: int32)
    requires 0 <= length < 0x8000_0000
    ensures var n := SortCount(length, index, count);
      && (n == -0x8000_0000 <==> count <= 0 && index == length - 0x8000_0000)
      && (n != -0x8000_0000 ==> Wrap32(n - 1) == n - 1)
  {
  }

  /** Sort throws exactly when its range has at least two elements, reaches
      outside the list and does not start at int.MaxValue (where every pass
      ends at a wrapped, negative index), or when the count wraps to
      int.MinValue (a negative start with int.MaxValue passes). */
  lemma SortThrowsExactly(length: int, index: int32, count: int32)
    requires 0 <= length < 0x8000_0000
    ensures var n := SortCount(length, index, count);
      SortThrows(length, index, n) <==>
        (2 <= n && (index < 0 || index + n > length) && index != 0x7FFF_FFFF) || n == -0x8000_0000
  {
    var n := SortCount(length, index, count);
    SortCountFacts(length, index, count);
    if n == -0x8000_0000 {
      assert PassThrows(length, index, PassEnd(index, n, 0));
    } else if 2 <= n && index < 0 {
      assert PassThrows(length, index, PassEnd(index, n, 0));
    } else if 2 <= n && index + n > length && index != 0x7FFF_FFFF {
      if index + n - 1 < 0x8000_0000 {
        assert PassThrows(length, index, PassEnd(index, n, 0));
      } else {
        var k := index + n - 0x8000_0000;
        assert PassEnd(index, n, k) == 0x7FFF_FFFF;
        assert PassThrows(length, index, PassEnd(index, n, k));
      }
    } else {
      forall k | 0 <= k < Wrap32(n - 1) ensures !PassThrows(length, index, PassEnd(index, n, k)) {
        if index == 0x7FFF_FFFF {
          assert PassEnd(index, n, k) == index + n - 1 - k - 0x1_0000_0000;
        }
      }
    }
  }

  /** The elements of rank r, in their order in s. */
  ghost function OfRank<T>(s: seq<T>, rank: T -> real, r: real): (o: seq<T>)
    ensures |o| <= |s|
  {
    if s == [] then [] else OfRank(s[..|s| - 1], rank, r) + (if rank(s[|s| - 1]) == r then [s[|s| - 1]] else [])
  }

  /** Elements of equal rank come in the same order in a and b: stability. */
  ghost predicate SameOrderByRank<T>(a: seq<T>, b: seq<T>, rank: T -> real) {
    forall r :: OfRank(a, rank, r) == OfRank(b, rank, r)
  }

  lemma {:induction false} OfRankAppend<T>(a: seq<T>, b: seq<T>, rank: T -> real, r: real)
    ensures OfRank(a + b, rank, r) == OfRank(a, rank, r) + OfRank(b, rank, r)
    decreases |b|
  {
    if b != [] {
      var b0 := b[..|b| - 1];
      assert (a + b)[..|a + b| - 1] == a + b0;
      assert (a + b)[|a + b| - 1] == b[|b| - 1];
      OfRankAppend(a, b0, rank, r);
    } else {
      assert a + b == a;
    }
  }

  /** The elements of rank r of three pieces, one after the other. */
  lemma OfRankAppend3<T>(a: seq<T>, b: seq<T>, c: seq<T>, rank: T -> real, r: real)
    ensures OfRank(a + b + c, rank, r) == OfRank(a, rank, r) + OfRank(b, rank, r) + OfRank(c, rank, r)
  {
    OfRankAppend(a + b, c, rank, r);
    OfRankAppend(a, b, rank, r);
  }

  /** Two elements of different rank contribute to each rank's order the
      same way in either order. */
  lemma OfRankPair<T>(x: T, y: T, rank: T -> real, r: real)
    requires rank(x) != rank(y)
    ensures OfRank([x, y], rank, r) == OfRank([y, x], rank, r)
  {
    assert [x, y][..1] == [x];
    assert [y, x][..1] == [y];
    assert [x][..0] == [] && [y][..0] == [];
  }

  /** Exchanging neighbours of different rank keeps every rank's order. */
  lemma ExchangeKeepsOrderByRank<T>(s: seq<T>, j: int, rank: T -> real)
    requires 0 <= j && j + 1 < |s| && rank(s[j]) != rank(s[j + 1])
    ensures SameOrderByRank(s[j := s[j + 1]][j + 1 := s[j]], s, rank)
  {
    var t := s[j := s[j + 1]][j + 1 := s[j]];
    var a, x, y, b := s[..j], s[j], s[j + 1], s[j + 2..];
    assert s == a + [x, y] + b;
    assert t == a + [y, x] + b;
    forall r ensures OfRank(t, rank, r) == OfRank(s, rank, r) {
      OfRankAppend3(a, [x, y], b, rank, r);
      OfRankAppend3(a, [y, x], b, rank, r);
      OfRankPair(x, y, rank, r);
    }
  }

  /** `after` is `before` rearranged within [lo, last]: the same elements,
      nothing outside [lo, last] moved, and, for a comparer ranked by rank,
      each rank's elements in the same order. */
  ghost predicate Rearranged<T(!new)>(after: seq<T>, before: seq<T>, compare: (T, T) -> int, rank: T -> real, lo: int, last: int) {
    && |after| == |before|
    && multiset(after) == multiset(before)
    && (RankedBy(compare, rank) ==> SameOrderByRank(after, before, rank))
    && forall k :: 0 <= k < |before| && !(lo <= k <= last) ==> after[k] == before[k]
  }

  /** Two rearrangements in a row, the second within the first's range or
      the part of it inside the sequence. */
  lemma RearrangedTrans<T(!new)>(a: seq<T>, b: seq<T>, c: seq<T>, compare: (T, T) -> int, rank: T -> real,
                                 lo: int, last: int, lo2: int, last2: int)
    requires Rearranged(b, a, compare, rank, lo, last) && Rearranged(c, b, compare, rank, lo2, last2)
    requires lo <= lo2 && (last2 <= last || |a| <= last + 1)
    ensures Rearranged(c, a, compare, rank, lo, last)
  {
  }

  /** Sort(list, compare, index, count): Wrap32(count - 1) bubble passes over
      list[index..lastIndex], lastIndex starting at index + count - 1 and
      decremented after each pass, all in int32 arithmetic; neighbours are
      exchanged only when compare reports "greater". A pass that reaches
      outside the list throws there, after the exchanges before it. Any
      comparer may be passed: when it is a consistent order (RankedBy), the
      range ends sorted and the sort is stable. */
  method Sort<T(!new)>(list: array<T>, compare: (T, T) -> int, ghost rank: T -> real, index: int32, count: int32)
    returns (outcome: Outcome)
    requires list.Length < 0x8000_0000
    modifies list
    ensures var n := SortCount(list.Length, index, count);
      && (outcome.Fail? <==> SortThrows(list.Length, index, n))
      && (outcome.Fail? ==> outcome.error == ArgumentOutOfRange)
      && (forall k :: 0 <= k < list.Length && !(index <= k < index + n) ==> list[k] == old(list[k]))
      && (RankedBy(compare, rank) && outcome.Done? && 0 <= index && 2 <= n && index + n <= list.Length
          ==> SortedBetween(list[..], compare, index, index + n))
    ensures multiset(list[..]) == multiset(old(list[..]))
    ensures RankedBy(compare, rank) ==> SameOrderByRank(list[..], old(list[..]), rank)
  {
    var n: int := SortCount(list.Length, index, count);
    SortCountFacts(list.Length, index, count);
    var passes := Wrap32(n - 1);
    var lastIndex: int := Wrap32(index + n - 1);
    ghost var inside := 0 <= index && 2 <= n && index + n <= list.Length;
    var i := 0;
    while i < passes
      invariant i <= passes || i == 0
      invariant SortLoop(list[..], old(list[..]), compare, rank, index, n, i, lastIndex, inside)
      decreases passes - i
    {
      outcome, lastIndex := SortRound(list, compare, rank, old(list[..]), index, n, i, lastIndex, inside);
      if outcome.Fail? {
        return;
      }
      i := i + 1;
    }
    outcome := Done;
    if inside && RankedBy(compare, rank) {
      LastPassDone(list[..], compare, index, index + n);
    }
  }

  /** The state of Sort before pass i, which ends at lastIndex: no earlier
      pass threw, the list is a rearrangement of the original within the
      range, and, for a ranked comparer inside the list, everything after
      lastIndex is in its final place. */
  ghost predicate SortLoop<T(!new)>(s: seq<T>, original: seq<T>, compare: (T, T) -> int, rank: T -> real,
                                    index: int, n: int, i: int, lastIndex: int, inside: bool)
  {
    && 0 <= i
    && lastIndex == PassEnd(index, n, i)
    && (forall k :: 0 <= k < i ==> !PassThrows(|s|, index, PassEnd(index, n, k)))
    && Rearranged(s, original, compare, rank, index, index + n - 1)
    && (index < 0 ==> s == original)
    && (inside ==> 0 <= index && i <= n && index + n <= |s| && lastIndex == index + n - 1 - i)
    && (inside && RankedBy(compare, rank) ==> PassesDone(s, compare, index, lastIndex, index + n))
  }

  /** Pass i of Sort: it throws exactly when it reads outside the list, and
      otherwise leaves Sort in its state before pass i + 1, ending one place
      lower. */
  method SortRound<T(!new)>(list: array<T>, compare: (T, T) -> int, ghost rank: T -> real, ghost original: seq<T>,
                            index: int, ghost n: int, ghost i: int, lastIndex: int, ghost inside: bool)
    returns (outcome: Outcome, next: int)
    requires inside <==> 0 <= index && 2 <= n && index + n <= list.Length
    requires inside || index < 0 || index + n > list.Length
    requires inside ==> i < n - 1
    requires SortLoop(list[..], original, compare, rank, index, n, i, lastIndex, inside)
    modifies list
    ensures outcome.Fail? <==> PassThrows(list.Length, index, PassEnd(index, n, i))
    ensures outcome.Fail? ==> outcome.error == ArgumentOutOfRange
    ensures outcome.Fail? ==> Rearranged(list[..], original, compare, rank, index, index + n - 1) && (index < 0 ==> list[..] == original)
    ensures outcome.Done? ==> SortLoop(list[..], original, compare, rank, index, n, i + 1, next, inside)
  {
    ghost var before := list[..];
    outcome := Pass(list, compare, rank, index, lastIndex, index + n);
    if 0 <= index {
      RearrangedTrans(original, before, list[..], compare, rank, index, index + n - 1, index, lastIndex);
    }
    next := lastIndex;
    if outcome.Done? {
      if inside && RankedBy(compare, rank) {
        NextPassDone(before, list[..], compare, index, lastIndex, index + n);
      }
      NoThrowSoFar(list.Length, index, n, i);
      PassEndNext(index, n, i);
      next := Wrap32(lastIndex - 1);
    }
  }

  /** Once the boundary reaches the first element, the whole range is ordered. */
  lemma LastPassDone<T>(s: seq<T>, compare: (T, T) -> int, lo: int, top: int)
    requires 0 <= lo < top <= |s|
    requires PassesDone(s, compare, lo, lo, top)
    ensures SortedBetween(s, compare, lo, top)
  {
  }

  /** The state between passes: s(hi..top) is ordered and nothing in s[lo..hi]
      is greater than anything in s(hi..top). */
  ghost predicate PassesDone<T>(s: seq<T>, compare: (T, T) -> int, lo: int, hi: int, top: int)
    requires 0 <= lo <= hi + 1 && hi < top <= |s|
  {
    SortedBetween(s, compare, hi + 1, top)
    && forall p, q :: lo <= p <= hi < q < top ==> compare(s[p], s[q]) <= 0
  }

  /** A pass that leaves the greatest of s[lo..hi] at hi, and only permutes
      s[lo..hi], moves the boundary of PassesDone one place down. */
  lemma NextPassDone<T>(before: seq<T>, after: seq<T>, compare: (T, T) -> int, lo: int, hi: int, top: int)
    requires 0 <= lo <= hi < top <= |before| == |after|
    requires PassesDone(before, compare, lo, hi, top)
    requires forall k :: hi < k < top ==> after[k] == before[k]
    requires forall p :: lo <= p <= hi ==> compare(after[p], after[hi]) <= 0
    requires forall p, q :: lo <= p <= hi < q < top ==> compare(after[p], after[q]) <= 0
    ensures PassesDone(after, compare, lo, hi - 1, top)
  {
  }

  /** One pass: for j from lo while j < last, list[j] and list[j + 1] are
      compared and exchanged when the first is greater. Reading outside the
      list throws, after the exchanges before it. For a ranked comparer, a
      pass inside the list carries a greatest element of list[lo..last] to
      last; `top` bounds an ordered tail that nothing in the pass is greater
      than. */
  method Pass<T(!new)>(list: array<T>, compare: (T, T) -> int, ghost rank: T -> real, lo: int, last: int, ghost top: int)
    returns (outcome: Outcome)
    requires RankedBy(compare, rank) ==> Crossed(list[..], compare, lo, last, top)
    modifies list
    ensures outcome.Fail? ==> outcome.error == ArgumentOutOfRange
    ensures PassResult(list[..], old(list[..]), compare, rank, lo, last, top, outcome.Done?)
  {
    var j := lo;
    while j < last
      invariant PassLoop(list[..], old(list[..]), compare, rank, lo, j, last, top)
      decreases last - j
    {
      outcome := PassStep(list, compare, rank, old(list[..]), lo, j, last, top);
      if outcome.Fail? {
        PassEnds(list[..], old(list[..]), compare, rank, lo, j, last, top);
        return;
      }
      j := j + 1;
    }
    outcome := Done;
    PassEnds(list[..], old(list[..]), compare, rank, lo, j, last, top);
  }

  /** Where a pass stops, by a throw at j or at the end of its loop, it has
      thrown exactly when PassThrows says, and the scan's facts give the
      pass's promise. */
  lemma PassEnds<T(!new)>(s: seq<T>, original: seq<T>, compare: (T, T) -> int, rank: T -> real,
                          lo: int, j: int, last: int, top: int)
    requires PassLoop(s, original, compare, rank, lo, j, last, top)
    requires j >= last || j < 0 || j + 1 >= |s|
    ensures PassResult(s, original, compare, rank, lo, last, top, j >= last)
  {
  }

  /** What a pass promises, with done saying whether it returned normally:
      it throws exactly when PassThrows says and it is a rearrangement of
      before within [lo, last] (none at all for a negative lo); for a ranked
      comparer, a finished pass inside the list leaves a greatest element of
      after[lo..last] at last, and the pass keeps Crossed. */
  ghost predicate PassResult<T(!new)>(after: seq<T>, before: seq<T>, compare: (T, T) -> int, rank: T -> real,
                                      lo: int, last: int, top: int, done: bool)
  {
    && (done <==> !PassThrows(|after|, lo, last))
    && Rearranged(after, before, compare, rank, lo, last)
    && (lo < 0 ==> after == before)
    && (RankedBy(compare, rank) ==>
          && (done && 0 <= lo < last < |after| ==> forall p :: lo <= p <= last ==> compare(after[p], after[last]) <= 0)
          && Crossed(after, compare, lo, last, top))
  }

  /** Inside the list, nothing in s[lo..last] is greater than anything in
      s(last..top). */
  ghost predicate Crossed<T>(s: seq<T>, compare: (T, T) -> int, lo: int, last: int, top: int) {
    0 <= lo < last < top <= |s| ==> forall p, q :: lo <= p <= last < q < top ==> compare(s[p], s[q]) <= 0
  }

  /** Where a pass stands at j: every exchange so far was inside the list
      and the range, and, for a ranked comparer, a greatest element of
      list[lo..j] is at j and nothing in list[lo..last] is greater than the
      ordered tail up to top. */
  ghost predicate PassLoop<T(!new)>(s: seq<T>, original: seq<T>, compare: (T, T) -> int, rank: T -> real,
                                    lo: int, j: int, last: int, top: int)
  {
    && lo <= j && (j <= last || j == lo)
    && (j > lo ==> 0 <= lo && j < |s|)
    && Rearranged(s, original, compare, rank, lo, last)
    && (lo < 0 ==> s == original)
    && (RankedBy(compare, rank) ==>
          && (0 <= lo <= j < |s| ==> forall p :: lo <= p <= j ==> compare(s[p], s[j]) <= 0)
          && Crossed(s, compare, lo, last, top))
  }

  /** One turn of a pass: the two reads, which throw outside the list, then
      the comparison. */
  method PassStep<T(!new)>(list: array<T>, compare: (T, T) -> int, ghost rank: T -> real, ghost original: seq<T>,
                           ghost lo: int, j: int, ghost last: int, ghost top: int)
    returns (outcome: Outcome)
    requires j < last
    requires PassLoop(list[..], original, compare, rank, lo, j, last, top)
    modifies list
    ensures outcome.Fail? <==> j < 0 || j + 1 >= list.Length
    ensures outcome.Fail? ==> outcome.error == ArgumentOutOfRange && list[..] == old(list[..])
    ensures outcome.Fail? ==> PassLoop(list[..], original, compare, rank, lo, j, last, top)
    ensures outcome.Done? ==> PassLoop(list[..], original, compare, rank, lo, j + 1, last, top)
  {
    if j < 0 || j + 1 >= list.Length {
      return Fail(ArgumentOutOfRange);
    }
    ghost var hi := if last < list.Length then last else list.Length - 1;
    ghost var cap := if 0 <= lo < last < top <= list.Length then top else hi + 1;
    ghost var before := list[..];
    BubbleStep(list, compare, rank, lo, j, hi, cap);
    RearrangedTrans(original, before, list[..], compare, rank, lo, last, j, j + 1);
    outcome := Done;
  }

  /** One comparison of the pass: list[j] and list[j+1] are exchanged
      exactly when compare reports "greater". For a ranked comparer this
      carries the greatest element so far to j+1 and keeps each rank's
      order. */
  method BubbleStep<T(!new)>(list: array<T>, compare: (T, T) -> int, ghost rank: T -> real,
                             ghost lo: int, j: int, ghost hi: int, ghost top: int)
    requires 0 <= lo <= j < hi < top <= list.Length
    requires RankedBy(compare, rank) ==> BubbledTo(list[..], compare, lo, j, hi, top)
    modifies list
    ensures list[..] == if compare(old(list[j]), old(list[j + 1])) > 0
                        then old(list[..])[j := old(list[j + 1])][j + 1 := old(list[j])]
                        else old(list[..])
    ensures Rearranged(list[..], old(list[..]), compare, rank, j, j + 1)
    ensures RankedBy(compare, rank) ==> BubbledTo(list[..], compare, lo, j + 1, hi, top)
  {
    ghost var s := list[..];
    if compare(list[j], list[j + 1]) > 0 {
      SwapElements(list, j, j + 1);
    }
    BubbleFacts(s, list[..], compare, rank, lo, j, hi, top);
  }

  /** Where a pass of bubbles stands at `j`: nothing from `lo` on is greater
      than position `j`, and nothing up to `hi` is greater than anything in
      the tail `hi+1 .. top`. */
  ghost predicate BubbledTo<T>(s: seq<T>, compare: (T, T) -> int, lo: int, j: int, hi: int, top: int)
    requires 0 <= lo <= j <= hi < top <= |s|
  {
    && (forall p :: lo <= p <= j ==> compare(s[p], s[j]) <= 0)
    && (forall p, q :: lo <= p <= hi < q < top ==> compare(s[p], s[q]) <= 0)
  }

  /** What one comparison step does to the sequence: a rearrangement of the
      two neighbours, and for a ranked comparer the greatest so far moves
      to j+1 while the crossing with the tail is kept. */
  lemma BubbleFacts<T(!new)>(s: seq<T>, t: seq<T>, compare: (T, T) -> int, rank: T -> real,
                             lo: int, j: int, hi: int, top: int)
    requires 0 <= lo <= j < hi < top <= |s|
    requires t == if compare(s[j], s[j + 1]) > 0 then s[j := s[j + 1]][j + 1 := s[j]] else s
    requires multiset(t) == multiset(s)
    requires RankedBy(compare, rank) ==> BubbledTo(s, compare, lo, j, hi, top)
    ensures Rearranged(t, s, compare, rank, j, j + 1)
    ensures RankedBy(compare, rank) ==> BubbledTo(t, compare, lo, j + 1, hi, top)
  {
    if RankedBy(compare, rank) {
      if compare(s[j], s[j + 1]) > 0 {
        ExchangeKeepsOrderByRank(s, j, rank);
      }
    }
  }

  /** The natural order of the reals, as any comparer that reports "not
      greater" exactly for x <= y, is ranked by the identity. */
  lemma NaturalOrderRanked(compare: (real, real) -> int)
    requires forall x, y :: compare(x, y) <= 0 <==> x <= y
    ensures RankedBy(compare, x => x)
  {
  }
}
