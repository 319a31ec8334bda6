/** `QuickLinkedList<T>` (the UnityExtensions version): a doubly linked list
    whose nodes live in one growable array of (previous, next, value) records,
    addressed by integer ids; -1 is "no node". Removed slots are reset and
    their ids kept on a stack of free ids, which Add reuses before growing the
    array.

    The model keeps the array (`nodes`), the free-id stack (`emptyIds`, top
    last), `first` and `last`, and a ghost sequence `Ids` of the live ids in
    list order that `Valid()` ties to the links. The invariant is stated
    position by position (`ChainFrom`, `FreeFrom`, `CoveredFrom`), with each
    part equivalent to its quantified reading. */
module QuickLinkedLists {
  import opened Wrappers

  datatype Node<T> = Node(previous: int, next: int, value: T)

  const InvalidIdMessage := "invalid id"
  const EmptyListMessage := "empty list"

  /** The id at position `k`, or -1 just outside the list. */
  function IdAt(ids: seq<int>, k: int): int
    requires -1 <= k <= |ids|
  {
    if 0 <= k < |ids| then ids[k] else -1
  }

  /** The position of `x` in `s`: the first one, searching from the front. */
  function IndexOf(s: seq<int>, x: int): (k: nat)
    requires x in s
    ensures k < |s| && s[k] == x
  {
    IndexFrom(s, x, 0)
  }

  /** The position of `x` in `s`, searching from `i` on. */
  function IndexFrom(s: seq<int>, x: int, i: nat): (k: nat)
    requires i <= |s| && x in s && forall j :: 0 <= j < i ==> s[j] != x
    ensures i <= k < |s| && s[k] == x
    decreases |s| - i
  {
    assert i < |s| by {
      var j :| 0 <= j < |s| && s[j] == x;
    }
    if s[i] == x then i else IndexFrom(s, x, i + 1)
  }

  /** No two positions of `s` hold the same id: each id is found at its own position. */
  ghost predicate Distinct(s: seq<int>) {
    forall k {:trigger s[k]} :: 0 <= k < |s| ==> IndexOf(s, s[k]) == k
  }

  lemma {:induction false} DistinctFrom(s: seq<int>)
    requires forall j, l :: 0 <= j < l < |s| ==> s[j] != s[l]
    ensures Distinct(s)
  {
  }

  /** `Distinct` from position `k` on, position by position. */
  ghost predicate UniqueFrom(s: seq<int>, k: nat)
    decreases |s| - k
  {
    k < |s| ==> IndexOf(s, s[k]) == k && UniqueFrom(s, k + 1)
  }

  lemma {:induction false} UniqueIff(s: seq<int>, k: nat)
    ensures UniqueFrom(s, k) <==> forall j {:trigger s[j]} :: k <= j < |s| ==> IndexOf(s, s[j]) == j
    decreases |s| - k
  {
    if k < |s| {
      UniqueIff(s, k + 1);
    }
  }

  /** Two positions of a sequence without repeats hold different ids. */
  lemma {:induction false} Apart(s: seq<int>, i: int, j: int)
    requires UniqueFrom(s, 0) && 0 <= i < |s| && 0 <= j < |s| && i != j
    ensures s[i] != s[j]
  {
    UniqueIff(s, 0);
  }

  /** In a sequence without repeats, the id at position `i` is found at `i`. */
  lemma {:induction false} PositionOf(s: seq<int>, i: int)
    requires UniqueFrom(s, 0) && 0 <= i < |s|
    ensures IndexOf(s, s[i]) == i
  {
    UniqueIff(s, 0);
  }

  /** Every id in `ids` is a slot of an array of `n` nodes. */
  ghost predicate InRange(ids: seq<int>, n: int) {
    forall k :: 0 <= k < |ids| ==> 0 <= ids[k] < n
  }

  /** The values stored at `ids`, in order. */
  function ValuesOf<T>(nodes: seq<Node<T>>, ids: seq<int>): seq<T>
    requires InRange(ids, |nodes|)
  {
    seq(|ids|, k requires 0 <= k < |ids| => nodes[ids[k]].value)
  }

  /** `s` with `x` inserted at position `i`. */
  function InsertAt<X>(s: seq<X>, i: int, x: X): (r: seq<X>)
    requires 0 <= i <= |s|
    ensures |r| == |s| + 1
  {
    seq(|s| + 1, j requires 0 <= j <= |s| => if j < i then s[j] else if j == i then x else s[j - 1])
  }

  /** `s` without its element at position `i`. */
  function RemoveAt<X>(s: seq<X>, i: int): (r: seq<X>)
    requires 0 <= i < |s|
    ensures |r| == |s| - 1
  {
    seq(|s| - 1, j requires 0 <= j < |s| - 1 => if j < i then s[j] else s[j + 1])
  }

  lemma {:induction false} InsertAtMembers<X>(s: seq<X>, i: int, y: X)
    requires 0 <= i <= |s|
    ensures forall x :: x in InsertAt(s, i, y) <==> x in s || x == y
  {
    forall x | x in s ensures x in InsertAt(s, i, y) {
      var p :| 0 <= p < |s| && s[p] == x;
      assert InsertAt(s, i, y)[if p < i then p else p + 1] == x;
    }
    assert InsertAt(s, i, y)[i] == y;
  }

  lemma {:induction false} RemoveAtMembers<X>(s: seq<X>, i: int)
    requires 0 <= i < |s|
    ensures forall x :: x in RemoveAt(s, i) ==> x in s
    ensures forall x :: x in s && x != s[i] ==> x in RemoveAt(s, i)
  {
    forall x | x in s && x != s[i] ensures x in RemoveAt(s, i) {
      var p :| 0 <= p < |s| && s[p] == x;
      assert RemoveAt(s, i)[if p < i then p else p - 1] == x;
    }
  }

  /** Position `j` of `ids` holds a slot linked to the ids on either side of it. */
  ghost predicate LinkAt<T>(nodes: seq<Node<T>>, ids: seq<int>, j: int) {
    && 0 <= j < |ids| && 0 <= ids[j] < |nodes|
    && nodes[ids[j]].previous == IdAt(ids, j - 1) && nodes[ids[j]].next == IdAt(ids, j + 1)
  }

  /** Position `j` of the free stack holds a reset slot that is not live. */
  ghost predicate FreeAt<T>(nodes: seq<Node<T>>, ids: seq<int>, emptyIds: seq<int>, defaultValue: T, j: int) {
    && 0 <= j < |emptyIds| && 0 <= emptyIds[j] < |nodes| && emptyIds[j] !in ids
    && nodes[emptyIds[j]] == Node(-1, -1, defaultValue)
  }

  /** `LinkAt` holds at every position from `k` on. */
  ghost predicate ChainFrom<T>(nodes: seq<Node<T>>, ids: seq<int>, k: nat)
    decreases |ids| - k
  {
    k < |ids| ==> LinkAt(nodes, ids, k) && ChainFrom(nodes, ids, k + 1)
  }

  /** `FreeAt` holds at every position of the free stack from `k` on. */
  ghost predicate FreeFrom<T>(nodes: seq<Node<T>>, ids: seq<int>, emptyIds: seq<int>, defaultValue: T, k: nat)
    decreases |emptyIds| - k
  {
    k < |emptyIds| ==> FreeAt(nodes, ids, emptyIds, defaultValue, k) && FreeFrom(nodes, ids, emptyIds, defaultValue, k + 1)
  }

  /** Every slot from `i` up to `n` is live or free. */
  ghost predicate CoveredFrom(ids: seq<int>, emptyIds: seq<int>, i: nat, n: nat)
    decreases n - i
  {
    i < n ==> (i in ids || i in emptyIds) && CoveredFrom(ids, emptyIds, i + 1, n)
  }

  lemma {:induction false} ChainFromIff<T>(nodes: seq<Node<T>>, ids: seq<int>, k: nat)
    ensures ChainFrom(nodes, ids, k) <==> forall j :: k <= j < |ids| ==> LinkAt(nodes, ids, j)
    decreases |ids| - k
  {
    if k < |ids| {
      ChainFromIff(nodes, ids, k + 1);
    }
  }

  lemma {:induction false} FreeFromIff<T>(nodes: seq<Node<T>>, ids: seq<int>, emptyIds: seq<int>, defaultValue: T, k: nat)
    ensures FreeFrom(nodes, ids, emptyIds, defaultValue, k) <==> forall j :: k <= j < |emptyIds| ==> FreeAt(nodes, ids, emptyIds, defaultValue, j)
    decreases |emptyIds| - k
  {
    if k < |emptyIds| {
      FreeFromIff(nodes, ids, emptyIds, defaultValue, k + 1);
    }
  }

  lemma {:induction false} CoveredFromIff(ids: seq<int>, emptyIds: seq<int>, i: nat, n: nat)
    ensures CoveredFrom(ids, emptyIds, i, n) <==> forall j :: i <= j < n ==> j in ids || j in emptyIds
    decreases n - i
  {
    if i < n {
      CoveredFromIff(ids, emptyIds, i + 1, n);
    }
  }

  /** One position of a chain. */
  lemma {:induction false} LinkOf<T>(nodes: seq<Node<T>>, ids: seq<int>, k: int)
    requires ChainFrom(nodes, ids, 0) && 0 <= k < |ids|
    ensures LinkAt(nodes, ids, k)
  {
    ChainFromIff(nodes, ids, 0);
  }

  /** A position that is not linked breaks the chain. */
  lemma {:induction false} ChainBroken<T>(nodes: seq<Node<T>>, ids: seq<int>, k: int)
    requires 0 <= k < |ids| && !LinkAt(nodes, ids, k)
    ensures !ChainFrom(nodes, ids, 0)
  {
    ChainFromIff(nodes, ids, 0);
  }

  /** One position of the free stack. */
  lemma {:induction false} FreeOf<T>(nodes: seq<Node<T>>, ids: seq<int>, emptyIds: seq<int>, defaultValue: T, k: int)
    requires FreeFrom(nodes, ids, emptyIds, defaultValue, 0) && 0 <= k < |emptyIds|
    ensures FreeAt(nodes, ids, emptyIds, defaultValue, k)
  {
    FreeFromIff(nodes, ids, emptyIds, defaultValue, 0);
  }

  /** One slot of a covered array. */
  lemma {:induction false} CoverOf(ids: seq<int>, emptyIds: seq<int>, i: int, n: nat)
    requires CoveredFrom(ids, emptyIds, 0, n) && 0 <= i < n
    ensures i in ids || i in emptyIds
  {
    CoveredFromIff(ids, emptyIds, 0, n);
  }

  /** The invariant of a list whose live ids in order are `ids`: the ids are
      distinct slots linked in that order, `first` and `last` are its ends,
      and every other slot is a reset node whose id is on the free stack
      exactly once. */
  ghost predicate Intact<T>(nodes: seq<Node<T>>, ids: seq<int>, emptyIds: seq<int>, first: int, last: int, defaultValue: T) {
    && InRange(ids, |nodes|) && UniqueFrom(ids, 0) && UniqueFrom(emptyIds, 0)
    && ChainFrom(nodes, ids, 0)
    && first == IdAt(ids, 0) && last == IdAt(ids, |ids| - 1)
    && FreeFrom(nodes, ids, emptyIds, defaultValue, 0)
    && CoveredFrom(ids, emptyIds, 0, |nodes|)
    && |ids| + |emptyIds| == |nodes|
  }

  /** Slot `n` is where `Add` stores a new node: the top of the free stack
      when there is one, which is popped, or else a new slot at the end. */
  ghost predicate TakesSlot<T>(nodes: seq<Node<T>>, emptyIds: seq<int>, n: int, nodes1: seq<Node<T>>, emptyIds1: seq<int>) {
    if |emptyIds| > 0 then n == emptyIds[|emptyIds| - 1] && emptyIds1 == emptyIds[..|emptyIds| - 1] && |nodes1| == |nodes|
    else n == |nodes| && emptyIds1 == [] && |nodes1| == |nodes| + 1
  }

  /** The node array, free stack and slot after `Add` stores a node. */
  datatype Stored<T> = Stored(nodes: seq<Node<T>>, emptyIds: seq<int>, index: int)

  /** `Add`: the node goes in the slot on top of the free stack, which is
      popped, or in a new slot at the end. */
  function Store<T>(nodes: seq<Node<T>>, emptyIds: seq<int>, node: Node<T>): (r: Stored<T>)
    requires |emptyIds| > 0 ==> 0 <= emptyIds[|emptyIds| - 1] < |nodes|
    ensures TakesSlot(nodes, emptyIds, r.index, r.nodes, r.emptyIds)
    ensures 0 <= r.index < |r.nodes| && r.nodes[r.index] == node
    ensures forall j :: 0 <= j < |nodes| && j != r.index ==> r.nodes[j] == nodes[j]
  {
    if |emptyIds| > 0 then
      var index := emptyIds[|emptyIds| - 1];
      Stored(nodes[index := node], emptyIds[..|emptyIds| - 1], index)
    else
      Stored(nodes + [node], emptyIds, |nodes|)
  }

  /** The slot `Add` picks is not live. */
  lemma {:induction false} TakesFreeSlot<T>(nodes: seq<Node<T>>, ids: seq<int>, emptyIds: seq<int>, first: int, last: int, defaultValue: T)
    requires Intact(nodes, ids, emptyIds, first, last, defaultValue)
    ensures |emptyIds| > 0 ==> 0 <= emptyIds[|emptyIds| - 1] < |nodes| && emptyIds[|emptyIds| - 1] !in ids
    ensures |emptyIds| == 0 ==> |nodes| !in ids
  {
    if |emptyIds| > 0 {
      FreeOf(nodes, ids, emptyIds, defaultValue, |emptyIds| - 1);
    }
  }

  /** Linking slot `n` in between positions `k` and `k + 1` keeps the chain,
      with `n` at position `k + 1`. */
  lemma {:induction false} ChainInsert<T>(nodes: seq<Node<T>>, ids: seq<int>, k: int, n: int, nodes1: seq<Node<T>>)
    requires InRange(ids, |nodes|) && UniqueFrom(ids, 0) && ChainFrom(nodes, ids, 0)
    requires -1 <= k < |ids|
    requires |nodes| <= |nodes1| && 0 <= n < |nodes1| && n !in ids
    requires nodes1[n].previous == IdAt(ids, k) && nodes1[n].next == IdAt(ids, k + 1)
    requires 0 <= k ==> nodes1[ids[k]] == nodes[ids[k]].(next := n)
    requires k + 1 < |ids| ==> nodes1[ids[k + 1]] == nodes[ids[k + 1]].(previous := n)
    requires forall j :: 0 <= j < |nodes| && j != n && j != IdAt(ids, k) && j != IdAt(ids, k + 1) ==> nodes1[j] == nodes[j]
    ensures InRange(InsertAt(ids, k + 1, n), |nodes1|)
    ensures ChainFrom(nodes1, InsertAt(ids, k + 1, n), 0)
  {
    var ids1 := InsertAt(ids, k + 1, n);
    forall j | 0 <= j < |ids1| ensures LinkAt(nodes1, ids1, j) {
      if j < k {
        LinkOf(nodes, ids, j);
        Apart(ids, j, k);
        if k + 1 < |ids| { Apart(ids, j, k + 1); }
        assert ids1[j] == ids[j] && IdAt(ids1, j - 1) == IdAt(ids, j - 1) && IdAt(ids1, j + 1) == ids[j + 1];
      } else if j == k {
        LinkOf(nodes, ids, k);
        assert ids1[j] == ids[k] && IdAt(ids1, j - 1) == IdAt(ids, k - 1) && IdAt(ids1, j + 1) == n;
      } else if j == k + 1 {
        assert ids1[j] == n && IdAt(ids1, j - 1) == IdAt(ids, k) && IdAt(ids1, j + 1) == IdAt(ids, k + 1);
      } else if j == k + 2 {
        LinkOf(nodes, ids, k + 1);
        assert ids1[j] == ids[k + 1] && IdAt(ids1, j - 1) == n && IdAt(ids1, j + 1) == IdAt(ids, k + 2);
      } else {
        LinkOf(nodes, ids, j - 1);
        Apart(ids, j - 1, k + 1);
        if 0 <= k { Apart(ids, j - 1, k); }
        assert ids1[j] == ids[j - 1] && IdAt(ids1, j - 1) == ids[j - 2] && IdAt(ids1, j + 1) == IdAt(ids, j);
      }
    }
    assert InRange(ids1, |nodes1|) by {
      forall j | 0 <= j < |ids1| ensures 0 <= ids1[j] < |nodes1| {
        assert LinkAt(nodes1, ids1, j);
      }
    }
    ChainFromIff(nodes1, ids1, 0);
  }

  /** Taking the slot `Add` picks for a node inserted at position `k + 1`
      keeps every other slot reset and on the free stack. */
  lemma {:induction false} FreeInsert<T>(nodes: seq<Node<T>>, ids: seq<int>, emptyIds: seq<int>, defaultValue: T,
                      k: int, n: int, nodes1: seq<Node<T>>, emptyIds1: seq<int>)
    requires UniqueFrom(emptyIds, 0) && FreeFrom(nodes, ids, emptyIds, defaultValue, 0) && CoveredFrom(ids, emptyIds, 0, |nodes|)
    requires n !in ids && -1 <= k < |ids|
    requires TakesSlot(nodes, emptyIds, n, nodes1, emptyIds1)
    requires forall j :: 0 <= j < |nodes| && j != n && j !in ids ==> nodes1[j] == nodes[j]
    ensures UniqueFrom(emptyIds1, 0)
    ensures FreeFrom(nodes1, InsertAt(ids, k + 1, n), emptyIds1, defaultValue, 0)
    ensures CoveredFrom(InsertAt(ids, k + 1, n), emptyIds1, 0, |nodes1|)
  {
    var ids1 := InsertAt(ids, k + 1, n);
    UniqueIff(emptyIds, 0);
    FreeFromIff(nodes, ids, emptyIds, defaultValue, 0);
    CoveredFromIff(ids, emptyIds, 0, |nodes|);
    InsertAtMembers(ids, k + 1, n);
    forall j | 0 <= j < |emptyIds1| ensures FreeAt(nodes1, ids1, emptyIds1, defaultValue, j) {
      assert FreeAt(nodes, ids, emptyIds, defaultValue, j);
      assert emptyIds1[j] == emptyIds[j] != emptyIds[|emptyIds| - 1];
    }
    forall i | 0 <= i < |nodes1| ensures i in ids1 || i in emptyIds1 {
      if i != n && i !in ids {
        var p :| 0 <= p < |emptyIds| && emptyIds[p] == i;
        assert emptyIds1[p] == i;
      }
    }
    assert Distinct(emptyIds1) by {
      forall j | 0 <= j < |emptyIds1| ensures IndexOf(emptyIds1, emptyIds1[j]) == j {
        var m := IndexOf(emptyIds1, emptyIds1[j]);
        assert emptyIds[m] == emptyIds[j];
      }
    }
    UniqueIff(emptyIds1, 0);
    FreeFromIff(nodes1, ids1, emptyIds1, defaultValue, 0);
    CoveredFromIff(ids1, emptyIds1, 0, |nodes1|);
  }

  lemma {:induction false} ValuesInsert<T>(nodes: seq<Node<T>>, ids: seq<int>, k: int, n: int, nodes1: seq<Node<T>>)
    requires InRange(ids, |nodes|) && InRange(ids, |nodes1|)
    requires -1 <= k < |ids| && 0 <= n < |nodes1|
    requires forall j :: 0 <= j < |ids| ==> nodes1[ids[j]].value == nodes[ids[j]].value
    ensures InRange(InsertAt(ids, k + 1, n), |nodes1|)
    ensures ValuesOf(nodes1, InsertAt(ids, k + 1, n)) == InsertAt(ValuesOf(nodes, ids), k + 1, nodes1[n].value)
  {
  }

  /** Storing a node in the slot `Add` picks and linking it in after
      position `k` keeps the invariant, with the new id at position `k + 1`. */
  lemma {:induction false} InsertIntact<T>(nodes: seq<Node<T>>, ids: seq<int>, emptyIds: seq<int>, first: int, last: int, defaultValue: T,
                        k: int, n: int, nodes1: seq<Node<T>>, emptyIds1: seq<int>, first1: int, last1: int)
    requires Intact(nodes, ids, emptyIds, first, last, defaultValue)
    requires -1 <= k < |ids|
    requires TakesSlot(nodes, emptyIds, n, nodes1, emptyIds1)
    requires 0 <= n < |nodes1|
    requires nodes1[n].previous == IdAt(ids, k) && nodes1[n].next == IdAt(ids, k + 1)
    requires 0 <= k ==> nodes1[ids[k]] == nodes[ids[k]].(next := n)
    requires k + 1 < |ids| ==> nodes1[ids[k + 1]] == nodes[ids[k + 1]].(previous := n)
    requires forall j :: 0 <= j < |nodes| && j != n && j != IdAt(ids, k) && j != IdAt(ids, k + 1) ==> nodes1[j] == nodes[j]
    requires first1 == (if k == -1 then n else first) && last1 == (if k == |ids| - 1 then n else last)
    ensures n !in ids
    ensures Intact(nodes1, InsertAt(ids, k + 1, n), emptyIds1, first1, last1, defaultValue)
    ensures ValuesOf(nodes1, InsertAt(ids, k + 1, n)) == InsertAt(ValuesOf(nodes, ids), k + 1, nodes1[n].value)
  {
    TakesFreeSlot(nodes, ids, emptyIds, first, last, defaultValue);
    var ids1 := InsertAt(ids, k + 1, n);
    ChainInsert(nodes, ids, k, n, nodes1);
    UniqueInsert(ids, k + 1, n);
    forall j | 0 <= j < |nodes| && j != n && j !in ids ensures nodes1[j] == nodes[j] {
      assert 0 <= k ==> ids[k] in ids;
      assert k + 1 < |ids| ==> ids[k + 1] in ids;
    }
    FreeInsert(nodes, ids, emptyIds, defaultValue, k, n, nodes1, emptyIds1);
    forall j | 0 <= j < |ids| ensures nodes1[ids[j]].value == nodes[ids[j]].value {
      assert ids[j] != n;
    }
    ValuesInsert(nodes, ids, k, n, nodes1);
    assert first1 == IdAt(ids1, 0) && last1 == IdAt(ids1, |ids1| - 1);
  }

  /** Linking the neighbours of position `k` to each other keeps the chain without it. */
  lemma {:induction false} ChainRemove<T>(nodes: seq<Node<T>>, ids: seq<int>, k: int, nodes1: seq<Node<T>>)
    requires InRange(ids, |nodes|) && UniqueFrom(ids, 0) && ChainFrom(nodes, ids, 0)
    requires 0 <= k < |ids| && |nodes1| == |nodes|
    requires 0 < k ==> nodes1[ids[k - 1]] == nodes[ids[k - 1]].(next := IdAt(ids, k + 1))
    requires k + 1 < |ids| ==> nodes1[ids[k + 1]] == nodes[ids[k + 1]].(previous := IdAt(ids, k - 1))
    requires forall j :: 0 <= j < |nodes| && j != ids[k] && j != IdAt(ids, k - 1) && j != IdAt(ids, k + 1) ==> nodes1[j] == nodes[j]
    ensures InRange(RemoveAt(ids, k), |nodes1|)
    ensures ChainFrom(nodes1, RemoveAt(ids, k), 0)
  {
    var ids1 := RemoveAt(ids, k);
    forall j | 0 <= j < |ids1| ensures LinkAt(nodes1, ids1, j) {
      if j < k - 1 {
        LinkOf(nodes, ids, j);
        Apart(ids, j, k);
        Apart(ids, j, k - 1);
        if k + 1 < |ids| { Apart(ids, j, k + 1); }
        assert ids1[j] == ids[j] && IdAt(ids1, j - 1) == IdAt(ids, j - 1) && IdAt(ids1, j + 1) == ids[j + 1];
      } else if j == k - 1 {
        LinkOf(nodes, ids, k - 1);
        assert ids1[j] == ids[j] && IdAt(ids1, j - 1) == IdAt(ids, j - 1) && IdAt(ids1, j + 1) == IdAt(ids, k + 1);
      } else if j == k {
        LinkOf(nodes, ids, k + 1);
        assert ids1[j] == ids[k + 1] && IdAt(ids1, j - 1) == IdAt(ids, k - 1) && IdAt(ids1, j + 1) == IdAt(ids, k + 2);
      } else {
        LinkOf(nodes, ids, j + 1);
        Apart(ids, j + 1, k);
        Apart(ids, j + 1, k + 1);
        if 0 < k { Apart(ids, j + 1, k - 1); }
        assert ids1[j] == ids[j + 1] && IdAt(ids1, j - 1) == ids[j] && IdAt(ids1, j + 1) == IdAt(ids, j + 2);
      }
    }
    assert InRange(ids1, |nodes1|) by {
      forall j | 0 <= j < |ids1| ensures 0 <= ids1[j] < |nodes1| {
        assert LinkAt(nodes1, ids1, j);
      }
    }
    ChainFromIff(nodes1, ids1, 0);
  }

  /** Inserting an id that is not there keeps a sequence without repeats. */
  lemma {:induction false} UniqueInsert(s: seq<int>, i: int, x: int)
    requires UniqueFrom(s, 0) && 0 <= i <= |s| && x !in s
    ensures UniqueFrom(InsertAt(s, i, x), 0)
  {
    var s1 := InsertAt(s, i, x);
    UniqueIff(s, 0);
    forall j, l | 0 <= j < l < |s1| ensures s1[j] != s1[l] {
      if j < i && l > i { assert s[j] != s[l - 1]; }
      else if j > i { assert s[j - 1] != s[l - 1]; }
    }
    DistinctFrom(s1);
    UniqueIff(s1, 0);
  }

  /** Removing a position keeps a sequence without repeats. */
  lemma {:induction false} UniqueRemove(s: seq<int>, i: int)
    requires UniqueFrom(s, 0) && 0 <= i < |s|
    ensures UniqueFrom(RemoveAt(s, i), 0)
  {
    var s1 := RemoveAt(s, i);
    UniqueIff(s, 0);
    forall j, l | 0 <= j < l < |s1| ensures s1[j] != s1[l] {
      if j < i && l >= i { assert s[j] != s[l + 1]; }
      else if j >= i { assert s[j + 1] != s[l + 1]; }
    }
    DistinctFrom(s1);
    UniqueIff(s1, 0);
  }

  /** Resetting the slot at position `k` and pushing its id on the free stack
      keeps every slot not live reset and on the free stack once. */
  lemma {:induction false} FreeRemove<T>(nodes: seq<Node<T>>, ids: seq<int>, emptyIds: seq<int>, defaultValue: T, k: int, nodes1: seq<Node<T>>)
    requires InRange(ids, |nodes|) && UniqueFrom(ids, 0) && UniqueFrom(emptyIds, 0)
    requires FreeFrom(nodes, ids, emptyIds, defaultValue, 0) && CoveredFrom(ids, emptyIds, 0, |nodes|)
    requires 0 <= k < |ids| && |nodes1| == |nodes|
    requires nodes1[ids[k]] == Node(-1, -1, defaultValue)
    requires forall j :: 0 <= j < |nodes| && j !in ids ==> nodes1[j] == nodes[j]
    ensures UniqueFrom(emptyIds + [ids[k]], 0)
    ensures FreeFrom(nodes1, RemoveAt(ids, k), emptyIds + [ids[k]], defaultValue, 0)
    ensures CoveredFrom(RemoveAt(ids, k), emptyIds + [ids[k]], 0, |nodes1|)
  {
    var ids1, emptyIds1 := RemoveAt(ids, k), emptyIds + [ids[k]];
    UniqueIff(ids, 0);
    UniqueIff(emptyIds, 0);
    FreeFromIff(nodes, ids, emptyIds, defaultValue, 0);
    CoveredFromIff(ids, emptyIds, 0, |nodes|);
    RemoveAtMembers(ids, k);
    assert ids[k] !in ids1 by {
      forall j | 0 <= j < |ids1| ensures ids1[j] != ids[k] {
        if j < k { assert ids[j] != ids[k]; } else { assert ids[j + 1] != ids[k]; }
      }
    }
    forall j | 0 <= j < |emptyIds1| ensures FreeAt(nodes1, ids1, emptyIds1, defaultValue, j) {
      if j < |emptyIds| {
        assert FreeAt(nodes, ids, emptyIds, defaultValue, j);
      }
    }
    assert Distinct(emptyIds1) by {
      forall j, l | 0 <= j < l < |emptyIds1| ensures emptyIds1[j] != emptyIds1[l] {
        if l == |emptyIds| { assert FreeAt(nodes, ids, emptyIds, defaultValue, j); }
      }
      DistinctFrom(emptyIds1);
    }
    UniqueIff(emptyIds1, 0);
    forall i | 0 <= i < |nodes1| ensures i in ids1 || i in emptyIds1 {
      if i in emptyIds {
        var p :| 0 <= p < |emptyIds| && emptyIds[p] == i;
        assert emptyIds1[p] == i;
      } else if i == ids[k] {
        assert emptyIds1[|emptyIds|] == i;
      }
    }
    FreeFromIff(nodes1, ids1, emptyIds1, defaultValue, 0);
    CoveredFromIff(ids1, emptyIds1, 0, |nodes1|);
  }

  lemma {:induction false} ValuesRemove<T>(nodes: seq<Node<T>>, ids: seq<int>, k: int, nodes1: seq<Node<T>>)
    requires 0 <= k < |ids|
    requires InRange(ids, |nodes|) && InRange(ids, |nodes1|) && InRange(RemoveAt(ids, k), |nodes1|)
    requires forall j :: 0 <= j < |ids| && j != k ==> nodes1[ids[j]].value == nodes[ids[j]].value
    ensures ValuesOf(nodes1, RemoveAt(ids, k)) == RemoveAt(ValuesOf(nodes, ids), k)
  {
  }

  /** Linking the neighbours of position `k` to each other, resetting its slot
      and pushing its id on the free stack keeps the invariant without it. */
  lemma {:induction false} RemoveIntact<T>(nodes: seq<Node<T>>, ids: seq<int>, emptyIds: seq<int>, first: int, last: int, defaultValue: T,
                        k: int, nodes1: seq<Node<T>>, first1: int, last1: int)
    requires Intact(nodes, ids, emptyIds, first, last, defaultValue)
    requires 0 <= k < |ids| && |nodes1| == |nodes|
    requires 0 < k ==> nodes1[ids[k - 1]] == nodes[ids[k - 1]].(next := IdAt(ids, k + 1))
    requires k + 1 < |ids| ==> nodes1[ids[k + 1]] == nodes[ids[k + 1]].(previous := IdAt(ids, k - 1))
    requires nodes1[ids[k]] == Node(-1, -1, defaultValue)
    requires forall j :: 0 <= j < |nodes| && j != ids[k] && j != IdAt(ids, k - 1) && j != IdAt(ids, k + 1) ==> nodes1[j] == nodes[j]
    requires first1 == (if k == 0 then IdAt(ids, 1) else first) && last1 == (if k == |ids| - 1 then IdAt(ids, k - 1) else last)
    ensures Intact(nodes1, RemoveAt(ids, k), emptyIds + [ids[k]], first1, last1, defaultValue)
    ensures ValuesOf(nodes1, RemoveAt(ids, k)) == RemoveAt(ValuesOf(nodes, ids), k)
  {
    var ids1 := RemoveAt(ids, k);
    ChainRemove(nodes, ids, k, nodes1);
    UniqueRemove(ids, k);
    forall j | 0 <= j < |nodes| && j !in ids ensures nodes1[j] == nodes[j] {
      assert ids[k] in ids;
      assert 0 < k ==> ids[k - 1] in ids;
      assert k + 1 < |ids| ==> ids[k + 1] in ids;
    }
    FreeRemove(nodes, ids, emptyIds, defaultValue, k, nodes1);
    forall j | 0 <= j < |ids| && j != k ensures nodes1[ids[j]].value == nodes[ids[j]].value {
      Apart(ids, j, k);
    }
    ValuesRemove(nodes, ids, k, nodes1);
    assert first1 == IdAt(ids1, 0) && last1 == IdAt(ids1, |ids1| - 1) by {
      if k != 0 { assert ids1[0] == ids[0]; }
      if k != |ids| - 1 { assert ids1[|ids1| - 1] == ids[|ids| - 1]; }
    }
  }

  /** Replacing the value of a live slot keeps the invariant and replaces that one value. */
  lemma {:induction false} RelabelIntact<T>(nodes: seq<Node<T>>, ids: seq<int>, emptyIds: seq<int>, first: int, last: int, defaultValue: T, id: int, v: T)
    requires Intact(nodes, ids, emptyIds, first, last, defaultValue) && id in ids
    ensures 0 <= id < |nodes|
    ensures Intact(nodes[id := nodes[id].(value := v)], ids, emptyIds, first, last, defaultValue)
    ensures ValuesOf(nodes[id := nodes[id].(value := v)], ids) == ValuesOf(nodes, ids)[IndexOf(ids, id) := v]
  {
    var nodes1 := nodes[id := nodes[id].(value := v)];
    UniqueIff(ids, 0);
    ChainFromIff(nodes, ids, 0);
    forall j | 0 <= j < |ids| ensures LinkAt(nodes1, ids, j) {
      assert LinkAt(nodes, ids, j);
    }
    ChainFromIff(nodes1, ids, 0);
    FreeFromIff(nodes, ids, emptyIds, defaultValue, 0);
    forall j | 0 <= j < |emptyIds| ensures FreeAt(nodes1, ids, emptyIds, defaultValue, j) {
      assert FreeAt(nodes, ids, emptyIds, defaultValue, j);
    }
    FreeFromIff(nodes1, ids, emptyIds, defaultValue, 0);
    forall j | 0 <= j < |ids| ensures ValuesOf(nodes1, ids)[j] == ValuesOf(nodes, ids)[IndexOf(ids, id) := v][j] {
      if j != IndexOf(ids, id) { assert ids[j] != id; }
    }
  }

  /** `AddFirst(value)` keeps the invariant and puts the value at the front. */
  lemma {:induction false} AddFirstIntact<T>(nodes: seq<Node<T>>, ids: seq<int>, emptyIds: seq<int>, first: int, last: int, defaultValue: T, value: T)
    requires Intact(nodes, ids, emptyIds, first, last, defaultValue)
    ensures -1 <= first < |nodes|
    ensures |emptyIds| > 0 ==> 0 <= emptyIds[|emptyIds| - 1] < |nodes|
    ensures
      var s := Store(nodes, emptyIds, Node(-1, first, value));
      var nodes1 := if first == -1 then s.nodes else s.nodes[first := s.nodes[first].(previous := s.index)];
      && s.index !in ids
      && Intact(nodes1, [s.index] + ids, s.emptyIds, s.index, if first == -1 then s.index else last, defaultValue)
      && ValuesOf(nodes1, [s.index] + ids) == [value] + ValuesOf(nodes, ids)
  {
    TakesFreeSlot(nodes, ids, emptyIds, first, last, defaultValue);
    var s := Store(nodes, emptyIds, Node(-1, first, value));
    var nodes1 := if first == -1 then s.nodes else s.nodes[first := s.nodes[first].(previous := s.index)];
    InsertIntact(nodes, ids, emptyIds, first, last, defaultValue, -1, s.index, nodes1, s.emptyIds, s.index, if first == -1 then s.index else last);
    assert InsertAt(ids, 0, s.index) == [s.index] + ids;
    assert InsertAt(ValuesOf(nodes, ids), 0, value) == [value] + ValuesOf(nodes, ids);
  }

  /** `AddLast(value)` keeps the invariant and puts the value at the back. */
  lemma {:induction false} AddLastIntact<T>(nodes: seq<Node<T>>, ids: seq<int>, emptyIds: seq<int>, first: int, last: int, defaultValue: T, value: T)
    requires Intact(nodes, ids, emptyIds, first, last, defaultValue)
    ensures -1 <= last < |nodes| && (first == -1 <==> last == -1)
    ensures |emptyIds| > 0 ==> 0 <= emptyIds[|emptyIds| - 1] < |nodes|
    ensures
      var s := Store(nodes, emptyIds, Node(last, -1, value));
      var nodes1 := if first == -1 then s.nodes else s.nodes[last := s.nodes[last].(next := s.index)];
      && s.index !in ids
      && Intact(nodes1, ids + [s.index], s.emptyIds, if first == -1 then s.index else first, s.index, defaultValue)
      && ValuesOf(nodes1, ids + [s.index]) == ValuesOf(nodes, ids) + [value]
  {
    TakesFreeSlot(nodes, ids, emptyIds, first, last, defaultValue);
    var s := Store(nodes, emptyIds, Node(last, -1, value));
    var nodes1 := if first == -1 then s.nodes else s.nodes[last := s.nodes[last].(next := s.index)];
    InsertIntact(nodes, ids, emptyIds, first, last, defaultValue, |ids| - 1, s.index, nodes1, s.emptyIds,
                 if first == -1 then s.index else first, s.index);
    assert InsertAt(ids, |ids|, s.index) == ids + [s.index];
    assert InsertAt(ValuesOf(nodes, ids), |ids|, value) == ValuesOf(nodes, ids) + [value];
  }

  /** `AddAfter(id, value)` on a live id keeps the invariant and inserts the
      value right after the one at `id`. */
  lemma {:induction false} AddAfterIntact<T>(nodes: seq<Node<T>>, ids: seq<int>, emptyIds: seq<int>, first: int, last: int, defaultValue: T, id: int, value: T)
    requires Intact(nodes, ids, emptyIds, first, last, defaultValue) && id in ids
    ensures 0 <= id < |nodes| && -1 <= nodes[id].next < |nodes| && nodes[id].next != id
    ensures |emptyIds| > 0 ==> 0 <= emptyIds[|emptyIds| - 1] < |nodes|
    ensures
      var s := Store(nodes, emptyIds, Node(id, nodes[id].next, value));
      var next := nodes[id].next;
      var nodes1 := (if next == -1 then s.nodes else s.nodes[next := s.nodes[next].(previous := s.index)])[id := nodes[id].(next := s.index)];
      var ids1 := InsertAt(ids, IndexOf(ids, id) + 1, s.index);
      && s.index !in ids
      && Intact(nodes1, ids1, s.emptyIds, first, if next == -1 then s.index else last, defaultValue)
      && ValuesOf(nodes1, ids1) == InsertAt(ValuesOf(nodes, ids), IndexOf(ids, id) + 1, value)
  {
    TakesFreeSlot(nodes, ids, emptyIds, first, last, defaultValue);
    NextOf(nodes, ids, emptyIds, first, last, defaultValue, id);
    var k := IndexOf(ids, id);
    var s := Store(nodes, emptyIds, Node(id, nodes[id].next, value));
    var next := nodes[id].next;
    var nodesB := if next == -1 then s.nodes else s.nodes[next := s.nodes[next].(previous := s.index)];
    var nodes1 := nodesB[id := nodes[id].(next := s.index)];
    InsertIntact(nodes, ids, emptyIds, first, last, defaultValue, k, s.index, nodes1, s.emptyIds, first, if next == -1 then s.index else last);
  }

  /** The successor of a live id is the next id in the list, which is no id
      exactly when `id` is the last one. */
  lemma {:induction false} NextOf<T>(nodes: seq<Node<T>>, ids: seq<int>, emptyIds: seq<int>, first: int, last: int, defaultValue: T, id: int)
    requires Intact(nodes, ids, emptyIds, first, last, defaultValue) && id in ids
    ensures var k := IndexOf(ids, id);
      && 0 <= k < |ids| && ids[k] == id && 0 <= id < |nodes|
      && nodes[id].next == IdAt(ids, k + 1) && nodes[id].next != id
      && (last == id <==> nodes[id].next == -1)
  {
    var k := IndexOf(ids, id);
    LinkOf(nodes, ids, k);
    if k + 1 < |ids| { Apart(ids, k + 1, k); }
    PositionOf(ids, |ids| - 1);
  }

  /** `AddBefore(id, value)` on a live id keeps the invariant and inserts
      the value right before the one at `id`. */
  lemma {:induction false} AddBeforeIntact<T>(nodes: seq<Node<T>>, ids: seq<int>, emptyIds: seq<int>, first: int, last: int, defaultValue: T, id: int, value: T)
    requires Intact(nodes, ids, emptyIds, first, last, defaultValue) && id in ids
    ensures 0 <= id < |nodes| && -1 <= nodes[id].previous < |nodes| && nodes[id].previous != id
    ensures |emptyIds| > 0 ==> 0 <= emptyIds[|emptyIds| - 1] < |nodes|
    ensures
      var s := Store(nodes, emptyIds, Node(nodes[id].previous, id, value));
      var prev := nodes[id].previous;
      var nodes1 := (if prev == -1 then s.nodes else s.nodes[prev := s.nodes[prev].(next := s.index)])[id := nodes[id].(previous := s.index)];
      var ids1 := InsertAt(ids, IndexOf(ids, id), s.index);
      && s.index !in ids
      && Intact(nodes1, ids1, s.emptyIds, if prev == -1 then s.index else first, last, defaultValue)
      && ValuesOf(nodes1, ids1) == InsertAt(ValuesOf(nodes, ids), IndexOf(ids, id), value)
  {
    TakesFreeSlot(nodes, ids, emptyIds, first, last, defaultValue);
    var k: int := IndexOf(ids, id);
    LinkOf(nodes, ids, k);
    if 0 < k { Apart(ids, k - 1, k); }
    PositionOf(ids, 0);
    var s := Store(nodes, emptyIds, Node(nodes[id].previous, id, value));
    var prev := nodes[id].previous;
    var nodesB := if prev == -1 then s.nodes else s.nodes[prev := s.nodes[prev].(next := s.index)];
    var nodes1 := nodesB[id := nodes[id].(previous := s.index)];
    assert first == id <==> prev == -1;
    InsertIntact(nodes, ids, emptyIds, first, last, defaultValue, k - 1, s.index, nodes1, s.emptyIds, if prev == -1 then s.index else first, last);
  }

  /** The private `Remove(id, ref node)` on a live id, with the successor
      relinked to the removed node's predecessor, keeps the invariant and
      removes the value at `id`. */
  lemma {:induction false} UnlinkIntact<T>(nodes: seq<Node<T>>, ids: seq<int>, emptyIds: seq<int>, first: int, last: int, defaultValue: T, id: int)
    requires Intact(nodes, ids, emptyIds, first, last, defaultValue) && id in ids
    ensures 0 <= id < |nodes|
    ensures -1 <= nodes[id].previous < |nodes| && -1 <= nodes[id].next < |nodes|
    ensures
      var node := nodes[id];
      var nodesA := if node.previous != -1 then nodes[node.previous := nodes[node.previous].(next := node.next)] else nodes;
      var nodesB := if node.next != -1 then nodesA[node.next := nodesA[node.next].(previous := node.previous)] else nodesA;
      var k := IndexOf(ids, id);
      && Intact(nodesB[id := Node(-1, -1, defaultValue)], RemoveAt(ids, k), emptyIds + [id],
                if first == id then node.next else first, if last == id then node.previous else last, defaultValue)
      && ValuesOf(nodesB[id := Node(-1, -1, defaultValue)], RemoveAt(ids, k)) == RemoveAt(ValuesOf(nodes, ids), k)
  {
    var k := IndexOf(ids, id);
    LinkOf(nodes, ids, k);
    var node := nodes[id];
    if 0 < k { Apart(ids, k - 1, k); }
    if k + 1 < |ids| { Apart(ids, k + 1, k); }
    if 0 < k < |ids| - 1 { Apart(ids, k - 1, k + 1); }
    PositionOf(ids, 0);
    PositionOf(ids, |ids| - 1);
    var nodesA := if node.previous != -1 then nodes[node.previous := nodes[node.previous].(next := node.next)] else nodes;
    var nodesB := if node.next != -1 then nodesA[node.next := nodesA[node.next].(previous := node.previous)] else nodesA;
    RemoveIntact(nodes, ids, emptyIds, first, last, defaultValue, k, nodesB[id := Node(-1, -1, defaultValue)],
                 if first == id then node.next else first, if last == id then node.previous else last);
  }

  /** The private `Remove(id, ref node)` as written, on the node array: the
      predecessor is relinked first and the node's own `previous` is then reset
      to -1, so the successor is relinked to -1 rather than to the predecessor.
      `first`, `last` and the free stack are updated correctly. */
  function UnlinkNodesAsWritten<T>(nodes: seq<Node<T>>, id: int, defaultValue: T): (r: seq<Node<T>>)
    requires 0 <= id < |nodes|
    requires -1 <= nodes[id].previous < |nodes| && -1 <= nodes[id].next < |nodes|
    ensures |r| == |nodes|
  {
    var node := nodes[id];
    var nodes1 := if node.previous != -1 then nodes[node.previous := nodes[node.previous].(next := node.next)] else nodes;
    var node1 := if node.previous != -1 then node.(previous := -1) else node;
    var nodes2 := if node1.next != -1 then nodes1[node1.next := nodes1[node1.next].(previous := node1.previous)] else nodes1;
    nodes2[id := Node(-1, -1, defaultValue)]
  }

  /** Removing the first or the last node as written keeps the invariant. */
  lemma {:induction false} UnlinkAsWrittenAtEnds<T>(nodes: seq<Node<T>>, ids: seq<int>, emptyIds: seq<int>, first: int, last: int, defaultValue: T, k: int)
    requires Intact(nodes, ids, emptyIds, first, last, defaultValue)
    requires 0 <= k < |ids| && (k == 0 || k == |ids| - 1)
    ensures 0 <= ids[k] < |nodes|
    ensures -1 <= nodes[ids[k]].previous < |nodes| && -1 <= nodes[ids[k]].next < |nodes|
    ensures Intact(UnlinkNodesAsWritten(nodes, ids[k], defaultValue), RemoveAt(ids, k), emptyIds + [ids[k]],
                   if first == ids[k] then nodes[ids[k]].next else first,
                   if last == ids[k] then nodes[ids[k]].previous else last, defaultValue)
  {
    LinkOf(nodes, ids, k);
    var r := UnlinkNodesAsWritten(nodes, ids[k], defaultValue);
    if 0 < k { Apart(ids, k - 1, k); }
    if k + 1 < |ids| { Apart(ids, k + 1, k); }
    if k != 0 { Apart(ids, 0, k); }
    if k != |ids| - 1 { Apart(ids, |ids| - 1, k); }
    RemoveIntact(nodes, ids, emptyIds, first, last, defaultValue, k, r,
                 if first == ids[k] then nodes[ids[k]].next else first,
                 if last == ids[k] then nodes[ids[k]].previous else last);
  }

  /** Removing a node with neighbours on both sides as written leaves its
      successor pointing back at -1, so the links no longer chain the
      remaining ids; when that successor is the last node, its `previous` and
      `next` are then equal and it is not `first`, so the indexer rejects a
      live id with "invalid id". */
  lemma {:induction false} UnlinkAsWrittenInMiddle<T>(nodes: seq<Node<T>>, ids: seq<int>, emptyIds: seq<int>, first: int, last: int, defaultValue: T, k: int)
    requires Intact(nodes, ids, emptyIds, first, last, defaultValue)
    requires 0 < k < |ids| - 1
    ensures 0 <= ids[k] < |nodes| && 0 <= ids[k + 1] < |nodes|
    ensures -1 <= nodes[ids[k]].previous < |nodes| && -1 <= nodes[ids[k]].next < |nodes|
    ensures UnlinkNodesAsWritten(nodes, ids[k], defaultValue)[ids[k + 1]].previous == -1
    ensures !ChainFrom(UnlinkNodesAsWritten(nodes, ids[k], defaultValue), RemoveAt(ids, k), 0)
    ensures k == |ids| - 2 ==>
      var r := UnlinkNodesAsWritten(nodes, ids[k], defaultValue);
      r[ids[k + 1]].previous == r[ids[k + 1]].next && first != ids[k + 1]
  {
    LinkOf(nodes, ids, k);
    LinkOf(nodes, ids, k + 1);
    var r := UnlinkNodesAsWritten(nodes, ids[k], defaultValue);
    Apart(ids, k + 1, k);
    Apart(ids, k + 1, k - 1);
    Apart(ids, 0, k + 1);
    assert r[ids[k + 1]].previous == -1;
    var ids1 := RemoveAt(ids, k);
    assert ids1[k] == ids[k + 1] && ids1[k - 1] == ids[k - 1];
    assert !LinkAt(r, ids1, k);
    ChainBroken(r, ids1, k);
  }


  class QuickLinkedList<T> {
    var nodes: seq<Node<T>>
    var emptyIds: seq<int>
    var first: int
    var last: int
    /** The `default(T)` a removed slot is reset to. */
    const defaultValue: T
    ghost var Ids: seq<int>

    ghost predicate Valid()
      reads this
    {
      Intact(nodes, Ids, emptyIds, first, last, defaultValue)
    }

    /** The values in list order. */
    ghost function Values(): seq<T>
      reads this
      requires Valid()
    {
      ValuesOf(nodes, Ids)
    }

    /** What the invariant says about a live id and its neighbours. */
    lemma {:induction false} LiveNode(id: int)
      requires Valid() && id in Ids
      ensures 0 <= id < |nodes|
      ensures nodes[id].previous == IdAt(Ids, IndexOf(Ids, id) - 1) && nodes[id].next == IdAt(Ids, IndexOf(Ids, id) + 1)
      ensures -1 <= nodes[id].previous < |nodes| && nodes[id].previous != id
      ensures -1 <= nodes[id].next < |nodes| && nodes[id].next != id
      ensures nodes[id].previous != -1 ==> nodes[id].previous != nodes[id].next
      ensures first == id <==> IndexOf(Ids, id) == 0
      ensures last == id <==> IndexOf(Ids, id) == |Ids| - 1
    {
      var k := IndexOf(Ids, id);
      LinkOf(nodes, Ids, k);
      if 0 < k { Apart(Ids, k - 1, k); }
      if k + 1 < |Ids| { Apart(Ids, k + 1, k); }
      if 0 < k < |Ids| - 1 { Apart(Ids, k - 1, k + 1); }
      PositionOf(Ids, 0);
      PositionOf(Ids, |Ids| - 1);
    }

    /** The top of the free stack is a slot that is not live. */
    lemma {:induction false} FreeTop()
      requires Valid()
      ensures |emptyIds| > 0 ==> 0 <= emptyIds[|emptyIds| - 1] < |nodes| && emptyIds[|emptyIds| - 1] !in Ids
    {
      TakesFreeSlot(nodes, Ids, emptyIds, first, last, defaultValue);
    }

    constructor (capacity: int, defaultValue: T)
      ensures Valid() && Ids == [] && nodes == [] && emptyIds == []
      ensures this.defaultValue == defaultValue
    {
      nodes := [];
      emptyIds := [];
      first := -1;
      last := -1;
      this.defaultValue := defaultValue;
      Ids := [];
    }

    /** `count`: the number of live nodes. */
    function Count(): (c: int)
      reads this
      ensures Valid() ==> c == |Ids|
    {
      |nodes| - |emptyIds|
    }

    /** The test the indexer, AddAfter, AddBefore and Remove apply to an id. */
    predicate Usable(id: int)
      reads this
      requires 0 <= id < |nodes|
    {
      !(nodes[id].previous == nodes[id].next && first != id)
    }

    /** On a well-formed list the test accepts exactly the live ids. */
    lemma {:induction false} UsableIffLive(id: int)
      requires Valid() && 0 <= id < |nodes|
      ensures Usable(id) <==> id in Ids
    {
      if id in Ids {
        LiveNode(id);
      } else {
        CoverOf(Ids, emptyIds, id, |nodes|);
        var k :| 0 <= k < |emptyIds| && emptyIds[k] == id;
        FreeOf(nodes, Ids, emptyIds, defaultValue, k);
      }
    }

    /** The indexer's getter. */
    function Get(id: int): (r: Result<T>)
      reads this
      ensures !(0 <= id < |nodes|) ==> r == Err(ArgumentOutOfRange)
      ensures Valid() && 0 <= id < |nodes| ==>
        (r.Ok? <==> id in Ids) && (r.Err? ==> r.error == Thrown(InvalidIdMessage))
      ensures r.Ok? ==> r.value == nodes[id].value
    {
      assert Valid() && 0 <= id < |nodes| ==> (Usable(id) <==> id in Ids) by {
        if Valid() && 0 <= id < |nodes| { UsableIffLive(id); }
      }
      if !(0 <= id < |nodes|) then Err(ArgumentOutOfRange)
      else if !Usable(id) then Err(Thrown(InvalidIdMessage))
      else Ok(nodes[id].value)
    }

    /** `GetNode(id)`: the raw slot, live or free. */
    function GetNode(id: int): (r: Result<Node<T>>)
      reads this
      ensures r.Ok? <==> 0 <= id < |nodes|
      ensures Valid() && r.Ok? && id !in Ids ==> r.value == Node(-1, -1, defaultValue)
    {
      assert Valid() && 0 <= id < |nodes| && id !in Ids ==> nodes[id] == Node(-1, -1, defaultValue) by {
        if Valid() && 0 <= id < |nodes| && id !in Ids {
          CoverOf(Ids, emptyIds, id, |nodes|);
          var k :| 0 <= k < |emptyIds| && emptyIds[k] == id;
          FreeOf(nodes, Ids, emptyIds, defaultValue, k);
        }
      }
      if 0 <= id < |nodes| then Ok(nodes[id]) else Err(ArgumentOutOfRange)
    }

    /** `GetPrevious(id)`: for a live id, the id before it in list order, or -1. */
    function GetPrevious(id: int): (r: Result<int>)
      reads this
      ensures r.Ok? <==> 0 <= id < |nodes|
      ensures Valid() && id in Ids ==> r == Ok(IdAt(Ids, IndexOf(Ids, id) - 1))
    {
      assert Valid() && id in Ids ==> 0 <= id < |nodes| && nodes[id].previous == IdAt(Ids, IndexOf(Ids, id) - 1) by {
        if Valid() && id in Ids { LiveNode(id); }
      }
      if 0 <= id < |nodes| then Ok(nodes[id].previous) else Err(ArgumentOutOfRange)
    }

    /** `GetNext(id)`: for a live id, the id after it in list order, or -1. */
    function GetNext(id: int): (r: Result<int>)
      reads this
      ensures r.Ok? <==> 0 <= id < |nodes|
      ensures Valid() && id in Ids ==> r == Ok(IdAt(Ids, IndexOf(Ids, id) + 1))
    {
      assert Valid() && id in Ids ==> 0 <= id < |nodes| && nodes[id].next == IdAt(Ids, IndexOf(Ids, id) + 1) by {
        if Valid() && id in Ids { LiveNode(id); }
      }
      if 0 <= id < |nodes| then Ok(nodes[id].next) else Err(ArgumentOutOfRange)
    }

    /** The indexer's setter. */
    method Set(id: int, value: T) returns (outcome: Outcome)
      requires Valid()
      modifies this
      ensures Valid() && Ids == old(Ids)
      ensures outcome.Done? <==> old(0 <= id < |nodes| && id in Ids)
      ensures outcome.Fail? ==> unchanged(this)
      ensures outcome.Done? ==> Values() == old(Values())[IndexOf(Ids, id) := value]
    {
      if !(0 <= id < |nodes|) {
        return Fail(ArgumentOutOfRange);
      }
      UsableIffLive(id);
      var node := nodes[id];
      if node.previous == node.next && first != id {
        return Fail(Thrown(InvalidIdMessage));
      }
      RelabelIntact(nodes, Ids, emptyIds, first, last, defaultValue, id, value);
      nodes := nodes[id := node.(value := value)];
      outcome := Done;
    }

    /** The private `Add(ref node)`: store `node` in the most recently freed
        slot, or append it. Links are fixed by the caller. */
    method AddNode(node: Node<T>) returns (index: int)
      requires |emptyIds| > 0 ==> 0 <= emptyIds[|emptyIds| - 1] < |nodes|
      modifies this`nodes, this`emptyIds
      ensures Stored(nodes, emptyIds, index) == Store(old(nodes), old(emptyIds), node)
    {
      if |emptyIds| > 0 {
        index := emptyIds[|emptyIds| - 1];
        emptyIds := emptyIds[..|emptyIds| - 1];
        nodes := nodes[index := node];
      } else {
        nodes := nodes + [node];
        index := |nodes| - 1;
      }
    }

    /** `AddFirst`: a new node before all others; returns its id. */
    method AddFirst(value: T) returns (id: int)
      requires Valid()
      modifies this
      ensures Valid()
      ensures id !in old(Ids) && Ids == [id] + old(Ids)
      ensures Values() == [value] + old(Values())
      ensures id == if old(|emptyIds|) > 0 then old(emptyIds[|emptyIds| - 1]) else old(|nodes|)
    {
      ghost var nodes0, ids0, emptyIds0, first0, last0 := nodes, Ids, emptyIds, first, last;
      FreeTop();
      id := AddNode(Node(-1, first, value));
      if first == -1 {
        last := id;
      } else {
        nodes := nodes[first := nodes[first].(previous := id)];
      }
      first := id;
      Ids := [id] + ids0;
      AddFirstIntact(nodes0, ids0, emptyIds0, first0, last0, defaultValue, value);
    }

    /** `AddLast`: a new node after all others; returns its id. */
    method AddLast(value: T) returns (id: int)
      requires Valid()
      modifies this
      ensures Valid()
      ensures id !in old(Ids) && Ids == old(Ids) + [id]
      ensures Values() == old(Values()) + [value]
      ensures id == if old(|emptyIds|) > 0 then old(emptyIds[|emptyIds| - 1]) else old(|nodes|)
    {
      ghost var nodes0, ids0, emptyIds0, first0, last0 := nodes, Ids, emptyIds, first, last;
      FreeTop();
      id := AddNode(Node(last, -1, value));
      if first == -1 {
        first := id;
      } else {
        nodes := nodes[last := nodes[last].(next := id)];
      }
      last := id;
      Ids := ids0 + [id];
      AddLastIntact(nodes0, ids0, emptyIds0, first0, last0, defaultValue, value);
    }

    /** `AddAfter(id, value)`: a new node right after the live node `id`. */
    method AddAfter(id: int, value: T) returns (r: Result<int>)
      requires Valid()
      modifies this
      ensures Valid()
      ensures !old(0 <= id < |nodes|) ==> r == Err(ArgumentOutOfRange)
      ensures old(0 <= id < |nodes|) && id !in old(Ids) ==> r == Err(Thrown(InvalidIdMessage))
      ensures r.Err? ==> unchanged(this)
      ensures r.Ok? <==> id in old(Ids)
      ensures r.Ok? ==>
        && r.value !in old(Ids)
        && Ids == InsertAt(old(Ids), IndexOf(old(Ids), id) + 1, r.value)
        && Values() == InsertAt(old(Values()), IndexOf(old(Ids), id) + 1, value)
    {
      if !(0 <= id < |nodes|) {
        return Err(ArgumentOutOfRange);
      }
      UsableIffLive(id);
      var prevNode := nodes[id];
      if prevNode.previous == prevNode.next && first != id {
        return Err(Thrown(InvalidIdMessage));
      }
      var newId := LinkAfter(id, value);
      r := Ok(newId);
    }

    /** The part of `AddAfter` past the checks: store the node and link it in after `id`. */
    method LinkAfter(id: int, value: T) returns (newId: int)
      requires Valid() && id in Ids
      modifies this
      ensures Valid()
      ensures newId !in old(Ids)
      ensures Ids == InsertAt(old(Ids), IndexOf(old(Ids), id) + 1, newId)
      ensures Values() == InsertAt(old(Values()), IndexOf(old(Ids), id) + 1, value)
    {
      ghost var nodes0, ids0, emptyIds0, first0, last0 := nodes, Ids, emptyIds, first, last;
      LiveNode(id);
      FreeTop();
      var prevNode := nodes[id];
      newId := AddNode(Node(id, prevNode.next, value));
      if prevNode.next == -1 {
        last := newId;
      } else {
        nodes := nodes[prevNode.next := nodes[prevNode.next].(previous := newId)];
      }
      prevNode := prevNode.(next := newId);
      nodes := nodes[id := prevNode];
      Ids := InsertAt(ids0, IndexOf(ids0, id) + 1, newId);
      AddAfterIntact(nodes0, ids0, emptyIds0, first0, last0, defaultValue, id, value);
    }

    /** `AddBefore(id, value)`: a new node right before the live node `id`. */
    method AddBefore(id: int, value: T) returns (r: Result<int>)
      requires Valid()
      modifies this
      ensures Valid()
      ensures !old(0 <= id < |nodes|) ==> r == Err(ArgumentOutOfRange)
      ensures old(0 <= id < |nodes|) && id !in old(Ids) ==> r == Err(Thrown(InvalidIdMessage))
      ensures r.Err? ==> unchanged(this)
      ensures r.Ok? <==> id in old(Ids)
      ensures r.Ok? ==>
        && r.value !in old(Ids)
        && Ids == InsertAt(old(Ids), IndexOf(old(Ids), id), r.value)
        && Values() == InsertAt(old(Values()), IndexOf(old(Ids), id), value)
    {
      if !(0 <= id < |nodes|) {
        return Err(ArgumentOutOfRange);
      }
      UsableIffLive(id);
      var nextNode := nodes[id];
      if nextNode.previous == nextNode.next && first != id {
        return Err(Thrown(InvalidIdMessage));
      }
      var newId := LinkBefore(id, value);
      r := Ok(newId);
    }

    /** The part of `AddBefore` past the checks: store the node and link it in before `id`. */
    method LinkBefore(id: int, value: T) returns (newId: int)
      requires Valid() && id in Ids
      modifies this
      ensures Valid()
      ensures newId !in old(Ids)
      ensures Ids == InsertAt(old(Ids), IndexOf(old(Ids), id), newId)
      ensures Values() == InsertAt(old(Values()), IndexOf(old(Ids), id), value)
    {
      ghost var nodes0, ids0, emptyIds0, first0, last0 := nodes, Ids, emptyIds, first, last;
      LiveNode(id);
      FreeTop();
      var nextNode := nodes[id];
      newId := AddNode(Node(nextNode.previous, id, value));
      if nextNode.previous == -1 {
        first := newId;
      } else {
        nodes := nodes[nextNode.previous := nodes[nextNode.previous].(next := newId)];
      }
      nextNode := nextNode.(previous := newId);
      nodes := nodes[id := nextNode];
      Ids := InsertAt(ids0, IndexOf(ids0, id), newId);
      AddBeforeIntact(nodes0, ids0, emptyIds0, first0, last0, defaultValue, id, value);
    }

    /** `Clear`: drops every node and every free id. */
    method Clear()
      modifies this
      ensures Valid() && Ids == [] && Values() == []
      ensures nodes == [] && emptyIds == []
    {
      emptyIds := [];
      nodes := [];
      first := -1;
      last := -1;
      Ids := [];
    }

    /** The private `Remove(id, ref node)`, with the successor relinked to the
        removed node's predecessor (`UnlinkNodesAsWritten` is the code as
        written). The slot is reset and its id pushed on the free stack. */
    method Unlink(id: int, node: Node<T>)
      requires Valid() && id in Ids && node == nodes[id]
      modifies this
      ensures Valid()
      ensures Ids == RemoveAt(old(Ids), IndexOf(old(Ids), id))
      ensures Values() == RemoveAt(old(Values()), IndexOf(old(Ids), id))
      ensures emptyIds == old(emptyIds) + [id]
    {
      ghost var nodes0, ids0, emptyIds0, first0, last0 := nodes, Ids, emptyIds, first, last;
      LiveNode(id);
      if first == id {
        first := node.next;
      }
      if last == id {
        last := node.previous;
      }
      if node.previous != -1 {
        nodes := nodes[node.previous := nodes[node.previous].(next := node.next)];
      }
      if node.next != -1 {
        nodes := nodes[node.next := nodes[node.next].(previous := node.previous)];
      }
      nodes := nodes[id := Node(-1, -1, defaultValue)];
      emptyIds := emptyIds + [id];
      Ids := RemoveAt(ids0, IndexOf(ids0, id));
      UnlinkIntact(nodes0, ids0, emptyIds0, first0, last0, defaultValue, id);
    }

    /** `Remove(id)`: removes the live node `id`. */
    method Remove(id: int) returns (outcome: Outcome)
      requires Valid()
      modifies this
      ensures Valid()
      ensures !old(0 <= id < |nodes|) ==> outcome == Fail(ArgumentOutOfRange)
      ensures old(0 <= id < |nodes|) && id !in old(Ids) ==> outcome == Fail(Thrown(InvalidIdMessage))
      ensures outcome.Fail? ==> unchanged(this)
      ensures outcome.Done? <==> id in old(Ids)
      ensures outcome.Done? ==>
        && Ids == RemoveAt(old(Ids), IndexOf(old(Ids), id))
        && Values() == RemoveAt(old(Values()), IndexOf(old(Ids), id))
        && emptyIds == old(emptyIds) + [id]
    {
      if !(0 <= id < |nodes|) {
        return Fail(ArgumentOutOfRange);
      }
      UsableIffLive(id);
      var node := nodes[id];
      if node.previous == node.next && first != id {
        return Fail(Thrown(InvalidIdMessage));
      }
      Unlink(id, node);
      outcome := Done;
    }

    /** `RemoveFirst`: removes the first node; an empty list throws "empty list". */
    method RemoveFirst() returns (outcome: Outcome)
      requires Valid()
      modifies this
      ensures Valid()
      ensures outcome.Fail? <==> old(Ids) == []
      ensures outcome.Fail? ==> outcome == Fail(Thrown(EmptyListMessage)) && unchanged(this)
      ensures outcome.Done? ==> Ids == old(Ids)[1..] && Values() == old(Values())[1..]
    {
      if first == -1 {
        return Fail(Thrown(EmptyListMessage));
      }
      ghost var ids0, values0 := Ids, Values();
      LiveNode(first);
      var node := nodes[first];
      Unlink(first, node);
      assert Ids == ids0[1..];
      assert Values() == values0[1..];
      outcome := Done;
    }

    /** `RemoveLast`: removes the last node; an empty list throws "empty list". */
    method RemoveLast() returns (outcome: Outcome)
      requires Valid()
      modifies this
      ensures Valid()
      ensures outcome.Fail? <==> old(Ids) == []
      ensures outcome.Fail? ==> outcome == Fail(Thrown(EmptyListMessage)) && unchanged(this)
      ensures outcome.Done? ==> Ids == old(Ids)[..|old(Ids)| - 1] && Values() == old(Values())[..|old(Values())| - 1]
    {
      if last == -1 {
        return Fail(Thrown(EmptyListMessage));
      }
      ghost var ids0, values0 := Ids, Values();
      LiveNode(last);
      var node := nodes[last];
      Unlink(last, node);
      assert Ids == ids0[..|ids0| - 1];
      assert Values() == values0[..|values0| - 1];
      outcome := Done;
    }
  }
}
