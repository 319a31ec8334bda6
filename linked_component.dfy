/** `LinkedComponent<T>`: every component of one type T is threaded on one
    intrusive doubly linked list. The head and tail (`listFirst`, `listLast`)
    are static, so shared by all components of T; each component holds its
    own `listPrevious` and `listNext`.

    The model gives the components of one T the ids 0, 1, ...; -1 is null.
    `Links` is the list's whole state, `ComponentList` the class whose fields
    are that state, and a ghost sequence `order` is the list front to back,
    which `Linked` ties to the links. The DEBUG checks are always on. */
module LinkedComponents {
  import opened Wrappers
  import QuickLinkedLists

  const Null := -1
  const AlreadyInListMessage := "Node is already at list"
  const TargetNotInListMessage := "Target is not at list"

  /** The static head and tail of T, and the two links of every component. */
  datatype Links = Links(first: int, last: int, previous: seq<int>, next: seq<int>)

  /** Component `c` exists. */
  predicate Has(s: Links, c: int) {
    0 <= c < |s.previous| && c < |s.next|
  }

  /** The DEBUG membership test: a component counts as listed when it has a
      neighbour or is the head. */
  predicate InList(s: Links, c: nat)
    requires Has(s, c)
  {
    s.previous[c] != Null || s.next[c] != Null || s.first == c
  }

  /** The id at position `k` of `order`, or null outside it. */
  function At(order: seq<nat>, k: int): int {
    if 0 <= k < |order| then order[k] else Null
  }

  /** The first position of `c` in `order`. */
  function Position(order: seq<nat>, c: nat): (k: nat)
    requires c in order
    ensures k < |order| && order[k] == c
  {
    if order[0] == c then 0
    else
      assert order == [order[0]] + order[1..];
      1 + Position(order[1..], c)
  }

  /** No component appears twice in `order`. */
  ghost predicate Distinct(order: seq<nat>) {
    forall j, k :: 0 <= j < k < |order| ==> order[j] != order[k]
  }

  /** The component at position `k` of `order` links to its neighbours there. */
  ghost predicate LinksAt(s: Links, order: seq<nat>, k: int)
    requires 0 <= k < |order|
  {
    order[k] < |s.next| && order[k] < |s.previous|
    && s.next[order[k]] == At(order, k + 1)
    && s.previous[order[k]] == At(order, k - 1)
  }

  /** Component `d`, when it is not in `order`, has no links. */
  ghost predicate Unlinked(s: Links, order: seq<nat>, d: int)
    requires 0 <= d < |s.next| && d < |s.previous|
  {
    d !in order ==> s.next[d] == Null && s.previous[d] == Null
  }

  /** The links describe the list `order`: the head and tail are its ends,
      each listed component links to its neighbours in `order`, and every
      other component has no links. */
  ghost predicate Linked(s: Links, order: seq<nat>) {
    && |s.previous| == |s.next|
    && Distinct(order)
    && s.first == At(order, 0)
    && s.last == At(order, |order| - 1)
    && (forall k :: 0 <= k < |order| ==> LinksAt(s, order, k))
    && (forall d :: 0 <= d < |s.next| ==> Unlinked(s, order, d))
  }

  /** On a well-linked list the DEBUG test is exactly membership. */
  lemma InListIff(s: Links, order: seq<nat>, c: nat)
    requires Linked(s, order) && Has(s, c)
    ensures InList(s, c) <==> c in order
  {
    if c in order {
      var k := Position(order, c);
      assert LinksAt(s, order, k);
    } else {
      assert Unlinked(s, order, c);
      if order != [] {
        assert order[0] in order;
      }
    }
  }

  /** The position of a listed component is its only one. */
  lemma PositionUnique(order: seq<nat>, k: int)
    requires Distinct(order) && 0 <= k < |order|
    ensures Position(order, order[k]) == k
  {
  }

  /** AttachAsListLast: the component's previous is the old tail; the old
      tail's next, or the head of an empty list, is the component; it becomes
      the tail. */
  function Appended(s: Links, c: nat): (r: Links)
    requires Has(s, c) && -1 <= s.last < |s.next|
    ensures Has(r, c)
  {
    Links(if s.last == Null then c else s.first,
          c,
          s.previous[c := s.last],
          if s.last == Null then s.next else s.next[s.last := c])
  }

  /** AttachAsListFirst, the mirror image at the head. */
  function Prepended(s: Links, c: nat): (r: Links)
    requires Has(s, c) && -1 <= s.first < |s.previous|
    ensures Has(r, c)
  {
    Links(c,
          if s.first == Null then c else s.last,
          if s.first == Null then s.previous else s.previous[s.first := c],
          s.next[c := s.first])
  }

  /** AttachBefore(target) as written: the component links to the target
      and to the target's old previous, and the target's previous becomes the
      component; the head moves when the target was the head. The old
      previous keeps its next. */
  function BeforeAsWritten(s: Links, c: nat, t: nat): (r: Links)
    requires Has(s, c) && Has(s, t)
    ensures Has(r, c) && Has(r, t)
  {
    Links(if s.first == t then c else s.first,
          s.last,
          s.previous[c := s.previous[t]][t := c],
          s.next[c := t])
  }

  /** AttachAfter(target) as written, the mirror image: the old next of the
      target keeps its previous. */
  function AfterAsWritten(s: Links, c: nat, t: nat): (r: Links)
    requires Has(s, c) && Has(s, t)
    ensures Has(r, c) && Has(r, t)
  {
    Links(s.first,
          if s.last == t then c else s.last,
          s.previous[c := t],
          s.next[c := s.next[t]][t := c])
  }

  /** AttachBefore with the missing step: the old previous of the target, if
      any, now has the component as its next. */
  function BeforeFixed(s: Links, c: nat, t: nat): (r: Links)
    requires Has(s, c) && Has(s, t) && -1 <= s.previous[t] < |s.next|
    ensures Has(r, c) && Has(r, t)
  {
    var p := s.previous[t];
    var w := BeforeAsWritten(s, c, t);
    if p == Null then w else w.(next := w.next[p := c])
  }

  /** AttachAfter with the missing step: the old next of the target, if any,
      now has the component as its previous. */
  function AfterFixed(s: Links, c: nat, t: nat): (r: Links)
    requires Has(s, c) && Has(s, t) && -1 <= s.next[t] < |s.previous|
    ensures Has(r, c) && Has(r, t)
  {
    var n := s.next[t];
    var w := AfterAsWritten(s, c, t);
    if n == Null then w else w.(previous := w.previous[n := c])
  }

  /** DetachFromList: the head and tail move off the component, its
      neighbours are linked to each other, and its own links are cleared. */
  function Removed(s: Links, c: nat): (r: Links)
    requires Has(s, c) && -1 <= s.previous[c] < |s.next| && -1 <= s.next[c] < |s.previous|
    ensures Has(r, c)
  {
    var p := s.previous[c];
    var n := s.next[c];
    var next1 := if p == Null then s.next else s.next[p := n];
    var previous1 := if n == Null then s.previous else s.previous[n := p];
    Links(if s.first == c then n else s.first,
          if s.last == c then p else s.last,
          previous1[c := Null],
          next1[c := Null])
  }

  /** The tail, the head and the neighbours of a listed component are null or
      components. */
  lemma LinkedEnds(s: Links, order: seq<nat>)
    requires Linked(s, order)
    ensures -1 <= s.first < |s.next| && -1 <= s.last < |s.next|
    ensures forall c :: 0 <= c < |s.next| ==> -1 <= s.next[c] < |s.next| && -1 <= s.previous[c] < |s.next|
  {
    forall c | 0 <= c < |s.next|
      ensures -1 <= s.next[c] < |s.next| && -1 <= s.previous[c] < |s.next|
    {
      if c in order {
        var k := Position(order, c);
        assert LinksAt(s, order, k);
        if k + 1 < |order| {
          assert LinksAt(s, order, k + 1);
        }
        if k > 0 {
          assert LinksAt(s, order, k - 1);
        }
      } else {
        assert Unlinked(s, order, c);
      }
    }
    if order != [] {
      assert LinksAt(s, order, 0);
      assert LinksAt(s, order, |order| - 1);
    }
  }

  /** AttachAsListLast on an unlisted component appends it to the list. */
  lemma AppendedLinked(s: Links, order: seq<nat>, c: nat)
    requires Linked(s, order) && Has(s, c) && c !in order
    ensures Has(s, c) && -1 <= s.last < |s.next|
    ensures Linked(Appended(s, c), order + [c])
  {
    LinkedEnds(s, order);
    var r := Appended(s, c);
    var o := order + [c];
    assert Unlinked(s, order, c);
    forall k | 0 <= k < |o|
      ensures LinksAt(r, o, k)
    {
      if k < |order| {
        assert LinksAt(s, order, k);
        if k < |order| - 1 {
          assert o[k] == order[k] != s.last;
        }
      }
    }
    forall d | 0 <= d < |r.next|
      ensures Unlinked(r, o, d)
    {
      assert Unlinked(s, order, d);
    }
  }

  /** AttachAsListFirst on an unlisted component puts it at the front. */
  lemma PrependedLinked(s: Links, order: seq<nat>, c: nat)
    requires Linked(s, order) && Has(s, c) && c !in order
    ensures Has(s, c) && -1 <= s.first < |s.previous|
    ensures Linked(Prepended(s, c), [c] + order)
  {
    LinkedEnds(s, order);
    var r := Prepended(s, c);
    var o := [c] + order;
    assert Unlinked(s, order, c);
    forall k | 0 <= k < |o|
      ensures LinksAt(r, o, k)
    {
      if k > 0 {
        assert LinksAt(s, order, k - 1);
        if k > 1 {
          assert o[k] == order[k - 1] != s.first;
        }
      }
    }
    forall d | 0 <= d < |r.next|
      ensures Unlinked(r, o, d)
    {
      assert Unlinked(s, order, d);
    }
  }

  /** Inserting a new component keeps the ids distinct. */
  lemma InsertDistinct(order: seq<nat>, i: int, c: nat)
    requires Distinct(order) && c !in order && 0 <= i <= |order|
    ensures Distinct(QuickLinkedLists.InsertAt(order, i, c))
  {
    var o := QuickLinkedLists.InsertAt(order, i, c);
    forall j, k | 0 <= j < k < |o|
      ensures o[j] != o[k]
    {
      var j' := if j < i then j else j - 1;
      var k' := if k < i then k else k - 1;
      if j != i && k != i {
        assert o[j] == order[j'] && o[k] == order[k'];
      } else if j == i {
        assert o[k] == order[k'] && order[k'] in order;
      } else {
        assert o[j] == order[j'] && order[j'] in order;
      }
    }
  }

  /** Removing a position keeps the ids distinct. */
  lemma RemoveDistinct(order: seq<nat>, i: int)
    requires Distinct(order) && 0 <= i < |order|
    ensures Distinct(QuickLinkedLists.RemoveAt(order, i))
  {
    var o := QuickLinkedLists.RemoveAt(order, i);
    forall j, k | 0 <= j < k < |o|
      ensures o[j] != o[k]
    {
      var j' := if j < i then j else j + 1;
      var k' := if k < i then k else k + 1;
      assert o[j] == order[j'] && o[k] == order[k'];
    }
  }

  /** The corrected AttachBefore inserts the component just before the
      target. */
  lemma BeforeFixedLinked(s: Links, order: seq<nat>, c: nat, t: nat)
    requires Linked(s, order) && Has(s, c) && Has(s, t) && c !in order && t in order
    ensures -1 <= s.previous[t] < |s.next|
    ensures Linked(BeforeFixed(s, c, t), QuickLinkedLists.InsertAt(order, Position(order, t), c))
  {
    LinkedEnds(s, order);
    var i := Position(order, t);
    var r := BeforeFixed(s, c, t);
    var o := QuickLinkedLists.InsertAt(order, i, c);
    var p := s.previous[t];
    assert LinksAt(s, order, i);
    assert Unlinked(s, order, c);
    assert p != Null ==> p == order[i - 1];
    InsertDistinct(order, i, c);
    forall k | 0 <= k < |o|
      ensures LinksAt(r, o, k)
    {
      var k' := if k < i then k else k - 1;
      if k != i {
        assert LinksAt(s, order, k');
      }
      BeforeFixedAt(s, order, c, t, i, k);
    }
    QuickLinkedLists.InsertAtMembers(order, i, c);
    forall d | 0 <= d < |r.next|
      ensures Unlinked(r, o, d)
    {
      assert Unlinked(s, order, d);
    }
  }

  /** One position of the list after the corrected AttachBefore. */
  lemma BeforeFixedAt(s: Links, order: seq<nat>, c: nat, t: nat, i: int, k: int)
    requires Has(s, c) && Has(s, t) && -1 <= s.previous[t] < |s.next|
    requires 0 <= i < |order| && order[i] == t && s.previous[t] == At(order, i - 1)
    requires Distinct(order) && c !in order && 0 <= k <= |order|
    requires k != i ==> LinksAt(s, order, if k < i then k else k - 1)
    ensures LinksAt(BeforeFixed(s, c, t), QuickLinkedLists.InsertAt(order, i, c), k)
  {
    var o := QuickLinkedLists.InsertAt(order, i, c);
    assert t in order;
    if k != i {
      var k' := if k < i then k else k - 1;
      assert o[k] == order[k'] && o[k] != c;
      assert k' != i ==> order[k'] != t;
      assert k' != i - 1 ==> order[k'] != s.previous[t];
    }
  }

  /** The corrected AttachAfter inserts the component just after the
      target. */
  lemma AfterFixedLinked(s: Links, order: seq<nat>, c: nat, t: nat)
    requires Linked(s, order) && Has(s, c) && Has(s, t) && c !in order && t in order
    ensures -1 <= s.next[t] < |s.previous|
    ensures Linked(AfterFixed(s, c, t), QuickLinkedLists.InsertAt(order, Position(order, t) + 1, c))
  {
    LinkedEnds(s, order);
    var i := Position(order, t) + 1;
    var r := AfterFixed(s, c, t);
    var o := QuickLinkedLists.InsertAt(order, i, c);
    var n := s.next[t];
    assert LinksAt(s, order, i - 1);
    assert Unlinked(s, order, c);
    assert n != Null ==> n == order[i];
    InsertDistinct(order, i, c);
    forall k | 0 <= k < |o|
      ensures LinksAt(r, o, k)
    {
      var k' := if k < i then k else k - 1;
      if k != i {
        assert LinksAt(s, order, k');
      }
      AfterFixedAt(s, order, c, t, i, k);
    }
    QuickLinkedLists.InsertAtMembers(order, i, c);
    forall d | 0 <= d < |r.next|
      ensures Unlinked(r, o, d)
    {
      assert Unlinked(s, order, d);
    }
  }

  /** One position of the list after the corrected AttachAfter. */
  lemma AfterFixedAt(s: Links, order: seq<nat>, c: nat, t: nat, i: int, k: int)
    requires Has(s, c) && Has(s, t) && -1 <= s.next[t] < |s.previous|
    requires 0 < i <= |order| && order[i - 1] == t && s.next[t] == At(order, i)
    requires Distinct(order) && c !in order && 0 <= k <= |order|
    requires k != i ==> LinksAt(s, order, if k < i then k else k - 1)
    ensures LinksAt(AfterFixed(s, c, t), QuickLinkedLists.InsertAt(order, i, c), k)
  {
    var o := QuickLinkedLists.InsertAt(order, i, c);
    assert t in order;
    if k != i {
      var k' := if k < i then k else k - 1;
      assert o[k] == order[k'] && o[k] != c;
      assert k' != i - 1 ==> order[k'] != t;
      assert k' != i ==> order[k'] != s.next[t];
    }
  }

  /** DetachFromList takes the component out of the list. */
  lemma RemovedLinked(s: Links, order: seq<nat>, c: nat)
    requires Linked(s, order) && Has(s, c) && c in order
    ensures -1 <= s.previous[c] < |s.next| && -1 <= s.next[c] < |s.previous|
    ensures Linked(Removed(s, c), QuickLinkedLists.RemoveAt(order, Position(order, c)))
  {
    LinkedEnds(s, order);
    var i := Position(order, c);
    var r := Removed(s, c);
    var o := QuickLinkedLists.RemoveAt(order, i);
    assert LinksAt(s, order, i);
    RemoveDistinct(order, i);
    forall k | 0 <= k < |o|
      ensures LinksAt(r, o, k)
    {
      var j := if k < i then k else k + 1;
      assert LinksAt(s, order, j);
      RemovedLinksAt(s, order, c, i, k, j);
    }
    QuickLinkedLists.RemoveAtMembers(order, i);
    forall d | 0 <= d < |r.next|
      ensures Unlinked(r, o, d)
    {
      assert Unlinked(s, order, d);
    }
  }

  /** RemovedLinked at one position `k` of the shorter list, which held
      position `j` of the longer one: the neighbours of `c` (at position `i`)
      now link to each other, and every other link is as it was. */
  lemma RemovedLinksAt(s: Links, order: seq<nat>, c: nat, i: nat, k: nat, j: nat)
    requires Has(s, c) && i < |order| && order[i] == c
    requires -1 <= s.previous[c] < |s.next| && -1 <= s.next[c] < |s.previous|
    requires LinksAt(s, order, i)
    requires k < |order| - 1 && j == (if k < i then k else k + 1) && LinksAt(s, order, j)
    requires order[j] != c
    requires i > 0 && j != i - 1 ==> order[j] != order[i - 1]
    requires i + 1 < |order| && j != i + 1 ==> order[j] != order[i + 1]
    ensures LinksAt(Removed(s, c), QuickLinkedLists.RemoveAt(order, i), k)
  {
    var o := QuickLinkedLists.RemoveAt(order, i);
    assert o[k] == order[j];
    AtRemoveAt(order, i, k + 1);
    AtRemoveAt(order, i, k - 1);
    RemovedLinksOf(s, c, order[j]);
  }

  /** Removed changes the links of `c`'s neighbours, and of no one else but `c`. */
  lemma RemovedLinksOf(s: Links, c: nat, x: nat)
    requires Has(s, c) && -1 <= s.previous[c] < |s.next| && -1 <= s.next[c] < |s.previous|
    requires Has(s, x) && x != c
    ensures Removed(s, c).next[x] == if x == s.previous[c] then s.next[c] else s.next[x]
    ensures Removed(s, c).previous[x] == if x == s.next[c] then s.previous[c] else s.previous[x]
  {
  }

  /** Looking up a position of a list with one entry removed. */
  lemma AtRemoveAt(order: seq<nat>, i: nat, j: int)
    requires i < |order| && -1 <= j
    ensures At(QuickLinkedLists.RemoveAt(order, i), j) == At(order, if j < i then j else j + 1)
  {
  }

  /** On a list, no two components share a next... */
  lemma NextInjective(r: Links, o: seq<nat>, a: nat, b: nat)
    requires Has(r, a) && Has(r, b) && r.next[a] == r.next[b] != Null
    ensures Linked(r, o) ==> a == b
  {
    if Linked(r, o) {
      assert Unlinked(r, o, a) && Unlinked(r, o, b);
      var x := Position(o, a);
      var y := Position(o, b);
      assert LinksAt(r, o, x) && LinksAt(r, o, y);
    }
  }

  /** ... nor a previous. */
  lemma PreviousInjective(r: Links, o: seq<nat>, a: nat, b: nat)
    requires Has(r, a) && Has(r, b) && r.previous[a] == r.previous[b] != Null
    ensures Linked(r, o) ==> a == b
  {
    if Linked(r, o) {
      assert Unlinked(r, o, a) && Unlinked(r, o, b);
      var x := Position(o, a);
      var y := Position(o, b);
      assert LinksAt(r, o, x) && LinksAt(r, o, y);
    }
  }

  /** AttachBefore as written, with a target that is not the head: the
      target's old previous and the new component both have the target as
      their next, so the links describe no list at all. */
  lemma BeforeAsWrittenBroken(s: Links, order: seq<nat>, c: nat, t: nat, o: seq<nat>)
    requires Linked(s, order) && Has(s, c) && Has(s, t) && c !in order && t in order && t != s.first
    ensures !Linked(BeforeAsWritten(s, c, t), o)
  {
    var i := Position(order, t);
    assert i > 0;
    assert LinksAt(s, order, i) && LinksAt(s, order, i - 1);
    var p := order[i - 1];
    assert p in order;
    NextInjective(BeforeAsWritten(s, c, t), o, p, c);
  }

  /** AttachAfter as written, with a target that is not the tail: the
      target's old next and the new component both have the target as their
      previous. */
  lemma AfterAsWrittenBroken(s: Links, order: seq<nat>, c: nat, t: nat, o: seq<nat>)
    requires Linked(s, order) && Has(s, c) && Has(s, t) && c !in order && t in order && t != s.last
    ensures !Linked(AfterAsWritten(s, c, t), o)
  {
    var i := Position(order, t);
    assert i < |order| - 1;
    assert LinksAt(s, order, i) && LinksAt(s, order, i + 1);
    var n := order[i + 1];
    assert n in order;
    PreviousInjective(AfterAsWritten(s, c, t), o, n, c);
  }

  /** At the head, AttachBefore as written is correct: it prepends. */
  lemma BeforeAsWrittenAtHead(s: Links, order: seq<nat>, c: nat, t: nat)
    requires Linked(s, order) && Has(s, c) && Has(s, t) && c !in order && t == s.first
    ensures Linked(BeforeAsWritten(s, c, t), [c] + order)
  {
    assert order[0] == t && Position(order, t) == 0;
    BeforeFixedLinked(s, order, c, t);
    assert LinksAt(s, order, 0);
    assert QuickLinkedLists.InsertAt(order, 0, c) == [c] + order;
  }

  /** At the tail, AttachAfter as written is correct: it appends. */
  lemma AfterAsWrittenAtTail(s: Links, order: seq<nat>, c: nat, t: nat)
    requires Linked(s, order) && Has(s, c) && Has(s, t) && c !in order && t == s.last && t != Null
    ensures Linked(AfterAsWritten(s, c, t), order + [c])
  {
    assert order != [] && order[|order| - 1] == t;
    PositionUnique(order, |order| - 1);
    AfterFixedLinked(s, order, c, t);
    assert LinksAt(s, order, |order| - 1);
    assert QuickLinkedLists.InsertAt(order, |order|, c) == order + [c];
  }

  /** The smallest case: with components 0 and 1 listed, AttachBefore(1) of
      component 2 leaves 0's next at 1, so walking the list from the head
      never meets 2, though 2 passes the DEBUG membership test. */
  lemma AttachBeforeCounterexample()
    ensures var s := Links(0, 1, [Null, 0, Null], [1, Null, Null]);
      && Linked(s, [0, 1]) && !InList(s, 2)
      && BeforeAsWritten(s, 2, 1) == Links(0, 1, [Null, 2, 0], [1, Null, 1])
      && InList(BeforeAsWritten(s, 2, 1), 2)
      && forall o :: !Linked(BeforeAsWritten(s, 2, 1), o)
  {
    var s := Links(0, 1, [Null, 0, Null], [1, Null, Null]);
    assert LinksAt(s, [0, 1], 0) && LinksAt(s, [0, 1], 1);
    forall o
      ensures !Linked(BeforeAsWritten(s, 2, 1), o)
    {
      BeforeAsWrittenBroken(s, [0, 1], 2, 1, o);
    }
  }

  /** DetachFromList undoes AttachAsListLast. */
  lemma DetachUndoesAppend(s: Links, order: seq<nat>, c: nat)
    requires Linked(s, order) && Has(s, c) && c !in order
    ensures -1 <= s.last < |s.next|
    ensures var r := Appended(s, c);
      -1 <= r.previous[c] < |r.next| && -1 <= r.next[c] < |r.previous| && Removed(r, c) == s
  {
    LinkedEnds(s, order);
    assert Unlinked(s, order, c);
    if order != [] {
      assert LinksAt(s, order, |order| - 1);
    }
    var u := Removed(Appended(s, c), c);
    assert u.next == s.next;
    assert u.previous == s.previous;
  }

  /** DetachFromList undoes AttachAsListFirst. */
  lemma DetachUndoesPrepend(s: Links, order: seq<nat>, c: nat)
    requires Linked(s, order) && Has(s, c) && c !in order
    ensures -1 <= s.first < |s.previous|
    ensures var r := Prepended(s, c);
      -1 <= r.previous[c] < |r.next| && -1 <= r.next[c] < |r.previous| && Removed(r, c) == s
  {
    LinkedEnds(s, order);
    assert Unlinked(s, order, c);
    if order != [] {
      assert LinksAt(s, order, 0);
    }
    var u := Removed(Prepended(s, c), c);
    assert u.next == s.next;
    assert u.previous == s.previous;
  }

  /** DetachFromList undoes the corrected AttachBefore. */
  lemma DetachUndoesBefore(s: Links, order: seq<nat>, c: nat, t: nat)
    requires Linked(s, order) && Has(s, c) && Has(s, t) && c !in order && t in order
    ensures -1 <= s.previous[t] < |s.next|
    ensures var r := BeforeFixed(s, c, t);
      -1 <= r.previous[c] < |r.next| && -1 <= r.next[c] < |r.previous| && Removed(r, c) == s
  {
    LinkedEnds(s, order);
    assert Unlinked(s, order, c);
    var i := Position(order, t);
    assert LinksAt(s, order, i);
    if i > 0 {
      assert LinksAt(s, order, i - 1);
    }
    var u := Removed(BeforeFixed(s, c, t), c);
    assert u.next == s.next;
    assert u.previous == s.previous;
  }

  /** DetachFromList undoes the corrected AttachAfter. */
  lemma DetachUndoesAfter(s: Links, order: seq<nat>, c: nat, t: nat)
    requires Linked(s, order) && Has(s, c) && Has(s, t) && c !in order && t in order
    ensures -1 <= s.next[t] < |s.previous|
    ensures var r := AfterFixed(s, c, t);
      -1 <= r.previous[c] < |r.next| && -1 <= r.next[c] < |r.previous| && Removed(r, c) == s
  {
    LinkedEnds(s, order);
    assert Unlinked(s, order, c);
    var i := Position(order, t);
    assert LinksAt(s, order, i);
    if i + 1 < |order| {
      assert LinksAt(s, order, i + 1);
    }
    var u := Removed(AfterFixed(s, c, t), c);
    assert u.next == s.next;
    assert u.previous == s.previous;
  }

  /** The list of one component type T: its static head and tail and the
      links of its components, by id. */
  class ComponentList {
    var listFirst: int
    var listLast: int
    var listPrevious: seq<int>
    var listNext: seq<int>
    /** The list, front to back. */
    ghost var order: seq<nat>

    function State(): Links
      reads this
    {
      Links(listFirst, listLast, listPrevious, listNext)
    }

    ghost predicate Valid()
      reads this
    {
      Linked(State(), order)
    }

    /** Before any component of T exists the list is empty. */
    constructor ()
      ensures Valid() && order == []
      ensures listFirst == Null && listLast == Null && listPrevious == [] && listNext == []
    {
      listFirst := Null;
      listLast := Null;
      listPrevious := [];
      listNext := [];
      order := [];
    }

    /** `new LinkedComponent()`: a new component, not on the list. */
    method NewComponent() returns (c: nat)
      requires Valid()
      modifies this
      ensures Valid() && order == old(order)
      ensures c == old(|listNext|) && Has(State(), c) && !InList(State(), c)
      ensures listFirst == old(listFirst) && listLast == old(listLast)
      ensures listPrevious == old(listPrevious) + [Null] && listNext == old(listNext) + [Null]
    {
      c := |listNext|;
      LinkedEnds(State(), order);
      ghost var s := State();
      listPrevious := listPrevious + [Null];
      listNext := listNext + [Null];
      forall k | 0 <= k < |order|
        ensures LinksAt(State(), order, k)
      {
        assert LinksAt(s, order, k);
      }
      forall d | 0 <= d < |listNext|
        ensures Unlinked(State(), order, d)
      {
        if d < c {
          assert Unlinked(s, order, d);
        }
      }
    }

    /** isListEmpty: the head is null exactly when no component is listed. */
    function IsListEmpty(): (r: bool)
      reads this
      ensures Valid() ==> (r <==> order == [])
    {
      listFirst == Null
    }

    /** AttachAsListLast: throws when the component is already listed,
        otherwise appends it. */
    method AttachAsListLast(c: nat) returns (o: Outcome)
      requires Valid() && c < |listNext|
      modifies this
      ensures Valid()
      ensures o == (if old(c in order) then Fail(Thrown(AlreadyInListMessage)) else Done)
      ensures o.Fail? ==> unchanged(this)
      ensures o.Done? ==> order == old(order) + [c]
      ensures o.Done? ==> var s := old(State()); -1 <= s.last < |s.next| && State() == Appended(s, c)
    {
      InListIff(State(), order, c);
      if listPrevious[c] != Null || listNext[c] != Null || listFirst == c {
        return Fail(Thrown(AlreadyInListMessage));
      }
      AppendedLinked(State(), order, c);
      listPrevious := listPrevious[c := listLast];
      if listLast != Null {
        listNext := listNext[listLast := c];
      } else {
        listFirst := c;
      }
      listLast := c;
      order := order + [c];
      return Done;
    }

    /** AttachAsListFirst: throws when the component is already listed,
        otherwise puts it at the front. */
    method AttachAsListFirst(c: nat) returns (o: Outcome)
      requires Valid() && c < |listNext|
      modifies this
      ensures Valid()
      ensures o == (if old(c in order) then Fail(Thrown(AlreadyInListMessage)) else Done)
      ensures o.Fail? ==> unchanged(this)
      ensures o.Done? ==> order == [c] + old(order)
      ensures o.Done? ==> var s := old(State()); -1 <= s.first < |s.previous| && State() == Prepended(s, c)
    {
      InListIff(State(), order, c);
      if listPrevious[c] != Null || listNext[c] != Null || listFirst == c {
        return Fail(Thrown(AlreadyInListMessage));
      }
      PrependedLinked(State(), order, c);
      listNext := listNext[c := listFirst];
      if listFirst != Null {
        listPrevious := listPrevious[listFirst := c];
      } else {
        listLast := c;
      }
      listFirst := c;
      order := [c] + order;
      return Done;
    }

    /** The two DEBUG checks of AttachBefore and AttachAfter: the component
        must not be listed, the target must be. */
    method CheckAttach(c: nat, t: nat) returns (o: Outcome)
      requires Valid() && c < |listNext| && t < |listNext|
      ensures o == (if c in order then Fail(Thrown(AlreadyInListMessage))
                    else if t !in order then Fail(Thrown(TargetNotInListMessage)) else Done)
    {
      InListIff(State(), order, c);
      InListIff(State(), order, t);
      if listPrevious[c] != Null || listNext[c] != Null || listFirst == c {
        return Fail(Thrown(AlreadyInListMessage));
      }
      if listPrevious[t] == Null && listNext[t] == Null && listFirst != t {
        return Fail(Thrown(TargetNotInListMessage));
      }
      return Done;
    }

    /** AttachBefore(target) as written. At the head it prepends; anywhere
        else the links it leaves describe no list. */
    method AttachBefore(c: nat, t: nat) returns (o: Outcome)
      requires Valid() && c < |listNext| && t < |listNext|
      modifies this
      ensures o == (if old(c in order) then Fail(Thrown(AlreadyInListMessage))
                    else if old(t !in order) then Fail(Thrown(TargetNotInListMessage)) else Done)
      ensures o.Fail? ==> unchanged(this)
      ensures o.Done? ==> State() == BeforeAsWritten(old(State()), c, t)
      ensures o.Done? && old(listFirst) == t ==> Valid() && order == [c] + old(order)
      ensures o.Done? && old(listFirst) != t ==> forall o' :: !Linked(State(), o')
    {
      o := CheckAttach(c, t);
      if o.Fail? {
        return;
      }
      ghost var s := State();
      ghost var order0 := order;
      listNext := listNext[c := t];
      listPrevious := listPrevious[c := listPrevious[t]];
      listPrevious := listPrevious[t := c];
      if listFirst == t {
        listFirst := c;
      }
      if s.first == t {
        BeforeAsWrittenAtHead(s, order0, c, t);
        order := [c] + order0;
      } else {
        forall o' ensures !Linked(State(), o') {
          BeforeAsWrittenBroken(s, order0, c, t, o');
        }
      }
    }

    /** AttachAfter(target) as written. At the tail it appends; anywhere else
        the links it leaves describe no list. */
    method AttachAfter(c: nat, t: nat) returns (o: Outcome)
      requires Valid() && c < |listNext| && t < |listNext|
      modifies this
      ensures o == (if old(c in order) then Fail(Thrown(AlreadyInListMessage))
                    else if old(t !in order) then Fail(Thrown(TargetNotInListMessage)) else Done)
      ensures o.Fail? ==> unchanged(this)
      ensures o.Done? ==> State() == AfterAsWritten(old(State()), c, t)
      ensures o.Done? && old(listLast) == t ==> Valid() && order == old(order) + [c]
      ensures o.Done? && old(listLast) != t ==> forall o' :: !Linked(State(), o')
    {
      o := CheckAttach(c, t);
      if o.Fail? {
        return;
      }
      ghost var s := State();
      ghost var order0 := order;
      listPrevious := listPrevious[c := t];
      listNext := listNext[c := listNext[t]];
      listNext := listNext[t := c];
      if listLast == t {
        listLast := c;
      }
      if s.last == t {
        AfterAsWrittenAtTail(s, order0, c, t);
        order := order0 + [c];
      } else {
        forall o' ensures !Linked(State(), o') {
          AfterAsWrittenBroken(s, order0, c, t, o');
        }
      }
    }

    /** AttachBefore(target) with the old previous relinked: inserts the
        component just before the target. */
    method AttachBeforeFixed(c: nat, t: nat) returns (o: Outcome)
      requires Valid() && c < |listNext| && t < |listNext|
      modifies this
      ensures Valid()
      ensures o == (if old(c in order) then Fail(Thrown(AlreadyInListMessage))
                    else if old(t !in order) then Fail(Thrown(TargetNotInListMessage)) else Done)
      ensures o.Fail? ==> unchanged(this)
      ensures o.Done? ==> var s := old(State()); -1 <= s.previous[t] < |s.next| && State() == BeforeFixed(s, c, t)
      ensures o.Done? ==> order == QuickLinkedLists.InsertAt(old(order), Position(old(order), t), c)
    {
      o := CheckAttach(c, t);
      if o.Fail? {
        return;
      }
      BeforeFixedLinked(State(), order, c, t);
      var p := listPrevious[t];
      listNext := listNext[c := t];
      listPrevious := listPrevious[c := p];
      listPrevious := listPrevious[t := c];
      if p != Null {
        listNext := listNext[p := c];
      }
      if listFirst == t {
        listFirst := c;
      }
      order := QuickLinkedLists.InsertAt(order, Position(order, t), c);
    }

    /** AttachAfter(target) with the old next relinked: inserts the
        component just after the target. */
    method AttachAfterFixed(c: nat, t: nat) returns (o: Outcome)
      requires Valid() && c < |listNext| && t < |listNext|
      modifies this
      ensures Valid()
      ensures o == (if old(c in order) then Fail(Thrown(AlreadyInListMessage))
                    else if old(t !in order) then Fail(Thrown(TargetNotInListMessage)) else Done)
      ensures o.Fail? ==> unchanged(this)
      ensures o.Done? ==> var s := old(State()); -1 <= s.next[t] < |s.previous| && State() == AfterFixed(s, c, t)
      ensures o.Done? ==> order == QuickLinkedLists.InsertAt(old(order), Position(old(order), t) + 1, c)
    {
      o := CheckAttach(c, t);
      if o.Fail? {
        return;
      }
      AfterFixedLinked(State(), order, c, t);
      var n := listNext[t];
      listPrevious := listPrevious[c := t];
      listNext := listNext[c := n];
      listNext := listNext[t := c];
      if n != Null {
        listPrevious := listPrevious[n := c];
      }
      if listLast == t {
        listLast := c;
      }
      order := QuickLinkedLists.InsertAt(order, Position(order, t) + 1, c);
    }

    /** DetachFromList: throws when the component is not listed, otherwise
        takes it out of the list. */
    method DetachFromList(c: nat) returns (o: Outcome)
      requires Valid() && c < |listNext|
      modifies this
      ensures Valid()
      ensures o == (if old(c !in order) then Fail(Thrown(AlreadyInListMessage)) else Done)
      ensures o.Fail? ==> unchanged(this)
      ensures o.Done? ==> var s := old(State());
        -1 <= s.previous[c] < |s.next| && -1 <= s.next[c] < |s.previous| && State() == Removed(s, c)
      ensures o.Done? ==> order == QuickLinkedLists.RemoveAt(old(order), Position(old(order), c))
    {
      InListIff(State(), order, c);
      if listPrevious[c] == Null && listNext[c] == Null && listFirst != c {
        return Fail(Thrown(AlreadyInListMessage));
      }
      RemovedLinked(State(), order, c);
      var p := listPrevious[c];
      var n := listNext[c];
      if listFirst == c {
        listFirst := n;
      }
      if listLast == c {
        listLast := p;
      }
      if p != Null {
        listNext := listNext[p := n];
      }
      if n != Null {
        listPrevious := listPrevious[n := p];
      }
      listPrevious := listPrevious[c := Null];
      listNext := listNext[c := Null];
      order := QuickLinkedLists.RemoveAt(order, Position(order, c));
      return Done;
    }
  }
}
