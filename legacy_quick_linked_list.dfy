/** The older `QuickLinkedList<T>` (the UnityExtension version): the same slot
    array, free-id stack and `first`/`last` as the newer list, but adding a
    node only sets the new node's own links and removing one only moves
    `first`/`last`; the neighbours' links are never patched.

    Each operation is specified by a function on the list's value
    (`ListState`). The invariant that does hold is `Bounded`: every link and
    every free id stays inside the slot array, so no access the list makes
    itself is out of range. The scenario methods at the end show what does
    not hold. */
module LegacyQuickLinkedLists {
  import opened Wrappers

  datatype Node<T> = Node(previous: int, next: int, value: T)

  /** The list's fields: the slots, the free-id stack (top last), `first` and `last`. */
  datatype ListState<T> = ListState(nodes: seq<Node<T>>, emptyIds: seq<int>, first: int, last: int)

  const InvalidIdMessage := "invalid id"
  const EmptyListMessage := "empty list"

  ghost predicate Bounded<T>(s: ListState<T>) {
    && -1 <= s.first < |s.nodes| && -1 <= s.last < |s.nodes|
    && (forall i :: 0 <= i < |s.nodes| ==> -1 <= s.nodes[i].previous < |s.nodes| && -1 <= s.nodes[i].next < |s.nodes|)
    && (forall k :: 0 <= k < |s.emptyIds| ==> 0 <= s.emptyIds[k] < |s.nodes|)
  }

  /** `count`: slots minus free ids, which nothing keeps non-negative. */
  function Count<T>(s: ListState<T>): (c: int)
    ensures c + |s.emptyIds| == |s.nodes|
  {
    |s.nodes| - |s.emptyIds|
  }

  /** The test the indexer, AddAfter, AddBefore and Remove apply to an id. */
  predicate Usable<T>(s: ListState<T>, id: int)
    requires 0 <= id < |s.nodes|
  {
    !(s.nodes[id].previous == s.nodes[id].next && s.first != id)
  }

  /** The slot the private `Add` uses: the most recently freed id, or a new one. */
  function Slot<T>(s: ListState<T>): (index: int)
    requires Bounded(s)
    ensures 0 <= index <= |s.nodes|
    ensures index == |s.nodes| <==> s.emptyIds == []
  {
    if |s.emptyIds| > 0 then s.emptyIds[|s.emptyIds| - 1] else |s.nodes|
  }

  /** The private `Add(ref node)`: `node` stored at `Slot(s)`, popping the
      free stack or growing the array. */
  function Store<T>(s: ListState<T>, node: Node<T>): (r: ListState<T>)
    requires Bounded(s)
    requires -1 <= node.previous < |s.nodes| && -1 <= node.next < |s.nodes|
    ensures |r.nodes| == if s.emptyIds == [] then |s.nodes| + 1 else |s.nodes|
    ensures Slot(s) < |r.nodes| && r.nodes[Slot(s)] == node
    ensures Bounded(r) && r.first == s.first && r.last == s.last
    ensures forall i :: 0 <= i < |s.nodes| && i != Slot(s) ==> r.nodes[i] == s.nodes[i]
    ensures Count(r) == Count(s) + 1
  {
    if |s.emptyIds| > 0 then
      s.(nodes := s.nodes[Slot(s) := node], emptyIds := s.emptyIds[..|s.emptyIds| - 1])
    else
      s.(nodes := s.nodes + [node])
  }

  /** `AddFirst`: the new node points at the old first, which keeps `previous == -1`. */
  function AddFirstState<T>(s: ListState<T>, value: T): (r: ListState<T>)
    requires Bounded(s)
    ensures Bounded(r) && r.first == Slot(s) && r.nodes[r.first] == Node(-1, s.first, value)
    ensures r.last == if s.last == -1 then r.first else s.last
    ensures Count(r) == Count(s) + 1
  {
    Store(s, Node(-1, s.first, value)).(first := Slot(s), last := if s.last == -1 then Slot(s) else s.last)
  }

  /** `AddLast`: the new node points back at the old last, whose `next` is not updated. */
  function AddLastState<T>(s: ListState<T>, value: T): (r: ListState<T>)
    requires Bounded(s)
    ensures Bounded(r) && r.last == Slot(s) && r.nodes[r.last] == Node(s.last, -1, value)
    ensures r.first == if s.first == -1 then r.last else s.first
    ensures Count(r) == Count(s) + 1
  {
    Store(s, Node(s.last, -1, value)).(last := Slot(s), first := if s.first == -1 then Slot(s) else s.first)
  }

  /** `AddAfter(id, value)` once `id` has passed the test: a copy of node `id`
      with `previous := id`; neither `id`'s `next` nor its successor changes. */
  function AddAfterState<T>(s: ListState<T>, id: int, value: T): (r: ListState<T>)
    requires Bounded(s) && 0 <= id < |s.nodes|
    ensures Bounded(r) && Slot(s) < |r.nodes| && r.nodes[Slot(s)] == Node(id, s.nodes[id].next, value)
    ensures id != Slot(s) ==> r.nodes[id] == s.nodes[id]
    ensures r.first == s.first
    ensures r.last == if s.last == id then Slot(s) else s.last
  {
    Store(s, s.nodes[id].(previous := id, value := value)).(last := if s.last == id then Slot(s) else s.last)
  }

  /** `AddBefore(id, value)` once `id` has passed the test: a copy of node
      `id` with `next := id`; neither `id`'s `previous` nor its predecessor changes. */
  function AddBeforeState<T>(s: ListState<T>, id: int, value: T): (r: ListState<T>)
    requires Bounded(s) && 0 <= id < |s.nodes|
    ensures Bounded(r) && Slot(s) < |r.nodes| && r.nodes[Slot(s)] == Node(s.nodes[id].previous, id, value)
    ensures id != Slot(s) ==> r.nodes[id] == s.nodes[id]
    ensures r.last == s.last
    ensures r.first == if s.first == id then Slot(s) else s.first
  {
    Store(s, s.nodes[id].(next := id, value := value)).(first := if s.first == id then Slot(s) else s.first)
  }

  /** The private `Remove(id, ref node)`: `first`/`last` move to the node's
      own neighbours, the slot is reset and its id pushed, and the neighbours
      keep pointing at it. */
  function UnlinkState<T>(s: ListState<T>, id: int, defaultValue: T): (r: ListState<T>)
    requires Bounded(s) && 0 <= id < |s.nodes|
    ensures Bounded(r) && |r.nodes| == |s.nodes| && Count(r) == Count(s) - 1
    ensures r.nodes[id] == Node(-1, -1, defaultValue)
    ensures forall i :: 0 <= i < |s.nodes| && i != id ==> r.nodes[i] == s.nodes[i]
  {
    ListState(s.nodes[id := Node(-1, -1, defaultValue)], s.emptyIds + [id],
              if s.first == id then s.nodes[id].next else s.first,
              if s.last == id then s.nodes[id].previous else s.last)
  }

  class LegacyQuickLinkedList<T> {
    var nodes: seq<Node<T>>
    var emptyIds: seq<int>
    var first: int
    var last: int
    /** The `default(T)` a removed slot is reset to. */
    const defaultValue: T

    function State(): ListState<T>
      reads this
    {
      ListState(nodes, emptyIds, first, last)
    }

    constructor (capacity: int, defaultValue: T)
      ensures State() == ListState([], [], -1, -1) && Bounded(State()) && Count(State()) == 0
      ensures this.defaultValue == defaultValue
    {
      nodes := [];
      emptyIds := [];
      first := -1;
      last := -1;
      this.defaultValue := defaultValue;
    }

    /** The indexer's getter. */
    function Get(id: int): (r: Result<T>)
      reads this
      ensures !(0 <= id < |nodes|) ==> r == Err(ArgumentOutOfRange)
      ensures 0 <= id < |nodes| ==> (r.Ok? <==> Usable(State(), id)) && (r.Err? ==> r.error == Thrown(InvalidIdMessage))
      ensures r.Ok? ==> r.value == nodes[id].value
    {
      if !(0 <= id < |nodes|) then Err(ArgumentOutOfRange)
      else if !Usable(State(), id) then Err(Thrown(InvalidIdMessage))
      else Ok(nodes[id].value)
    }

    /** The indexer's setter. */
    method Set(id: int, value: T) returns (outcome: Outcome)
      requires Bounded(State())
      modifies this`nodes
      ensures Bounded(State())
      ensures !(0 <= id < |nodes|) ==> outcome == Fail(ArgumentOutOfRange)
      ensures outcome.Done? <==> old(0 <= id < |nodes| && Usable(State(), id))
      ensures outcome.Fail? ==> nodes == old(nodes)
      ensures outcome.Done? ==> nodes == old(nodes)[id := old(nodes)[id].(value := value)]
    {
      if !(0 <= id < |nodes|) {
        return Fail(ArgumentOutOfRange);
      }
      var node := nodes[id];
      if node.previous == node.next && first != id {
        return Fail(Thrown(InvalidIdMessage));
      }
      nodes := nodes[id := node.(value := value)];
      outcome := Done;
    }

    /** `GetNode(id)`: the raw slot. */
    function GetNode(id: int): (r: Result<Node<T>>)
      reads this
      ensures r.Ok? <==> 0 <= id < |nodes|
      ensures r.Ok? ==> r.value == nodes[id]
    {
      if 0 <= id < |nodes| then Ok(nodes[id]) else Err(ArgumentOutOfRange)
    }

    /** `GetPrevious(id)`: the slot's stored `previous` link; under Bounded it
        is -1 or a slot of the array. */
    function GetPrevious(id: int): (r: Result<int>)
      reads this
      ensures r.Ok? <==> 0 <= id < |nodes|
      ensures r.Err? ==> r.error == ArgumentOutOfRange
      ensures r.Ok? ==> GetNode(id) == Ok(Node(r.value, nodes[id].next, nodes[id].value))
      ensures r.Ok? && Bounded(State()) ==> -1 <= r.value < |nodes|
    {
      if 0 <= id < |nodes| then Ok(nodes[id].previous) else Err(ArgumentOutOfRange)
    }

    /** `GetNext(id)`: the slot's stored `next` link; under Bounded it is -1
        or a slot of the array. */
    function GetNext(id: int): (r: Result<int>)
      reads this
      ensures r.Ok? <==> 0 <= id < |nodes|
      ensures r.Err? ==> r.error == ArgumentOutOfRange
      ensures r.Ok? ==> GetNode(id) == Ok(Node(nodes[id].previous, r.value, nodes[id].value))
      ensures r.Ok? && Bounded(State()) ==> -1 <= r.value < |nodes|
    {
      if 0 <= id < |nodes| then Ok(nodes[id].next) else Err(ArgumentOutOfRange)
    }

    /** The private `Add(ref node)`. */
    method AddNode(node: Node<T>) returns (index: int)
      requires Bounded(State())
      requires -1 <= node.previous < |nodes| && -1 <= node.next < |nodes|
      modifies this`nodes, this`emptyIds
      ensures index == Slot(old(State())) && State() == Store(old(State()), node)
    {
      if |emptyIds| > 0 {
        index := emptyIds[|emptyIds| - 1];
        emptyIds := emptyIds[..|emptyIds| - 1];
        nodes := nodes[index := node];
      } else {
        nodes := nodes + [node];
        index := |nodes| - 1;
      }
    }

    /** The private `Remove(id, ref node)`. */
    method Unlink(id: int, node: Node<T>)
      requires Bounded(State()) && 0 <= id < |nodes| && node == nodes[id]
      modifies this
      ensures State() == UnlinkState(old(State()), id, defaultValue)
    {
      if first == id {
        first := node.next;
      }
      if last == id {
        last := node.previous;
      }
      nodes := nodes[id := Node(-1, -1, defaultValue)];
      emptyIds := emptyIds + [id];
    }

    method AddFirst(value: T) returns (id: int)
      requires Bounded(State())
      modifies this
      ensures id == Slot(old(State())) && State() == AddFirstState(old(State()), value)
    {
      id := AddNode(Node(-1, first, value));
      first := id;
      if last == -1 {
        last := first;
      }
    }

    method AddLast(value: T) returns (id: int)
      requires Bounded(State())
      modifies this
      ensures id == Slot(old(State())) && State() == AddLastState(old(State()), value)
    {
      id := AddNode(Node(last, -1, value));
      last := id;
      if first == -1 {
        first := last;
      }
    }

    method AddAfter(id: int, value: T) returns (r: Result<int>)
      requires Bounded(State())
      modifies this
      ensures !(0 <= id < old(|nodes|)) ==> r == Err(ArgumentOutOfRange)
      ensures r.Ok? <==> 0 <= id < old(|nodes|) && old(Usable(State(), id))
      ensures 0 <= id < old(|nodes|) && !old(Usable(State(), id)) ==> r == Err(Thrown(InvalidIdMessage))
      ensures r.Err? ==> unchanged(this)
      ensures r.Ok? ==> r.value == Slot(old(State())) && State() == AddAfterState(old(State()), id, value)
    {
      if !(0 <= id < |nodes|) {
        return Err(ArgumentOutOfRange);
      }
      var node := nodes[id];
      if node.previous == node.next && first != id {
        return Err(Thrown(InvalidIdMessage));
      }
      node := node.(previous := id, value := value);
      var newId := AddNode(node);
      if last == id {
        last := newId;
      }
      r := Ok(newId);
    }

    method AddBefore(id: int, value: T) returns (r: Result<int>)
      requires Bounded(State())
      modifies this
      ensures !(0 <= id < old(|nodes|)) ==> r == Err(ArgumentOutOfRange)
      ensures r.Ok? <==> 0 <= id < old(|nodes|) && old(Usable(State(), id))
      ensures 0 <= id < old(|nodes|) && !old(Usable(State(), id)) ==> r == Err(Thrown(InvalidIdMessage))
      ensures r.Err? ==> unchanged(this)
      ensures r.Ok? ==> r.value == Slot(old(State())) && State() == AddBeforeState(old(State()), id, value)
    {
      if !(0 <= id < |nodes|) {
        return Err(ArgumentOutOfRange);
      }
      var node := nodes[id];
      if node.previous == node.next && first != id {
        return Err(Thrown(InvalidIdMessage));
      }
      node := node.(next := id, value := value);
      var newId := AddNode(node);
      if first == id {
        first := newId;
      }
      r := Ok(newId);
    }

    method Clear()
      modifies this
      ensures State() == ListState([], [], -1, -1) && Bounded(State()) && Count(State()) == 0
    {
      emptyIds := [];
      nodes := [];
      first := -1;
      last := -1;
    }

    method Remove(id: int) returns (outcome: Outcome)
      requires Bounded(State())
      modifies this
      ensures !(0 <= id < old(|nodes|)) ==> outcome == Fail(ArgumentOutOfRange)
      ensures outcome.Done? <==> 0 <= id < old(|nodes|) && old(Usable(State(), id))
      ensures 0 <= id < old(|nodes|) && !old(Usable(State(), id)) ==> outcome == Fail(Thrown(InvalidIdMessage))
      ensures outcome.Fail? ==> unchanged(this)
      ensures outcome.Done? ==> State() == UnlinkState(old(State()), id, defaultValue)
    {
      if !(0 <= id < |nodes|) {
        return Fail(ArgumentOutOfRange);
      }
      var node := nodes[id];
      if node.previous == node.next && first != id {
        return Fail(Thrown(InvalidIdMessage));
      }
      Unlink(id, node);
      outcome := Done;
    }

    method RemoveFirst() returns (outcome: Outcome)
      requires Bounded(State())
      modifies this
      ensures outcome.Fail? <==> old(first) == -1
      ensures outcome.Fail? ==> outcome == Fail(Thrown(EmptyListMessage)) && unchanged(this)
      ensures outcome.Done? ==> State() == UnlinkState(old(State()), old(first), defaultValue)
    {
      if first == -1 {
        return Fail(Thrown(EmptyListMessage));
      }
      var node := nodes[first];
      Unlink(first, node);
      outcome := Done;
    }

    method RemoveLast() returns (outcome: Outcome)
      requires Bounded(State())
      modifies this
      ensures outcome.Fail? <==> old(last) == -1
      ensures outcome.Fail? ==> outcome == Fail(Thrown(EmptyListMessage)) && unchanged(this)
      ensures outcome.Done? ==> State() == UnlinkState(old(State()), old(last), defaultValue)
    {
      if last == -1 {
        return Fail(Thrown(EmptyListMessage));
      }
      var node := nodes[last];
      Unlink(last, node);
      outcome := Done;
    }
  }

  /** Two `AddLast` calls on a new list: `GetNext(first)` is still -1, so
      walking `next` from `first` stops before the second node. */
  method TwoAddLastsLeaveSecondUnreachable() returns (head: int, headNext: Result<int>, second: int)
    ensures head != second && head != -1 && headNext == Ok(-1)
  {
    var list := new LegacyQuickLinkedList<int>(4, 0);
    var a := list.AddLast(10);
    second := list.AddLast(20);
    head := list.first;
    headNext := list.GetNext(head);
  }

  /** AddFirst, AddFirst, RemoveLast, RemoveFirst, RemoveFirst: the last call
      finds `first` moved onto the slot RemoveLast already freed, frees it a
      second time, and `count` becomes -1. */
  method CountGoesNegative() returns (count: int)
    ensures count == -1
  {
    var list := new LegacyQuickLinkedList<int>(4, 0);
    var a := list.AddFirst(10);
    var b := list.AddFirst(20);
    assert list.State() == ListState([Node(-1, -1, 10), Node(-1, 0, 20)], [], 1, 0);
    var o1 := list.RemoveLast();
    assert list.State() == ListState([Node(-1, -1, 0), Node(-1, 0, 20)], [0], 1, -1);
    var o2 := list.RemoveFirst();
    assert list.State() == ListState([Node(-1, -1, 0), Node(-1, -1, 0)], [0, 1], 0, -1);
    var o3 := list.RemoveFirst();
    count := Count(list.State());
  }
}
