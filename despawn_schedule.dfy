/** The delayed-despawn schedule of `GameObjectPool` on a list whose removal
    and insertion keep the links consistent (`QuickLinkedLists`), with the
    same backward walk and the same front-draining loop. On this list the
    schedule stays sorted by time, every inserted entry is handed out by a
    later drain once due, and the walk always ends. */
module DespawnSchedules {
  import opened Wrappers
  import opened QuickLinkedLists
  import Pools = GameObjectPools

  type Entry = Pools.DelayDespawn

  ghost predicate Sorted(s: seq<Entry>) {
    forall i, j :: 0 <= i < j < |s| ==> s[i].time <= s[j].time
  }

  /** Where the walk from the back stops: just after the last entry not
      later than `time`, or at the front. */
  function InsertionPoint(s: seq<Entry>, time: real): (k: nat)
    ensures k <= |s|
    ensures forall i :: k <= i < |s| ==> s[i].time > time
    ensures 0 < k ==> s[k - 1].time <= time
  {
    if |s| == 0 then 0
    else if s[|s| - 1].time <= time then |s|
    else InsertionPoint(s[..|s| - 1], time)
  }

  /** Inserting at the walk's stopping point keeps a sorted schedule sorted,
      after every entry due at the same time. */
  lemma {:induction false} InsertKeepsSorted(s: seq<Entry>, e: Entry)
    requires Sorted(s)
    ensures Sorted(InsertAt(s, InsertionPoint(s, e.time), e))
  {
    var k := InsertionPoint(s, e.time);
    var r := InsertAt(s, k, e);
    forall i, j | 0 <= i < j < |r| ensures r[i].time <= r[j].time {
      if i < k && j == k {
        assert s[i].time <= s[k - 1].time;
      } else if i == k && j > k {
        assert r[j] == s[j - 1];
      }
    }
  }

  /** The walk stops at `k` when every entry from `k` on is later than
      `time` and the one before it, if any, is not. */
  lemma {:induction false} InsertionPointAt(s: seq<Entry>, time: real, k: nat)
    requires k <= |s| && (forall i :: k <= i < |s| ==> s[i].time > time)
    requires 0 < k ==> s[k - 1].time <= time
    ensures InsertionPoint(s, time) == k
  {
    if k < |s| {
      InsertionPointAt(s[..|s| - 1], time, k);
    }
  }

  /** The walk reads the node at position `k`: its value, its `previous` link, its position. */
  lemma {:induction false} NodeAt(list: QuickLinkedList<Entry>, k: nat)
    requires list.Valid() && k < |list.Ids|
    ensures 0 <= list.Ids[k] < |list.nodes|
    ensures list.nodes[list.Ids[k]].value == list.Values()[k]
    ensures list.nodes[list.Ids[k]].previous == IdAt(list.Ids, k - 1)
    ensures IndexOf(list.Ids, list.Ids[k]) == k
  {
    LinkOf(list.nodes, list.Ids, k);
    PositionOf(list.Ids, k);
  }

  /** A sorted schedule whose first entry is later than `now` has no entry due. */
  lemma {:induction false} NothingDueAfterFront(s: seq<Entry>, now: real)
    requires Sorted(s) && |s| > 0 && s[0].time > now
    ensures forall i :: 0 <= i < |s| ==> s[i].time > now
  {
  }

  class Schedule {
    const list: QuickLinkedList<Entry>

    ghost predicate Valid()
      reads this, list
    {
      list.Valid() && Sorted(list.Values())
    }

    constructor ()
      ensures Valid() && fresh(list) && list.Values() == []
    {
      list := new QuickLinkedList(16, Pools.Unscheduled);
    }

    /** The insertion of `Despawn(target, delay)`: walk back from the last
        entry to the first one not later than the new entry and add after
        it, or add at the front. */
    method Insert(entry: Entry)
      requires Valid()
      modifies list
      ensures Valid()
      ensures list.Values() == InsertAt(old(list.Values()), InsertionPoint(old(list.Values()), entry.time), entry)
    {
      ghost var s := list.Values();
      ghost var k := |list.Ids|;
      var id := list.last;
      while id >= 0
        invariant list.Valid() && list.Values() == s && 0 <= k <= |list.Ids|
        invariant id == IdAt(list.Ids, k - 1)
        invariant forall i :: k <= i < |s| ==> s[i].time > entry.time
        decreases k
      {
        NodeAt(list, k - 1);
        var node := list.nodes[id];
        if node.value.time <= entry.time {
          InsertAfter(id, k, entry);
          return;
        }
        id := node.previous;
        k := k - 1;
      }
      InsertFirst(entry);
    }

    /** The walk stopped at the node `id`, at position `k - 1`: add after it. */
    method InsertAfter(id: int, ghost k: nat, entry: Entry)
      requires Valid() && 0 < k <= |list.Ids| && id == list.Ids[k - 1]
      requires list.Values()[k - 1].time <= entry.time
      requires forall i :: k <= i < |list.Values()| ==> list.Values()[i].time > entry.time
      modifies list
      ensures Valid()
      ensures list.Values() == InsertAt(old(list.Values()), InsertionPoint(old(list.Values()), entry.time), entry)
    {
      ghost var s := list.Values();
      PositionOf(list.Ids, k - 1);
      var r := list.AddAfter(id, entry);
      InsertionPointAt(s, entry.time, k);
      InsertKeepsSorted(s, entry);
    }

    /** The walk passed every entry: add at the front. */
    method InsertFirst(entry: Entry)
      requires Valid()
      requires forall i :: 0 <= i < |list.Values()| ==> list.Values()[i].time > entry.time
      modifies list
      ensures Valid()
      ensures list.Values() == InsertAt(old(list.Values()), InsertionPoint(old(list.Values()), entry.time), entry)
    {
      ghost var s := list.Values();
      var _ := list.AddFirst(entry);
      InsertionPointAt(s, entry.time, 0);
      assert InsertAt(s, 0, entry) == [entry] + s;
      InsertKeepsSorted(s, entry);
    }

    /** The entry `Update` reads at the front of a non-empty schedule. */
    method Front() returns (e: Entry)
      requires Valid() && list.first >= 0
      ensures |list.Values()| > 0 && e == list.Values()[0]
    {
      var item := list.Get(list.first);
      assert list.Values()[0] == item.value;
      e := item.value;
    }

    /** Drops the front entry of a non-empty schedule; the rest stays sorted. */
    method DropFront()
      requires Valid() && list.first >= 0
      modifies list
      ensures Valid() && list.Values() == old(list.Values())[1..]
      ensures old(list.Values()) == [old(list.Values())[0]] + list.Values()
      ensures |list.Ids| < old(|list.Ids|)
    {
      var _ := list.RemoveFirst();
    }

    /** The loop of `Update` at time `now`: take entries from the front
        while they are due. */
    method TakeDue(now: real) returns (due: seq<Entry>)
      requires Valid()
      modifies list
      ensures Valid()
      ensures old(list.Values()) == due + list.Values()
      ensures forall i :: 0 <= i < |due| ==> due[i].time <= now
      ensures forall i :: 0 <= i < |list.Values()| ==> list.Values()[i].time > now
    {
      due := [];
      while list.first >= 0
        invariant Valid() && old(list.Values()) == due + list.Values()
        invariant forall i :: 0 <= i < |due| ==> due[i].time <= now
        decreases |list.Ids|
      {
        var e := Front();
        if e.time > now {
          NothingDueAfterFront(list.Values(), now);
          return;
        }
        DropFront();
        assert due + [e] + list.Values() == due + ([e] + list.Values());
        due := due + [e];
      }
    }
  }
}
