/** `GameObjectPool`: one stack of inactive objects per pool name, a record
    of the pool each spawned object came from, and a schedule of delayed
    despawns kept in time order in the older `QuickLinkedList`.

    Objects are ids handed out by a counter standing for `Instantiate`;
    activation, parenting and `DontDestroyOnLoad` are not modelled, and
    `Time.time` is the `now` parameter. A pool's stack is named by its
    pool's name, which `Awake` makes unique. */
module GameObjectPools {
  import opened Wrappers
  import opened LegacyQuickLinkedLists

  type ObjectId = nat

  /** One entry of the inspector's pool list (the prefab is not modelled). */
  datatype PoolSettings = PoolSettings(name: string, preallocateCount: int)

  /** `DelayDespawnObject`: a due time and the object; `None` is the null
      object of a default (reset) entry. */
  datatype DelayDespawn = DelayDespawn(time: real, target: Option<ObjectId>)

  /** `default(DelayDespawnObject)`, what a freed schedule slot holds. */
  const Unscheduled := DelayDespawn(0.0, None)

  /** The pools' stacks (top last) and the spawned objects' records. */
  datatype Tracking = Tracking(pools: map<string, seq<ObjectId>>, objectToStack: map<ObjectId, string>)

  /** Every record names an existing pool. */
  ghost predicate Recorded(t: Tracking) {
    forall o :: o in t.objectToStack ==> t.objectToStack[o] in t.pools
  }

  /* The pool each object belongs to is given by a map `owner`; the four
     predicates below together say that every object is in exactly one
     place: spawned and recorded under its own pool, or once on that pool's
     stack. */

  /** Each object on a stack belongs to that stack's pool and is not spawned. */
  ghost predicate Stacked(t: Tracking, owner: map<ObjectId, string>) {
    forall n, i :: n in t.pools && 0 <= i < |t.pools[n]| ==>
      t.pools[n][i] in owner && owner[t.pools[n][i]] == n && t.pools[n][i] !in t.objectToStack
  }

  /** No stack holds an object twice. */
  ghost predicate NoRepeats(t: Tracking) {
    forall n, i, j :: n in t.pools && 0 <= i < j < |t.pools[n]| ==> t.pools[n][i] != t.pools[n][j]
  }

  /** Each spawned object is recorded under its own pool, which exists. */
  ghost predicate Registered(t: Tracking, owner: map<ObjectId, string>) {
    forall o :: o in t.objectToStack ==> o in owner && t.objectToStack[o] == owner[o] && owner[o] in t.pools
  }

  /** No object is lost: each is spawned or on its own pool's stack. */
  ghost predicate Kept(t: Tracking, owner: map<ObjectId, string>) {
    forall o :: o in owner ==> owner[o] in t.pools && (o in t.objectToStack || o in t.pools[owner[o]])
  }

  ghost predicate Owned(t: Tracking, owner: map<ObjectId, string>) {
    Stacked(t, owner) && NoRepeats(t) && Registered(t, owner) && Kept(t, owner)
  }

  lemma {:induction false} RegisteredIsRecorded(t: Tracking, owner: map<ObjectId, string>)
    requires Registered(t, owner)
    ensures Recorded(t)
  {
  }

  function Max0(x: int): nat {
    if x > 0 then x else 0
  }

  /** The ids `Instantiate` hands out next. */
  function Fresh(from: nat, count: nat): (r: seq<ObjectId>)
    ensures |r| == count && forall i :: 0 <= i < count ==> r[i] == from + i
  {
    seq(count, i requires 0 <= i < count => from + i)
  }

  /** `Spawn(name)` on an existing pool: pop its stack, instantiating object
      `next` first when the stack is empty, and record the object. */
  function Spawned(t: Tracking, name: string, next: ObjectId): (r: (Tracking, ObjectId))
    requires name in t.pools
    ensures r.0.pools.Keys == t.pools.Keys && r.0.objectToStack.Keys == t.objectToStack.Keys + {r.1}
    ensures r.1 == if |t.pools[name]| == 0 then next else t.pools[name][|t.pools[name]| - 1]
  {
    var stack := if |t.pools[name]| == 0 then [next] else t.pools[name];
    var obj := stack[|stack| - 1];
    (Tracking(t.pools[name := stack[..|stack| - 1]], t.objectToStack[obj := name]), obj)
  }

  /** `Despawn(target)` on a spawned object: pushed back on its own pool's
      stack and its record deleted. */
  function Despawned(t: Tracking, target: ObjectId): (r: Tracking)
    requires Recorded(t) && target in t.objectToStack
    ensures Recorded(r) && r.pools.Keys == t.pools.Keys && r.objectToStack.Keys == t.objectToStack.Keys - {target}
  {
    var n := t.objectToStack[target];
    Tracking(t.pools[n := t.pools[n] + [target]], t.objectToStack - {target})
  }

  /** The object `Spawn` hands out was not spawned already, so recording it
      cannot throw; it is a new object or one of the pool's own. */
  lemma {:induction false} SpawnedIsIdle(t: Tracking, owner: map<ObjectId, string>, name: string, next: ObjectId)
    requires Stacked(t, owner) && Registered(t, owner) && name in t.pools && next !in owner
    ensures Spawned(t, name, next).1 !in t.objectToStack
    ensures Spawned(t, name, next).1 == next || owner[Spawned(t, name, next).1] == name
  {
    if |t.pools[name]| > 0 {
      var top := |t.pools[name]| - 1;
      assert t.pools[name][top] in owner;
    }
  }

  lemma {:induction false} SpawnedKeepsStacked(t: Tracking, owner: map<ObjectId, string>, name: string, next: ObjectId)
    requires Stacked(t, owner) && NoRepeats(t) && Registered(t, owner) && name in t.pools && next !in owner
    ensures Stacked(Spawned(t, name, next).0, owner[Spawned(t, name, next).1 := name])
  {
    var (t1, obj) := Spawned(t, name, next);
    var owner1 := owner[obj := name];
    SpawnedIsIdle(t, owner, name, next);
    forall n, i | n in t1.pools && 0 <= i < |t1.pools[n]|
      ensures t1.pools[n][i] in owner1 && owner1[t1.pools[n][i]] == n && t1.pools[n][i] !in t1.objectToStack
    {
      assert t1.pools[n][i] == t.pools[n][i];
      if n == name {
        assert t.pools[n][i] != t.pools[n][|t.pools[n]| - 1];
      }
    }
  }

  lemma {:induction false} SpawnedKeepsNoRepeats(t: Tracking, name: string, next: ObjectId)
    requires NoRepeats(t) && name in t.pools
    ensures NoRepeats(Spawned(t, name, next).0)
  {
    var t1 := Spawned(t, name, next).0;
    forall n, i, j | n in t1.pools && 0 <= i < j < |t1.pools[n]| ensures t1.pools[n][i] != t1.pools[n][j] {
      assert t1.pools[n][i] == t.pools[n][i] && t1.pools[n][j] == t.pools[n][j];
    }
  }

  lemma {:induction false} SpawnedKeepsKept(t: Tracking, owner: map<ObjectId, string>, name: string, next: ObjectId)
    requires Kept(t, owner) && name in t.pools
    ensures Kept(Spawned(t, name, next).0, owner[Spawned(t, name, next).1 := name])
  {
    var (t1, obj) := Spawned(t, name, next);
    var owner1 := owner[obj := name];
    forall o | o in owner1 && o != obj && o !in t.objectToStack ensures o in t1.pools[owner1[o]] {
      var n := owner[o];
      var p :| 0 <= p < |t.pools[n]| && t.pools[n][p] == o;
      assert t1.pools[n][p] == o;
    }
  }

  /** Spawning keeps every object in exactly one place; an object
      instantiated for an empty stack joins that pool. */
  lemma {:induction false} SpawnedKeepsOwned(t: Tracking, owner: map<ObjectId, string>, name: string, next: ObjectId)
    requires Owned(t, owner) && name in t.pools && next !in owner
    ensures Spawned(t, name, next).1 !in t.objectToStack
    ensures Spawned(t, name, next).1 == next || owner[Spawned(t, name, next).1] == name
    ensures Owned(Spawned(t, name, next).0, owner[Spawned(t, name, next).1 := name])
  {
    SpawnedIsIdle(t, owner, name, next);
    SpawnedKeepsStacked(t, owner, name, next);
    SpawnedKeepsNoRepeats(t, name, next);
    SpawnedKeepsKept(t, owner, name, next);
  }

  lemma {:induction false} DespawnedKeepsStacked(t: Tracking, owner: map<ObjectId, string>, target: ObjectId)
    requires Stacked(t, owner) && Registered(t, owner) && target in t.objectToStack
    ensures Stacked(Despawned(t, target), owner)
  {
    var t1 := Despawned(t, target);
    var n := t.objectToStack[target];
    forall m, i | m in t1.pools && 0 <= i < |t1.pools[m]|
      ensures t1.pools[m][i] in owner && owner[t1.pools[m][i]] == m && t1.pools[m][i] !in t1.objectToStack
    {
      if m == n && i < |t.pools[n]| {
        assert t1.pools[m][i] == t.pools[n][i];
      } else if m != n {
        assert t1.pools[m][i] == t.pools[m][i];
      }
    }
  }

  lemma {:induction false} DespawnedKeepsNoRepeats(t: Tracking, owner: map<ObjectId, string>, target: ObjectId)
    requires Stacked(t, owner) && NoRepeats(t) && Recorded(t) && target in t.objectToStack
    ensures NoRepeats(Despawned(t, target))
  {
    var t1 := Despawned(t, target);
    var n := t.objectToStack[target];
    forall m, i, j | m in t1.pools && 0 <= i < j < |t1.pools[m]| ensures t1.pools[m][i] != t1.pools[m][j] {
      if m == n && j == |t.pools[n]| {
        assert t1.pools[m][i] == t.pools[n][i];
      } else {
        assert t1.pools[m][i] == t.pools[m][i] && t1.pools[m][j] == t.pools[m][j];
      }
    }
  }

  lemma {:induction false} DespawnedKeepsKept(t: Tracking, owner: map<ObjectId, string>, target: ObjectId)
    requires Kept(t, owner) && Registered(t, owner) && target in t.objectToStack
    ensures Kept(Despawned(t, target), owner)
  {
    var t1 := Despawned(t, target);
    var n := t.objectToStack[target];
    forall o | o in owner && o !in t1.objectToStack ensures o in t1.pools[owner[o]] {
      if o == target {
        assert t1.pools[n][|t.pools[n]|] == target;
      } else {
        var p :| 0 <= p < |t.pools[owner[o]]| && t.pools[owner[o]][p] == o;
        assert t1.pools[owner[o]][p] == o;
      }
    }
  }

  /** Despawning keeps every object in exactly one place. */
  lemma {:induction false} DespawnedKeepsOwned(t: Tracking, owner: map<ObjectId, string>, target: ObjectId)
    requires Owned(t, owner) && target in t.objectToStack
    ensures Recorded(t) && Owned(Despawned(t, target), owner)
  {
    DespawnedKeepsStacked(t, owner, target);
    DespawnedKeepsNoRepeats(t, owner, target);
    DespawnedKeepsKept(t, owner, target);
  }

  /** Spawning from a non-empty stack and despawning the object restores
      the pools and the records. */
  lemma {:induction false} SpawnThenDespawnRestores(t: Tracking, name: string, next: ObjectId)
    requires Recorded(t) && name in t.pools && |t.pools[name]| > 0
    requires t.pools[name][|t.pools[name]| - 1] !in t.objectToStack
    ensures Despawned(Spawned(t, name, next).0, Spawned(t, name, next).1) == t
  {
    var (t1, obj) := Spawned(t, name, next);
    assert t1.pools[name] + [obj] == t.pools[name];
    assert t1.objectToStack - {obj} == t.objectToStack;
  }

  /** A pool added with objects that belong to no pool yet. */
  function WithPool(t: Tracking, name: string, stack: seq<ObjectId>): Tracking {
    Tracking(t.pools[name := stack], t.objectToStack)
  }

  /** The objects of a new pool belong to it. */
  function Claim(owner: map<ObjectId, string>, name: string, stack: seq<ObjectId>): map<ObjectId, string> {
    owner + map o | o in stack :: name
  }

  /** Adding a pool whose objects are new and distinct keeps every object
      in exactly one place. */
  lemma {:induction false} WithPoolKeepsOwned(t: Tracking, owner: map<ObjectId, string>, name: string, stack: seq<ObjectId>)
    requires Owned(t, owner) && name !in t.pools
    requires forall o :: o in stack ==> o !in owner
    requires forall i, j :: 0 <= i < j < |stack| ==> stack[i] != stack[j]
    ensures Owned(WithPool(t, name, stack), Claim(owner, name, stack))
  {
    var t1, owner1 := WithPool(t, name, stack), Claim(owner, name, stack);
    forall o | o in owner1 && o !in t1.objectToStack ensures o in t1.pools[owner1[o]] {
      if o !in owner {
        var p :| 0 <= p < |stack| && stack[p] == o;
        assert t1.pools[name][p] == o;
      } else {
        var n := owner[o];
        var p :| 0 <= p < |t.pools[n]| && t.pools[n][p] == o;
        assert t1.pools[n][p] == o;
      }
    }
  }

  /** Schedule entries that still name an object. */
  function Scheduled(nodes: seq<Node<DelayDespawn>>): nat
  {
    if |nodes| == 0 then 0
    else Scheduled(nodes[..|nodes| - 1]) + (if nodes[|nodes| - 1].value.target.Some? then 1 else 0)
  }

  /** Resetting a slot that names an object lowers `Scheduled` by one. */
  lemma {:induction false} ResetLowersScheduled(nodes: seq<Node<DelayDespawn>>, id: int)
    requires 0 <= id < |nodes| && nodes[id].value.target.Some?
    ensures Scheduled(nodes[id := Node(-1, -1, Unscheduled)]) == Scheduled(nodes) - 1
  {
    var nodes1 := nodes[id := Node(-1, -1, Unscheduled)];
    if id == |nodes| - 1 {
      assert nodes1[..|nodes1| - 1] == nodes[..|nodes| - 1];
    } else {
      assert nodes1[..|nodes1| - 1] == nodes[..|nodes| - 1][id := Node(-1, -1, Unscheduled)];
      ResetLowersScheduled(nodes[..|nodes| - 1], id);
    }
  }

  /** The loop of `Update(now)` as written: while the schedule has a first
      entry and it is due, despawn its object if that is still spawned and
      remove the entry with `RemoveFirst`. A reset entry reaching the front
      has a null object, on which `ContainsKey` throws. */
  function Drain(s: ListState<DelayDespawn>, t: Tracking, now: real): (r: (ListState<DelayDespawn>, Tracking, Outcome))
    requires Bounded(s) && Recorded(t)
    ensures Bounded(r.0) && Recorded(r.1) && r.1.pools.Keys == t.pools.Keys
    ensures r.2.Done? ==> r.0.first < 0 || r.0.nodes[r.0.first].value.time > now
    ensures r.1.objectToStack.Keys <= t.objectToStack.Keys
    decreases Scheduled(s.nodes)
  {
    if s.first < 0 then (s, t, Done)
    else
      var item := s.nodes[s.first].value;
      if item.time > now then (s, t, Done)
      else if item.target.None? then (s, t, Fail(ArgumentNull))
      else
        var t1 := if item.target.value in t.objectToStack then Despawned(t, item.target.value) else t;
        ResetLowersScheduled(s.nodes, s.first);
        Drain(UnlinkState(s, s.first, Unscheduled), t1, now)
  }

  /** Where the backward walk of `Despawn(target, delay)` stops. */
  datatype Landing = AfterNode(id: int) | AtFront | Revisits

  lemma {:induction false} BoundedSetSize(s: set<int>, n: nat)
    requires forall v :: v in s ==> 0 <= v < n
    ensures |s| <= n
  {
    if n > 0 {
      BoundedSetSize(s - {n - 1}, n - 1);
      if n - 1 in s {
        assert s == (s - {n - 1}) + {n - 1};
      } else {
        assert s == s - {n - 1};
      }
    } else {
      assert forall v :: v !in s;
      assert s == {};
    }
  }

  /** The walk from `id` along `previous` links to the first entry not later
      than `time`, or off the front. Nothing changes during the walk, so
      coming back to an id already passed means it repeats forever. */
  function Walk(nodes: seq<Node<DelayDespawn>>, id: int, time: real, visited: set<int>): (w: Landing)
    requires forall i :: 0 <= i < |nodes| ==> -1 <= nodes[i].previous < |nodes|
    requires -1 <= id < |nodes| && id !in visited
    requires forall v :: v in visited ==> 0 <= v < |nodes|
    ensures w.AfterNode? ==> 0 <= w.id < |nodes| && nodes[w.id].value.time <= time
    decreases |nodes| - |visited|
  {
    if id < 0 then AtFront
    else if nodes[id].value.time <= time then AfterNode(id)
    else if nodes[id].previous in visited + {id} then Revisits
    else
      BoundedSetSize(visited + {id}, |nodes|);
      Walk(nodes, nodes[id].previous, time, visited + {id})
  }

  /** `Despawn(target, delay)` for `delay > 0` on the schedule: the entry
      goes after the tail-most entry whose time is not later, via
      `AddAfter`, which throws "invalid id" on a slot that looks freed, or at
      the front via `AddFirst`. */
  function Insertion(s: ListState<DelayDespawn>, entry: DelayDespawn): (r: (ListState<DelayDespawn>, Outcome))
    requires Bounded(s)
    ensures Bounded(r.0)
    ensures r.1.Fail? ==> r.0 == s
  {
    match Walk(s.nodes, s.last, entry.time, {})
    case AtFront => (AddFirstState(s, entry), Done)
    case AfterNode(id) =>
      if Usable(s, id) then (AddAfterState(s, id, entry), Done)
      else (s, Fail(Thrown(InvalidIdMessage)))
    case Revisits => (s, Fail(Diverges))
  }

  /** The names of the first `count` settings. */
  ghost function Names(settings: seq<PoolSettings>, count: nat): set<string>
    requires count <= |settings|
  {
    if count == 0 then {} else Names(settings, count - 1) + {settings[count - 1].name}
  }

  /** The objects instantiated for the first `count` settings. */
  function Allocated(settings: seq<PoolSettings>, count: nat): nat
    requires count <= |settings|
  {
    if count == 0 then 0 else Allocated(settings, count - 1) + Max0(settings[count - 1].preallocateCount)
  }

  /** The first `count` settings have distinct names: each is new when added. */
  ghost predicate Unique(settings: seq<PoolSettings>, count: nat)
    requires count <= |settings|
  {
    count == 0 || (Unique(settings, count - 1) && settings[count - 1].name !in Names(settings, count - 1))
  }

  /** No two settings share a name. */
  ghost predicate DistinctNames(settings: seq<PoolSettings>) {
    forall i, j :: 0 <= i < j < |settings| ==> settings[i].name != settings[j].name
  }

  lemma {:induction false} NameListed(settings: seq<PoolSettings>, count: nat, j: nat)
    requires j < count <= |settings|
    ensures settings[j].name in Names(settings, count)
  {
    if j < count - 1 {
      NameListed(settings, count - 1, j);
    }
  }

  lemma {:induction false} UniquePrefix(settings: seq<PoolSettings>, m: nat, n: nat)
    requires m <= n <= |settings| && Unique(settings, n)
    ensures Unique(settings, m)
  {
    if m < n {
      UniquePrefix(settings, m, n - 1);
    }
  }

  /** `Unique` is the pairwise distinctness of the names. */
  lemma {:induction false} UniqueIffDistinct(settings: seq<PoolSettings>, count: nat)
    requires count <= |settings|
    ensures Unique(settings, count) <==> forall i, j :: 0 <= i < j < count ==> settings[i].name != settings[j].name
  {
    if count > 0 {
      UniqueIffDistinct(settings, count - 1);
      var k := count - 1;
      if settings[k].name in Names(settings, k) {
        var i := NameIndex(settings, k, settings[k].name);
        assert settings[i].name == settings[k].name;
      } else {
        forall i | 0 <= i < k ensures settings[i].name != settings[k].name {
          NameListed(settings, k, i);
        }
      }
    }
  }

  /** The position of a listed name. */
  lemma {:induction false} NameIndex(settings: seq<PoolSettings>, count: nat, name: string) returns (i: nat)
    requires count <= |settings| && name in Names(settings, count)
    ensures i < count && settings[i].name == name
  {
    if settings[count - 1].name == name {
      i := count - 1;
    } else {
      i := NameIndex(settings, count - 1, name);
    }
  }

  /** The pools `Awake` builds from the first `count` settings, objects
      numbered from `base` in order. */
  ghost function Layout(settings: seq<PoolSettings>, base: nat, count: nat): map<string, seq<ObjectId>>
    requires count <= |settings|
  {
    if count == 0 then map[]
    else
      var k := count - 1;
      Layout(settings, base, k)[settings[k].name := Fresh(base + Allocated(settings, k), Max0(settings[k].preallocateCount))]
  }

  /** `Layout` has a pool for exactly the settings' names. */
  lemma {:induction false} LayoutKeys(settings: seq<PoolSettings>, base: nat, count: nat)
    requires count <= |settings|
    ensures Layout(settings, base, count).Keys == Names(settings, count)
  {
    if count > 0 {
      LayoutKeys(settings, base, count - 1);
    }
  }

  /** With distinct names, the pool of setting `j` holds its own
      `preallocateCount` objects (none for a negative count), numbered
      after those of the settings before it. */
  lemma {:induction false} LayoutPool(settings: seq<PoolSettings>, base: nat, count: nat, j: nat)
    requires j < count <= |settings| && Unique(settings, count)
    ensures settings[j].name in Layout(settings, base, count)
    ensures Layout(settings, base, count)[settings[j].name] == Fresh(base + Allocated(settings, j), Max0(settings[j].preallocateCount))
  {
    if j < count - 1 {
      LayoutPool(settings, base, count - 1, j);
      NameListed(settings, count - 1, j);
    }
  }

  /** The records of the objects in `keys` only. */
  function Restrict(records: map<ObjectId, string>, keys: set<ObjectId>): (r: map<ObjectId, string>)
    ensures r.Keys == records.Keys * keys && forall o :: o in r ==> r[o] == records[o]
  {
    map o | o in records && o in keys :: records[o]
  }

  /** Part way through `DespawnAll`: the objects of the records outside
      `keys` are pushed, each on its own stack, after what `pools0` held. */
  ghost predicate Pushing(pools0: map<string, seq<ObjectId>>, pools: map<string, seq<ObjectId>>,
                          records: map<ObjectId, string>, keys: set<ObjectId>, owner: map<ObjectId, string>) {
    Owned(Tracking(pools, Restrict(records, keys)), owner) && Extends(pools0, pools, records)
  }

  /** `pools` holds the stacks of `pools0` with only recorded objects pushed. */
  ghost predicate Extends(pools0: map<string, seq<ObjectId>>, pools: map<string, seq<ObjectId>>, records: map<ObjectId, string>) {
    && pools.Keys == pools0.Keys
    && (forall n :: n in pools ==> pools0[n] <= pools[n])
    && (forall n, i :: n in pools && |pools0[n]| <= i < |pools[n]| ==> pools[n][i] in records)
  }

  lemma {:induction false} PushKeepsExtends(pools0: map<string, seq<ObjectId>>, pools: map<string, seq<ObjectId>>,
                         records: map<ObjectId, string>, n: string, o: ObjectId)
    requires Extends(pools0, pools, records) && n in pools && o in records
    ensures Extends(pools0, pools[n := pools[n] + [o]], records)
  {
  }

  /** Pushing one more record's object keeps `Pushing`. */
  lemma {:induction false} PushKeepsPushing(pools0: map<string, seq<ObjectId>>, pools: map<string, seq<ObjectId>>,
                         records: map<ObjectId, string>, keys: set<ObjectId>, owner: map<ObjectId, string>, o: ObjectId)
    requires Pushing(pools0, pools, records, keys, owner) && keys <= records.Keys && o in keys
    ensures records[o] in pools
    ensures Pushing(pools0, pools[records[o] := pools[records[o]] + [o]], records, keys - {o}, owner)
  {
    PushKeepsOwned(pools, records, keys, owner, o);
    PushKeepsExtends(pools0, pools, records, records[o], o);
  }

  /** The step of `PushKeepsPushing` on the records still to push: one
      despawn. */
  lemma {:induction false} PushKeepsOwned(pools: map<string, seq<ObjectId>>, records: map<ObjectId, string>,
                       keys: set<ObjectId>, owner: map<ObjectId, string>, o: ObjectId)
    requires Owned(Tracking(pools, Restrict(records, keys)), owner) && o in keys && o in records
    ensures records[o] in pools
    ensures Owned(Tracking(pools[records[o] := pools[records[o]] + [o]], Restrict(records, keys - {o})), owner)
  {
    var t := Tracking(pools, Restrict(records, keys));
    DespawnedKeepsOwned(t, owner, o);
    assert Restrict(records, keys - {o}) == t.objectToStack - {o};
    assert Tracking(pools[records[o] := pools[records[o]] + [o]], Restrict(records, keys - {o})) == Despawned(t, o);
  }

  /** Once every object is pushed, each record's object is on its stack. */
  lemma {:induction false} PushedAll(pools: map<string, seq<ObjectId>>, records: map<ObjectId, string>, owner: map<ObjectId, string>)
    requires Kept(Tracking(pools, map[]), owner) && Registered(Tracking(pools, records), owner)
    ensures forall o :: o in records ==> records[o] in pools && o in pools[records[o]]
  {
  }

  class GameObjectPool {
    var pools: map<string, seq<ObjectId>>
    var objectToStack: map<ObjectId, string>
    /** The next id `Instantiate` hands out. */
    var nextObject: nat
    /** `enabled`: whether Unity keeps calling `Update`. */
    var enabled: bool
    const schedule: LegacyQuickLinkedList<DelayDespawn>
    /** The pool each instantiated object belongs to. */
    ghost var owner: map<ObjectId, string>

    function Tracked(): Tracking
      reads this`pools, this`objectToStack
    {
      Tracking(pools, objectToStack)
    }

    /** Every object instantiated so far is in exactly one place. */
    ghost predicate Sound()
      reads this`pools, this`objectToStack, this`owner, this`nextObject
    {
      Owned(Tracked(), owner) && forall o :: o in owner ==> o < nextObject
    }

    /** The schedule is a list whose links stay inside its node array. */
    ghost predicate Queued()
      reads schedule
    {
      Bounded(schedule.State()) && schedule.defaultValue == Unscheduled
    }

    ghost predicate Valid()
      reads this, schedule
    {
      Sound() && Queued()
    }

    constructor ()
      ensures Valid() && fresh(schedule)
      ensures pools == map[] && objectToStack == map[] && owner == map[] && nextObject == 0
      ensures schedule.State() == ListState([], [], -1, -1)
    {
      pools := map[];
      objectToStack := map[];
      nextObject := 0;
      enabled := true;
      owner := map[];
      schedule := new LegacyQuickLinkedList(16, Unscheduled);
    }

    /** `AddObjects(pool, quantity)`: instantiate `quantity` objects onto `stack`. */
    method AddObjects(stack: seq<ObjectId>, quantity: int) returns (filled: seq<ObjectId>)
      modifies this`nextObject
      ensures filled == stack + Fresh(old(nextObject), Max0(quantity))
      ensures nextObject == old(nextObject) + Max0(quantity)
    {
      filled := stack;
      var q := quantity;
      while q > 0
        invariant filled == stack + Fresh(old(nextObject), Max0(quantity) - Max0(q))
        invariant nextObject == old(nextObject) + Max0(quantity) - Max0(q)
      {
        filled := filled + [nextObject];
        nextObject := nextObject + 1;
        q := q - 1;
      }
    }

    /** `Awake`: one pool per setting with `preallocateCount` objects; a
        repeated name throws from `Dictionary.Add` once its objects exist. */
    method Awake(settings: seq<PoolSettings>) returns (outcome: Outcome)
      requires Valid() && pools == map[] && objectToStack == map[] && owner == map[]
      modifies this`pools, this`owner, this`nextObject
      ensures Valid() && objectToStack == map[]
      ensures outcome.Done? <==> DistinctNames(settings)
      ensures outcome.Fail? ==> outcome == Fail(DuplicateKey)
      ensures outcome.Done? ==>
        && pools == Layout(settings, old(nextObject), |settings|)
        && nextObject == old(nextObject) + Allocated(settings, |settings|)
      ensures outcome.Fail? ==>
        exists i :: && 0 <= i < |settings|
                    && Unique(settings, i) && !Unique(settings, i + 1)
                    && pools == Layout(settings, old(nextObject), i)
                    && nextObject == old(nextObject) + Allocated(settings, i + 1)
    {
      outcome := PreallocateAll(settings);
    }

    /** The loop of `Awake`, over the pools alone. */
    method PreallocateAll(settings: seq<PoolSettings>) returns (outcome: Outcome)
      requires Sound() && pools == map[]
      modifies this`pools, this`owner, this`nextObject
      ensures Sound()
      ensures outcome.Done? <==> DistinctNames(settings)
      ensures outcome.Fail? ==> outcome == Fail(DuplicateKey)
      ensures outcome.Done? ==>
        && pools == Layout(settings, old(nextObject), |settings|)
        && nextObject == old(nextObject) + Allocated(settings, |settings|)
      ensures outcome.Fail? ==>
        exists i :: && 0 <= i < |settings|
                    && Unique(settings, i) && !Unique(settings, i + 1)
                    && pools == Layout(settings, old(nextObject), i)
                    && nextObject == old(nextObject) + Allocated(settings, i + 1)
    {
      UniqueIffDistinct(settings, |settings|);
      var i := 0;
      while i < |settings|
        invariant 0 <= i <= |settings|
        invariant Sound()
        invariant Unique(settings, i)
        invariant pools == Layout(settings, old(nextObject), i)
        invariant nextObject == old(nextObject) + Allocated(settings, i)
      {
        LayoutKeys(settings, old(nextObject), i);
        outcome := Preallocate(settings[i]);
        if outcome.Fail? {
          assert !Unique(settings, i + 1);
          assert pools == Layout(settings, old(nextObject), i);
          if Unique(settings, |settings|) {
            UniquePrefix(settings, i + 1, |settings|);
          }
          return;
        }
        i := i + 1;
      }
      outcome := Done;
    }

    /** One setting of `Awake`: its objects are instantiated first, then the
        pool is added, which throws for a name already taken. */
    method Preallocate(s: PoolSettings) returns (outcome: Outcome)
      requires Sound()
      modifies this`pools, this`owner, this`nextObject
      ensures Sound() && nextObject == old(nextObject) + Max0(s.preallocateCount)
      ensures outcome.Done? <==> s.name !in old(pools)
      ensures outcome.Fail? ==> outcome == Fail(DuplicateKey) && pools == old(pools)
      ensures outcome.Done? ==> pools == old(pools)[s.name := Fresh(old(nextObject), Max0(s.preallocateCount))]
    {
      var stack := AddObjects([], s.preallocateCount);
      if s.name in pools {
        return Fail(DuplicateKey);
      }
      assert stack == Fresh(old(nextObject), Max0(s.preallocateCount));
      AddPool(s.name, stack);
      outcome := Done;
    }

    /** `_pools.Add(name, pool)` for a stack of objects just instantiated. */
    method AddPool(name: string, stack: seq<ObjectId>)
      requires Sound() && name !in pools
      requires forall o :: o in stack ==> o !in owner && o < nextObject
      requires forall i, j :: 0 <= i < j < |stack| ==> stack[i] != stack[j]
      modifies this`pools, this`owner
      ensures Sound() && pools == old(pools)[name := stack] && owner == Claim(old(owner), name, stack)
    {
      WithPoolKeepsOwned(Tracked(), owner, name, stack);
      pools, owner := pools[name := stack], Claim(owner, name, stack);
    }

    /** `Spawn(name)`; an unknown name throws from the dictionary lookup. */
    method Spawn(name: string) returns (r: Result<ObjectId>)
      requires Valid()
      modifies this`pools, this`objectToStack, this`owner, this`nextObject
      ensures Valid()
      ensures r.Ok? <==> name in old(pools)
      ensures r.Err? ==> r == Err(KeyNotFound) && unchanged(this)
      ensures r.Ok? ==>
        && (Tracked(), r.value) == Spawned(old(Tracked()), name, old(nextObject))
        && r.value !in old(objectToStack)
        && nextObject == old(nextObject) + (if old(|pools[name]|) == 0 then 1 else 0)
    {
      if name !in pools {
        return Err(KeyNotFound);
      }
      var obj := Pop(name);
      r := Ok(obj);
    }

    /** The lookup's success path of `Spawn(name)`: pop the pool's stack,
        instantiating one object first when it is empty, and record it. */
    method Pop(name: string) returns (obj: ObjectId)
      requires Sound() && name in pools
      modifies this`pools, this`objectToStack, this`owner, this`nextObject
      ensures Sound()
      ensures (Tracked(), obj) == Spawned(old(Tracked()), name, old(nextObject))
      ensures obj !in old(objectToStack)
      ensures nextObject == old(nextObject) + (if old(|pools[name]|) == 0 then 1 else 0)
    {
      var stack := pools[name];
      if |stack| == 0 {
        stack := AddObjects(stack, 1);
      }
      obj := stack[|stack| - 1];
      SpawnedKeepsOwned(old(Tracked()), owner, name, old(nextObject));
      pools, objectToStack, owner := pools[name := stack[..|stack| - 1]], objectToStack[obj := name], owner[obj := name];
      assert (Tracked(), obj) == Spawned(old(Tracked()), name, old(nextObject));
    }

    /** `Despawn(target)`; an object that is not spawned throws from the lookup. */
    method Despawn(target: ObjectId) returns (outcome: Outcome)
      requires Sound()
      modifies this`pools, this`objectToStack
      ensures Sound()
      ensures outcome.Done? <==> target in old(objectToStack)
      ensures outcome.Fail? ==> outcome == Fail(KeyNotFound) && Tracked() == old(Tracked())
      ensures outcome.Done? ==> Tracked() == Despawned(old(Tracked()), target)
    {
      if target !in objectToStack {
        return Fail(KeyNotFound);
      }
      DespawnedKeepsOwned(Tracked(), owner, target);
      var n := objectToStack[target];
      pools, objectToStack := pools[n := pools[n] + [target]], objectToStack - {target};
      assert Tracked() == Despawned(old(Tracked()), target);
      outcome := Done;
    }

    /** `Despawn(target, delay)` at time `now`: immediate for `delay <= 0`,
        otherwise an entry due at `delay + now` is scheduled. */
    method DespawnDelayed(target: ObjectId, delay: real, now: real) returns (outcome: Outcome)
      requires Valid()
      modifies this`pools, this`objectToStack, this`enabled, schedule
      ensures Valid()
      ensures delay <= 0.0 ==>
        && schedule.State() == old(schedule.State()) && enabled == old(enabled)
        && (outcome.Done? <==> target in old(objectToStack))
        && (outcome.Fail? ==> outcome == Fail(KeyNotFound) && Tracked() == old(Tracked()))
        && (outcome.Done? ==> Tracked() == Despawned(old(Tracked()), target))
      ensures delay > 0.0 ==>
        && Tracked() == old(Tracked())
        && (schedule.State(), outcome) == Insertion(old(schedule.State()), DelayDespawn(delay + now, Some(target)))
        && enabled == (outcome.Done? || old(enabled))
    {
      if delay > 0.0 {
        outcome := Enqueue(DelayDespawn(delay + now, Some(target)));
      } else {
        outcome := Despawn(target);
      }
    }

    /** The delayed branch of `Despawn(target, delay)`: `entry` goes into the
        schedule by a backward walk from its last entry. The walk's `visited`
        set records the ids passed so that a walk that would circle forever
        stops with `Diverges`. */
    method Enqueue(entry: DelayDespawn) returns (outcome: Outcome)
      requires Queued()
      modifies this`enabled, schedule
      ensures Queued()
      ensures (schedule.State(), outcome) == Insertion(old(schedule.State()), entry)
      ensures enabled == (outcome.Done? || old(enabled))
    {
      var id := schedule.last;
      var visited: set<int> := {};
      while id >= 0
        invariant Queued() && schedule.State() == old(schedule.State()) && enabled == old(enabled)
        invariant -1 <= id < |schedule.nodes| && id !in visited
        invariant forall v :: v in visited ==> 0 <= v < |schedule.nodes|
        invariant Walk(schedule.nodes, id, entry.time, visited) == Walk(schedule.nodes, schedule.last, entry.time, {})
        decreases |schedule.nodes| - |visited|
      {
        var node := schedule.nodes[id];
        if node.value.time <= entry.time {
          var r := schedule.AddAfter(id, entry);
          if r.Err? {
            return Fail(r.error);
          }
          enabled := true;
          return Done;
        }
        if node.previous in visited + {id} {
          return Fail(Diverges);
        }
        BoundedSetSize(visited + {id}, |schedule.nodes|);
        visited := visited + {id};
        id := node.previous;
      }
      var _ := schedule.AddFirst(entry);
      enabled := true;
      outcome := Done;
    }

    /** `Update` at time `now`: drain the due entries from the front of the
        schedule, and switch itself off once the schedule has no first entry. */
    method Update(now: real) returns (outcome: Outcome)
      requires Valid()
      modifies this`pools, this`objectToStack, this`enabled, schedule
      ensures Valid()
      ensures (schedule.State(), Tracked(), outcome) == Drain(old(schedule.State()), old(Tracked()), now)
      ensures enabled == if outcome.Done? && schedule.first < 0 then false else old(enabled)
    {
      while schedule.first >= 0
        invariant Valid() && enabled == old(enabled)
        invariant Drain(schedule.State(), Tracked(), now) == Drain(old(schedule.State()), old(Tracked()), now)
        decreases Scheduled(schedule.nodes)
      {
        var item := schedule.Get(schedule.first);
        var entry := item.value;
        if entry.time > now {
          return Done;
        }
        if entry.target.None? {
          return Fail(ArgumentNull);
        }
        DrainFront(now);
      }
      enabled := false;
      outcome := Done;
    }

    /** One turn of `Update`'s loop on a due entry that names an object:
        that object despawned if it is still spawned, then the entry
        removed, which is one unfolding of `Drain`. */
    method DrainFront(now: real)
      requires Valid() && schedule.first >= 0
      requires schedule.nodes[schedule.first].value.time <= now
      requires schedule.nodes[schedule.first].value.target.Some?
      modifies this`pools, this`objectToStack, schedule
      ensures Valid()
      ensures Drain(schedule.State(), Tracked(), now) == Drain(old(schedule.State()), old(Tracked()), now)
      ensures Scheduled(schedule.nodes) < old(Scheduled(schedule.nodes))
    {
      var target := schedule.nodes[schedule.first].value.target.value;
      if target in objectToStack {
        var _ := Despawn(target);
      }
      ResetLowersScheduled(schedule.nodes, schedule.first);
      var _ := schedule.RemoveFirst();
    }

    /** `DespawnAll`: every spawned object back on its own stack, in the
        dictionary's order, then the records and the schedule cleared. */
    method DespawnAll()
      requires Valid()
      modifies this`pools, this`objectToStack, schedule
      ensures Valid() && objectToStack == map[] && schedule.State() == ListState([], [], -1, -1)
      ensures pools.Keys == old(pools).Keys
      ensures forall n :: n in pools ==> old(pools)[n] <= pools[n]
      ensures forall o :: o in old(objectToStack) ==> o in pools[old(objectToStack)[o]]
      ensures forall n, i :: n in pools && |old(pools)[n]| <= i < |pools[n]| ==> pools[n][i] in old(objectToStack)
    {
      assert Registered(Tracked(), owner);
      PushAll();
      assert Restrict(objectToStack, {}) == map[];
      PushedAll(pools, objectToStack, owner);
      objectToStack := map[];
      schedule.Clear();
    }

    /** The loop of `DespawnAll`: each record's object pushed on its stack. */
    method PushAll()
      requires Sound()
      modifies this`pools
      ensures Pushing(old(pools), pools, objectToStack, {}, owner)
    {
      var records, keys := objectToStack, objectToStack.Keys;
      ghost var pools0, owners := pools, owner;
      assert Restrict(records, keys) == records;
      while keys != {}
        invariant keys <= records.Keys
        invariant Pushing(pools0, pools, records, keys, owners)
        decreases keys
      {
        var o :| o in keys;
        var n := records[o];
        PushKeepsPushing(pools0, pools, records, keys, owners, o);
        pools := pools[n := pools[n] + [o]];
        keys := keys - {o};
      }
    }
  }
}

/** Scenarios of `GameObjectPool` as written, stated on the functions that
    `Spawn`, `Despawn(target, delay)` and `Update` are proved to follow. */
module GameObjectPoolScenarios {
  import opened Wrappers
  import opened LegacyQuickLinkedLists
  import opened GameObjectPools

  /** One pool "p" holding objects 0 and 1, as `Awake` leaves it, and the
      states the scenarios below pass through. */
  const Awoken := Tracking(map["p" := [0, 1]], map[])
  const BothSpawned := Tracking(map["p" := []], map[1 := "p", 0 := "p"])
  const FirstReturned := Tracking(map["p" := [1]], map[0 := "p"])
  const NoSchedule: ListState<DelayDespawn> := ListState([], [], -1, -1)
  const OneScheduled := ListState([Node(-1, -1, DelayDespawn(1.0, Some(1)))], [], 0, 0)
  const TwoScheduled := ListState([Node(-1, -1, DelayDespawn(1.0, Some(1))), Node(0, -1, DelayDespawn(2.0, Some(0)))], [], 0, 1)
  const Stale := ListState([Node(-1, -1, Unscheduled), Node(0, -1, DelayDespawn(2.0, Some(0)))], [0], -1, 1)
  const Circular := ListState([Node(1, -1, DelayDespawn(3.0, Some(1))), Node(0, -1, DelayDespawn(2.0, Some(0)))], [], -1, 0)

  /** Spawning twice from "p" gives object 1, then object 0. */
  lemma {:induction false} SpawnTwice()
    ensures Spawned(Awoken, "p", 2) == (Tracking(map["p" := [0]], map[1 := "p"]), 1)
    ensures Spawned(Spawned(Awoken, "p", 2).0, "p", 2) == (BothSpawned, 0)
  {
    var t1 := Tracking(map["p" := [0]], map[1 := "p"]);
    assert Awoken.pools["p"][1] == 1 && Awoken.pools["p"][..1] == [0];
    assert Awoken.pools["p" := [0]] == t1.pools;
    assert t1.pools["p"][0] == 0 && t1.pools["p"][..0] == [];
    assert t1.pools["p" := []] == BothSpawned.pools;
    assert t1.objectToStack[0 := "p"] == BothSpawned.objectToStack;
    assert Spawned(t1, "p", 2) == (BothSpawned, 0);
  }

  /** Object 1 despawned at time 0 with delay 1 goes first, into slot 0. */
  lemma {:induction false} ScheduleFirst()
    ensures Insertion(NoSchedule, DelayDespawn(1.0, Some(1))) == (OneScheduled, Done)
  {
    var e1 := DelayDespawn(1.0, Some(1));
    assert Walk(NoSchedule.nodes, -1, 1.0, {}) == AtFront;
    assert Store(NoSchedule, Node(-1, -1, e1)).nodes == [] + [Node(-1, -1, e1)];
    assert AddFirstState(NoSchedule, e1) == OneScheduled;
  }

  /** Object 0 despawned at time 0 with delay 2 goes after it, into slot 1,
      and entry 0 keeps `next == -1`. */
  lemma {:induction false} ScheduleSecond()
    ensures Insertion(OneScheduled, DelayDespawn(2.0, Some(0))) == (TwoScheduled, Done)
    ensures TwoScheduled.nodes[0].next == -1
  {
    var e2 := DelayDespawn(2.0, Some(0));
    assert Walk(OneScheduled.nodes, 0, 2.0, {}) == AfterNode(0);
    assert Usable(OneScheduled, 0) && Slot(OneScheduled) == 1;
    assert Store(OneScheduled, Node(0, -1, e2)).nodes == OneScheduled.nodes + [Node(0, -1, e2)];
    assert AddAfterState(OneScheduled, 0, e2) == TwoScheduled;
  }

  /** `Update` at 1.5 despawns object 1 and removes its entry, which leaves
      no first entry; object 0 stays spawned. */
  lemma {:induction false} UpdateLosesSecond()
    ensures Drain(TwoScheduled, BothSpawned, 1.5) == (Stale, FirstReturned, Done)
  {
    assert BothSpawned.pools["p"] + [1] == [1];
    assert BothSpawned.objectToStack - {1} == map[0 := "p"];
    assert Despawned(BothSpawned, 1) == FirstReturned;
    assert UnlinkState(TwoScheduled, 0, Unscheduled) == Stale;
  }

  /** From then on `Update` stops at once, whatever the time: the entry for
      object 0 is never reached, so that object is never despawned. */
  lemma {:induction false} DelayedDespawnIsLost(now: real)
    ensures Stale.first == -1 && 0 in FirstReturned.objectToStack
    ensures Drain(Stale, FirstReturned, now) == (Stale, FirstReturned, Done)
  {
  }

  /** Continuing: object 1 spawned again and despawned at 1.5 with delay
      1.5 goes after the stale entry 1 into the freed slot 0, so entry 0's
      `previous` is 1 and entry 1's is 0. Then object 2, instantiated for
      the empty stack, despawned at 1.5 with delay 0.1: its walk from the
      last entry goes 0, 1, 0, ... and never ends. */
  lemma {:induction false} DelayedDespawnWalksInCircles()
    ensures Spawned(FirstReturned, "p", 2) == (BothSpawned, 1)
    ensures Insertion(Stale, DelayDespawn(1.5 + 1.5, Some(1))) == (Circular, Done)
    ensures Spawned(BothSpawned, "p", 2) == (Tracking(map["p" := []], map[0 := "p", 1 := "p", 2 := "p"]), 2)
    ensures Circular.nodes[0].previous == 1 && Circular.nodes[1].previous == 0
    ensures Insertion(Circular, DelayDespawn(0.1 + 1.5, Some(2))) == (Circular, Fail(Diverges))
  {
    assert FirstReturned.pools["p"][..0] == [];
    assert FirstReturned.pools["p"][0] == 1;
    assert FirstReturned.pools["p" := []] == BothSpawned.pools;
    assert FirstReturned.objectToStack[1 := "p"] == BothSpawned.objectToStack;
    assert [2][..0] == [];
    assert BothSpawned.pools["p" := []] == BothSpawned.pools;
    assert BothSpawned.objectToStack[2 := "p"] == map[0 := "p", 1 := "p", 2 := "p"];
    assert Walk(Stale.nodes, 1, 3.0, {}) == AfterNode(1);
    assert Usable(Stale, 1) && Slot(Stale) == 0;
    assert AddAfterState(Stale, 1, DelayDespawn(3.0, Some(1))) == Circular;
    assert Walk(Circular.nodes, 1, 1.6, {0}) == Revisits;
    assert Walk(Circular.nodes, 0, 1.6, {}) == Revisits;
  }
}
