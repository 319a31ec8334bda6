/** The Transform extensions: depth-limited root-first and leaf-first walks of a
    Transform hierarchy, a depth-limited root-first search, and the component
    pairs of a Vector3. A hierarchy is a tree value whose children are in
    sibling order; a walk yields the nodes it hands to `operate`, in order. */
module Hierarchy {
  import opened Wrappers
  import opened Vectors
  import opened Search

  datatype Transform<T> = Transform(name: T, children: seq<Transform<T>>)

  /** The number of nodes of a hierarchy. */
  function Size<T>(t: Transform<T>): (n: nat)
    ensures n >= 1
    decreases t, 1
  {
    1 + SizeAll(t.children)
  }

  function SizeAll<T>(ts: seq<Transform<T>>): nat
    decreases ts, 0
  {
    if ts == [] then 0 else Size(ts[0]) + SizeAll(ts[1..])
  }

  /** The nodes a root-first walk visits: the root, then, unless the limit is
      0, each child's walk with the limit one less. A negative limit never
      reaches 0, so it walks the whole hierarchy. */
  function PreOrder<T>(t: Transform<T>, depthLimit: int): (r: seq<Transform<T>>)
    ensures |r| >= 1 && r[0] == t
    decreases t, 1
  {
    [t] + (if depthLimit == 0 then [] else PreOrderAll(t.children, depthLimit - 1))
  }

  function PreOrderAll<T>(ts: seq<Transform<T>>, depthLimit: int): seq<Transform<T>>
    decreases ts, 0
  {
    if ts == [] then [] else PreOrder(ts[0], depthLimit) + PreOrderAll(ts[1..], depthLimit)
  }

  /** The nodes a leaf-first walk visits: the children's walks, then the root. */
  function PostOrder<T>(t: Transform<T>, depthLimit: int): (r: seq<Transform<T>>)
    ensures |r| >= 1 && r[|r| - 1] == t
    decreases t, 1
  {
    (if depthLimit == 0 then [] else PostOrderAll(t.children, depthLimit - 1)) + [t]
  }

  function PostOrderAll<T>(ts: seq<Transform<T>>, depthLimit: int): seq<Transform<T>>
    decreases ts, 0
  {
    if ts == [] then [] else PostOrder(ts[0], depthLimit) + PostOrderAll(ts[1..], depthLimit)
  }

  /** TraverseHierarchy(root, operate, depthLimit): operate on the root, then
      walk each child in index order with the limit one less. Returns the nodes
      handed to `operate`. */
  method TraverseHierarchy<T>(root: Transform<T>, depthLimit: int) returns (visited: seq<Transform<T>>)
    ensures visited == PreOrder(root, depthLimit)
    decreases root
  {
    visited := [root];
    if depthLimit != 0 {
      var count := |root.children|;
      var i := 0;
      while i < count
        invariant 0 <= i <= count
        invariant visited + PreOrderAll(root.children[i..], depthLimit - 1) == PreOrder(root, depthLimit)
      {
        assert root.children[i..][1..] == root.children[i + 1..];
        var sub := TraverseHierarchy(root.children[i], depthLimit - 1);
        visited := visited + sub;
        i := i + 1;
      }
      assert root.children[count..] == [];
    }
  }

  /** InverseTraverseHierarchy(root, operate, depthLimit): walk each child in
      index order with the limit one less, then operate on the root. */
  method InverseTraverseHierarchy<T>(root: Transform<T>, depthLimit: int) returns (visited: seq<Transform<T>>)
    ensures visited == PostOrder(root, depthLimit)
    decreases root, 1
  {
    visited := [];
    if depthLimit != 0 {
      visited := InverseTraverseChildren(root.children, depthLimit - 1);
    }
    visited := visited + [root];
  }

  /** The child loop of InverseTraverseHierarchy: each child's leaf-first
      walk, in index order. */
  method InverseTraverseChildren<T>(children: seq<Transform<T>>, depthLimit: int) returns (visited: seq<Transform<T>>)
    ensures visited == PostOrderAll(children, depthLimit)
    decreases children, 0
  {
    var count := |children|;
    visited := [];
    var i := 0;
    while i < count
      invariant 0 <= i <= count
      invariant visited + PostOrderAll(children[i..], depthLimit) == PostOrderAll(children, depthLimit)
    {
      PostOrderAllStep(children, i, depthLimit);
      var sub := InverseTraverseHierarchy(children[i], depthLimit);
      visited := visited + sub;
      i := i + 1;
    }
    assert children[count..] == [];
  }

  /** The leaf-first walk of the children from index i on is child i's walk,
      then the walk of the ones after it. */
  lemma PostOrderAllStep<T>(ts: seq<Transform<T>>, i: nat, depthLimit: int)
    requires i < |ts|
    ensures PostOrderAll(ts[i..], depthLimit) == PostOrder(ts[i], depthLimit) + PostOrderAll(ts[i + 1..], depthLimit)
  {
    assert ts[i..][1..] == ts[i + 1..];
  }

  /** SearchHierarchy(root, matches, depthLimit): the root if it matches; else,
      unless the limit is 0, the first child subtree's result that is not
      null, searched with the limit one less. */
  method SearchHierarchy<T>(root: Transform<T>, matches: Transform<T> -> bool, depthLimit: int)
    returns (result: Option<Transform<T>>)
    ensures result == FirstMatch(PreOrder(root, depthLimit), matches)
    decreases root, 1
  {
    if matches(root) {
      return Some(root);
    }
    if depthLimit == 0 {
      return None;
    }
    result := SearchChildren(root.children, matches, depthLimit - 1);
    assert PreOrder(root, depthLimit)[1..] == PreOrderAll(root.children, depthLimit - 1);
  }

  /** The loop of SearchHierarchy over the children, stopping at the first
      child whose search finds something. */
  method SearchChildren<T>(children: seq<Transform<T>>, matches: Transform<T> -> bool, depthLimit: int)
    returns (result: Option<Transform<T>>)
    ensures result == FirstMatch(PreOrderAll(children, depthLimit), matches)
    decreases children, 0
  {
    var count := |children|;
    result := None;
    var i := 0;
    while i < count
      invariant 0 <= i <= count && result.None?
      invariant FirstMatch(PreOrderAll(children, depthLimit), matches)
        == FirstMatch(PreOrderAll(children[i..], depthLimit), matches)
    {
      assert children[i..][0] == children[i] && children[i..][1..] == children[i + 1..];
      FirstMatchOfConcat(PreOrder(children[i], depthLimit), PreOrderAll(children[i + 1..], depthLimit), matches);
      result := SearchHierarchy(children[i], matches, depthLimit);
      if result.Some? {
        return;
      }
      i := i + 1;
    }
    assert children[count..] == [];
  }

  /** A limit of 0 visits only the root, and a negative limit visits every node. */
  lemma {:induction false} PreOrderDepth<T>(t: Transform<T>, depthLimit: int)
    ensures depthLimit == 0 ==> PreOrder(t, depthLimit) == [t]
    ensures depthLimit < 0 ==> |PreOrder(t, depthLimit)| == Size(t)
    decreases t, 1
  {
    if depthLimit < 0 {
      PreOrderAllDepth(t.children, depthLimit - 1);
    }
  }

  lemma {:induction false} PreOrderAllDepth<T>(ts: seq<Transform<T>>, depthLimit: int)
    requires depthLimit < 0
    ensures |PreOrderAll(ts, depthLimit)| == SizeAll(ts)
    decreases ts, 0
  {
    if ts != [] {
      PreOrderDepth(ts[0], depthLimit);
      PreOrderAllDepth(ts[1..], depthLimit);
    }
  }

  /** The node reached from t by following a path of child indices, one level
      per index, or None when an index is out of range. */
  function Follow<T>(t: Transform<T>, path: seq<nat>): Option<Transform<T>>
    decreases path
  {
    if path == [] then Some(t)
    else if path[0] < |t.children| then Follow(t.children[path[0]], path[1..])
    else None
  }

  /** n lies at most depthLimit levels below t; a negative limit bounds nothing. */
  ghost predicate WithinLevels<T>(t: Transform<T>, n: Transform<T>, depthLimit: int)
  {
    exists path :: (depthLimit < 0 || |path| <= depthLimit) && Follow(t, path) == Some(n)
  }

  /** The root-first walk with limit k visits exactly the nodes at most k levels
      below the root: limit 0 the root alone, k > 0 the first k levels under
      it, a negative limit every node. */
  lemma PreOrderWithinLevels<T>(t: Transform<T>, depthLimit: int)
    ensures forall n :: n in PreOrder(t, depthLimit) <==> WithinLevels(t, n, depthLimit)
  {
    forall n | n in PreOrder(t, depthLimit)
      ensures WithinLevels(t, n, depthLimit)
    {
      VisitedIsWithin(t, depthLimit, n);
    }
    forall n | WithinLevels(t, n, depthLimit)
      ensures n in PreOrder(t, depthLimit)
    {
      var path :| (depthLimit < 0 || |path| <= depthLimit) && Follow(t, path) == Some(n);
      WithinIsVisited(t, depthLimit, path, n);
    }
  }

  lemma {:induction false} VisitedIsWithin<T>(t: Transform<T>, depthLimit: int, n: Transform<T>)
    requires n in PreOrder(t, depthLimit)
    ensures WithinLevels(t, n, depthLimit)
    decreases t
  {
    if n == t {
      assert Follow(t, []) == Some(n);
    } else {
      assert depthLimit != 0 && n in PreOrderAll(t.children, depthLimit - 1);
      var i := InPreOrderAll(t.children, depthLimit - 1, n);
      VisitedIsWithin(t.children[i], depthLimit - 1, n);
      var path :| (depthLimit - 1 < 0 || |path| <= depthLimit - 1) && Follow(t.children[i], path) == Some(n);
      var longer := [i] + path;
      assert longer[0] == i && longer[1..] == path;
      assert Follow(t, longer) == Some(n);
      assert depthLimit < 0 || |longer| <= depthLimit;
    }
  }

  lemma {:induction false} WithinIsVisited<T>(t: Transform<T>, depthLimit: int, path: seq<nat>, n: Transform<T>)
    requires depthLimit < 0 || |path| <= depthLimit
    requires Follow(t, path) == Some(n)
    ensures n in PreOrder(t, depthLimit)
    decreases path
  {
    if path != [] {
      var i := path[0];
      WithinIsVisited(t.children[i], depthLimit - 1, path[1..], n);
      PreOrderAllHas(t.children, depthLimit - 1, i, n);
    }
  }

  /** A node visited by the walks of a sibling list is visited by one of them. */
  lemma {:induction false} InPreOrderAll<T>(ts: seq<Transform<T>>, depthLimit: int, n: Transform<T>) returns (i: nat)
    requires n in PreOrderAll(ts, depthLimit)
    ensures i < |ts| && n in PreOrder(ts[i], depthLimit)
    decreases ts
  {
    if n in PreOrder(ts[0], depthLimit) {
      i := 0;
    } else {
      var j := InPreOrderAll(ts[1..], depthLimit, n);
      i := j + 1;
    }
  }

  /** A node visited by one sibling's walk is visited by the list's walks. */
  lemma {:induction false} PreOrderAllHas<T>(ts: seq<Transform<T>>, depthLimit: int, i: nat, n: Transform<T>)
    requires i < |ts| && n in PreOrder(ts[i], depthLimit)
    ensures n in PreOrderAll(ts, depthLimit)
    decreases ts
  {
    if i > 0 {
      PreOrderAllHas(ts[1..], depthLimit, i - 1, n);
    }
  }

  /** The leaf-first walk visits the same nodes as the root-first walk, each
      as many times. */
  lemma {:induction false} SameNodes<T>(t: Transform<T>, depthLimit: int)
    ensures multiset(PostOrder(t, depthLimit)) == multiset(PreOrder(t, depthLimit))
    decreases t, 1
  {
    if depthLimit != 0 {
      SameNodesAll(t.children, depthLimit - 1);
    }
  }

  lemma {:induction false} SameNodesAll<T>(ts: seq<Transform<T>>, depthLimit: int)
    ensures multiset(PostOrderAll(ts, depthLimit)) == multiset(PreOrderAll(ts, depthLimit))
    decreases ts, 0
  {
    if ts != [] {
      SameNodes(ts[0], depthLimit);
      SameNodesAll(ts[1..], depthLimit);
    }
  }

  function XY(v: Vector3): (r: Vector2)
    ensures r.x == v.x && r.y == v.y
  {
    Vector2(v.x, v.y)
  }

  function YZ(v: Vector3): (r: Vector2)
    ensures r.x == v.y && r.y == v.z
  {
    Vector2(v.y, v.z)
  }

  function XZ(v: Vector3): (r: Vector2)
    ensures r.x == v.x && r.y == v.z
  {
    Vector2(v.x, v.z)
  }

  /** Any two of the pairs determine the vector. */
  lemma PairsDetermine(v: Vector3, w: Vector3)
    ensures XY(v) == XY(w) && YZ(v) == YZ(w) ==> v == w
    ensures XY(v) == XY(w) && XZ(v) == XZ(w) ==> v == w
    ensures YZ(v) == YZ(w) && XZ(v) == XZ(w) ==> v == w
  {
  }
}
