/** The three enumerators of `TreeNode<T>`: over the subtree (root-first, the
    node itself included), over the node and its ancestors, and over the
    direct children. An enumerator is a value: its MoveNext returns whether
    there is a current node and the enumerator's new fields. Each enumerator is
    specified by the nodes it has still to yield (`Remaining`), and each
    MoveNext yields the first of them. */
module TreeNodeEnumerators {
  import opened TreeNodes

  /* ---------- The walk that is left ---------- */

  /** The walks of the children of `p` from position `j` on. */
  ghost function WalksFrom(s: Links, p: nat, j: nat): seq<nat>
    requires Wellformed(s) && p < |s.parent| && j <= |s.kids[p]|
    decreases |s.kids[p]| - j
  {
    if j == |s.kids[p]| then []
    else
      ChildFacts(s, p, j);
      SubtreeOrder(s, s.kids[p][j]) + WalksFrom(s, p, j + 1)
  }

  /** The walks of the first `i` children followed by the walks of the rest are
      the walks of all the children. */
  lemma {:induction false} WalksSplit(s: Links, p: nat, i: nat)
    requires Wellformed(s) && p < |s.parent| && i <= |s.kids[p]|
    ensures ChildrenOrder(s, p, i) + WalksFrom(s, p, i) == ChildrenOrder(s, p, |s.kids[p]|)
    decreases |s.kids[p]| - i
  {
    if i < |s.kids[p]| {
      ChildFacts(s, p, i);
      WalksSplit(s, p, i + 1);
    }
  }

  /** The walk of a subtree is its root followed by the walks of its children. */
  lemma SubtreeOrderUnfolds(s: Links, x: nat)
    requires Wellformed(s) && x < |s.parent|
    ensures SubtreeOrder(s, x) == [x] + WalksFrom(s, x, 0)
  {
    WalksSplit(s, x, 0);
  }

  /** The position of a child in its parent's list. */
  lemma IndexOfDistinct(s: Links, p: nat, k: nat)
    requires Wellformed(s) && p < |s.parent| && k < |s.kids[p]|
    ensures IndexOf(s.kids[p], s.kids[p][k]) == k
  {
    Facts(s, p);
  }

  /** The parent of a proper descendant of `r` is `r` or a descendant of `r`. */
  lemma ParentInSubtree(s: Links, r: nat, c: nat)
    requires Wellformed(s) && r < |s.parent| && c < |s.parent| && InSubtree(s, c, r) && c != r
    ensures 0 <= s.parent[c] < |s.parent| && InSubtree(s, s.parent[c], r)
    ensures c in s.kids[s.parent[c]] && |s.anc[s.parent[c]]| < |s.anc[c]|
  {
    Facts(s, c);
    Facts(s, s.parent[c]);
  }

  /** What is left of the walk of the subtree of `r` once the subtree of its
      descendant `c` is done: the walks of the later siblings of `c`, then the
      same for the parent of `c`, up to `r`. */
  ghost function Continue(s: Links, r: nat, c: nat): seq<nat>
    requires Wellformed(s) && r < |s.parent| && c < |s.parent| && InSubtree(s, c, r)
    decreases |s.anc[c]|
  {
    if c == r then []
    else
      ParentInSubtree(s, r, c);
      var p := s.parent[c] as nat;
      WalksFrom(s, p, IndexOf(s.kids[p], c) + 1) + Continue(s, r, p)
  }

  /** One step of WalksFrom. */
  lemma WalksFromStep(s: Links, p: nat, j: nat)
    requires Wellformed(s) && p < |s.parent| && j < |s.kids[p]|
    ensures s.kids[p][j] < |s.parent|
    ensures WalksFrom(s, p, j) == SubtreeOrder(s, s.kids[p][j]) + WalksFrom(s, p, j + 1)
  {
    ChildFacts(s, p, j);
  }

  /** One step of Continue, from the child at position `j` of `p`, a node of
      the subtree of `r`. */
  lemma ContinueStep(s: Links, r: nat, p: nat, j: nat)
    requires Wellformed(s) && r < |s.parent| && p < |s.parent| && InSubtree(s, p, r) && j < |s.kids[p]|
    ensures s.kids[p][j] < |s.parent| && InSubtree(s, s.kids[p][j], r) && s.kids[p][j] != r
    ensures Continue(s, r, s.kids[p][j]) == WalksFrom(s, p, j + 1) + Continue(s, r, p)
  {
    ChildInSubtree(s, r, p, j);
    IndexOfDistinct(s, p, j);
    assert s.parent[s.kids[p][j]] == p;
  }

  /** A child of a node of the subtree of `r` is a proper descendant of `r`. */
  lemma ChildInSubtree(s: Links, r: nat, p: nat, j: nat)
    requires Wellformed(s) && r < |s.parent| && p < |s.parent| && InSubtree(s, p, r) && j < |s.kids[p]|
    ensures s.kids[p][j] < |s.parent| && s.parent[s.kids[p][j]] == p
    ensures InSubtree(s, s.kids[p][j], r) && s.kids[p][j] != r
  {
    ChildFacts(s, p, j);
    Facts(s, s.kids[p][j]);
  }

  /* ---------- ChildrenEnumerator ---------- */

  /** The fields of a ChildrenEnumerator: the root of the walk, the current
      node and the state (0 before the root, 1 when the current node's
      children come next, 2 when its later siblings come next). */
  datatype ChildrenCursor = ChildrenCursor(node: nat, current: int, state: int)

  /** The new enumerator over the subtree of `node`. */
  function NewChildrenCursor(node: nat): (e: ChildrenCursor)
    ensures e.node == node && e.state == 0
  {
    ChildrenCursor(node, Null, 0)
  }

  /** The cursor states the enumerator can reach. */
  ghost predicate CursorOk(s: Links, e: ChildrenCursor) {
    && |s.anc| == |s.parent| && e.node < |s.parent| && 0 <= e.state <= 2
    && (e.state != 0 ==> 0 <= e.current < |s.parent| && InSubtree(s, e.current, e.node))
    && (e.state == 2 ==> e.current != e.node)
  }

  /** The nodes the enumerator has still to yield. */
  ghost function Remaining(s: Links, e: ChildrenCursor): seq<nat>
    requires Wellformed(s)
    requires CursorOk(s, e)
  {
    if e.state == 0 then SubtreeOrder(s, e.node)
    else if e.state == 1 then WalksFrom(s, e.current, 0) + Continue(s, e.node, e.current)
    else Continue(s, e.node, e.current)
  }

  /** ChildrenEnumerator.MoveNext: yield the root, then go down to a first
      child, or else along to a next sibling, or else up and along. */
  method MoveNextChild<T>(f: Forest<T>, e: ChildrenCursor) returns (has: bool, r: ChildrenCursor)
    requires f.Valid() && CursorOk(f.State(), e)
    ensures CursorOk(f.State(), r) && r.node == e.node
    ensures has ==> 0 <= r.current && Remaining(f.State(), e) == [r.current as nat] + Remaining(f.State(), r)
    ensures !has ==> Remaining(f.State(), e) == [] && Remaining(f.State(), r) == []
    decreases if e.state == 0 then 0 else |f.anc[e.current]|, if e.state == 1 then 1 else 0
  {
    ghost var s := f.State();
    if e.state == 0 {
      SubtreeOrderUnfolds(s, e.node);
      return true, ChildrenCursor(e.node, e.node, 1);
    } else if e.state == 1 {
      var c: nat := e.current;
      if f.FirstChild(c) != Null {
        FirstStep(s, e.node, c);
        return true, e.(current := f.firstChild[c]);
      }
      if c != e.node {
        has, r := MoveNextChild(f, e.(state := 2));
        return;
      }
      return false, e;
    } else {
      var c: nat := e.current;
      ParentInSubtree(s, e.node, c);
      ghost var p: nat := f.parent[c];
      ghost var j := IndexOf(f.kids[p], c);
      f.NextSibling(c, j);
      var nx := f.Next(c);
      if nx != Null {
        SiblingStep(s, e.node, c, p, j);
        return true, ChildrenCursor(e.node, f.next[c], 1);
      }
      LastStep(s, e.node, c, p, j);
      if f.parent[c] != e.node {
        has, r := MoveNextChild(f, e.(current := f.parent[c]));
        return;
      }
      return false, e;
    }
  }

  /** Going down: the rest of the walk from a node with children starts with
      its first child. */
  lemma FirstStep(s: Links, r: nat, c: nat)
    requires Wellformed(s) && r < |s.parent| && c < |s.parent| && InSubtree(s, c, r) && s.kids[c] != []
    ensures var f := s.kids[c][0];
      f < |s.parent| && s.firstChild[c] == f && InSubtree(s, f, r) &&
      WalksFrom(s, c, 0) + Continue(s, r, c) == [f] + (WalksFrom(s, f, 0) + Continue(s, r, f))
  {
    FirstChildIs(s, c);
    WalksFromStep(s, c, 0);
    ContinueStep(s, r, c, 0);
    var f := s.kids[c][0];
    SubtreeOrderUnfolds(s, f);
    Regroup(f, WalksFrom(s, f, 0), WalksFrom(s, c, 1), Continue(s, r, c));
  }

  /** The walk of a first child, then its siblings', then the rest, read as
      the child followed by the rest of the walk from it. */
  lemma Regroup(f: nat, a: seq<nat>, b: seq<nat>, c: seq<nat>)
    ensures (([f] + a) + b) + c == [f] + (a + (b + c))
  {
  }

  lemma FirstChildIs(s: Links, c: nat)
    requires Wellformed(s) && c < |s.parent|
    ensures s.firstChild[c] == (if s.kids[c] == [] then Null else s.kids[c][0])
  {
    Facts(s, c);
  }

  /** Going along: the rest of the walk after the subtree of a child that has
      a next sibling starts with that sibling. */
  lemma SiblingStep(s: Links, r: nat, c: nat, p: nat, j: nat)
    requires Wellformed(s) && r < |s.parent| && p < |s.parent| && InSubtree(s, p, r)
    requires j + 1 < |s.kids[p]| && s.kids[p][j] == c
    ensures var nx := s.kids[p][j + 1];
      nx < |s.parent| && InSubtree(s, c, r) && c != r && InSubtree(s, nx, r) &&
      Continue(s, r, c) == [nx] + (WalksFrom(s, nx, 0) + Continue(s, r, nx))
  {
    ContinueStep(s, r, p, j);
    ContinueStep(s, r, p, j + 1);
    WalksFromStep(s, p, j + 1);
    var nx := s.kids[p][j + 1];
    SubtreeOrderUnfolds(s, nx);
    Regroup(nx, WalksFrom(s, nx, 0), WalksFrom(s, p, j + 2), Continue(s, r, p));
  }

  /** Going up: after the subtree of a last child, the walk goes on as after
      the subtree of its parent. */
  lemma LastStep(s: Links, r: nat, c: nat, p: nat, j: nat)
    requires Wellformed(s) && r < |s.parent| && p < |s.parent| && InSubtree(s, p, r)
    requires j + 1 == |s.kids[p]| && s.kids[p][j] == c
    ensures InSubtree(s, c, r) && c != r
    ensures Continue(s, r, c) == Continue(s, r, p)
  {
    ContinueStep(s, r, p, j);
  }

  /** foreach over `children`: the values the loop sees are those of the
      root-first walk of the subtree, node included. */
  method EnumerateChildren<T>(f: Forest<T>, node: nat) returns (visited: seq<nat>)
    requires f.Valid() && node < |f.values|
    ensures visited == SubtreeOrder(f.State(), node)
  {
    ghost var s := f.State();
    var e := NewChildrenCursor(node);
    visited := [];
    while true
      invariant f.State() == s && CursorOk(s, e) && e.node == node
      invariant visited + Remaining(s, e) == SubtreeOrder(s, node)
      decreases |Remaining(s, e)|
    {
      ghost var before := Remaining(s, e);
      var has;
      has, e := MoveNextChild(f, e);
      if !has {
        break;
      }
      ghost var after := Remaining(s, e);
      assert before == [e.current as nat] + after;
      ShiftOne(visited, e.current as nat, after);
      visited := visited + [e.current as nat];
    }
  }

  /* ---------- ParentsEnumerator ---------- */

  /** The fields of a ParentsEnumerator: the start node and the current node,
      null before the first MoveNext and again after the last. */
  datatype ParentsCursor = ParentsCursor(node: nat, current: int)

  ghost predicate ParentsOk(s: Links, e: ParentsCursor) {
    |s.anc| == |s.parent| && e.node < |s.parent| && -1 <= e.current < |s.parent|
    && (e.current != Null ==> InSubtree(s, e.node, e.current))
  }

  /** The nodes still to come: all of the chain before the start, the
      ancestors of the current node after it. */
  ghost function ParentsRemaining(s: Links, e: ParentsCursor): seq<nat>
    requires Wellformed(s)
    requires ParentsOk(s, e)
  {
    if e.current == Null then [e.node] + s.anc[e.node] else s.anc[e.current]
  }

  /** ParentsEnumerator.MoveNext: start at the node, then follow the parent
      links until they run out. */
  method MoveNextParent<T>(f: Forest<T>, e: ParentsCursor) returns (has: bool, r: ParentsCursor)
    requires f.Valid() && ParentsOk(f.State(), e)
    ensures ParentsOk(f.State(), r) && r.node == e.node
    ensures has <==> r.current != Null
    ensures has ==> ParentsRemaining(f.State(), e) == [r.current as nat] + ParentsRemaining(f.State(), r)
    ensures !has ==> ParentsRemaining(f.State(), e) == []
  {
    if e.current == Null {
      r := e.(current := e.node);
      return true, r;
    }
    ParentStep(f.State(), e.node, e.current);
    r := e.(current := f.parent[e.current]);
    return r.current != Null, r;
  }

  /** One step up the chain of a node's ancestors. */
  lemma ParentStep(s: Links, node: nat, c: nat)
    requires Wellformed(s) && node < |s.parent| && c < |s.parent| && InSubtree(s, node, c)
    ensures -1 <= s.parent[c] < |s.parent|
    ensures s.anc[c] == (if s.parent[c] == Null then [] else [s.parent[c] as nat] + s.anc[s.parent[c]])
    ensures s.parent[c] != Null ==> InSubtree(s, node, s.parent[c])
  {
    Facts(s, c);
    if s.parent[c] != Null {
      SubtreeOfAncestor(s, node, c, s.parent[c]);
    }
  }

  /** foreach over `parents`: the node, then its ancestors up to the root. */
  method EnumerateParents<T>(f: Forest<T>, node: nat) returns (visited: seq<nat>)
    requires f.Valid() && node < |f.values|
    ensures visited == [node] + f.anc[node]
  {
    ghost var s := f.State();
    var e := ParentsCursor(node, Null);
    visited := [];
    while true
      invariant f.State() == s && ParentsOk(s, e) && e.node == node
      invariant visited + ParentsRemaining(s, e) == [node] + s.anc[node]
      decreases |ParentsRemaining(s, e)| + (if e.current == Null then 1 else 0)
    {
      ghost var before := ParentsRemaining(s, e);
      var has;
      has, e := MoveNextParent(f, e);
      if !has {
        break;
      }
      ghost var after := ParentsRemaining(s, e);
      assert before == [e.current as nat] + after;
      ShiftOne(visited, e.current as nat, after);
      visited := visited + [e.current as nat];
    }
  }

  /* ---------- DirectChildrenEnumerator ---------- */

  /** The fields of a DirectChildrenEnumerator: the parent and the current
      child, null before the first MoveNext and again after the last. */
  datatype DirectCursor = DirectCursor(node: nat, current: int)

  ghost predicate DirectOk(s: Links, e: DirectCursor) {
    |s.kids| == |s.parent| && e.node < |s.parent| && -1 <= e.current < |s.parent|
    && (e.current != Null ==> e.current in s.kids[e.node])
  }

  /** The children still to come: all of them before the start, those after
      the current child after it. */
  ghost function DirectRemaining(s: Links, e: DirectCursor): seq<nat>
    requires DirectOk(s, e)
  {
    if e.current == Null then s.kids[e.node] else ElementsAfter(s.kids[e.node], e.current)
  }

  /** The elements of `ks` after the first occurrence of `y`. */
  function ElementsAfter(ks: seq<nat>, y: nat): (r: seq<nat>)
    ensures |r| < |ks| || y !in ks
  {
    if ks == [] then []
    else if ks[0] == y then ks[1..]
    else ElementsAfter(ks[1..], y)
  }

  /** In a list without repeats, what follows the element at position `j` is
      the list from position `j + 1` on. */
  lemma {:induction false} ElementsAfterDistinct(ks: seq<nat>, j: nat)
    requires Distinct(ks) && j < |ks|
    ensures ElementsAfter(ks, ks[j]) == ks[j + 1..]
  {
    if j > 0 {
      assert ks[1..][j - 1] == ks[j] && ks[1..][j..] == ks[j + 1..];
      ElementsAfterDistinct(ks[1..], j - 1);
    }
  }

  /** The child list of x has no repeats, and its entry at j is a node whose
      parent is x. */
  lemma ChildListFacts(s: Links, x: nat, j: nat)
    requires Wellformed(s) && x < |s.parent| && j < |s.kids[x]|
    ensures Distinct(s.kids[x]) && s.kids[x][j] < |s.parent| && s.parent[s.kids[x][j]] == x
  {
    Facts(s, x);
    ChildFacts(s, x, j);
  }

  /** The first move of a direct-children cursor: to the first child, or to
      the end for a node without children. */
  lemma DirectFirst(s: Links, e: DirectCursor)
    requires Wellformed(s) && DirectOk(s, e) && e.current == Null
    ensures var r := e.(current := if s.kids[e.node] == [] then Null else s.kids[e.node][0]);
      && DirectOk(s, r)
      && (r.current != Null ==> DirectRemaining(s, e) == [r.current as nat] + DirectRemaining(s, r))
      && (r.current == Null ==> DirectRemaining(s, e) == [])
  {
    var ks := s.kids[e.node];
    if ks != [] {
      ChildListFacts(s, e.node, 0);
      ElementsAfterDistinct(ks, 0);
      assert ks == [ks[0]] + ks[1..];
    }
  }

  /** A later move of a direct-children cursor: from the child at position j
      to the one after it, or to the end after the last. */
  lemma DirectNext(s: Links, e: DirectCursor, j: nat)
    requires Wellformed(s) && DirectOk(s, e) && e.current != Null
    requires j < |s.kids[e.node]| && s.kids[e.node][j] == e.current
    ensures var ks := s.kids[e.node];
      var r := e.(current := if j + 1 < |ks| then ks[j + 1] else Null);
      && DirectOk(s, r)
      && (r.current != Null ==> DirectRemaining(s, e) == [r.current as nat] + DirectRemaining(s, r))
      && (r.current == Null ==> DirectRemaining(s, e) == [])
  {
    var ks := s.kids[e.node];
    ChildListFacts(s, e.node, j);
    ElementsAfterDistinct(ks, j);
    if j + 1 < |ks| {
      ChildListFacts(s, e.node, j + 1);
      ElementsAfterDistinct(ks, j + 1);
      assert ks[j + 1..] == [ks[j + 1]] + ks[j + 2..];
    }
  }

  /** DirectChildrenEnumerator.MoveNext: the first child, then `next` until it
      is null. */
  method MoveNextDirect<T>(f: Forest<T>, e: DirectCursor) returns (has: bool, r: DirectCursor)
    requires f.Valid() && DirectOk(f.State(), e)
    ensures DirectOk(f.State(), r) && r.node == e.node
    ensures has <==> r.current != Null
    ensures has ==> DirectRemaining(f.State(), e) == [r.current as nat] + DirectRemaining(f.State(), r)
    ensures !has ==> DirectRemaining(f.State(), e) == []
  {
    ghost var s := f.State();
    if e.current == Null {
      r := e.(current := f.FirstChild(e.node));
      DirectFirst(s, e);
    } else {
      var c: nat := e.current;
      var j := IndexOf(s.kids[e.node], c);
      ChildListFacts(s, e.node, j);
      f.NextSibling(c, j);
      r := e.(current := f.Next(c));
      DirectNext(s, e, j);
    }
    has := r.current != Null;
  }

  /** foreach over `directChildren`: the children in sibling order. */
  method EnumerateDirectChildren<T>(f: Forest<T>, node: nat) returns (visited: seq<nat>)
    requires f.Valid() && node < |f.values|
    ensures visited == f.kids[node]
  {
    ghost var s := f.State();
    var e := DirectCursor(node, Null);
    visited := [];
    while true
      invariant f.State() == s && DirectOk(s, e) && e.node == node
      invariant visited + DirectRemaining(s, e) == s.kids[node]
      decreases |DirectRemaining(s, e)| + (if e.current == Null then 1 else 0)
    {
      ghost var before := DirectRemaining(s, e);
      var has;
      has, e := MoveNextDirect(f, e);
      if !has {
        break;
      }
      ghost var after := DirectRemaining(s, e);
      assert before == [e.current as nat] + after;
      ShiftOne(visited, e.current as nat, after);
      visited := visited + [e.current as nat];
    }
  }

  /** Moving the next item from the remaining list onto the visited one. */
  lemma ShiftOne(visited: seq<nat>, x: nat, after: seq<nat>)
    ensures (visited + [x]) + after == visited + ([x] + after)
  {
  }
}
