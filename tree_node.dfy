/** `TreeNode<T>`: a tree whose nodes keep their children in a circular
    doubly-linked list. Each node has the links `_next`, `_prev` (its ring of
    siblings, or itself for a root), `_parent`, `_firstChild` and the count
    `_directChildCount`.

    All the nodes live in one `Forest`, named by their index; a link field is
    a sequence indexed by node, and `Null` (-1) is the null reference. Beside
    the links the forest keeps, as ghost state, each node's list of children
    in sibling order (`kids`) and each node's chain of ancestors from its
    parent up to its root (`anc`). */
module TreeNodes {
  import opened Wrappers
  import opened Search

  /** The null reference. */
  const Null: int := -1

  const AttachedMessage := "node is attached"
  const NotChildMessage := "node is not child of parent"

  /* ---------- Rings of siblings ---------- */

  /** The node following position `j` of the ring `ks`. */
  function After(ks: seq<nat>, j: nat): nat
    requires j < |ks|
  {
    if j + 1 < |ks| then ks[j + 1] else ks[0]
  }

  /** The node preceding position `j` of the ring `ks`. */
  function Before(ks: seq<nat>, j: nat): nat
    requires j < |ks|
  {
    if j == 0 then ks[|ks| - 1] else ks[j - 1]
  }

  /** The node that ends up after a node inserted at position `i` of `ks`. */
  function Successor(ks: seq<nat>, i: nat): (m: nat)
    requires ks != [] && i <= |ks|
    ensures m in ks
  {
    if i < |ks| then ks[i] else ks[0]
  }

  ghost predicate Distinct(ks: seq<nat>) {
    forall i, j :: 0 <= i < j < |ks| ==> ks[i] != ks[j]
  }

  /** Without repeats, the ring comes back to its first node only after the
      last position. */
  lemma AfterIsFirst(ks: seq<nat>)
    requires Distinct(ks)
    ensures forall j :: 0 <= j < |ks| ==> (After(ks, j) == ks[0] <==> j + 1 == |ks|)
  {
  }

  /** `next` and `prev` link the nodes of `ks`, in order, into a circle. */
  ghost predicate Ring(next: seq<nat>, prev: seq<nat>, ks: seq<nat>) {
    && (forall j :: 0 <= j < |ks| ==> ks[j] < |next| && ks[j] < |prev|)
    && (forall j {:trigger next[ks[j]]} {:trigger prev[ks[j]]} :: 0 <= j < |ks| ==>
          next[ks[j]] == After(ks, j) && prev[ks[j]] == Before(ks, j))
  }

  /** Links that do not change on the nodes of a ring keep it a ring. */
  lemma RingFrame(next: seq<nat>, prev: seq<nat>, next': seq<nat>, prev': seq<nat>, ks: seq<nat>)
    requires Ring(next, prev, ks)
    requires forall j :: 0 <= j < |ks| ==>
      ks[j] < |next'| && ks[j] < |prev'| && next'[ks[j]] == next[ks[j]] && prev'[ks[j]] == prev[ks[j]]
    ensures Ring(next', prev', ks)
  {
  }

  /** Inserting `node` at position `i` of a ring, before the node that was at
      that position (or before the first node, when `i` is the end). */
  lemma RingInsert(next: seq<nat>, prev: seq<nat>, ks: seq<nat>, node: nat, i: nat)
    requires Ring(next, prev, ks) && Distinct(ks) && ks != [] && node !in ks
    requires node < |next| && node < |prev| && i <= |ks|
    ensures var m := Successor(ks, i);
      Ring(next[node := m][prev[m] := node], prev[node := prev[m]][m := node], ks[..i] + [node] + ks[i..])
  {
    var m := Successor(ks, i);
    var l := ks[..i] + [node] + ks[i..];
    forall k | 0 <= k < |l|
      ensures l[k] < |next| && l[k] < |prev|
      ensures next[node := m][prev[m] := node][l[k]] == After(l, k)
      ensures prev[node := prev[m]][m := node][l[k]] == Before(l, k)
    {
      RingInsertAt(next, prev, ks, node, i, k);
    }
  }

  lemma RingInsertAt(next: seq<nat>, prev: seq<nat>, ks: seq<nat>, node: nat, i: nat, k: nat)
    requires Ring(next, prev, ks) && Distinct(ks) && ks != [] && node !in ks
    requires node < |next| && node < |prev| && i <= |ks| && k <= |ks|
    ensures var m := Successor(ks, i); var l := ks[..i] + [node] + ks[i..];
      && l[k] < |next| && l[k] < |prev|
      && next[node := m][prev[m] := node][l[k]] == After(l, k)
      && prev[node := prev[m]][m := node][l[k]] == Before(l, k)
  {
    var n := |ks|;
    var m := Successor(ks, i);
    assert prev[m] == (if i == 0 then ks[n - 1] else ks[i - 1]) by {
      if i < n {
        assert prev[ks[i]] == Before(ks, i);
      } else {
        assert prev[ks[0]] == Before(ks, 0);
      }
    }
    if k < i {
      InsertedBefore(next, prev, ks, node, i, k);
    } else if k == i {
      InsertedItself(next, prev, ks, node, i);
    } else {
      InsertedAfter(next, prev, ks, node, i, k);
    }
  }

  lemma InsertedBefore(next: seq<nat>, prev: seq<nat>, ks: seq<nat>, node: nat, i: nat, k: nat)
    requires Ring(next, prev, ks) && Distinct(ks) && ks != [] && node !in ks
    requires node < |next| && node < |prev| && k < i <= |ks|
    requires prev[Successor(ks, i)] == ks[i - 1]
    ensures var m := Successor(ks, i); var l := ks[..i] + [node] + ks[i..];
      && l[k] < |next| && l[k] < |prev|
      && next[node := m][prev[m] := node][l[k]] == After(l, k)
      && prev[node := prev[m]][m := node][l[k]] == Before(l, k)
  {
    var n := |ks|;
    var m := Successor(ks, i);
    var l := ks[..i] + [node] + ks[i..];
    assert |l| == n + 1;
    assert l[k] == ks[k];
    assert next[ks[k]] == After(ks, k) && prev[ks[k]] == Before(ks, k);
    assert l[k + 1] == (if k + 1 < i then ks[k + 1] else node);
    if k > 0 {
      assert l[k - 1] == ks[k - 1];
      assert ks[k] != m;
    } else {
      assert l[n] == (if i == n then node else ks[n - 1]);
      assert ks[0] == m ==> i == n;
    }
    assert ks[k] != prev[m] || k == i - 1;
  }

  lemma InsertedItself(next: seq<nat>, prev: seq<nat>, ks: seq<nat>, node: nat, i: nat)
    requires Ring(next, prev, ks) && Distinct(ks) && ks != [] && node !in ks
    requires node < |next| && node < |prev| && i <= |ks|
    requires prev[Successor(ks, i)] == (if i == 0 then ks[|ks| - 1] else ks[i - 1])
    ensures var m := Successor(ks, i); var l := ks[..i] + [node] + ks[i..];
      && l[i] < |next| && l[i] < |prev|
      && next[node := m][prev[m] := node][l[i]] == After(l, i)
      && prev[node := prev[m]][m := node][l[i]] == Before(l, i)
  {
    var n := |ks|;
    var l := ks[..i] + [node] + ks[i..];
    assert |l| == n + 1;
    assert l[i] == node;
    if i < n {
      assert l[i + 1] == ks[i];
    } else {
      assert l[0] == ks[0];
    }
    if i > 0 {
      assert l[i - 1] == ks[i - 1];
    } else {
      assert l[n] == ks[n - 1];
    }
  }

  lemma InsertedAfter(next: seq<nat>, prev: seq<nat>, ks: seq<nat>, node: nat, i: nat, k: nat)
    requires Ring(next, prev, ks) && Distinct(ks) && ks != [] && node !in ks
    requires node < |next| && node < |prev| && i < k <= |ks|
    requires prev[Successor(ks, i)] == (if i == 0 then ks[|ks| - 1] else ks[i - 1])
    ensures var m := Successor(ks, i); var l := ks[..i] + [node] + ks[i..];
      && l[k] < |next| && l[k] < |prev|
      && next[node := m][prev[m] := node][l[k]] == After(l, k)
      && prev[node := prev[m]][m := node][l[k]] == Before(l, k)
  {
    var n := |ks|;
    var m := Successor(ks, i);
    var l := ks[..i] + [node] + ks[i..];
    assert |l| == n + 1;
    assert l[k] == ks[k - 1];
    assert next[ks[k - 1]] == After(ks, k - 1) && prev[ks[k - 1]] == Before(ks, k - 1);
    if k < n {
      assert l[k + 1] == ks[k];
    } else {
      assert l[0] == (if i == 0 then node else ks[0]);
    }
    assert l[k - 1] == (if k - 1 == i then node else ks[k - 2]);
    assert ks[k - 1] != m || k - 1 == i;
    assert ks[k - 1] != prev[m] || (i == 0 && k == n);
  }

  /** Removing position `j` from a ring: its neighbours are linked to each other. */
  lemma RingRemove(next: seq<nat>, prev: seq<nat>, ks: seq<nat>, j: nat)
    requires Ring(next, prev, ks) && Distinct(ks) && j < |ks|
    ensures var node := ks[j];
      Ring(next[prev[node] := next[node]][node := node], prev[next[node] := prev[node]][node := node], ks[..j] + ks[j + 1..])
  {
    var node := ks[j];
    var l := ks[..j] + ks[j + 1..];
    forall k | 0 <= k < |l|
      ensures l[k] < |next| && l[k] < |prev|
      ensures next[prev[node] := next[node]][node := node][l[k]] == After(l, k)
      ensures prev[next[node] := prev[node]][node := node][l[k]] == Before(l, k)
    {
      RingRemoveAt(next, prev, ks, j, k);
    }
  }

  lemma RingRemoveAt(next: seq<nat>, prev: seq<nat>, ks: seq<nat>, j: nat, k: nat)
    requires Ring(next, prev, ks) && Distinct(ks) && j < |ks| && k + 1 < |ks|
    ensures var node := ks[j]; var l := ks[..j] + ks[j + 1..];
      && l[k] < |next| && l[k] < |prev|
      && next[prev[node] := next[node]][node := node][l[k]] == After(l, k)
      && prev[next[node] := prev[node]][node := node][l[k]] == Before(l, k)
  {
    var n := |ks|;
    var node := ks[j];
    var l := ks[..j] + ks[j + 1..];
    assert |l| == n - 1;
    assert next[node] == After(ks, j) && prev[node] == Before(ks, j);
    if k < j {
      assert l[k] == ks[k];
      assert next[ks[k]] == After(ks, k) && prev[ks[k]] == Before(ks, k);
      assert k + 1 < |l| ==> l[k + 1] == (if k + 1 < j then ks[k + 1] else ks[k + 2]);
      assert k + 1 == |l| ==> l[0] == ks[0] && j == n - 1 && k == n - 2;
      if k > 0 {
        assert l[k - 1] == ks[k - 1];
      } else {
        assert l[|l| - 1] == (if j == n - 1 then ks[n - 2] else ks[n - 1]);
      }
      assert ks[k] != node;
      assert ks[k] == prev[node] ==> k == j - 1 || (j == 0 && k == n - 1);
      assert ks[k] == next[node] ==> k == j + 1 || (j == n - 1 && k == 0);
    } else {
      assert l[k] == ks[k + 1];
      assert next[ks[k + 1]] == After(ks, k + 1) && prev[ks[k + 1]] == Before(ks, k + 1);
      if k + 1 < |l| {
        assert l[k + 1] == ks[k + 2];
      } else {
        assert l[0] == (if j == 0 then ks[1] else ks[0]);
      }
      if k > j {
        assert l[k - 1] == ks[k];
      } else if j > 0 {
        assert l[k - 1] == ks[j - 1];
      } else {
        assert l[|l| - 1] == ks[n - 1];
      }
      assert ks[k + 1] != node;
      assert ks[k + 1] == prev[node] ==> (j == 0 && k + 1 == n - 1);
      assert ks[k + 1] == next[node] ==> k == j;
    }
  }

  /** Inserting a new element keeps a sequence free of repeats, and it holds
      the old elements and the new one. */
  lemma DistinctInsert(ks: seq<nat>, node: nat, i: nat)
    requires Distinct(ks) && node !in ks && i <= |ks|
    ensures var l := ks[..i] + [node] + ks[i..];
      Distinct(l) && forall y :: y in l <==> y == node || y in ks
  {
    var l := ks[..i] + [node] + ks[i..];
    assert ks == ks[..i] + ks[i..];
    forall a, b | 0 <= a < b < |l| ensures l[a] != l[b] {
      if a < i {
        assert l[a] == ks[a];
      } else if a > i {
        assert l[a] == ks[a - 1];
      }
      if b < i {
        assert l[b] == ks[b];
      } else if b > i {
        assert l[b] == ks[b - 1];
      }
    }
  }

  /** Removing position `j` keeps a sequence free of repeats, and it holds the
      old elements but that one. */
  lemma DistinctRemove(ks: seq<nat>, j: nat)
    requires Distinct(ks) && j < |ks|
    ensures var l := ks[..j] + ks[j + 1..];
      Distinct(l) && forall y :: y in l <==> y != ks[j] && y in ks
  {
    var l := ks[..j] + ks[j + 1..];
    assert ks == ks[..j] + [ks[j]] + ks[j + 1..];
    forall a, b | 0 <= a < b < |l| ensures l[a] != l[b] {
      assert l[a] == (if a < j then ks[a] else ks[a + 1]);
      assert l[b] == (if b < j then ks[b] else ks[b + 1]);
    }
    forall y | y in ks && y != ks[j] ensures y in l {
      var k :| 0 <= k < |ks| && ks[k] == y;
      assert k != j;
      if k < j {
        assert l[k] == y;
      } else {
        assert l[k - 1] == y;
      }
    }
  }

  /* ---------- The forest's links and their abstraction ---------- */

  /** The link fields of every node, beside the ghost child lists `kids`, the
      ancestor chains `anc` and a bound on the chains' lengths. */
  datatype Links = Links(
    next: seq<nat>, prev: seq<nat>, parent: seq<int>, firstChild: seq<int>, count: seq<int>,
    kids: seq<seq<nat>>, anc: seq<seq<nat>>, bound: nat)

  /** The sequences have one entry per node. */
  ghost predicate Sized(s: Links) {
    var n := |s.parent|;
    && |s.next| == n && |s.prev| == n && |s.firstChild| == n && |s.count| == n && |s.kids| == n && |s.anc| == n
    && (forall d :: 0 <= d < n ==> s.next[d] < n && s.prev[d] < n)
  }

  /** Node `x`'s child list is free of repeats and agrees with its child count
      and its first child. */
  ghost predicate NodeShape(s: Links, x: nat) {
    && x < |s.kids| && x < |s.count| && x < |s.firstChild|
    && Distinct(s.kids[x])
    && s.count[x] == |s.kids[x]|
    && s.firstChild[x] == (if s.kids[x] == [] then Null else s.kids[x][0])
  }

  /** The child at position `j` of `x`'s list has `x` as its parent. */
  ghost predicate ChildShape(s: Links, x: nat, j: nat) {
    x < |s.kids| && j < |s.kids[x]| ==> s.kids[x][j] < |s.parent| && s.parent[s.kids[x][j]] == x
  }

  /** Node `d`'s parent link is null or a node whose child list holds `d`. */
  ghost predicate ParentShape(s: Links, d: nat) {
    d < |s.parent| && -1 <= s.parent[d] < |s.parent| && s.parent[d] < |s.kids| &&
    (s.parent[d] != Null ==> d in s.kids[s.parent[d]])
  }

  ghost predicate Shape(s: Links) {
    && Sized(s)
    && (forall x: nat :: x < |s.parent| ==> NodeShape(s, x))
    && (forall x: nat, j: nat :: ChildShape(s, x, j))
    && (forall d: nat :: d < |s.parent| ==> ParentShape(s, d))
  }

  /** A root's ring is itself. */
  ghost predicate RootLoop(s: Links, d: nat) {
    d < |s.parent| && d < |s.next| && d < |s.prev| && (s.parent[d] == Null ==> s.next[d] == d && s.prev[d] == d)
  }

  /** Siblings form a ring in child-list order; a root's ring is itself. */
  ghost predicate Rings(s: Links) {
    && (forall x: nat :: x < |s.kids| ==> Ring(s.next, s.prev, s.kids[x]))
    && (forall d: nat :: d < |s.parent| ==> RootLoop(s, d))
  }

  /** Node `d`'s ancestors are its parent followed by the parent's ancestors,
      and do not include `d`. */
  ghost predicate AncestryAt(s: Links, d: nat) {
    && d < |s.parent| && |s.anc| == |s.parent| && -1 <= s.parent[d] < |s.parent|
    && s.anc[d] == (if s.parent[d] == Null then [] else [s.parent[d] as nat] + s.anc[s.parent[d]])
    && d !in s.anc[d]
    && |s.anc[d]| <= s.bound
  }

  ghost predicate Ancestry(s: Links) {
    && |s.anc| == |s.parent|
    && forall d: nat :: d < |s.parent| ==> AncestryAt(s, d)
  }

  ghost predicate Wellformed(s: Links) {
    Shape(s) && Rings(s) && Ancestry(s)
  }

  /** `d` is `node` or one of its descendants. */
  ghost predicate InSubtree(s: Links, d: nat, node: nat)
    requires d < |s.anc|
  {
    d == node || node in s.anc[d]
  }

  /** An ancestor's chain is a proper suffix of its descendant's. */
  lemma {:induction false} AncestorSuffix(s: Links, d: nat, y: nat)
    requires Ancestry(s) && d < |s.parent| && y in s.anc[d]
    ensures y < |s.parent| && |s.anc[y]| < |s.anc[d]| && s.anc[y] == s.anc[d][|s.anc[d]| - |s.anc[y]|..]
    ensures y == s.anc[d][|s.anc[d]| - |s.anc[y]| - 1]
    decreases |s.anc[d]|
  {
    assert AncestryAt(s, d);
    var q := s.parent[d] as nat;
    var a, b := s.anc[d], s.anc[q];
    assert a == [q] + b && a[1..] == b && a[0] == q;
    if y == q {
      assert |a| - |b| - 1 == 0;
    } else {
      assert y in b;
      AncestorSuffix(s, q, y);
      var c := s.anc[y];
      var k := |b| - |c|;
      assert c == b[k..] && y == b[k - 1];
      assert |a| - |c| == k + 1;
      assert a[k + 1..] == b[k..] && a[k] == b[k - 1];
    }
  }

  /** A node that has a node of `node`'s subtree among its ancestors is in
      that subtree too. */
  lemma SubtreeOfAncestor(s: Links, p: nat, d: nat, node: nat)
    requires Ancestry(s) && p < |s.parent| && d < |s.parent|
    ensures d in s.anc[p] && InSubtree(s, d, node) ==> InSubtree(s, p, node)
  {
    if d in s.anc[p] {
      AncestorSuffix(s, p, d);
    }
  }

  /** The child of `p` at position `j` is not a root. */
  lemma ChildIsNotRoot(s: Links, p: nat, y: nat)
    requires Shape(s) && p < |s.parent| && y in s.kids[p]
    ensures y < |s.parent| && s.parent[y] == p
  {
    var j :| 0 <= j < |s.kids[p]| && s.kids[p][j] == y;
    assert ChildShape(s, p, j);
  }

  /* ---------- Attaching ---------- */

  /** The ancestor chains once the root `node` hangs under `p`: its whole
      subtree gains `p` and `p`'s ancestors. */
  ghost function AttachedAnc(anc: seq<seq<nat>>, node: nat, p: nat): (r: seq<seq<nat>>)
    requires node < |anc| && p < |anc|
    ensures |r| == |anc|
  {
    seq(|anc|, d requires 0 <= d < |anc| => if d == node || node in anc[d] then anc[d] + [p] + anc[p] else anc[d])
  }

  /** The links after the root `node` is inserted at position `i` of `p`'s
      children, before the child that was there (InternalAttachChildless when
      `p` has none, InternalAttachBefore otherwise). */
  ghost function Attached(s: Links, node: nat, p: nat, i: nat): Links
    requires Shape(s) && node < |s.parent| && p < |s.parent| && i <= |s.kids[p]|
  {
    var ks := s.kids[p];
    var s1 := s.(parent := s.parent[node := p], count := s.count[p := s.count[p] + 1],
                 kids := s.kids[p := ks[..i] + [node] + ks[i..]], anc := AttachedAnc(s.anc, node, p),
                 bound := s.bound + |s.anc[p]| + 1);
    if ks == [] then
      s1.(firstChild := s.firstChild[p := node])
    else
      var m := Successor(ks, i);
      assert m in ks;
      ChildIsNotRoot(s, p, m);
      s1.(next := s.next[node := m][s.prev[m] := node], prev := s.prev[node := s.prev[m]][m := node],
          firstChild := if i == 0 then s.firstChild[p := node] else s.firstChild)
  }

  /** The links Attached builds, field by field, in the terms the attaching
      methods write them. */
  lemma AttachedLinks(s: Links, node: nat, p: nat, i: nat)
    requires Wellformed(s) && node < |s.parent| && p < |s.parent| && i <= |s.kids[p]| && s.parent[node] == Null
    ensures var t := Attached(s, node, p, i); var ks := s.kids[p];
      && t.parent == s.parent[node := p] && t.count == s.count[p := s.count[p] + 1]
      && t.kids == s.kids[p := ks[..i] + [node] + ks[i..]]
      && (ks == [] ==> s.firstChild[p] == Null && t.next == s.next && t.prev == s.prev && t.firstChild == s.firstChild[p := node])
      && (ks != [] ==> var m := Successor(ks, i);
          && m < |s.prev| && s.prev[m] < |s.next| && m != node && s.firstChild[p] == ks[0]
          && t.next == s.next[node := m][s.prev[m] := node] && t.prev == s.prev[node := s.prev[m]][m := node]
          && t.firstChild == (if i == 0 then s.firstChild[p := node] else s.firstChild))
  {
    Facts(s, p);
    if s.kids[p] != [] {
      var m := Successor(s.kids[p], i);
      ChildIsNotRoot(s, p, m);
      Facts(s, m);
      assert s.firstChild[p] == s.kids[p][0];
    }
  }

  /** A child `c` of `p` sits in `p`'s child list; it is the first child
      exactly at position 0, and its ring successor is the child after it,
      wrapping round to the first. */
  lemma ChildRing(s: Links, p: nat, c: nat)
    requires Wellformed(s) && p < |s.parent| && c < |s.parent| && s.parent[c] == p
    ensures c in s.kids[p] && s.firstChild[p] == s.kids[p][0]
    ensures var ks := s.kids[p]; var i := IndexOf(ks, c);
      && (s.firstChild[p] == c <==> i == 0)
      && s.next[c] == Successor(ks, i + 1) && s.next[c] < |s.parent| && s.parent[s.next[c]] == p
  {
    assert ParentShape(s, c) && NodeShape(s, p);
    assert Ring(s.next, s.prev, s.kids[p]);
    forall j | 0 <= j < |s.kids[p]|
      ensures s.kids[p][j] < |s.parent| && s.parent[s.kids[p][j]] == p
    {
      assert ChildShape(s, p, j);
    }
    RingChild(s.next, s.prev, s.parent, s.kids[p], p, c);
  }

  /** ChildRing over the ring alone: `ks` is the child list of `p`. */
  lemma RingChild(next: seq<nat>, prev: seq<nat>, parent: seq<int>, ks: seq<nat>, p: nat, c: nat)
    requires Ring(next, prev, ks) && Distinct(ks) && c in ks
    requires forall j :: 0 <= j < |ks| ==> ks[j] < |parent| && parent[ks[j]] == p
    ensures var i := IndexOf(ks, c);
      && (ks[0] == c <==> i == 0)
      && next[c] == Successor(ks, i + 1) && next[c] < |parent| && parent[next[c]] == p
  {
    var i := IndexOf(ks, c);
    RingSuccessor(next, prev, ks, i);
    var m := Successor(ks, i + 1);
    assert m == ks[if i + 1 < |ks| then i + 1 else 0];
  }

  /** In a ring of distinct nodes, the node after position `i` is the one at
      the next position, wrapping round to the first. */
  lemma RingSuccessor(next: seq<nat>, prev: seq<nat>, ks: seq<nat>, i: nat)
    requires Ring(next, prev, ks) && Distinct(ks) && i < |ks|
    ensures ks[i] < |next| && next[ks[i]] == Successor(ks, i + 1)
    ensures ks[i] == ks[0] <==> i == 0
  {
    assert next[ks[i]] == After(ks, i);
  }

  lemma SizedAttached(s: Links, node: nat, p: nat, i: nat)
    requires Shape(s) && node < |s.parent| && p < |s.parent| && i <= |s.kids[p]|
    ensures Sized(Attached(s, node, p, i))
  {
    var ks := s.kids[p];
    if ks != [] {
      ChildIsNotRoot(s, p, Successor(ks, i));
    }
  }

  lemma ShapeAttached(s: Links, node: nat, p: nat, i: nat)
    requires Shape(s) && node < |s.parent| && p < |s.parent| && i <= |s.kids[p]|
    requires s.parent[node] == Null
    ensures Shape(Attached(s, node, p, i))
  {
    var t := Attached(s, node, p, i);
    var ks := s.kids[p];
    var n := |s.parent|;
    SizedAttached(s, node, p, i);
    assert node !in ks by {
      if node in ks {
        ChildIsNotRoot(s, p, node);
      }
    }
    assert NodeShape(s, p);
    DistinctInsert(ks, node, i);
    forall x: nat | x < n ensures NodeShape(t, x) {
      assert NodeShape(s, x);
      if x == p && ks != [] && i > 0 {
        assert t.kids[p][0] == ks[0];
      }
    }
    forall x: nat, j: nat ensures ChildShape(t, x, j) {
      if x == p && j < |t.kids[p]| {
        var y := t.kids[x][j];
        assert y in t.kids[p];
        if y != node {
          ChildIsNotRoot(s, p, y);
        }
      } else if x < n && j < |t.kids[x]| {
        assert ChildShape(s, x, j);
      }
    }
    forall d: nat | d < n ensures ParentShape(t, d) {
      assert ParentShape(s, d);
    }
  }

  lemma RingsAttached(s: Links, node: nat, p: nat, i: nat)
    requires Shape(s) && Rings(s) && node < |s.parent| && p < |s.parent| && i <= |s.kids[p]|
    requires s.parent[node] == Null
    ensures Rings(Attached(s, node, p, i))
  {
    var t := Attached(s, node, p, i);
    var ks := s.kids[p];
    var n := |s.parent|;
    assert RootLoop(s, node);
    assert node !in ks by {
      if node in ks {
        ChildIsNotRoot(s, p, node);
      }
    }
    assert NodeShape(s, p);
    if ks == [] {
      assert t.kids[p] == [node];
      assert Ring(t.next, t.prev, [node]) by {
        assert t.next[[node][0]] == node && t.prev[[node][0]] == node;
      }
      forall d: nat | d < n ensures RootLoop(t, d) {
        assert RootLoop(s, d);
      }
    } else {
      RingInsert(s.next, s.prev, ks, node, i);
      var m := Successor(ks, i);
      assert Ring(s.next, s.prev, ks);
      assert m in ks && s.prev[m] in ks by {
        if i < |ks| {
          assert s.prev[ks[i]] == Before(ks, i);
        } else {
          assert s.prev[ks[0]] == Before(ks, 0);
        }
      }
      forall x: nat | x < n && x != p ensures Ring(t.next, t.prev, t.kids[x]) {
        RingsAttachedElsewhere(s, t, node, p, m, x);
      }
      forall d: nat | d < n ensures RootLoop(t, d) {
        assert RootLoop(s, d);
        if t.parent[d] == Null {
          assert d !in ks by {
            if d in ks {
              ChildIsNotRoot(s, p, d);
            }
          }
        }
      }
    }
  }

  /** The rings other than `p`'s do not hold `node` or the two nodes whose links
      change, so they are unchanged. */
  lemma RingsAttachedElsewhere(s: Links, t: Links, node: nat, p: nat, m: nat, x: nat)
    requires Shape(s) && Rings(s) && node < |s.parent| && p < |s.parent| && x < |s.parent| && x != p
    requires s.parent[node] == Null && m in s.kids[p] && s.prev[m] in s.kids[p]
    requires t.next == s.next[node := m][s.prev[m] := node] && t.prev == s.prev[node := s.prev[m]][m := node]
    requires |t.kids| == |s.kids| && t.kids[x] == s.kids[x]
    ensures Ring(t.next, t.prev, t.kids[x])
  {
    var ks := s.kids[p];
    forall j | 0 <= j < |s.kids[x]|
      ensures s.kids[x][j] < |t.next| && s.kids[x][j] < |t.prev|
      ensures t.next[s.kids[x][j]] == s.next[s.kids[x][j]] && t.prev[s.kids[x][j]] == s.prev[s.kids[x][j]]
    {
      var y := s.kids[x][j];
      assert ChildShape(s, x, j);
      assert y !in ks by {
        if y in ks {
          ChildIsNotRoot(s, p, y);
        }
      }
    }
    assert Ring(s.next, s.prev, s.kids[x]);
    RingFrame(s.next, s.prev, t.next, t.prev, s.kids[x]);
  }

  lemma AncestryAttached(s: Links, node: nat, p: nat, i: nat)
    requires Shape(s) && Ancestry(s) && node < |s.parent| && p < |s.parent| && i <= |s.kids[p]|
    requires s.parent[node] == Null && !InSubtree(s, p, node)
    ensures Ancestry(Attached(s, node, p, i))
  {
    var t := Attached(s, node, p, i);
    forall d: nat | d < |s.parent| ensures AncestryAt(t, d) {
      AncestryAttachedAt(s, t, node, p, d);
    }
  }

  lemma AncestryAttachedAt(s: Links, t: Links, node: nat, p: nat, d: nat)
    requires Ancestry(s) && node < |s.parent| && p < |s.parent| && d < |s.parent|
    requires s.parent[node] == Null && !InSubtree(s, p, node)
    requires t.parent == s.parent[node := p] && t.anc == AttachedAnc(s.anc, node, p)
    requires t.bound == s.bound + |s.anc[p]| + 1
    ensures AncestryAt(t, d)
  {
    assert AncestryAt(s, d);
    if d == node {
      assert s.anc[node] == [];
      assert t.anc[p] == s.anc[p];
      assert t.anc[d] == [p] + s.anc[p];
    } else if s.parent[d] == Null {
      assert s.anc[d] == [];
      assert t.anc[d] == [];
    } else if InSubtree(s, d, node) {
      SubtreeOfAncestor(s, p, d, node);
      AncestryAttachedBelow(s, t, node, p, d);
    } else {
      AncestryAttachedAside(s, t, node, p, d);
    }
  }

  /** A node of the moved subtree, other than its root, gains `p` and
      `p`'s ancestors at the end of its chain. */
  lemma AncestryAttachedBelow(s: Links, t: Links, node: nat, p: nat, d: nat)
    requires AncestryAt(s, d) && node < |s.parent| && p < |s.parent| && d < |s.parent|
    requires s.parent[node] == Null && !InSubtree(s, p, node)
    requires t.parent == s.parent[node := p] && t.anc == AttachedAnc(s.anc, node, p)
    requires t.bound == s.bound + |s.anc[p]| + 1
    requires d != node && s.parent[d] != Null && InSubtree(s, d, node) && d !in s.anc[p]
    ensures AncestryAt(t, d)
  {
    var q := s.parent[d] as nat;
    assert s.anc[d] == [q] + s.anc[q];
    assert InSubtree(s, q, node);
    assert t.anc[q] == s.anc[q] + [p] + s.anc[p];
    assert t.anc[d] == s.anc[d] + [p] + s.anc[p];
    assert d != p;
    ChainGrows(s.anc[d], s.anc[q], s.anc[p], q, p, d);
  }

  /** A chain `[q] + aq` not holding `d`, extended by `p` and `p`'s chain,
      both not holding `d` either. */
  lemma ChainGrows(ad: seq<nat>, aq: seq<nat>, ap: seq<nat>, q: nat, p: nat, d: nat)
    requires ad == [q] + aq && d !in ad && d != p && d !in ap
    ensures ad + [p] + ap == [q] + (aq + [p] + ap) && d !in ad + [p] + ap
    ensures |ad + [p] + ap| == |ad| + 1 + |ap|
  {
    assert ad + [p] + ap == [q] + (aq + [p] + ap);
  }

  /** A node outside the moved subtree keeps its chain. */
  lemma AncestryAttachedAside(s: Links, t: Links, node: nat, p: nat, d: nat)
    requires AncestryAt(s, d) && node < |s.parent| && p < |s.parent| && d < |s.parent|
    requires s.parent[node] == Null
    requires t.parent == s.parent[node := p] && t.anc == AttachedAnc(s.anc, node, p)
    requires t.bound == s.bound + |s.anc[p]| + 1
    requires d != node && s.parent[d] != Null && !InSubtree(s, d, node)
    ensures AncestryAt(t, d)
  {
    var q := s.parent[d] as nat;
    assert s.anc[d] == [q] + s.anc[q];
    assert !InSubtree(s, q, node);
    assert t.anc[d] == s.anc[d] && t.anc[q] == s.anc[q];
  }

  /* ---------- Detaching ---------- */

  /** The ancestor chains once `node` leaves its parent: its whole subtree
      loses the parent and the parent's ancestors. */
  ghost function DetachedAnc(anc: seq<seq<nat>>, node: nat): (r: seq<seq<nat>>)
    requires node < |anc|
    ensures |r| == |anc|
  {
    seq(|anc|, d requires 0 <= d < |anc| =>
      if (d == node || node in anc[d]) && |anc[node]| <= |anc[d]| then anc[d][..|anc[d]| - |anc[node]|] else anc[d])
  }

  /** The links after DetachParent of `node`, the child at position `j` of its
      parent's list. */
  ghost function Detached(s: Links, node: nat, j: nat): Links
    requires Shape(s) && node < |s.parent| && 0 <= s.parent[node] < |s.parent|
    requires j < |s.kids[s.parent[node]]| && s.kids[s.parent[node]][j] == node
  {
    var p := s.parent[node] as nat;
    var ks := s.kids[p];
    var nx := s.next[node];
    var pv := s.prev[node];
    s.(firstChild := if s.firstChild[p] == node then s.firstChild[p := if nx == node then Null else nx] else s.firstChild,
       count := s.count[p := s.count[p] - 1],
       next := s.next[pv := nx][node := node], prev := s.prev[nx := pv][node := node],
       parent := s.parent[node := Null], kids := s.kids[p := ks[..j] + ks[j + 1..]],
       anc := DetachedAnc(s.anc, node))
  }

  /** The links Detached leaves, field by field. */
  lemma DetachedLinks(t: Links, node: nat, j: nat)
    requires Shape(t) && node < |t.parent| && 0 <= t.parent[node] < |t.parent|
    requires j < |t.kids[t.parent[node]]| && t.kids[t.parent[node]][j] == node
    ensures var u := Detached(t, node, j); var p := t.parent[node]; var nx := t.next[node]; var pv := t.prev[node];
      && u.firstChild == (if t.firstChild[p] == node then t.firstChild[p := if nx == node then Null else nx] else t.firstChild)
      && u.count == t.count[p := t.count[p] - 1] && u.parent == t.parent[node := Null]
      && u.next == t.next[pv := nx][node := node] && u.prev == t.prev[nx := pv][node := node]
  {
  }

  lemma ShapeDetached(s: Links, node: nat, j: nat)
    requires Shape(s) && Rings(s) && node < |s.parent| && 0 <= s.parent[node] < |s.parent|
    requires j < |s.kids[s.parent[node]]| && s.kids[s.parent[node]][j] == node
    ensures Shape(Detached(s, node, j))
  {
    var t := Detached(s, node, j);
    var p := s.parent[node] as nat;
    var ks := s.kids[p];
    var n := |s.parent|;
    assert NodeShape(s, p) && Ring(s.next, s.prev, ks);
    assert s.next[ks[j]] == After(ks, j);
    DistinctRemove(ks, j);
    forall x: nat | x < n ensures NodeShape(t, x) {
      assert NodeShape(s, x);
      if x == p && |ks| > 1 {
        assert t.kids[p][0] == (if j == 0 then ks[1] else ks[0]);
      }
    }
    forall x: nat, k: nat ensures ChildShape(t, x, k) {
      if x == p && k < |t.kids[p]| {
        var y := t.kids[x][k];
        assert y in t.kids[p];
        ChildIsNotRoot(s, p, y);
      } else if x < n && k < |t.kids[x]| {
        assert ChildShape(s, x, k);
      }
    }
    forall d: nat | d < n ensures ParentShape(t, d) {
      assert ParentShape(s, d);
    }
  }

  lemma RingsDetached(s: Links, node: nat, j: nat)
    requires Shape(s) && Rings(s) && node < |s.parent| && 0 <= s.parent[node] < |s.parent|
    requires j < |s.kids[s.parent[node]]| && s.kids[s.parent[node]][j] == node
    ensures Rings(Detached(s, node, j))
  {
    var t := Detached(s, node, j);
    var p := s.parent[node] as nat;
    var ks := s.kids[p];
    var n := |s.parent|;
    assert NodeShape(s, p) && Ring(s.next, s.prev, ks);
    assert s.next[ks[j]] == After(ks, j) && s.prev[ks[j]] == Before(ks, j);
    RingRemove(s.next, s.prev, ks, j);
    forall x: nat | x < n && x != p ensures Ring(t.next, t.prev, t.kids[x]) {
      forall k | 0 <= k < |s.kids[x]|
        ensures s.kids[x][k] < |t.next| && s.kids[x][k] < |t.prev|
        ensures t.next[s.kids[x][k]] == s.next[s.kids[x][k]] && t.prev[s.kids[x][k]] == s.prev[s.kids[x][k]]
      {
        var y := s.kids[x][k];
        assert ChildShape(s, x, k);
        assert y !in ks by {
          if y in ks {
            ChildIsNotRoot(s, p, y);
          }
        }
      }
      assert Ring(s.next, s.prev, s.kids[x]);
      RingFrame(s.next, s.prev, t.next, t.prev, s.kids[x]);
    }
    forall d: nat | d < n ensures RootLoop(t, d) {
      assert RootLoop(s, d);
      if t.parent[d] == Null && d != node {
        assert d !in ks by {
          if d in ks {
            ChildIsNotRoot(s, p, d);
          }
        }
      }
    }
  }

  lemma AncestryDetached(s: Links, node: nat, j: nat)
    requires Shape(s) && Ancestry(s) && node < |s.parent| && 0 <= s.parent[node] < |s.parent|
    requires j < |s.kids[s.parent[node]]| && s.kids[s.parent[node]][j] == node
    ensures Ancestry(Detached(s, node, j))
  {
    var t := Detached(s, node, j);
    forall d: nat | d < |s.parent| ensures AncestryAt(t, d) {
      AncestryDetachedAt(s, t, node, d);
    }
  }

  lemma AncestryDetachedAt(s: Links, t: Links, node: nat, d: nat)
    requires Ancestry(s) && node < |s.parent| && d < |s.parent|
    requires t.parent == s.parent[node := Null] && t.anc == DetachedAnc(s.anc, node) && t.bound == s.bound
    ensures AncestryAt(t, d)
  {
    assert AncestryAt(s, d);
    if d == node {
      assert t.anc[d] == [];
    } else if s.parent[d] == Null {
      assert s.anc[d] == [];
    } else {
      var q := s.parent[d] as nat;
      assert s.anc[d] == [q] + s.anc[q];
      if InSubtree(s, d, node) {
        assert InSubtree(s, q, node);
        if q != node {
          AncestorSuffix(s, q, node);
        }
        var k := |s.anc[q]| - |s.anc[node]|;
        assert t.anc[q] == s.anc[q][..k];
        assert t.anc[d] == ([q] + s.anc[q])[..k + 1];
        assert t.anc[d] == [q] + s.anc[q][..k];
        assert forall y :: y in t.anc[d] ==> y in s.anc[d];
      } else {
        assert !InSubtree(s, q, node);
      }
    }
  }

  /** The links after DetachChildren of `x`: each child becomes a root whose
      ring is itself. */
  ghost function ChildrenDetached(s: Links, x: nat): Links
    requires Shape(s) && x < |s.parent|
  {
    var ks := s.kids[x];
    var n := |s.parent|;
    s.(parent := seq(n, d requires 0 <= d < n => if d in ks then Null else s.parent[d]),
       next := seq(n, d requires 0 <= d < n => if d in ks then d else s.next[d]),
       prev := seq(n, d requires 0 <= d < n => if d in ks then d else s.prev[d]),
       count := s.count[x := 0], firstChild := s.firstChild[x := Null], kids := s.kids[x := []],
       anc := seq(n, d requires 0 <= d < n =>
         if x in s.anc[d] && |s.anc[x]| < |s.anc[d]| then s.anc[d][..|s.anc[d]| - |s.anc[x]| - 1] else s.anc[d]))
  }

  lemma ShapeChildrenDetached(s: Links, x: nat)
    requires Shape(s) && x < |s.parent|
    ensures Shape(ChildrenDetached(s, x))
  {
    var t := ChildrenDetached(s, x);
    var ks := s.kids[x];
    var n := |s.parent|;
    forall y: nat | y < n ensures NodeShape(t, y) {
      assert NodeShape(s, y);
    }
    forall y: nat, k: nat ensures ChildShape(t, y, k) {
      if y < n && y != x && k < |t.kids[y]| {
        assert ChildShape(s, y, k);
        assert s.kids[y][k] !in ks by {
          if s.kids[y][k] in ks {
            ChildIsNotRoot(s, x, s.kids[y][k]);
          }
        }
      }
    }
    forall d: nat | d < n ensures ParentShape(t, d) {
      assert ParentShape(s, d);
    }
  }

  lemma RingsChildrenDetached(s: Links, x: nat)
    requires Shape(s) && Rings(s) && x < |s.parent|
    ensures Rings(ChildrenDetached(s, x))
  {
    var t := ChildrenDetached(s, x);
    var ks := s.kids[x];
    var n := |s.parent|;
    forall y: nat | y < n && y != x ensures Ring(t.next, t.prev, t.kids[y]) {
      forall k | 0 <= k < |s.kids[y]|
        ensures s.kids[y][k] < |t.next| && s.kids[y][k] < |t.prev|
        ensures t.next[s.kids[y][k]] == s.next[s.kids[y][k]] && t.prev[s.kids[y][k]] == s.prev[s.kids[y][k]]
      {
        assert ChildShape(s, y, k);
        assert s.kids[y][k] !in ks by {
          if s.kids[y][k] in ks {
            ChildIsNotRoot(s, x, s.kids[y][k]);
          }
        }
      }
      assert Ring(s.next, s.prev, s.kids[y]);
      RingFrame(s.next, s.prev, t.next, t.prev, s.kids[y]);
    }
    forall d: nat | d < n ensures RootLoop(t, d) {
      assert RootLoop(s, d);
    }
  }

  lemma AncestryChildrenDetached(s: Links, x: nat)
    requires Shape(s) && Ancestry(s) && x < |s.parent|
    ensures Ancestry(ChildrenDetached(s, x))
  {
    var t := ChildrenDetached(s, x);
    forall d: nat | d < |s.parent| ensures AncestryAt(t, d) {
      AncestryChildrenDetachedAt(s, x, d);
    }
  }

  lemma AncestryChildrenDetachedAt(s: Links, x: nat, d: nat)
    requires Shape(s) && Ancestry(s) && x < |s.parent| && d < |s.parent|
    ensures AncestryAt(ChildrenDetached(s, x), d)
  {
    var t := ChildrenDetached(s, x);
    var ks := s.kids[x];
    assert AncestryAt(s, d) && ParentShape(s, d);
    if d in ks {
      ChildIsNotRoot(s, x, d);
      assert s.anc[d] == [x] + s.anc[x];
      assert t.anc[d] == [];
    } else if s.parent[d] == Null {
      assert s.anc[d] == [];
    } else {
      var q := s.parent[d] as nat;
      assert q != x;
      assert s.anc[d] == [q] + s.anc[q];
      if x in s.anc[q] {
        AncestorSuffix(s, q, x);
        var k := |s.anc[q]| - |s.anc[x]| - 1;
        assert t.anc[q] == s.anc[q][..k];
        assert t.anc[d] == ([q] + s.anc[q])[..k + 1];
        assert t.anc[d] == [q] + s.anc[q][..k];
        assert forall y :: y in t.anc[d] ==> y in s.anc[d];
      }
    }
  }

  /* ---------- Whole transitions ---------- */

  lemma AttachedWellformed(s: Links, node: nat, p: nat, i: nat)
    requires Wellformed(s) && node < |s.parent| && p < |s.parent| && i <= |s.kids[p]|
    requires s.parent[node] == Null && !InSubtree(s, p, node)
    ensures Wellformed(Attached(s, node, p, i))
  {
    ShapeAttached(s, node, p, i);
    RingsAttached(s, node, p, i);
    AncestryAttached(s, node, p, i);
  }

  lemma DetachedWellformed(s: Links, node: nat, j: nat)
    requires Wellformed(s) && node < |s.parent| && 0 <= s.parent[node] < |s.parent|
    requires j < |s.kids[s.parent[node]]| && s.kids[s.parent[node]][j] == node
    ensures Wellformed(Detached(s, node, j))
  {
    ShapeDetached(s, node, j);
    RingsDetached(s, node, j);
    AncestryDetached(s, node, j);
  }

  lemma ChildrenDetachedWellformed(s: Links, x: nat)
    requires Wellformed(s) && x < |s.parent|
    ensures Wellformed(ChildrenDetached(s, x))
  {
    ShapeChildrenDetached(s, x);
    RingsChildrenDetached(s, x);
    AncestryChildrenDetached(s, x);
  }

  /** Removing the node just inserted gives back the ancestor lists. */
  lemma DetachedAncUndoes(s: Links, node: nat, p: nat)
    requires Ancestry(s) && node < |s.parent| && p < |s.parent| && s.parent[node] == Null && !InSubtree(s, p, node)
    ensures DetachedAnc(AttachedAnc(s.anc, node, p), node) == s.anc
  {
    var a := AttachedAnc(s.anc, node, p);
    assert AncestryAt(s, node);
    forall d | 0 <= d < |s.anc| ensures DetachedAnc(a, node)[d] == s.anc[d] {
      assert a[node] == [p] + s.anc[p];
      if d == node || node in s.anc[d] {
        assert node in a[d] || d == node;
      } else {
        assert a[d] == s.anc[d];
      }
    }
  }

  /** Splicing a self-looped `node` in before `m` and splicing it out again
      leaves the links as they were. */
  lemma RingUndo(next: seq<nat>, prev: seq<nat>, node: nat, m: nat)
    requires node < |next| == |prev| && m < |next| && prev[m] < |next|
    requires next[node] == node && prev[node] == node && next[prev[m]] == m && m != node && prev[m] != node
    ensures var tn := next[node := m][prev[m] := node]; var tp := prev[node := prev[m]][m := node];
      tn[node] == m && tp[node] == prev[m] &&
      tn[tp[node] := tn[node]][node := node] == next && tp[tn[node] := tp[node]][node := node] == prev
  {
  }

  /** The child `m` of `p` and the child before it round the ring. */
  lemma UndoFacts(s: Links, p: nat, m: nat)
    requires Wellformed(s) && p < |s.parent| && m in s.kids[p]
    ensures m < |s.parent| && s.parent[m] == p && s.prev[m] < |s.parent| && s.parent[s.prev[m]] == p
    ensures s.next[s.prev[m]] == m
  {
    Facts(s, p);
    var ks := s.kids[p];
    var k := IndexOf(ks, m);
    ChildIsNotRoot(s, p, m);
    assert s.prev[ks[k]] == Before(ks, k);
    ChildIsNotRoot(s, p, s.prev[m]);
    if k == 0 {
      assert s.next[ks[|ks| - 1]] == After(ks, |ks| - 1);
    } else {
      assert s.next[ks[k - 1]] == After(ks, k - 1);
    }
  }

  /** Detaching a node right after attaching it restores every link and list;
      only the bound on the depth stays raised. */
  lemma DetachUndoesAttach(s: Links, node: nat, p: nat, i: nat)
    requires Wellformed(s) && node < |s.parent| && p < |s.parent| && i <= |s.kids[p]|
    requires s.parent[node] == Null && !InSubtree(s, p, node)
    ensures var t := Attached(s, node, p, i);
      Shape(t) && t.parent[node] == p && i < |t.kids[p]| && t.kids[p][i] == node &&
      Detached(t, node, i) == s.(bound := t.bound)
  {
    var t := Attached(s, node, p, i);
    AttachedWellformed(s, node, p, i);
    Facts(s, p);
    var ks := s.kids[p];
    var l := ks[..i] + [node] + ks[i..];
    assert t.kids[p] == l && l[i] == node;
    UndoLinks(s, node, p, i);
    UndoLists(s, node, p, i);
  }

  /** The child lists and ancestor lists of DetachUndoesAttach. */
  lemma UndoLists(s: Links, node: nat, p: nat, i: nat)
    requires Shape(s) && Ancestry(s) && node < |s.parent| && p < |s.parent| && i <= |s.kids[p]|
    requires s.parent[node] == Null && !InSubtree(s, p, node)
    requires Shape(Attached(s, node, p, i))
    requires i < |Attached(s, node, p, i).kids[p]| && Attached(s, node, p, i).kids[p][i] == node
    ensures var u := Detached(Attached(s, node, p, i), node, i); u.kids == s.kids && u.anc == s.anc
  {
    var ks := s.kids[p];
    var l := ks[..i] + [node] + ks[i..];
    assert l[..i] + l[i + 1..] == ks;
    DetachedAncUndoes(s, node, p);
  }

  /** The link fields of DetachUndoesAttach. */
  lemma UndoLinks(s: Links, node: nat, p: nat, i: nat)
    requires Wellformed(s) && node < |s.parent| && p < |s.parent| && i <= |s.kids[p]|
    requires s.parent[node] == Null && !InSubtree(s, p, node)
    requires Shape(Attached(s, node, p, i))
    requires i < |Attached(s, node, p, i).kids[p]| && Attached(s, node, p, i).kids[p][i] == node
    ensures var u := Detached(Attached(s, node, p, i), node, i);
      u.next == s.next && u.prev == s.prev && u.firstChild == s.firstChild && u.count == s.count && u.parent == s.parent
  {
    assert RootLoop(s, node);
    AttachedLinks(s, node, p, i);
    DetachedLinks(Attached(s, node, p, i), node, i);
    var ks := s.kids[p];
    if ks != [] {
      var m := Successor(ks, i);
      UndoFacts(s, p, m);
      RingUndo(s.next, s.prev, node, m);
      ChildIsNotRoot(s, p, ks[0]);
    }
  }



  /** The links after a new root is added. */
  ghost function Added(s: Links): Links {
    var n := |s.parent|;
    s.(next := s.next + [n], prev := s.prev + [n], parent := s.parent + [Null], firstChild := s.firstChild + [Null],
       count := s.count + [0], kids := s.kids + [[]], anc := s.anc + [[]])
  }

  lemma AddedWellformed(s: Links)
    requires Wellformed(s)
    ensures Wellformed(Added(s))
  {
    var t := Added(s);
    var n := |s.parent|;
    forall x: nat | x < n + 1 ensures NodeShape(t, x) {
      if x < n {
        assert NodeShape(s, x);
      }
    }
    forall x: nat, j: nat ensures ChildShape(t, x, j) {
      if x < n {
        assert ChildShape(s, x, j);
      }
    }
    forall d: nat | d < n + 1 ensures ParentShape(t, d) && RootLoop(t, d) && AncestryAt(t, d) {
      if d < n {
        assert ParentShape(s, d) && RootLoop(s, d) && AncestryAt(s, d);
      }
    }
    forall x: nat | x < n + 1 ensures Ring(t.next, t.prev, t.kids[x]) {
      if x < n {
        assert Ring(s.next, s.prev, s.kids[x]);
        RingFrame(s.next, s.prev, t.next, t.prev, s.kids[x]);
      }
    }
  }

  /** What the invariant says about one node. */
  lemma Facts(s: Links, d: nat)
    requires Wellformed(s) && d < |s.parent|
    ensures NodeShape(s, d) && ParentShape(s, d) && RootLoop(s, d) && AncestryAt(s, d)
    ensures Ring(s.next, s.prev, s.kids[d])
  {
  }

  /** A child's `next` link returns to the parent's first child exactly when
      the child is the last one; otherwise it is the following child. */
  lemma NextLinkOfChild(s: Links, node: nat)
    requires Wellformed(s) && node < |s.parent| && s.parent[node] != Null
    ensures 0 <= s.parent[node] < |s.kids| && s.parent[node] < |s.firstChild| && node < |s.next|
    ensures forall j :: 0 <= j < |s.kids[s.parent[node]]| && s.kids[s.parent[node]][j] == node ==>
      && (s.next[node] == s.firstChild[s.parent[node]] <==> j + 1 == |s.kids[s.parent[node]]|)
      && (j + 1 < |s.kids[s.parent[node]]| ==> s.next[node] == s.kids[s.parent[node]][j + 1])
  {
    Facts(s, node);
    Facts(s, s.parent[node]);
    AfterIsFirst(s.kids[s.parent[node]]);
  }

  /** The position of `y` in `ks`. */
  function IndexOf(ks: seq<nat>, y: nat): (j: nat)
    requires y in ks
    ensures j < |ks| && ks[j] == y
  {
    if ks[0] == y then 0 else 1 + IndexOf(ks[1..], y)
  }

  /** The nodes from `c` up to its root; empty for null. */
  ghost function Above(s: Links, c: int): seq<nat>
    requires -1 <= c < |s.anc|
  {
    if c == Null then [] else [c as nat] + s.anc[c]
  }

  /** The nodes a root-first walk of the subtree of `x` visits: `x`, then the
      walk of each child in sibling order. */
  ghost function SubtreeOrder(s: Links, x: nat): (r: seq<nat>)
    requires Wellformed(s) && x < |s.parent|
    ensures |r| >= 1 && r[0] == x
    decreases s.bound - |s.anc[x]|, |s.kids[x]| + 1
  {
    Facts(s, x);
    [x] + ChildrenOrder(s, x, |s.kids[x]|)
  }

  /** One turn of the walk round `x`'s children at position `i`: the child
      there is one level deeper, its walk extends the walk so far, and the
      ring leads back to the first child exactly after the last one. */
  lemma WalkStep(s: Links, x: nat, i: nat, m: nat -> bool)
    requires Wellformed(s) && x < |s.parent| && i < |s.kids[x]|
    ensures var ks := s.kids[x];
      && ks[i] < |s.parent| && ks[i] < |s.next| && s.anc[ks[i]] == [x] + s.anc[x] && |s.anc[x]| < s.bound
      && FirstMatch(ChildrenOrder(s, x, i + 1), m) ==
         (if FirstMatch(ChildrenOrder(s, x, i), m).Some? then FirstMatch(ChildrenOrder(s, x, i), m)
          else FirstMatch(SubtreeOrder(s, ks[i]), m))
      && s.next[ks[i]] == After(ks, i) && s.firstChild[x] == ks[0]
      && (After(ks, i) == ks[0] <==> i + 1 == |ks|)
  {
    Facts(s, x);
    var ks := s.kids[x];
    ChildFacts(s, x, i);
    FirstMatchOfConcat(ChildrenOrder(s, x, i), SubtreeOrder(s, ks[i]), m);
    assert s.next[ks[i]] == After(ks, i);
    if i + 1 < |ks| {
      assert ks[0] != ks[i + 1];
    }
  }

  /** The walks of the first `i` children of `x`, one after the other. */
  ghost function ChildrenOrder(s: Links, x: nat, i: nat): seq<nat>
    requires Wellformed(s) && x < |s.parent| && i <= |s.kids[x]|
    decreases s.bound - |s.anc[x]|, i
  {
    Facts(s, x);
    if i == 0 then []
    else
      ChildFacts(s, x, i - 1);
      ChildrenOrder(s, x, i - 1) + SubtreeOrder(s, s.kids[x][i - 1])
  }

  /** The child at position `j` of `x` is a node one level below `x`. */
  lemma ChildFacts(s: Links, x: nat, j: nat)
    requires Wellformed(s) && x < |s.parent| && j < |s.kids[x]|
    ensures s.kids[x][j] < |s.parent| && s.parent[s.kids[x][j]] == x
    ensures s.anc[s.kids[x][j]] == [x] + s.anc[x]
    ensures |s.anc[x]| < s.bound
  {
    assert ChildShape(s, x, j);
    Facts(s, s.kids[x][j]);
  }

  /** A node of the walk of the first `i` children of `x` lies in the walk of
      one of them. */
  lemma {:induction false} WalkOfChild(s: Links, x: nat, i: nat, d: nat) returns (j: nat)
    requires Wellformed(s) && x < |s.parent| && i <= |s.kids[x]|
    requires d in ChildrenOrder(s, x, i)
    ensures j < i && s.kids[x][j] < |s.parent| && d in SubtreeOrder(s, s.kids[x][j])
    decreases i
  {
    ChildFacts(s, x, i - 1);
    if d in SubtreeOrder(s, s.kids[x][i - 1]) {
      j := i - 1;
    } else {
      j := WalkOfChild(s, x, i - 1, d);
    }
  }

  /** The walk of the first `i` children of `x` includes the walk of each of them. */
  lemma {:induction false} ChildWalkIncluded(s: Links, x: nat, i: nat, j: nat, d: nat)
    requires Wellformed(s) && x < |s.parent| && j < i <= |s.kids[x]|
    requires s.kids[x][j] < |s.parent| && d in SubtreeOrder(s, s.kids[x][j])
    ensures d in ChildrenOrder(s, x, i)
    decreases i
  {
    ChildFacts(s, x, i - 1);
    if j < i - 1 {
      ChildWalkIncluded(s, x, i - 1, j, d);
    }
  }

  /** Every node of the walk of `x` is `x` or one of its descendants. */
  lemma {:induction false} WalkWithinSubtree(s: Links, x: nat, d: nat)
    requires Wellformed(s) && x < |s.parent| && d < |s.parent|
    requires d in SubtreeOrder(s, x)
    ensures InSubtree(s, d, x)
    decreases s.bound - |s.anc[x]|
  {
    Facts(s, x);
    if d != x {
      var j := WalkOfChild(s, x, |s.kids[x]|, d);
      var c := s.kids[x][j];
      ChildFacts(s, x, j);
      WalkWithinSubtree(s, c, d);
      SubtreeOfAncestor(s, d, c, x);
    }
  }

  /** A child of `x` is on the walk of `x`. */
  lemma ChildOnWalk(s: Links, x: nat, d: nat)
    requires Wellformed(s) && x < |s.parent| && d < |s.parent| && s.parent[d] == x
    ensures d in SubtreeOrder(s, x)
  {
    Facts(s, d);
    var j := IndexOf(s.kids[x], d);
    ChildFacts(s, x, j);
    ChildWalkIncluded(s, x, |s.kids[x]|, j, d);
  }

  /** The walk of `x` is closed under taking children. */
  lemma {:induction false} WalkClosed(s: Links, x: nat, p: nat, d: nat)
    requires Wellformed(s) && x < |s.parent| && p < |s.parent| && d < |s.parent| && s.parent[d] == p
    requires p in SubtreeOrder(s, x)
    ensures d in SubtreeOrder(s, x)
    decreases s.bound - |s.anc[x]|
  {
    Facts(s, x);
    if p == x {
      ChildOnWalk(s, x, d);
    } else {
      var j := WalkOfChild(s, x, |s.kids[x]|, p);
      var c := s.kids[x][j];
      ChildFacts(s, x, j);
      WalkClosed(s, c, p, d);
      ChildWalkIncluded(s, x, |s.kids[x]|, j, d);
    }
  }

  /** Every descendant of `x` is on the walk of `x`. */
  lemma {:induction false} SubtreeOnWalk(s: Links, x: nat, d: nat)
    requires Wellformed(s) && x < |s.parent| && d < |s.parent|
    requires InSubtree(s, d, x)
    ensures d in SubtreeOrder(s, x)
    decreases |s.anc[d]|
  {
    Facts(s, d);
    if d != x {
      var p := s.parent[d];
      Facts(s, p);
      if p == x {
        ChildOnWalk(s, x, d);
      } else {
        SubtreeOnWalk(s, x, p);
        WalkClosed(s, x, p, d);
      }
    }
  }

  /** The walk of `x` visits exactly `x` and its descendants. */
  lemma SubtreeOrderIsSubtree(s: Links, x: nat, d: nat)
    requires Wellformed(s) && x < |s.parent| && d < |s.parent|
    ensures d in SubtreeOrder(s, x) <==> InSubtree(s, d, x)
  {
    if d in SubtreeOrder(s, x) {
      WalkWithinSubtree(s, x, d);
    }
    if InSubtree(s, d, x) {
      SubtreeOnWalk(s, x, d);
    }
  }

  /** Keeps the nodes whose value satisfies `matches`. */
  function Matching<T>(values: seq<T>, matches: T -> bool): nat -> bool {
    (d: nat) => d < |values| && matches(values[d])
  }

  /* ---------- The forest ---------- */

  class Forest<T> {
    var values: seq<T>
    var next: seq<nat>
    var prev: seq<nat>
    var parent: seq<int>
    var firstChild: seq<int>
    var directChildCount: seq<int>
    ghost var kids: seq<seq<nat>>
    ghost var anc: seq<seq<nat>>
    ghost var bound: nat

    ghost function State(): Links
      reads this
    {
      Links(next, prev, parent, firstChild, directChildCount, kids, anc, bound)
    }

    ghost predicate Valid()
      reads this
    {
      |values| == |parent| && Wellformed(State())
    }

    constructor ()
      ensures Valid() && values == [] && kids == []
    {
      values := [];
      next := [];
      prev := [];
      parent := [];
      firstChild := [];
      directChildCount := [];
      kids := [];
      anc := [];
      bound := 0;
    }

    /** new TreeNode<T>(value): a new root and leaf whose ring is itself. */
    method NewNode(value: T) returns (node: nat)
      requires Valid()
      modifies this
      ensures Valid() && node == old(|values|) && values == old(values) + [value]
      ensures parent == old(parent) + [Null] && kids == old(kids) + [[]] && anc == old(anc) + [[]]
      ensures next == old(next) + [node] && prev == old(prev) + [node]
      ensures IsRoot(node) && IsLeaf(node) && CircularNext(node) == node && CircularPrevious(node) == node
    {
      ghost var s := State();
      node := |values|;
      values := values + [value];
      next := next + [node];
      prev := prev + [node];
      parent := parent + [Null];
      firstChild := firstChild + [Null];
      directChildCount := directChildCount + [0];
      kids := kids + [[]];
      anc := anc + [[]];
      AddedWellformed(s);
    }

    /** TreeNode.next: the following sibling; null for the last child and for a root. */
    function Next(node: nat): (r: int)
      reads this
      requires Valid() && node < |values|
      ensures -1 <= parent[node] < |kids|
      ensures parent[node] == Null ==> r == Null
      ensures parent[node] != Null ==> forall j :: 0 <= j < |kids[parent[node]]| && kids[parent[node]][j] == node ==>
        r == (if j + 1 < |kids[parent[node]]| then kids[parent[node]][j + 1] else Null)
    {
      Facts(State(), node);
      if parent[node] == Null then Null
      else
        NextLinkOfChild(State(), node);
        if next[node] == firstChild[parent[node]] then Null else next[node]
    }

    /** Next at a known position of the parent's child list. */
    lemma NextSibling(c: nat, j: nat)
      requires Valid() && c < |values| && 0 <= parent[c] < |kids| && j < |kids[parent[c]]| && kids[parent[c]][j] == c
      ensures Next(c) == (if j + 1 < |kids[parent[c]]| then kids[parent[c]][j + 1] else Null)
    {
    }

    /** TreeNode.previous: the preceding sibling; null for the first child and for a root. */
    function Previous(node: nat): (r: int)
      reads this
      requires Valid() && node < |values|
      ensures -1 <= parent[node] < |kids|
      ensures parent[node] == Null ==> r == Null
      ensures parent[node] != Null ==> forall j :: 0 <= j < |kids[parent[node]]| && kids[parent[node]][j] == node ==>
        r == (if j > 0 then kids[parent[node]][j - 1] else Null)
    {
      Facts(State(), node);
      if parent[node] == Null then Null
      else
        Facts(State(), parent[node]);
        if node == firstChild[parent[node]] then Null else prev[node]
    }

    /** TreeNode.circularNext: the next node round the ring, never null. */
    function CircularNext(node: nat): (r: nat)
      reads this
      requires Valid() && node < |values|
      ensures -1 <= parent[node] < |kids|
      ensures parent[node] == Null ==> r == node
      ensures parent[node] != Null ==> forall j :: 0 <= j < |kids[parent[node]]| && kids[parent[node]][j] == node ==>
        r == After(kids[parent[node]], j)
    {
      Facts(State(), node);
      if parent[node] != Null then Facts(State(), parent[node]); next[node] else next[node]
    }

    /** TreeNode.circularPrevious: the previous node round the ring, never null. */
    function CircularPrevious(node: nat): (r: nat)
      reads this
      requires Valid() && node < |values|
      ensures -1 <= parent[node] < |kids|
      ensures parent[node] == Null ==> r == node
      ensures parent[node] != Null ==> forall j :: 0 <= j < |kids[parent[node]]| && kids[parent[node]][j] == node ==>
        r == Before(kids[parent[node]], j)
    {
      Facts(State(), node);
      if parent[node] != Null then Facts(State(), parent[node]); prev[node] else prev[node]
    }

    /** TreeNode.lastChild: the previous node round the ring of the first child. */
    function LastChild(node: nat): (r: int)
      reads this
      requires Valid() && node < |values|
      ensures r == (if kids[node] == [] then Null else kids[node][|kids[node]| - 1])
    {
      Facts(State(), node);
      if firstChild[node] == Null then Null
      else
        assert prev[kids[node][0]] == Before(kids[node], 0);
        prev[firstChild[node]]
    }

    /** TreeNode.parent: null for a root. */
    function Parent(node: nat): (r: int)
      reads this
      requires Valid() && node < |values|
      ensures -1 <= r < |values| && r < |kids|
      ensures r == (if anc[node] == [] then Null else anc[node][0])
      ensures r != Null ==> node in kids[r]
    {
      Facts(State(), node);
      parent[node]
    }

    /** TreeNode.firstChild: null for a leaf. */
    function FirstChild(node: nat): (r: int)
      reads this
      requires Valid() && node < |values|
      ensures r == (if kids[node] == [] then Null else kids[node][0])
    {
      Facts(State(), node);
      firstChild[node]
    }

    /** TreeNode.directChildCount. */
    function DirectChildCount(node: nat): (r: int)
      reads this
      requires Valid() && node < |values|
      ensures r == |kids[node]|
    {
      Facts(State(), node);
      directChildCount[node]
    }

    /** TreeNode.isRoot: a root is a node with no ancestors. */
    function IsRoot(node: nat): (r: bool)
      reads this
      requires Valid() && node < |values|
      ensures r <==> anc[node] == []
    {
      Facts(State(), node);
      parent[node] == Null
    }

    /** TreeNode.isLeaf: a leaf is a node with no children. */
    function IsLeaf(node: nat): (r: bool)
      reads this
      requires Valid() && node < |values|
      ensures r <==> kids[node] == []
    {
      Facts(State(), node);
      firstChild[node] == Null
    }

    /** Following the parent link of a node steps one place along its chain. */
    lemma AboveStep(c: nat)
      requires Valid() && c < |values|
      ensures -1 <= parent[c] < |values| && Above(State(), c) == [c] + Above(State(), parent[c])
    {
      Facts(State(), c);
    }

    /** TreeNode.depth: count the parent links up to the root. */
    method Depth(node: nat) returns (depth: int)
      requires Valid() && node < |values|
      ensures depth == |anc[node]|
    {
      ghost var chain := Above(State(), node);
      AboveStep(node);
      depth := 0;
      var cur := parent[node];
      while cur != Null
        invariant -1 <= cur < |values| && 0 <= depth < |chain|
        invariant chain[depth + 1..] == Above(State(), cur)
        decreases |chain| - depth
      {
        AboveStep(cur);
        assert chain[depth + 2..] == chain[depth + 1..][1..];
        depth := depth + 1;
        cur := parent[cur];
      }
    }

    /** TreeNode.root: follow the parent links to the node that has none. */
    method Root(node: nat) returns (root: nat)
      requires Valid() && node < |values|
      ensures root < |values| && parent[root] == Null
      ensures root == (if anc[node] == [] then node else anc[node][|anc[node]| - 1])
    {
      ghost var chain := Above(State(), node);
      root := node;
      ghost var k := 0;
      AboveStep(node);
      while parent[root] != Null
        invariant root < |values| && 0 <= k < |chain|
        invariant chain[k..] == Above(State(), root)
        decreases |chain| - k
      {
        AboveStep(root);
        assert chain[k + 1..] == chain[k..][1..];
        root := parent[root];
        AboveStep(root);
        k := k + 1;
      }
      AboveStep(root);
      assert chain[k..] == [root];
      assert k == |chain| - 1 && chain[k] == root;
    }

    /** TreeNode.IsChildOf(other): is `other` this node or one of its ancestors?
        False for null. */
    method IsChildOf(node: nat, other: int) returns (r: bool)
      requires Valid() && node < |values|
      ensures r <==> other == node || other in anc[node]
      ensures other == Null ==> !r
    {
      ghost var chain := Above(State(), node);
      ghost var k := 0;
      var cur: int := node;
      while cur != Null
        invariant -1 <= cur < |values| && 0 <= k <= |chain|
        invariant chain[k..] == Above(State(), cur)
        invariant other !in chain[..k]
        decreases |chain| - k
      {
        AboveStep(cur);
        if cur == other {
          assert chain[k] == other;
          return true;
        }
        assert chain[k + 1..] == chain[k..][1..] && chain[..k + 1] == chain[..k] + [cur];
        cur := parent[cur];
        k := k + 1;
      }
      assert chain[..k] == chain;
      return false;
    }

    /** TraverseParents(action): the nodes handed to `action`, from this node up
        to its root. */
    method TraverseParents(node: nat) returns (visited: seq<nat>)
      requires Valid() && node < |values|
      ensures visited == [node] + anc[node]
    {
      ghost var s := State();
      ghost var chain := Above(s, node);
      visited := [];
      var cur: int := node;
      while cur != Null
        invariant -1 <= cur < |values| && |visited| <= |chain|
        invariant visited == chain[..|visited|] && chain[|visited|..] == Above(s, cur)
        decreases |chain| - |visited|
      {
        AboveStep(cur);
        ghost var rest := chain[|visited|..];
        assert rest == [cur as nat] + Above(s, parent[cur]);
        assert chain[|visited| + 1..] == rest[1..];
        assert chain[..|visited| + 1] == visited + [cur as nat];
        visited := visited + [cur];
        cur := parent[cur];
      }
    }

    /** FindParent(match): the first of this node and its ancestors whose value
        matches, or null. */
    method FindParent(node: nat, matches: T -> bool) returns (r: Option<nat>)
      requires Valid() && node < |values|
      ensures r == FirstMatch([node] + anc[node], Matching(values, matches))
    {
      ghost var chain := Above(State(), node);
      ghost var k := 0;
      var cur: int := node;
      while cur != Null
        invariant -1 <= cur < |values| && 0 <= k <= |chain|
        invariant chain[k..] == Above(State(), cur)
        invariant FirstMatch(chain, Matching(values, matches)) == FirstMatch(chain[k..], Matching(values, matches))
        decreases |chain| - k
      {
        AboveStep(cur);
        assert chain[k + 1..] == chain[k..][1..];
        if matches(values[cur]) {
          return Some(cur);
        }
        cur := parent[cur];
        k := k + 1;
      }
      return None;
    }

    /** TraverseDirectChildren(action): the children, first to last, following `next`. */
    method TraverseDirectChildren(node: nat) returns (visited: seq<nat>)
      requires Valid() && node < |values|
      ensures visited == kids[node]
    {
      Facts(State(), node);
      visited := [];
      var cur := firstChild[node];
      ghost var i := 0;
      while cur != Null
        invariant 0 <= i <= |kids[node]| && visited == kids[node][..i]
        invariant cur == (if i < |kids[node]| then kids[node][i] else Null)
        decreases |kids[node]| - i
      {
        ChildOfNode(node, i);
        visited := visited + [cur];
        cur := Next(cur);
        i := i + 1;
      }
    }

    /** FindDirectChildren(match): the first child whose value matches, or null. */
    method FindDirectChildren(node: nat, matches: T -> bool) returns (r: Option<nat>)
      requires Valid() && node < |values|
      ensures r == FirstMatch(kids[node], Matching(values, matches))
    {
      Facts(State(), node);
      var cur := firstChild[node];
      ghost var i := 0;
      while cur != Null
        invariant 0 <= i <= |kids[node]|
        invariant cur == (if i < |kids[node]| then kids[node][i] else Null)
        invariant FirstMatch(kids[node], Matching(values, matches)) == FirstMatch(kids[node][i..], Matching(values, matches))
        decreases |kids[node]| - i
      {
        ChildOfNode(node, i);
        assert kids[node][i..][1..] == kids[node][i + 1..];
        if matches(values[cur]) {
          return Some(cur);
        }
        NextSibling(cur, i);
        cur := Next(cur);
        i := i + 1;
      }
      assert kids[node][i..] == [];
      return None;
    }

    /** The child at position `i` of `node`'s list is a node whose parent is `node`. */
    lemma ChildOfNode(node: nat, i: nat)
      requires Valid() && node < |values| && i < |kids[node]|
      ensures kids[node][i] < |values| && parent[kids[node][i]] == node
      ensures anc[kids[node][i]] == [node] + anc[node]
    {
      assert ChildShape(State(), node, i);
      Facts(State(), kids[node][i]);
    }

    /** Two positions of a child list hold the same node only if they are equal. */
    lemma ChildrenDistinct(node: nat, i: nat, j: nat)
      requires Valid() && node < |values| && i < |kids[node]| && j < |kids[node]|
      ensures kids[node][i] == kids[node][j] ==> i == j
    {
      Facts(State(), node);
    }

    /** TraverseChildren(action): the nodes handed to `action`, the root-first
        walk of the subtree of `node`. */
    method TraverseChildren(node: nat) returns (visited: seq<nat>)
      requires Valid() && node < |values|
      ensures visited == SubtreeOrder(State(), node)
      decreases bound - |anc[node]|, 1
    {
      Facts(State(), node);
      visited := [node];
      if firstChild[node] != Null {
        var rest := TraverseChildWalks(node);
        visited := visited + rest;
      }
    }

    /** The do-while loop of TraverseChildren round the ring of children,
        starting and stopping at the first child. */
    method TraverseChildWalks(node: nat) returns (visited: seq<nat>)
      requires Valid() && node < |values| && kids[node] != []
      ensures visited == ChildrenOrder(State(), node, |kids[node]|)
      decreases bound - |anc[node]|, 0
    {
      Facts(State(), node);
      var cur: nat := firstChild[node];
      ghost var i := 0;
      visited := [];
      while true
        invariant i < |kids[node]| && cur == kids[node][i]
        invariant visited == ChildrenOrder(State(), node, i)
        decreases |kids[node]| - i
      {
        ChildFacts(State(), node, i);
        var sub := TraverseChildren(cur);
        visited := visited + sub;
        assert next[kids[node][i]] == After(kids[node], i);
        cur := next[cur];
        i := i + 1;
        ChildrenDistinct(node, 0, i % |kids[node]|);
        if cur == firstChild[node] {
          break;
        }
      }
    }

    /** FindChild(match): the first node of the root-first walk of the subtree
        of `node` whose value matches, or null. */
    method FindChild(node: nat, matches: T -> bool) returns (r: Option<nat>)
      requires Valid() && node < |values|
      ensures r == FirstMatch(SubtreeOrder(State(), node), Matching(values, matches))
      decreases bound - |anc[node]|, 1
    {
      Facts(State(), node);
      FirstMatchOfConcat([node], ChildrenOrder(State(), node, |kids[node]|), Matching(values, matches));
      if matches(values[node]) {
        return Some(node);
      }
      r := None;
      if firstChild[node] != Null {
        r := FindInChildWalks(node, matches);
      }
    }

    /** The do-while loop of FindChild round the ring of children, stopping at
        the first child whose subtree holds a match. */
    method FindInChildWalks(node: nat, matches: T -> bool) returns (r: Option<nat>)
      requires Valid() && node < |values| && kids[node] != []
      ensures r == FirstMatch(ChildrenOrder(State(), node, |kids[node]|), Matching(values, matches))
      decreases bound - |anc[node]|, 0
    {
      Facts(State(), node);
      ghost var m := Matching(values, matches);
      var cur: nat := firstChild[node];
      ghost var i := 0;
      while true
        invariant i < |kids[node]| && cur == kids[node][i]
        invariant FirstMatch(ChildrenOrder(State(), node, i), m).None?
        decreases |kids[node]| - i
      {
        WalkStep(State(), node, i, m);
        r := FindChild(cur, matches);
        if r.Some? {
          ChildrenPrefix(node, i + 1, m);
          return;
        }
        cur := next[cur];
        i := i + 1;
        if cur == firstChild[node] {
          break;
        }
      }
    }

    /** A match among the walks of the first `i` children is the first match of
        the walks of all of them. */
    lemma {:induction false} ChildrenPrefix(node: nat, i: nat, m: nat -> bool)
      requires Valid() && node < |values| && i <= |kids[node]|
      requires FirstMatch(ChildrenOrder(State(), node, i), m).Some?
      ensures FirstMatch(ChildrenOrder(State(), node, |kids[node]|), m) == FirstMatch(ChildrenOrder(State(), node, i), m)
      decreases |kids[node]| - i
    {
      if i < |kids[node]| {
        ChildFacts(State(), node, i);
        FirstMatchOfConcat(ChildrenOrder(State(), node, i), SubtreeOrder(State(), kids[node][i]), m);
        ChildrenPrefix(node, i + 1, m);
      }
    }

    /** InternalAttachChildless: hang a root under a node that has no children. */
    method InternalAttachChildless(node: nat, p: nat)
      requires node < |parent| && p < |directChildCount| && p < |firstChild|
      modifies this
      ensures parent == old(parent[node := p])
      ensures directChildCount == old(directChildCount[p := directChildCount[p] + 1])
      ensures firstChild == old(firstChild[p := node])
      ensures values == old(values) && next == old(next) && prev == old(prev)
      ensures kids == old(kids) && anc == old(anc) && bound == old(bound)
    {
      parent := parent[node := p];
      directChildCount := directChildCount[p := directChildCount[p] + 1];
      firstChild := firstChild[p := node];
    }

    /** InternalAttachBefore: hang a root under `p`, in the ring just before `m`. */
    method InternalAttachBefore(node: nat, p: nat, m: nat)
      requires node < |parent| && node < |next| && node < |prev| && p < |directChildCount|
      requires m < |prev| && prev[m] < |next| && m != node
      modifies this
      ensures parent == old(parent[node := p])
      ensures directChildCount == old(directChildCount[p := directChildCount[p] + 1])
      ensures next == old(next[node := m][prev[m] := node])
      ensures prev == old(prev[node := prev[m]][m := node])
      ensures values == old(values) && firstChild == old(firstChild)
      ensures kids == old(kids) && anc == old(anc) && bound == old(bound)
    {
      parent := parent[node := p];
      next := next[node := m];
      prev := prev[node := prev[m]];
      directChildCount := directChildCount[p := directChildCount[p] + 1];
      next := next[prev[m] := node];
      prev := prev[m := node];
    }

    /** Bring the ghost child lists and ancestor lists up to date once the links
        are those of inserting `node` at position `i` of `p`'s children. */
    ghost method CommitAttach(s: Links, node: nat, p: nat, i: nat)
      requires Wellformed(s) && |values| == |s.parent| && node < |s.parent| && p < |s.parent| && i <= |s.kids[p]|
      requires s.parent[node] == Null && !InSubtree(s, p, node)
      requires var t := Attached(s, node, p, i);
        next == t.next && prev == t.prev && parent == t.parent && firstChild == t.firstChild && directChildCount == t.count
      modifies this
      ensures State() == Attached(s, node, p, i) && Valid() && values == old(values)
    {
      var t := Attached(s, node, p, i);
      kids := t.kids;
      anc := t.anc;
      bound := t.bound;
      AttachedWellformed(s, node, p, i);
    }

    /** The checks of InternalValidateAttaching. */
    function AttachError(node: nat, newParent: int): (r: Option<Error>)
      reads this
      requires node < |parent|
      ensures r == None <==> parent[node] == Null && newParent != Null
      ensures parent[node] != Null ==> r == Some(Thrown(AttachedMessage))
    {
      if parent[node] != Null then Some(Thrown(AttachedMessage))
      else if newParent == Null then Some(ArgumentNull)
      else None
    }

    /** The checks of InternalValidateChild on `newParent` and its child `sibling`. */
    function ChildError(newParent: nat, sibling: int): (r: Option<Error>)
      reads this
      requires -1 <= sibling < |parent|
      ensures r == None <==> sibling != Null && parent[sibling] == newParent
    {
      if sibling == Null then Some(ArgumentNull)
      else if parent[sibling] != newParent then Some(Thrown(NotChildMessage))
      else None
    }

    /** The ring successor of a child is the child after it, wrapping round to
        the first. */
    lemma NextOfChild(p: nat, c: nat)
      requires Valid() && p < |values| && c < |values| && parent[c] == p
      ensures c in kids[p] && IndexOf(kids[p], c) < |kids[p]|
      ensures next[c] == Successor(kids[p], IndexOf(kids[p], c) + 1)
      ensures next[c] < |values| && parent[next[c]] == p
    {
      ChildRing(State(), p, c);
    }

    /** TreeNode.AttachAsFirst(parent): become the first child of `newParent`. */
    method AttachAsFirst(node: nat, newParent: int) returns (o: Outcome)
      requires Valid() && node < |values| && -1 <= newParent < |values|
      requires parent[node] == Null && newParent != Null ==> !InSubtree(State(), newParent, node)
      modifies this
      ensures Valid()
      ensures o == (if old(AttachError(node, newParent)).Some? then Fail(old(AttachError(node, newParent)).value) else Done)
      ensures o.Fail? ==> unchanged(this)
      ensures o.Done? ==> State() == Attached(old(State()), node, newParent, 0)
      ensures o.Done? ==> kids == old(kids[newParent := [node] + kids[newParent]]) && parent == old(parent[node := newParent])
      ensures values == old(values)
    {
      var e := AttachError(node, newParent);
      if e.Some? {
        return Fail(e.value);
      }
      var p: nat := newParent;
      ghost var s := State();
      AttachedLinks(s, node, p, 0);
      if firstChild[p] == Null {
        InternalAttachChildless(node, p);
      } else {
        InternalAttachBefore(node, p, firstChild[p]);
        firstChild := firstChild[p := node];
      }
      CommitAttach(s, node, p, 0);
      assert s.kids[p][..0] + [node] + s.kids[p][0..] == [node] + s.kids[p];
      return Done;
    }

    /** TreeNode.AttachAsLast(parent): become the last child of `newParent`. */
    method AttachAsLast(node: nat, newParent: int) returns (o: Outcome)
      requires Valid() && node < |values| && -1 <= newParent < |values|
      requires parent[node] == Null && newParent != Null ==> !InSubtree(State(), newParent, node)
      modifies this
      ensures Valid()
      ensures o == (if old(AttachError(node, newParent)).Some? then Fail(old(AttachError(node, newParent)).value) else Done)
      ensures o.Fail? ==> unchanged(this)
      ensures o.Done? ==> State() == Attached(old(State()), node, newParent, old(|kids[newParent]|))
      ensures o.Done? ==> kids == old(kids[newParent := kids[newParent] + [node]]) && parent == old(parent[node := newParent])
      ensures values == old(values)
    {
      var e := AttachError(node, newParent);
      if e.Some? {
        return Fail(e.value);
      }
      var p: nat := newParent;
      ghost var s := State();
      AttachedLinks(s, node, p, |s.kids[p]|);
      if firstChild[p] == Null {
        InternalAttachChildless(node, p);
      } else {
        InternalAttachBefore(node, p, firstChild[p]);
      }
      CommitAttach(s, node, p, |s.kids[p]|);
      assert s.kids[p][..|s.kids[p]|] + [node] + s.kids[p][|s.kids[p]|..] == s.kids[p] + [node];
      return Done;
    }

    /** TreeNode.AttachBefore(parent, next): become the child of `newParent`
        just before its child `sibling`, and its first child if `sibling` was. */
    method AttachBefore(node: nat, newParent: int, sibling: int) returns (o: Outcome)
      requires Valid() && node < |values| && -1 <= newParent < |values| && -1 <= sibling < |values|
      requires parent[node] == Null && newParent != Null ==> !InSubtree(State(), newParent, node)
      modifies this
      ensures Valid()
      ensures o.Fail? <==> old(AttachError(node, newParent)).Some? || (newParent != Null && old(ChildError(newParent, sibling)).Some?)
      ensures old(AttachError(node, newParent)).Some? ==> o == Fail(old(AttachError(node, newParent)).value)
      ensures old(AttachError(node, newParent)).None? && old(ChildError(newParent, sibling)).Some? ==>
        o == Fail(old(ChildError(newParent, sibling)).value)
      ensures o.Fail? ==> unchanged(this)
      ensures o.Done? ==> sibling in old(kids[newParent]) && parent == old(parent[node := newParent])
      ensures o.Done? ==> var i := IndexOf(old(kids[newParent]), sibling);
        State() == Attached(old(State()), node, newParent, i) &&
        kids == old(kids[newParent := kids[newParent][..i] + [node] + kids[newParent][i..]])
      ensures values == old(values)
    {
      var e := AttachError(node, newParent);
      if e.Some? {
        return Fail(e.value);
      }
      var p: nat := newParent;
      e := ChildError(p, sibling);
      if e.Some? {
        return Fail(e.value);
      }
      ghost var s := State();
      ChildRing(s, p, sibling);
      ghost var i := IndexOf(kids[p], sibling);
      AttachedLinks(s, node, p, i);
      InternalAttachBefore(node, p, sibling);
      if firstChild[p] == sibling {
        firstChild := firstChild[p := node];
      }
      CommitAttach(s, node, p, i);
      return Done;
    }

    /** TreeNode.AttachAfter(parent, previous): become the child of `newParent`
        just after its child `sibling`. */
    method AttachAfter(node: nat, newParent: int, sibling: int) returns (o: Outcome)
      requires Valid() && node < |values| && -1 <= newParent < |values| && -1 <= sibling < |values|
      requires parent[node] == Null && newParent != Null ==> !InSubtree(State(), newParent, node)
      modifies this
      ensures Valid()
      ensures o.Fail? <==> old(AttachError(node, newParent)).Some? || (newParent != Null && old(ChildError(newParent, sibling)).Some?)
      ensures old(AttachError(node, newParent)).Some? ==> o == Fail(old(AttachError(node, newParent)).value)
      ensures old(AttachError(node, newParent)).None? && old(ChildError(newParent, sibling)).Some? ==>
        o == Fail(old(ChildError(newParent, sibling)).value)
      ensures o.Fail? ==> unchanged(this)
      ensures o.Done? ==> sibling in old(kids[newParent]) && parent == old(parent[node := newParent])
      ensures o.Done? ==> var i := IndexOf(old(kids[newParent]), sibling) + 1;
        State() == Attached(old(State()), node, newParent, i) &&
        kids == old(kids[newParent := kids[newParent][..i] + [node] + kids[newParent][i..]])
      ensures values == old(values)
    {
      var e := AttachError(node, newParent);
      if e.Some? {
        return Fail(e.value);
      }
      var p: nat := newParent;
      e := ChildError(p, sibling);
      if e.Some? {
        return Fail(e.value);
      }
      ghost var s := State();
      ChildRing(s, p, sibling);
      ghost var i := IndexOf(kids[p], sibling);
      AttachedLinks(s, node, p, i + 1);
      InternalAttachBefore(node, p, next[sibling]);
      CommitAttach(s, node, p, i + 1);
      return Done;
    }

    /** Bring the ghost child lists and ancestor lists up to date once the links
        are those of removing `node` from position `j` of its parent's children. */
    ghost method CommitDetach(s: Links, node: nat, j: nat)
      requires Wellformed(s) && |values| == |s.parent| && node < |s.parent| && 0 <= s.parent[node] < |s.parent|
      requires j < |s.kids[s.parent[node]]| && s.kids[s.parent[node]][j] == node
      requires var t := Detached(s, node, j);
        next == t.next && prev == t.prev && parent == t.parent && firstChild == t.firstChild && directChildCount == t.count
      requires bound == s.bound
      modifies this
      ensures State() == Detached(s, node, j) && Valid() && values == old(values)
      ensures kids == Detached(s, node, j).kids
    {
      var t := Detached(s, node, j);
      kids := t.kids;
      anc := t.anc;
      DetachedWellformed(s, node, j);
    }

    /** The rewiring of DetachParent: move the parent's first child on if it is
        `node`, let the ring skip `node`, and make `node` a self-looped root. */
    method Unlink(node: nat, p: nat)
      requires node < |parent| && node < |next| && node < |prev| && p < |firstChild| && p < |directChildCount|
      requires next[node] < |prev| && prev[node] < |next|
      modifies this
      ensures firstChild == old(if firstChild[p] == node then firstChild[p := if next[node] == node then Null else next[node]] else firstChild)
      ensures directChildCount == old(directChildCount[p := directChildCount[p] - 1])
      ensures next == old(next[prev[node] := next[node]][node := node])
      ensures prev == old(prev[next[node] := prev[node]][node := node])
      ensures parent == old(parent[node := Null])
      ensures values == old(values) && kids == old(kids) && anc == old(anc) && bound == old(bound)
    {
      if firstChild[p] == node {
        firstChild := firstChild[p := if next[node] == node then Null else next[node]];
      }
      directChildCount := directChildCount[p := directChildCount[p] - 1];
      prev := prev[next[node] := prev[node]];
      next := next[prev[node] := next[node]];
      parent := parent[node := Null];
      next := next[node := node];
      prev := prev[node := node];
    }

    /** TreeNode.DetachParent: leave the parent's ring and become a self-looped
        root; nothing happens to a root. */
    method DetachParent(node: nat)
      requires Valid() && node < |values|
      modifies this
      ensures Valid() && values == old(values)
      ensures old(Parent(node)) == Null ==> unchanged(this)
      ensures old(Parent(node)) != Null ==>
        var p := old(Parent(node)); var j := IndexOf(old(kids[p]), node);
        State() == Detached(old(State()), node, j) &&
        kids == old(kids[p := kids[p][..j] + kids[p][j + 1..]]) && directChildCount[p] == old(directChildCount[p]) - 1
      ensures parent == old(parent[node := Null]) && next[node] == node && prev[node] == node
    {
      if parent[node] != Null {
        ghost var s := State();
        Facts(s, node);
        var p: nat := parent[node];
        ghost var j := IndexOf(kids[p], node);
        DetachedLinks(s, node, j);
        Unlink(node, p);
        CommitDetach(s, node, j);
      } else {
        Facts(State(), node);
      }
    }

    /** TreeNode.DetachChildren: detach the first child until none is left. */
    method DetachChildren(x: nat)
      requires Valid() && x < |values|
      modifies this
      ensures Valid() && values == old(values)
      ensures State() == ChildrenDetached(old(State()), x)
      ensures kids == old(kids[x := []]) && directChildCount[x] == 0 && firstChild[x] == Null
      ensures forall d :: d in old(kids[x]) ==> parent[d] == Null && next[d] == d && prev[d] == d
    {
      ghost var s := State();
      Facts(s, x);
      forall k | 0 <= k < |kids[x]| ensures kids[x][k] < |parent| {
        ChildFacts(s, x, k);
      }
      DetachEach(x, kids[x]);
      firstChild := firstChild[x := Null];
      CommitChildrenDetached(s, x);
    }

    /** The loop of DetachChildren: while the count is positive, make the first
        child a self-looped root and move the first child on to its successor. */
    method DetachEach(x: nat, ghost ks: seq<nat>)
      requires x < |firstChild| && x < |directChildCount| && |next| == |prev| == |parent|
      requires Distinct(ks) && Ring(next, prev, ks) && forall k :: 0 <= k < |ks| ==> ks[k] < |parent|
      requires directChildCount[x] == |ks| && (ks != [] ==> firstChild[x] == ks[0])
      modifies this
      ensures directChildCount == old(directChildCount[x := 0])
      ensures |firstChild| == old(|firstChild|) && forall d :: 0 <= d < |firstChild| && d != x ==> firstChild[d] == old(firstChild[d])
      ensures |parent| == |next| == |prev| == old(|parent|)
      ensures forall d :: 0 <= d < |parent| ==> parent[d] == (if d in ks then Null else old(parent[d]))
      ensures forall d :: 0 <= d < |next| ==> next[d] == (if d in ks then d else old(next[d]))
      ensures forall d :: 0 <= d < |prev| ==> prev[d] == (if d in ks then d else old(prev[d]))
      ensures values == old(values) && kids == old(kids) && anc == old(anc) && bound == old(bound)
    {
      ghost var k := 0;
      ghost var next0, prev0, parent0 := next, prev, parent;
      while directChildCount[x] > 0
        invariant 0 <= k <= |ks| && |parent| == |next| == |prev| == |parent0|
        invariant directChildCount == old(directChildCount)[x := |ks| - k]
        invariant |firstChild| == old(|firstChild|)
        invariant k < |ks| ==> firstChild[x] == ks[k]
        invariant forall d :: 0 <= d < |firstChild| && d != x ==> firstChild[d] == old(firstChild[d])
        invariant forall d :: 0 <= d < |parent| ==> parent[d] == (if d in ks[..k] then Null else parent0[d])
        invariant forall d :: 0 <= d < |next| ==> next[d] == (if d in ks[..k] then d else next0[d])
        invariant forall d :: 0 <= d < |prev| ==> prev[d] == (if d in ks[..k] then d else prev0[d])
        invariant values == old(values) && kids == old(kids) && anc == old(anc) && bound == old(bound)
        decreases |ks| - k
      {
        var child := firstChild[x];
        DetachStep(next0, prev0, ks, k);
        firstChild := firstChild[x := next[child]];
        parent := parent[child := Null];
        next := next[child := child];
        prev := prev[child := child];
        directChildCount := directChildCount[x := directChildCount[x] - 1];
        k := k + 1;
      }
      assert ks[..k] == ks;
    }

    /** Bring the ghost child lists and ancestor lists up to date once the links
        are those of detaching every child of `x`. */
    ghost method CommitChildrenDetached(s: Links, x: nat)
      requires Wellformed(s) && |values| == |s.parent| && x < |s.parent|
      requires |parent| == |next| == |prev| == |s.parent| && directChildCount == s.count[x := 0]
      requires firstChild == s.firstChild[x := Null]
      requires forall d :: 0 <= d < |parent| ==> parent[d] == (if d in s.kids[x] then Null else s.parent[d])
      requires forall d :: 0 <= d < |next| ==> next[d] == (if d in s.kids[x] then d else s.next[d])
      requires forall d :: 0 <= d < |prev| ==> prev[d] == (if d in s.kids[x] then d else s.prev[d])
      requires bound == s.bound
      modifies this
      ensures State() == ChildrenDetached(s, x) && Valid() && values == old(values)
      ensures kids == s.kids[x := []] && parent == old(parent) && next == old(next) && prev == old(prev)
    {
      var t := ChildrenDetached(s, x);
      assert parent == t.parent && next == t.next && prev == t.prev;
      kids := t.kids;
      anc := t.anc;
      ChildrenDetachedWellformed(s, x);
    }

    /** One pass of DetachChildren's loop: the first remaining child is not among
        those already detached, and its successor is the next one. */
    lemma DetachStep(next0: seq<nat>, prev0: seq<nat>, ks: seq<nat>, k: nat)
      requires Distinct(ks) && Ring(next0, prev0, ks) && k < |ks|
      ensures ks[k] !in ks[..k] && ks[..k + 1] == ks[..k] + [ks[k]]
      ensures k + 1 < |ks| ==> next0[ks[k]] == ks[k + 1]
    {
      assert next0[ks[k]] == After(ks, k);
    }
  }
}
