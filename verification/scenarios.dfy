/**
 * Trees built top-down, one node at a time below a node already in the tree, with no
 * removals. The first node has no parent and gets 0; every later node finds the ids
 * 1 .. n-1 below the root (none when it is the second node), so the n-th node gets n-1
 * and the ids of the tree are exactly 0 .. n-1.
 */
module Scenarios {
  import opened Values
  import opened Links
  import opened IdRule
  import opened AnytreeNode

  /** A single tree built top-down: node 0 is the only node without a parent, and node `i` holds the id `i`. */
  ghost predicate TopDown(s: seq<NodeData>)
  {
    && |s| >= 1 && s[0].parent.None?
    && (forall i :: 1 <= i < |s| ==> s[i].parent.Some?)
    && (forall i :: 0 <= i < |s| ==> IdOf(s[i]) == Some(i))
  }

  /** When every node but node 0 has a parent, node 0 is the root of every node. */
  lemma RootIsZero(s: seq<NodeData>, rank: seq<nat>, h: Handle)
    requires Ranked(Parents(s), rank) && h < |s|
    requires forall i :: 1 <= i < |s| ==> s[i].parent.Some?
    ensures Root(Parents(s), rank, h) == 0
  {
    var r := Root(Parents(s), rank, h);
    assert Parents(s)[r] == s[r].parent;
  }

  /**
   * A node `n` just attached to a top-down tree of `n` nodes finds exactly the ids 1 .. n-1
   * below the root: every other node but the root lies below it and holds its own handle.
   */
  lemma HeldIsBelow(s: seq<NodeData>, rank: seq<nat>, n: Handle)
    requires Ranked(Parents(s), rank) && |s| == n + 1
    requires forall i :: 1 <= i < |s| ==> s[i].parent.Some?
    requires forall i :: 0 <= i < n ==> IdOf(s[i]) == Some(i)
    ensures forall x :: HeldBelowRoot(s, rank, n, x) <==> 1 <= x < n
  {
    RootIsZero(s, rank, n);
    forall x
      ensures HeldBelowRoot(s, rank, n, x) <==> 1 <= x < n
    {
      if 1 <= x < n {
        RootIsZero(s, rank, x);
        BelowOwnRoot(Parents(s), rank, x);
        assert HoldsIdBelow(s, rank, 0, x, x);
      }
      if HeldBelowRoot(s, rank, n, x) {
        var d: Handle :| d != n && HoldsIdBelow(s, rank, 0, d, x);
        assert d != 0 && d < n;
      }
    }
  }

  /**
   * What construction promises a node `n` attached below a top-down tree of `n` nodes,
   * without keyword attributes and without children, makes the new arena `s` top-down
   * again, with id `n` for the new node.
   */
  lemma InsertedTopDown(s0: seq<NodeData>, s: seq<NodeData>, rank: seq<nat>, n: Handle, id: int)
    requires TopDown(s0) && n == |s0| && |s| == n + 1 && Ranked(Parents(s), rank)
    requires forall x :: 0 <= x < n ==> s[x].attrs == s0[x].attrs && s[x].parent == s0[x].parent
    requires s[n].parent.Some? && IdOf(s[n]) == Some(id)
    requires forall x :: HeldBelowRoot(s, rank, n, x) ==> x < id
    requires (exists x :: HeldBelowRoot(s, rank, n, x)) ==> HeldBelowRoot(s, rank, n, id - 1)
    requires (forall x :: !HeldBelowRoot(s, rank, n, x)) ==> id == 1
    ensures TopDown(s) && id == n
  {
    forall i | 0 <= i < n
      ensures IdOf(s[i]) == Some(i)
    {
      assert IdOf(s[i]) == IdOf(s0[i]);
    }
    HeldIsBelow(s, rank, n);
    if n > 1 {
      assert HeldBelowRoot(s, rank, n, n - 1);
      assert HeldBelowRoot(s, rank, n, id - 1);
    } else {
      assert forall x :: !HeldBelowRoot(s, rank, n, x);
    }
    assert id == n;
    forall i | 0 <= i < |s|
      ensures IdOf(s[i]) == Some(i)
    {
      if i == n {
        assert IdOf(s[n]) == Some(id);
      }
    }
  }

  /** A node constructed below a node of a top-down tree of `n` nodes gets the id `n`; the tree stays top-down. */
  method InsertBelow(f: Forest, p: Handle) returns (n: Handle, id: int)
    requires f.Valid() && TopDown(f.nodes) && p < |f.nodes|
    modifies f
    ensures f.Valid() && TopDown(f.nodes)
    ensures n == old(|f.nodes|) && |f.nodes| == n + 1 && id == n
    ensures f.nodes[n].parent == Some(p)
    ensures forall x :: 0 <= x < n ==> f.nodes[x].parent == old(f.nodes[x].parent)
  {
    ghost var s0 := f.nodes;
    n, id := f.Construct(Atom(Str("g")), Atom(Str("node")), [], Some(p), [], map[]);
    assert forall x :: 0 <= x < n ==> f.nodes[x].attrs == s0[x].attrs && f.nodes[x].parent == s0[x].parent;
    InsertedTopDown(s0, f.nodes, f.rank, n, id);
  }

  /** A lone root holding the id 0 is a top-down tree. */
  lemma SingleNodeTopDown(s: seq<NodeData>)
    requires |s| == 1 && s[0].parent.None? && IdOf(s[0]) == Some(0)
    ensures TopDown(s)
  {
  }

  /** A fresh arena with one node, constructed without a parent: a top-down tree whose root holds 0. */
  method NewTree() returns (f: Forest, root: Handle)
    ensures fresh(f) && f.Valid() && TopDown(f.nodes) && |f.nodes| == 1 && root == 0
  {
    f := new Forest();
    var rootId;
    root, rootId := f.Construct(Atom(Str("g")), Atom(Str("root")), [], None, [], map[]);
    assert root == 0 && |f.nodes| == 1;
    SingleNodeTopDown(f.nodes);
  }

  /** A root followed by `k` nodes inserted one at a time below it: the ids are exactly 0 .. k. */
  method GrowBelowRoot(k: nat) returns (f: Forest)
    ensures f.Valid() && |f.nodes| == k + 1
    ensures forall i :: 0 <= i <= k ==> IdOf(f.nodes[i]) == Some(i)
    ensures f.nodes[0].parent.None? && forall i :: 1 <= i <= k ==> f.nodes[i].parent == Some(0)
  {
    var root;
    f, root := NewTree();
    var i := 0;
    while i < k
      invariant 0 <= i <= k
      invariant f.Valid() && TopDown(f.nodes) && |f.nodes| == i + 1
      invariant forall j :: 1 <= j <= i ==> f.nodes[j].parent == Some(0)
    {
      var n, id := InsertBelow(f, 0);
      i := i + 1;
    }
  }

  /**
   * A root, two children below it, then a grandchild below the first child, each built by
   * the constructor: the ids are 0, 1, 2 and 3.
   */
  method Grandchild() returns (ids: seq<Option<int>>, parents: seq<Option<Handle>>)
    ensures ids == [Some(0), Some(1), Some(2), Some(3)]
    ensures parents == [None, Some(0), Some(0), Some(1)]
  {
    var f, root := NewTree();
    var c1, id1 := InsertBelow(f, root);
    var c2, id2 := InsertBelow(f, root);
    var g1, id3 := InsertBelow(f, c1);
    ids := [IdOf(f.nodes[0]), IdOf(f.nodes[1]), IdOf(f.nodes[2]), IdOf(f.nodes[3])];
    parents := [f.nodes[0].parent, f.nodes[1].parent, f.nodes[2].parent, f.nodes[3].parent];
  }
}

/**
 * A tree built bottom-up: a leaf is constructed first, as a root, and is then given as a
 * child when its parent is constructed without a parent of its own. Neither construction
 * scans anything, so the leaf and its parent both hold the id 0.
 */
module BottomUp {
  import opened Values
  import opened Links
  import opened AnytreeNode

  /** A first node, built without parent or children: it is the root of its own tree, with id 0. */
  method Leaf(f: Forest) returns (leaf: Handle)
    requires f.Valid()
    modifies f
    ensures f.Valid() && leaf < |f.nodes| && IdOf(f.nodes[leaf]) == Some(0)
  {
    var id;
    leaf, id := f.Construct(Atom(Str("g")), Atom(Str("leaf")), [], None, [], map[]);
  }

  /** The leaf, adopted by a parent constructed without a parent, keeps id 0; so does the parent. */
  method LeafThenParent() returns (leaf: Handle, top: Handle, leafId: Option<int>, topId: int, leafParent: Option<Handle>)
    ensures leafParent == Some(top) && leaf != top
    ensures leafId == Some(0) && topId == 0
  {
    var f := new Forest();
    leaf := Leaf(f);
    top, topId := f.Construct(Atom(Str("g")), Atom(Str("top")), [], None, [leaf], map[]);
    leafId := IdOf(f.nodes[leaf]);
    leafParent := f.nodes[leaf].parent;
  }
}
