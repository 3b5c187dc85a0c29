/**
 * anytree's `Node`: construction of a node inside an arena of nodes. Each node has an
 * attribute dictionary (its `__dict__`: keyword attributes, `gate`, `name`, `index`, `id`)
 * and the parent/children links that the tree capability manages.
 */
module AnytreeNode {
  import opened Values
  import opened Links
  import opened IdRule

  /** One node: its attribute dictionary, its parent link and its ordered children. */
  datatype NodeData = NodeData(attrs: map<string, Value>, parent: Option<Handle>, children: seq<Handle>)

  /** The parent links of an arena. */
  function Parents(s: seq<NodeData>): (ps: seq<Option<Handle>>)
    ensures |ps| == |s|
    ensures forall h {:trigger ps[h]} :: 0 <= h < |s| ==> ps[h] == s[h].parent
  {
    seq(|s|, h requires 0 <= h < |s| => s[h].parent)
  }

  /** The node's `id` when it has one (`hasattr(node, 'id')`), otherwise None. */
  function IdOf(d: NodeData): (id: Option<int>)
    ensures id.Some? <==> "id" in d.attrs && IsInt(d.attrs["id"])
    ensures id.Some? ==> d.attrs["id"] == Atom(Int(id.value))
  {
    if "id" in d.attrs && IsInt(d.attrs["id"]) then Some(d.attrs["id"].a.i) else None
  }

  /** Every listed child is in the arena and has the listing node as its parent. */
  ghost predicate ChildrenPointBack(s: seq<NodeData>)
  {
    forall x: Handle, k {:trigger s[x].children[k]} :: x < |s| && 0 <= k < |s[x].children| ==>
      s[x].children[k] < |s| && s[s[x].children[k]].parent == Some(x)
  }

  /** Every node with a parent is listed among that parent's children. */
  ghost predicate ParentsListChildren(s: seq<NodeData>)
  {
    forall y: Handle {:trigger s[y].parent} :: y < |s| && s[y].parent.Some? ==>
      s[y].parent.value < |s| && y in s[s[y].parent.value].children
  }

  /** No child list holds a node twice. */
  ghost predicate DistinctChildren(s: seq<NodeData>)
  {
    forall x: Handle {:trigger s[x].children} :: x < |s| ==> NoDuplicates(s[x].children)
  }

  /**
   * The links form a forest: parent links are acyclic (witnessed by `rank`), every child
   * list is free of duplicates, and `c` is listed among the children of `p` exactly when
   * `p` is the parent of `c`.
   */
  ghost predicate Linked(s: seq<NodeData>, rank: seq<nat>)
  {
    Ranked(Parents(s), rank) && ChildrenPointBack(s) && ParentsListChildren(s) && DistinctChildren(s)
  }

  /** `path` walks down child lists: each element after the first is listed among the children of the one before. */
  ghost predicate ChildPath(s: seq<NodeData>, path: seq<Handle>)
  {
    forall i :: 0 <= i < |path| - 1 ==> path[i] < |s| && path[i + 1] in s[path[i]].children
  }

  /** A walk down the child lists from `r` to `d` (anytree's `descendants` follows `children`). */
  ghost predicate ReachedByChildren(s: seq<NodeData>, r: Handle, d: Handle)
  {
    exists path :: |path| >= 2 && path[0] == r && path[|path| - 1] == d && ChildPath(s, path)
  }

  /** A walk down the child lists leads to a node strictly below its start. */
  lemma {:induction false} PathBelow(s: seq<NodeData>, rank: seq<nat>, path: seq<Handle>)
    requires Linked(s, rank) && |path| >= 2 && ChildPath(s, path)
    ensures path[|path| - 1] < |s| && rank[path[0]] < rank[path[|path| - 1]]
    ensures IsDescendant(Parents(s), rank, path[|path| - 1], path[0])
  {
    var init, d := path[..|path| - 1], path[|path| - 1];
    var q := init[|init| - 1];
    assert q < |s| && d in s[q].children;
    var k :| 0 <= k < |s[q].children| && s[q].children[k] == d;
    assert d < |s| && Parents(s)[d] == Some(q);
    if |path| > 2 {
      assert ChildPath(s, init) by {
        forall i | 0 <= i < |init| - 1
          ensures init[i] < |s| && init[i + 1] in s[init[i]].children
        {
          assert init[i] == path[i] && init[i + 1] == path[i + 1];
        }
      }
      PathBelow(s, rank, init);
    }
  }

  /** A node strictly below `r` is reached from `r` by a walk down the child lists. */
  ghost function PathDown(s: seq<NodeData>, rank: seq<nat>, r: Handle, d: Handle): (path: seq<Handle>)
    requires Linked(s, rank) && d < |s| && IsDescendant(Parents(s), rank, d, r)
    ensures |path| >= 2 && path[0] == r && path[|path| - 1] == d && ChildPath(s, path)
    decreases rank[d]
  {
    assert Parents(s)[d] == s[d].parent;
    var p := s[d].parent.value;
    assert d in s[p].children;
    if p == r then [r, d]
    else
      var up := PathDown(s, rank, r, p);
      var path := up + [d];
      assert forall i :: 0 <= i < |up| ==> path[i] == up[i];
      path
  }

  /**
   * Under `Linked`, the descendants defined by parent links are exactly the nodes reached
   * from `r` down the child lists, the way anytree's `descendants` walks the tree.
   */
  lemma DescendantsByChildren(s: seq<NodeData>, rank: seq<nat>, r: Handle, d: Handle)
    requires Linked(s, rank) && d < |s|
    ensures IsDescendant(Parents(s), rank, d, r) <==> ReachedByChildren(s, r, d)
  {
    if IsDescendant(Parents(s), rank, d, r) {
      var path := PathDown(s, rank, r, d);
    }
    if ReachedByChildren(s, r, d) {
      var path :| |path| >= 2 && path[0] == r && path[|path| - 1] == d && ChildPath(s, path);
      PathBelow(s, rank, path);
    }
  }

  /**
   * The arena after `c` is hung below `p`: `c` takes `p` as its parent, leaves the child
   * list of its previous parent and is appended to the child list of `p`.
   */
  function Relink(s: seq<NodeData>, c: Handle, p: Handle): (t: seq<NodeData>)
    requires c < |s| && p < |s|
    ensures |t| == |s|
  {
    seq(|s|, x requires 0 <= x < |s| =>
      s[x].(parent := if x == c then Some(p) else s[x].parent,
            children := if x == p then s[p].children + [c]
                        else if Some(x) == s[c].parent then Without(s[x].children, [c])
                        else s[x].children))
  }

  lemma RelinkLinked(s: seq<NodeData>, rank: seq<nat>, c: Handle, p: Handle)
    requires Linked(s, rank) && c < |s| && p < |s|
    requires c !in Ancestry(Parents(s), rank, p) && s[c].parent != Some(p)
    ensures Parents(Relink(s, c, p)) == Parents(s)[c := Some(p)]
    ensures Linked(Relink(s, c, p), Raised(Parents(s), rank, p))
  {
    var t := Relink(s, c, p);
    assert Parents(t) == Parents(s)[c := Some(p)];
    RelinkRanked(Parents(s), rank, c, p);
    RelinkPointsBack(s, rank, c, p);
    RelinkListed(s, rank, c, p);
    forall x: Handle | x < |t|
      ensures NoDuplicates(t[x].children)
    {
      WithoutNoDuplicates(s[x].children, [c]);
    }
  }

  lemma RelinkPointsBack(s: seq<NodeData>, rank: seq<nat>, c: Handle, p: Handle)
    requires Linked(s, rank) && c < |s| && p < |s|
    requires c !in Ancestry(Parents(s), rank, p) && s[c].parent != Some(p)
    ensures ChildrenPointBack(Relink(s, c, p))
  {
    var t := Relink(s, c, p);
    forall x: Handle, k | x < |t| && 0 <= k < |t[x].children|
      ensures t[x].children[k] < |t| && t[t[x].children[k]].parent == Some(x)
    {
      var y := t[x].children[k];
      if x == p {
        assert y in s[p].children + [c];
        if y != c {
          var j :| 0 <= j < |s[p].children| && s[p].children[j] == y;
        }
      } else {
        assert y in s[x].children && y != c;
        var j :| 0 <= j < |s[x].children| && s[x].children[j] == y;
      }
    }
  }

  lemma RelinkListed(s: seq<NodeData>, rank: seq<nat>, c: Handle, p: Handle)
    requires Linked(s, rank) && c < |s| && p < |s|
    requires c !in Ancestry(Parents(s), rank, p) && s[c].parent != Some(p)
    ensures ParentsListChildren(Relink(s, c, p))
  {
    var t := Relink(s, c, p);
    forall y: Handle | y < |t| && t[y].parent.Some?
      ensures t[y].parent.value < |t| && y in t[t[y].parent.value].children
    {
      if y != c {
        var q := s[y].parent.value;
        assert y in s[q].children;
        if q != p && Some(q) == s[c].parent {
          assert y in Without(s[q].children, [c]);
        }
      }
    }
  }

  /** A node is listed only among the children of its own parent. */
  lemma ListedOnlyUnderParent(s: seq<NodeData>, x: Handle, c: Handle)
    requires ChildrenPointBack(s) && x < |s|
    ensures c in s[x].children ==> s[c].parent == Some(x)
  {
    if c in s[x].children {
      var k :| 0 <= k < |s[x].children| && s[x].children[k] == c;
    }
  }

  /** What hanging `c` below a new parent `p` does to each node of a forest. */
  lemma RelinkSpec(s: seq<NodeData>, rank: seq<nat>, c: Handle, p: Handle)
    requires Linked(s, rank) && c < |s| && p < |s| && s[c].parent != Some(p)
    ensures forall x: Handle {:trigger Relink(s, c, p)[x]} :: x < |s| ==> Relink(s, c, p)[x].attrs == s[x].attrs
    ensures Relink(s, c, p)[c].parent == Some(p)
    ensures forall x: Handle {:trigger Relink(s, c, p)[x]} :: x < |s| && x != c ==> Relink(s, c, p)[x].parent == s[x].parent
    ensures Relink(s, c, p)[p].children == s[p].children + [c]
    ensures forall x: Handle {:trigger Relink(s, c, p)[x]} :: x < |s| && x != p ==> Relink(s, c, p)[x].children == Without(s[x].children, [c])
  {
    forall x: Handle | x < |s| && x != p && Some(x) != s[c].parent
      ensures Without(s[x].children, [c]) == s[x].children
    {
      ListedOnlyUnderParent(s, x, c);
      WithoutAbsent(s[x].children, [c]);
    }
  }

  /**
   * `h.children = cs` for a node `h` without children, as the children setter performs it:
   * every element of `cs`, in order, is hung below `h`.
   */
  function Adopt(s: seq<NodeData>, h: Handle, cs: seq<Handle>): (t: seq<NodeData>)
    requires h < |s| && forall c :: c in cs ==> c < |s|
    ensures |t| == |s|
  {
    if cs == [] then s
    else
      var init, c := cs[..|cs| - 1], cs[|cs| - 1];
      assert forall y :: y in init ==> y in cs;
      assert c in cs;
      Relink(Adopt(s, h, init), c, h)
  }

  /**
   * The same forest described node by node: `h` lists exactly `cs`, every element of `cs`
   * has `h` as its parent, every other node keeps its parent, and every other child list
   * loses the elements of `cs` and nothing else.
   */
  function Adopted(s: seq<NodeData>, h: Handle, cs: seq<Handle>): (t: seq<NodeData>)
    ensures |t| == |s|
  {
    seq(|s|, x requires 0 <= x < |s| =>
      s[x].(parent := if x in cs then Some(h) else s[x].parent,
            children := if x == h then cs else Without(s[x].children, cs)))
  }

  /** Adopting nothing leaves a node without children, and the whole forest, as it was. */
  lemma AdoptNothing(s: seq<NodeData>, h: Handle)
    requires h < |s| && s[h].children == []
    ensures Adopted(s, h, []) == s
  {
    forall x: Handle | x < |s|
      ensures Adopted(s, h, [])[x] == s[x]
    {
      WithoutAbsent(s[x].children, []);
    }
  }

  /** Hanging one more element `c` below `h` after `cs` extends the node-by-node description to `cs + [c]`. */
  lemma AdoptOneMore(s: seq<NodeData>, rank: seq<nat>, h: Handle, cs: seq<Handle>, c: Handle)
    requires Linked(s, rank) && h < |s| && s[h].children == []
    requires c < |s| && c != h && c !in cs
    ensures Adopted(s, h, cs)[c].parent != Some(h)
    ensures Relink(Adopted(s, h, cs), c, h) == Adopted(s, h, cs + [c])
  {
    var t, u := Adopted(s, h, cs), Adopted(s, h, cs + [c]);
    assert t[c].parent == s[c].parent;
    assert s[c].parent != Some(h);
    forall x: Handle | x < |s|
      ensures Relink(t, c, h)[x] == u[x]
    {
      assert x in cs + [c] <==> x in cs || x == c;
      if x != h {
        WithoutStep(s[x].children, cs, c);
        if Some(x) != s[c].parent {
          ListedOnlyUnderParent(s, x, c);
          WithoutAbsent(t[x].children, [c]);
        }
      }
    }
  }

  /**
   * Adopting the elements one at a time gives the forest described node by node, provided
   * `cs` has no duplicates and does not hold `h`.
   */
  lemma {:induction false} AdoptPointwise(s: seq<NodeData>, rank: seq<nat>, h: Handle, cs: seq<Handle>)
    requires Linked(s, rank) && h < |s| && s[h].children == []
    requires NoDuplicates(cs) && forall c :: c in cs ==> c < |s| && c != h
    ensures Adopt(s, h, cs) == Adopted(s, h, cs)
  {
    if cs == [] {
      AdoptNothing(s, h);
    } else {
      var init, c := cs[..|cs| - 1], cs[|cs| - 1];
      assert cs == init + [c];
      assert c !in init && c in cs;
      assert forall y :: y in init ==> y in cs;
      assert NoDuplicates(init);
      AdoptPointwise(s, rank, h, init);
      AdoptOneMore(s, rank, h, init, c);
    }
  }

  /** The ranks that witness acyclicity after `h.children = cs`: each adoption raises them as `Raised` does. */
  ghost function AdoptRank(s: seq<NodeData>, rank: seq<nat>, h: Handle, cs: seq<Handle>): (r: seq<nat>)
    requires Linked(s, rank) && h < |s| && s[h].children == []
    requires NoDuplicates(cs) && forall c :: c in cs ==> c < |s| && c !in Ancestry(Parents(s), rank, h)
    ensures Linked(Adopt(s, h, cs), r)
    ensures Ancestry(Parents(Adopt(s, h, cs)), r, h) == Ancestry(Parents(s), rank, h)
    decreases |cs|
  {
    if cs == [] then rank
    else
      var init, c := cs[..|cs| - 1], cs[|cs| - 1];
      assert cs == init + [c];
      assert c !in init && c in cs;
      assert forall y :: y in init ==> y in cs;
      assert NoDuplicates(init);
      var t, r' := Adopt(s, h, init), AdoptRank(s, rank, h, init);
      AdoptPointwise(s, rank, h, init);
      AdoptOneMore(s, rank, h, init, c);
      assert c !in Ancestry(Parents(t), r', h);
      RelinkRank(t, r', c, h)
  }

  /** The ranks after `c` is hung below `p`; the ancestors of `p` stay as they were. */
  ghost function RelinkRank(s: seq<NodeData>, rank: seq<nat>, c: Handle, p: Handle): (r: seq<nat>)
    requires Linked(s, rank) && c < |s| && p < |s|
    requires c !in Ancestry(Parents(s), rank, p) && s[c].parent != Some(p)
    ensures Linked(Relink(s, c, p), r)
    ensures Ancestry(Parents(Relink(s, c, p)), r, p) == Ancestry(Parents(s), rank, p)
  {
    RelinkLinked(s, rank, c, p);
    var r := Raised(Parents(s), rank, p);
    AncestryFrame(Parents(s), rank, Parents(Relink(s, c, p)), r, p);
    r
  }

  /** Every `id` attribute present in the arena is an integer. */
  ghost predicate IdsAreInts(s: seq<NodeData>)
  {
    forall h {:trigger s[h].attrs} :: 0 <= h < |s| && "id" in s[h].attrs ==> IsInt(s[h].attrs["id"])
  }

  /** Changing only the attributes of a node keeps the links, hence the forest shape. */
  lemma AttrsOnly(s: seq<NodeData>, rank: seq<nat>, n: Handle, a: map<string, Value>)
    requires Linked(s, rank) && n < |s|
    ensures Parents(s[n := s[n].(attrs := a)]) == Parents(s)
    ensures Linked(s[n := s[n].(attrs := a)], rank)
  {
    var t := s[n := s[n].(attrs := a)];
    assert forall h :: 0 <= h < |s| ==> t[h].parent == s[h].parent && t[h].children == s[h].children;
    assert Parents(t) == Parents(s);
  }

  /** A fresh node without parent or children can join a forest as a new root. */
  lemma AppendRoot(s: seq<NodeData>, rank: seq<nat>, a: map<string, Value>)
    requires Linked(s, rank)
    ensures Parents(s + [NodeData(a, None, [])]) == Parents(s) + [None]
    ensures Linked(s + [NodeData(a, None, [])], rank + [0])
  {
    var t := s + [NodeData(a, None, [])];
    assert Parents(t) == Parents(s) + [None];
  }

  /** Node `d` lies strictly below `r` and holds the id `x`. */
  ghost predicate HoldsIdBelow(s: seq<NodeData>, rank: seq<nat>, r: Handle, d: Handle, x: int)
    requires Ranked(Parents(s), rank)
  {
    d < |s| && IsDescendant(Parents(s), rank, d, r) && IdOf(s[d]) == Some(x)
  }

  /** The ids of the nodes among `0 .. k-1` that lie below `r`, skipping nodes without an id. */
  function ScanBelow(s: seq<NodeData>, ghost rank: seq<nat>, r: Handle, k: nat): (found: seq<int>)
    requires Ranked(Parents(s), rank) && k <= |s|
    ensures forall x, d: Handle :: d < k && HoldsIdBelow(s, rank, r, d, x) ==> x in found
    ensures forall x :: x in found ==> exists d: Handle :: d < k && HoldsIdBelow(s, rank, r, d, x)
  {
    if k == 0 then []
    else
      var d := k - 1;
      var rest := ScanBelow(s, rank, r, d);
      if IsDescendant(Parents(s), rank, d, r) && IdOf(s[d]).Some? then
        assert HoldsIdBelow(s, rank, r, d, IdOf(s[d]).value);
        rest + [IdOf(s[d]).value]
      else rest
  }

  /**
   * `[node.id for node in root.descendants if hasattr(node, 'id')]`: an id is in the list
   * exactly when some descendant of `r` holds it; descendants without an id contribute nothing.
   */
  function Scan(s: seq<NodeData>, ghost rank: seq<nat>, r: Handle): (found: seq<int>)
    requires Ranked(Parents(s), rank)
    ensures forall x, d: Handle :: HoldsIdBelow(s, rank, r, d, x) ==> x in found
    ensures forall x :: x in found ==> exists d: Handle :: HoldsIdBelow(s, rank, r, d, x)
  {
    ScanBelow(s, rank, r, |s|)
  }

  /** When no descendant of `r` holds an id, the scan finds nothing, as if the tree were empty. */
  lemma {:induction false} ScanSkipsIdless(s: seq<NodeData>, rank: seq<nat>, r: Handle, k: nat)
    requires Ranked(Parents(s), rank) && k <= |s|
    requires forall d: Handle :: d < |s| && IsDescendant(Parents(s), rank, d, r) ==> IdOf(s[d]).None?
    ensures ScanBelow(s, rank, r, k) == []
  {
    if k > 0 {
      ScanSkipsIdless(s, rank, r, k - 1);
    }
  }

  /** `set(index)`: the elements of the iterable, inserted one after the other. */
  function IndexSet(index: seq<Scalar>): (r: set<Scalar>)
    ensures forall x :: x in r <==> x in index
  {
    if index == [] then {}
    else IndexSet(index[..|index| - 1]) + {index[|index| - 1]}
  }

  /** Duplicates collapse: the set is never larger than the iterable, and equally large without duplicates. */
  lemma {:induction false} IndexSetSize(index: seq<Scalar>)
    ensures |IndexSet(index)| <= |index|
    ensures NoDuplicates(index) ==> |IndexSet(index)| == |index|
  {
    if index != [] {
      var init, last := index[..|index| - 1], index[|index| - 1];
      IndexSetSize(init);
      if last in IndexSet(init) {
        assert IndexSet(index) == IndexSet(init);
      } else {
        assert IndexSet(index) == IndexSet(init) + {last};
      }
      if NoDuplicates(index) {
        assert NoDuplicates(init);
        assert last !in init;
      }
    }
  }

  /** `set([1, 2, 2, 3])` is `{1, 2, 3}`, of size 3. */
  lemma IndexSetExample()
    ensures IndexSet([Int(1), Int(2), Int(2), Int(3)]) == {Int(1), Int(2), Int(3)}
    ensures |IndexSet([Int(1), Int(2), Int(2), Int(3)])| == 3
  {
    var s := IndexSet([Int(1), Int(2), Int(2), Int(3)]);
    assert s == {Int(1), Int(2), Int(3)};
  }

  /**
   * The dictionary after `__dict__.update(kwargs)` and the writes of `gate`, `name` and
   * `index`: the explicit fields win over keyword attributes of the same name, every other
   * keyword attribute is kept.
   */
  function InitialAttributes(kwargs: map<string, Value>, gate: Value, name: Value, index: seq<Scalar>): (d: map<string, Value>)
    ensures d.Keys == kwargs.Keys + {"gate", "name", "index"}
    ensures d["gate"] == gate && d["name"] == name && d["index"] == SetOf(IndexSet(index))
    ensures forall k :: k in kwargs && k != "gate" && k != "name" && k != "index" ==> d[k] == kwargs[k]
  {
    kwargs["gate" := gate]["name" := name]["index" := SetOf(IndexSet(index))]
  }

  /** Some node other than `n`, strictly below the root of `n`, holds the id `x`. */
  ghost predicate HeldBelowRoot(s: seq<NodeData>, rank: seq<nat>, n: Handle, x: int)
    requires Ranked(Parents(s), rank) && n < |s|
  {
    exists d: Handle :: d != n && HoldsIdBelow(s, rank, Root(Parents(s), rank, n), d, x)
  }

  /**
   * What the id scan of a node `n` with a parent finds: exactly the ids held by the other
   * nodes below the root of `n`, together with the id `n` already holds (from a keyword
   * attribute). Rewriting the attributes of `n` afterwards changes neither side.
   */
  lemma FoundIds(s: seq<NodeData>, rank: seq<nat>, n: Handle, a: map<string, Value>)
    requires Ranked(Parents(s), rank) && n < |s| && s[n].parent.Some?
    ensures Parents(s[n := s[n].(attrs := a)]) == Parents(s)
    ensures forall x :: x in Scan(s, rank, Root(Parents(s), rank, n)) <==>
      HeldBelowRoot(s[n := s[n].(attrs := a)], rank, n, x) || IdOf(s[n]) == Some(x)
  {
    var t := s[n := s[n].(attrs := a)];
    assert forall h :: 0 <= h < |s| ==> t[h].parent == s[h].parent;
    assert Parents(t) == Parents(s);
    var r := Root(Parents(s), rank, n);
    var found := Scan(s, rank, r);
    BelowOwnRoot(Parents(s), rank, n);
    forall x
      ensures x in found <==> HeldBelowRoot(t, rank, n, x) || IdOf(s[n]) == Some(x)
    {
      if x in found {
        var d: Handle :| HoldsIdBelow(s, rank, r, d, x);
        if d != n {
          assert HoldsIdBelow(t, rank, r, d, x);
        }
      }
      if HeldBelowRoot(t, rank, n, x) {
        var d: Handle :| d != n && HoldsIdBelow(t, rank, r, d, x);
        assert HoldsIdBelow(s, rank, r, d, x);
      }
      if IdOf(s[n]) == Some(x) {
        assert HoldsIdBelow(s, rank, r, n, x);
      }
    }
  }

  /**
   * The id given to a node `n` with a parent, read against the arena once the id is written:
   * it exceeds every id held below the root of `n` and the id `n` held before; when any of
   * those exists it is one above one of them (their maximum), and it is 1 when none exists.
   */
  lemma ScannedId(s: seq<NodeData>, rank: seq<nat>, n: Handle, id: int)
    requires Ranked(Parents(s), rank) && n < |s| && s[n].parent.Some?
    requires id == NextId(true, Scan(s, rank, Root(Parents(s), rank, n)))
    ensures var t := s[n := s[n].(attrs := s[n].attrs["id" := Atom(Int(id))])];
      && Parents(t) == Parents(s)
      && (forall x :: HeldBelowRoot(t, rank, n, x) ==> x < id)
      && (IdOf(s[n]).Some? ==> IdOf(s[n]).value < id)
      && (IdOf(s[n]).Some? || (exists x :: HeldBelowRoot(t, rank, n, x)) ==>
            HeldBelowRoot(t, rank, n, id - 1) || IdOf(s[n]) == Some(id - 1))
      && (IdOf(s[n]).None? && (forall x :: !HeldBelowRoot(t, rank, n, x)) ==> id == 1)
  {
    var found := Scan(s, rank, Root(Parents(s), rank, n));
    assert found != [] ==> id - 1 in found;
    FoundIds(s, rank, n, s[n].attrs["id" := Atom(Int(id))]);
  }

  /**
   * An existing node `x` after node `n` was constructed with `parent` and `children`: it is
   * given `n` as parent when listed in `children`, its child list loses the elements of
   * `children`, and gains `n` at the end when it is `parent`.
   */
  function Joined(d: NodeData, x: Handle, n: Handle, parent: Option<Handle>, children: seq<Handle>): NodeData
  {
    d.(parent := if x in children then Some(n) else d.parent,
       children := Without(d.children, children) + if parent == Some(x) then [n] else [])
  }

  /**
   * The links after construction, stage by stage: a fresh root `n` is appended, hung below
   * `parent` (`sA`), given its `index` (`s2`), then adopts `children` (`s3`). Every existing
   * node ends `Joined`, the new one holds `parent` and `children`.
   */
  lemma JoinedShape(s0: seq<NodeData>, a1: map<string, Value>, sA: seq<NodeData>, s2: seq<NodeData>, s3: seq<NodeData>,
                    a: map<string, Value>, parent: Option<Handle>, children: seq<Handle>)
    requires parent.Some? ==> parent.value < |s0|
    requires forall c :: c in children ==> c < |s0|
    requires var s1 := s0 + [NodeData(a1, None, [])];
      sA == if parent.Some? then Relink(s1, |s0|, parent.value) else s1
    requires |sA| == |s0| + 1 && s2 == sA[|s0| := sA[|s0|].(attrs := a)]
    requires s3 == if children == [] then s2 else Adopted(s2, |s0|, children)
    ensures |s3| == |s0| + 1
    ensures s3[|s0|] == NodeData(a, parent, children)
    ensures forall x: Handle {:trigger s3[x]} :: x < |s0| ==> s3[x] == Joined(s0[x], x, |s0|, parent, children)
  {
    var n := |s0|;
    forall x: Handle | x < n
      ensures s3[x] == Joined(s0[x], x, n, parent, children)
    {
      assert n !in children;
      if parent == Some(x) {
        WithoutAppend(s0[x].children, children, n);
      } else {
        assert s2[x].children == s0[x].children;
      }
      if children == [] {
        WithoutAbsent(s2[x].children, []);
      }
    }
  }

  /** The ids the adopted children held before construction are held below the root of `n`. */
  lemma ChildrenIdsHeld(s0: seq<NodeData>, s: seq<NodeData>, rank: seq<nat>, n: Handle,
                        parent: Option<Handle>, children: seq<Handle>)
    requires Ranked(Parents(s), rank) && n == |s0| && |s| == n + 1
    requires forall c :: c in children ==> c < n
    requires forall x: Handle {:trigger s[x]} :: x < n ==> s[x] == Joined(s0[x], x, n, parent, children)
    ensures forall c, x :: c in children && IdOf(s0[c]) == Some(x) ==> HeldBelowRoot(s, rank, n, x)
  {
    var r := Root(Parents(s), rank, n);
    forall c, x | c in children && IdOf(s0[c]) == Some(x)
      ensures HeldBelowRoot(s, rank, n, x)
    {
      assert s[c] == Joined(s0[c], c, n, parent, children);
      ChildBelowRoot(Parents(s), rank, n, c);
      assert HoldsIdBelow(s, rank, r, c, x);
    }
  }

  /** All nodes ever constructed, addressed by handle; handle `h` is `nodes[h]`. */
  class Forest {
    var nodes: seq<NodeData>
    ghost var rank: seq<nat>

    ghost predicate Valid()
      reads this
    {
      Linked(nodes, rank) && IdsAreInts(nodes)
    }

    constructor ()
      ensures Valid() && nodes == []
    {
      nodes := [];
      rank := [];
    }

    /** `setattr(node, key, v)` for a plain attribute: only the dictionary of `n` changes. */
    method SetAttr(n: Handle, key: string, v: Value)
      requires Linked(nodes, rank) && n < |nodes|
      modifies this
      ensures nodes == old(nodes)[n := old(nodes[n]).(attrs := old(nodes[n].attrs)[key := v])]
      ensures rank == old(rank)
      ensures Parents(nodes) == Parents(old(nodes)) && Linked(nodes, rank)
    {
      AttrsOnly(nodes, rank, n, nodes[n].attrs[key := v]);
      nodes := nodes[n := nodes[n].(attrs := nodes[n].attrs[key := v])];
    }

    /** `node.__dict__.update(kwargs)`: keyword attributes join the dictionary of `n`. */
    method UpdateAttrs(n: Handle, kwargs: map<string, Value>)
      requires Linked(nodes, rank) && n < |nodes|
      modifies this
      ensures nodes == old(nodes)[n := old(nodes[n]).(attrs := old(nodes[n].attrs) + kwargs)]
      ensures rank == old(rank)
      ensures Parents(nodes) == Parents(old(nodes)) && Linked(nodes, rank)
    {
      AttrsOnly(nodes, rank, n, nodes[n].attrs + kwargs);
      nodes := nodes[n := nodes[n].(attrs := nodes[n].attrs + kwargs)];
    }

    /**
     * `c.parent = p` (the tree capability's parent setter): unless `p` already is the parent,
     * `c` leaves the children of its previous parent and is appended to those of `p`.
     * Hanging `c` below itself or one of its descendants is refused by the capability.
     */
    method Attach(c: Handle, p: Handle)
      requires Linked(nodes, rank) && c < |nodes| && p < |nodes|
      requires c !in Ancestry(Parents(nodes), rank, p)
      modifies this
      ensures Linked(nodes, rank)
      ensures Parents(nodes) == Parents(old(nodes))[c := Some(p)]
      ensures Ancestry(Parents(nodes), rank, p) == old(Ancestry(Parents(nodes), rank, p))
      ensures nodes == if old(nodes[c].parent) == Some(p) then old(nodes) else Relink(old(nodes), c, p)
    {
      if nodes[c].parent == Some(p) {
        assert Parents(nodes)[c := Some(p)] == Parents(nodes);
      } else {
        RelinkLinked(nodes, rank, c, p);
        rank := RelinkRank(nodes, rank, c, p);
        nodes := Relink(nodes, c, p);
      }
    }

    /**
     * `h.children = cs` for a node that has no children yet: every element of `cs`, in
     * order, is given `h` as its parent. A list with duplicates, or one holding `h` or an
     * ancestor of `h`, is refused by the capability.
     */
    method SetChildren(h: Handle, cs: seq<Handle>)
      requires Linked(nodes, rank) && h < |nodes| && nodes[h].children == []
      requires NoDuplicates(cs)
      requires forall c :: c in cs ==> c < |nodes| && c !in Ancestry(Parents(nodes), rank, h)
      modifies this
      ensures Linked(nodes, rank)
      ensures nodes == Adopt(old(nodes), h, cs) && nodes == Adopted(old(nodes), h, cs)
    {
      ghost var s0, r0 := nodes, rank;
      HangEach(h, cs);
      rank := AdoptRank(s0, r0, h, cs);
      AdoptPointwise(s0, r0, h, cs);
    }

    /** The loop of the children setter: each element of `cs` in turn is hung below `h`. */
    method HangEach(h: Handle, cs: seq<Handle>)
      requires h < |nodes| && forall c :: c in cs ==> c < |nodes|
      modifies this
      ensures nodes == Adopt(old(nodes), h, cs) && rank == old(rank)
    {
      ghost var s0 := nodes;
      var i := 0;
      while i < |cs|
        invariant 0 <= i <= |cs|
        invariant forall c :: c in cs[..i] ==> c in cs
        invariant nodes == Adopt(s0, h, cs[..i]) && rank == old(rank)
      {
        var c := cs[i];
        assert cs[..i + 1][..i] == cs[..i];
        assert c in cs;
        nodes := Relink(nodes, c, h);
        i := i + 1;
      }
      assert cs[..i] == cs;
    }

    /**
     * The id assignment that ends construction: a node without a parent gets 0; otherwise
     * the ids found below its root decide, 1 when there are none and one more than the
     * largest otherwise. The new id is larger than every id found, and is either 1 or one
     * more than an id found.
     */
    method AssignId(n: Handle) returns (id: int)
      requires Linked(nodes, rank) && n < |nodes|
      modifies this
      ensures nodes == old(nodes)[n := old(nodes[n]).(attrs := old(nodes[n].attrs)["id" := Atom(Int(id))])]
      ensures rank == old(rank) && Linked(nodes, rank)
      ensures nodes[n].parent.None? ==> id == 0
      ensures nodes[n].parent.Some? ==> forall x :: HeldBelowRoot(nodes, rank, n, x) ==> x < id
      ensures nodes[n].parent.Some? && old(IdOf(nodes[n])).Some? ==> old(IdOf(nodes[n])).value < id
      ensures nodes[n].parent.Some? && (old(IdOf(nodes[n])).Some? || exists x :: HeldBelowRoot(nodes, rank, n, x)) ==>
        HeldBelowRoot(nodes, rank, n, id - 1) || old(IdOf(nodes[n])) == Some(id - 1)
      ensures nodes[n].parent.Some? && old(IdOf(nodes[n])).None? && (forall x :: !HeldBelowRoot(nodes, rank, n, x)) ==> id == 1
    {
      var hasParent := nodes[n].parent.Some?;
      var found: seq<int> := [];
      if hasParent {
        found := Scan(nodes, rank, Root(Parents(nodes), rank, n));
      }
      id := NextId(hasParent, found);
      if hasParent {
        ScannedId(nodes, rank, n, id);
      }
      SetAttr(n, "id", Atom(Int(id)));
    }

    /**
     * `Node(gate, name, index, parent, children, **kwargs)`: a new node joins the arena. Its
     * dictionary takes the keyword attributes, then `gate` and `name`; it is hung below
     * `parent` when one is given, then takes `index` as a set and adopts `children` when the
     * list is not empty; last, it receives its id.
     */
    method Construct(gate: Value, name: Value, index: seq<Scalar>, parent: Option<Handle>,
                     children: seq<Handle>, kwargs: map<string, Value>) returns (n: Handle, id: int)
      requires Valid()
      requires parent.Some? ==> parent.value < |nodes|
      requires NoDuplicates(children) && forall c :: c in children ==> c < |nodes|
      requires parent.Some? ==> forall c :: c in children ==> c !in Ancestry(Parents(nodes), rank, parent.value)
      requires parent.Some? && "id" in kwargs ==> IsInt(kwargs["id"])
      modifies this
      ensures Valid()
      ensures n == old(|nodes|) && |nodes| == n + 1
      ensures nodes[n] == NodeData(InitialAttributes(kwargs, gate, name, index)["id" := Atom(Int(id))], parent, children)
      ensures forall x: Handle {:trigger nodes[x]} :: x < n ==> nodes[x] == Joined(old(nodes[x]), x, n, parent, children)
      ensures parent.None? ==> id == 0
      ensures parent.Some? ==> forall x :: HeldBelowRoot(nodes, rank, n, x) ==> x < id
      ensures parent.Some? && "id" in kwargs ==> kwargs["id"].a.i < id
      ensures parent.Some? ==> forall c, x :: c in children && IdOf(old(nodes[c])) == Some(x) ==> x < id
      ensures parent.Some? && ("id" in kwargs || exists x :: HeldBelowRoot(nodes, rank, n, x)) ==>
        HeldBelowRoot(nodes, rank, n, id - 1) || ("id" in kwargs && kwargs["id"] == Atom(Int(id - 1)))
      ensures parent.Some? && "id" !in kwargs && (forall x :: !HeldBelowRoot(nodes, rank, n, x)) ==> id == 1
    {
      ghost var s0 := nodes;
      n := Build(gate, name, index, parent, children, kwargs);
      ghost var s1 := nodes;
      assert IdOf(s1[n]) == if "id" in kwargs && IsInt(kwargs["id"]) then Some(kwargs["id"].a.i) else None;
      id := AssignId(n);
      assert forall x: Handle :: x < n ==> nodes[x] == s1[x];
      ChildrenIdsHeld(s0, nodes, rank, n, parent, children);
      if parent.Some? {
        forall c, x | c in children && IdOf(s0[c]) == Some(x)
          ensures x < id
        {
          assert HeldBelowRoot(nodes, rank, n, x);
        }
      }
    }

    /**
     * A fresh node joins the arena as a root without children: its empty dictionary is
     * updated with the keyword attributes, then `gate` and `name` are written over them.
     */
    method NewRoot(gate: Value, name: Value, kwargs: map<string, Value>) returns (n: Handle)
      requires Linked(nodes, rank)
      modifies this
      ensures n == old(|nodes|)
      ensures nodes == old(nodes) + [NodeData(kwargs["gate" := gate]["name" := name], None, [])]
      ensures rank == old(rank) + [0] && Linked(nodes, rank)
    {
      n := |nodes|;
      AppendRoot(nodes, rank, map[]);
      nodes := nodes + [NodeData(map[], None, [])];
      rank := rank + [0];
      UpdateAttrs(n, kwargs);
      assert map[] + kwargs == kwargs;
      SetAttr(n, "gate", gate);
      SetAttr(n, "name", name);
    }

    /**
     * The first part of construction, up to the id: keyword attributes, `gate` and `name`
     * are written, the node is hung below `parent` when one is given, `index` is written as
     * a set, and `children` are adopted when the list is not empty.
     */
    method Build(gate: Value, name: Value, index: seq<Scalar>, parent: Option<Handle>,
                 children: seq<Handle>, kwargs: map<string, Value>) returns (n: Handle)
      requires Linked(nodes, rank)
      requires parent.Some? ==> parent.value < |nodes|
      requires NoDuplicates(children) && forall c :: c in children ==> c < |nodes|
      requires parent.Some? ==> forall c :: c in children ==> c !in Ancestry(Parents(nodes), rank, parent.value)
      modifies this
      ensures Linked(nodes, rank)
      ensures n == old(|nodes|) && |nodes| == n + 1
      ensures nodes[n] == NodeData(InitialAttributes(kwargs, gate, name, index), parent, children)
      ensures forall x: Handle {:trigger nodes[x]} :: x < n ==> nodes[x] == Joined(old(nodes[x]), x, n, parent, children)
    {
      ghost var s0 := nodes;
      n := NewRoot(gate, name, kwargs);
      if parent.Some? {
        AncestryFrame(Parents(s0), old(rank), Parents(nodes), rank, parent.value);
        Attach(n, parent.value);
      }
      ghost var sA := nodes;
      SetAttr(n, "index", SetOf(IndexSet(index)));
      ghost var s2 := nodes;
      if children != [] {
        if parent.Some? {
          assert Ancestry(Parents(nodes), rank, n) == {n} + Ancestry(Parents(nodes), rank, parent.value);
        }
        SetChildren(n, children);
      }
      JoinedShape(s0, kwargs["gate" := gate]["name" := name], sA, s2, nodes,
                  InitialAttributes(kwargs, gate, name, index), parent, children);
    }
  }
}
