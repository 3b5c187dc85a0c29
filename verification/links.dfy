/**
 * The part of the tree capability (anytree's NodeMixin) that node construction relies on,
 * stated over the parent links of an arena of nodes: `ps[h]` is the parent of node `h`.
 * `root` walks up the parent links; the descendants of a node are the nodes that have it
 * as a proper ancestor.
 *
 * A ghost rank, strictly smaller at a parent than at its child, witnesses that the links
 * have no cycle; it is also the termination measure of every walk up the tree.
 */
module Links {
  import opened Values

  type Handle = nat

  /** Every parent link points into the arena, and ranks strictly increase from parent to child. */
  ghost predicate Ranked(ps: seq<Option<Handle>>, rank: seq<nat>)
  {
    && |rank| == |ps|
    && forall h: Handle :: h < |ps| && ps[h].Some? ==> ps[h].value < |ps| && rank[ps[h].value] < rank[h]
  }

  /** Node `h` together with all of its ancestors. */
  function Ancestry(ps: seq<Option<Handle>>, ghost rank: seq<nat>, h: Handle): (a: set<Handle>)
    requires Ranked(ps, rank) && h < |ps|
    ensures h in a
    ensures forall x :: x in a ==> x < |ps|
    decreases rank[h]
  {
    match ps[h]
    case None => {h}
    case Some(p) => {h} + Ancestry(ps, rank, p)
  }

  /** The root of the tree holding `h` (NodeMixin.root): the ancestor-or-self without a parent. */
  function Root(ps: seq<Option<Handle>>, ghost rank: seq<nat>, h: Handle): (r: Handle)
    requires Ranked(ps, rank) && h < |ps|
    ensures r in Ancestry(ps, rank, h)
    ensures r < |ps| && ps[r].None?
    decreases rank[h]
  {
    match ps[h]
    case None => h
    case Some(p) => Root(ps, rank, p)
  }

  /** `d` lies strictly below `a`: `a` is a proper ancestor of `d`. */
  predicate IsDescendant(ps: seq<Option<Handle>>, ghost rank: seq<nat>, d: Handle, a: Handle): (b: bool)
    requires Ranked(ps, rank) && d < |ps|
    ensures b ==> ps[d].Some? && a < |ps|
  {
    d != a && a in Ancestry(ps, rank, d)
  }

  /** A node with a parent lies strictly below its root. */
  lemma BelowOwnRoot(ps: seq<Option<Handle>>, rank: seq<nat>, h: Handle)
    requires Ranked(ps, rank) && h < |ps| && ps[h].Some?
    ensures IsDescendant(ps, rank, h, Root(ps, rank, h))
  {
  }

  /** A child lies in the tree of its parent, strictly below their common root. */
  lemma ChildBelowRoot(ps: seq<Option<Handle>>, rank: seq<nat>, n: Handle, c: Handle)
    requires Ranked(ps, rank) && c < |ps| && ps[c] == Some(n)
    ensures Root(ps, rank, c) == Root(ps, rank, n)
    ensures IsDescendant(ps, rank, c, Root(ps, rank, n))
  {
  }

  /** The ancestry of a node is closed under taking parents. */
  lemma {:induction false} AncestryClosed(ps: seq<Option<Handle>>, rank: seq<nat>, h: Handle, x: Handle)
    requires Ranked(ps, rank) && h < |ps|
    requires x in Ancestry(ps, rank, h) && ps[x].Some?
    ensures ps[x].value in Ancestry(ps, rank, h)
    decreases rank[h]
  {
    if x != h {
      AncestryClosed(ps, rank, ps[h].value, x);
    }
  }

  /**
   * Ancestry and root of `h` depend only on the links of its ancestors: another arena that
   * keeps those links (and may hold more nodes) gives the same ancestry and root.
   */
  lemma {:induction false} AncestryFrame(ps: seq<Option<Handle>>, rank: seq<nat>,
                                         qs: seq<Option<Handle>>, rank': seq<nat>, h: Handle)
    requires Ranked(ps, rank) && Ranked(qs, rank') && h < |ps| <= |qs|
    requires forall x :: x in Ancestry(ps, rank, h) ==> qs[x] == ps[x]
    ensures Ancestry(qs, rank', h) == Ancestry(ps, rank, h)
    ensures Root(qs, rank', h) == Root(ps, rank, h)
    decreases rank[h]
  {
    assert qs[h] == ps[h];
    if ps[h].Some? {
      AncestryFrame(ps, rank, qs, rank', ps[h].value);
    }
  }

  /**
   * The rank after `c` is hung below `p`: the ancestry of `p` keeps its ranks, every other
   * node moves up by `rank[p] + 1`, so `c` (outside that ancestry) ends above `p`.
   */
  ghost function Raised(ps: seq<Option<Handle>>, rank: seq<nat>, p: Handle): (r: seq<nat>)
    requires Ranked(ps, rank) && p < |ps|
    ensures |r| == |rank|
  {
    var chain := Ancestry(ps, rank, p);
    seq(|rank|, i requires 0 <= i < |rank| => if i in chain then rank[i] else rank[i] + rank[p] + 1)
  }

  /** Re-linking `c` below `p` keeps the links acyclic when `c` is neither `p` nor an ancestor of `p`. */
  lemma RelinkRanked(ps: seq<Option<Handle>>, rank: seq<nat>, c: Handle, p: Handle)
    requires Ranked(ps, rank) && c < |ps| && p < |ps|
    requires c !in Ancestry(ps, rank, p)
    ensures Ranked(ps[c := Some(p)], Raised(ps, rank, p))
  {
    var chain := Ancestry(ps, rank, p);
    var qs, r := ps[c := Some(p)], Raised(ps, rank, p);
    forall h: Handle | h < |qs| && qs[h].Some?
      ensures qs[h].value < |qs| && r[qs[h].value] < r[h]
    {
      if h != c && h in chain {
        AncestryClosed(ps, rank, p, h);
      }
    }
  }

  /** The elements of `xs` that are not in `cs`, in their order (a list comprehension filter). */
  function Without(xs: seq<Handle>, cs: seq<Handle>): (r: seq<Handle>)
    ensures forall x :: x in r <==> x in xs && x !in cs
    ensures |r| <= |xs|
  {
    if xs == [] then []
    else (if xs[0] in cs then [] else [xs[0]]) + Without(xs[1..], cs)
  }

  /** No element occurs twice. */
  predicate NoDuplicates<T(==)>(xs: seq<T>)
  {
    forall i, j :: 0 <= i < j < |xs| ==> xs[i] != xs[j]
  }

  /** Filtering keeps a list free of duplicates. */
  lemma {:induction false} WithoutNoDuplicates(xs: seq<Handle>, cs: seq<Handle>)
    requires NoDuplicates(xs)
    ensures NoDuplicates(Without(xs, cs))
  {
    if xs != [] {
      WithoutNoDuplicates(xs[1..], cs);
      assert xs[0] !in xs[1..];
    }
  }

  /** Filtering out `cs` and then `c` is filtering out `cs + [c]`. */
  lemma {:induction false} WithoutStep(xs: seq<Handle>, cs: seq<Handle>, c: Handle)
    ensures Without(Without(xs, cs), [c]) == Without(xs, cs + [c])
  {
    if xs != [] {
      var a, t := xs[0], xs[1..];
      WithoutStep(t, cs, c);
      assert a in cs + [c] <==> a in cs || a == c;
      if a in cs {
        assert Without(xs, cs) == Without(t, cs);
      } else {
        var u := Without(xs, cs);
        assert u == [a] + Without(t, cs);
        assert u[0] == a && u[1..] == Without(t, cs);
        assert Without(u, [c]) == (if a in [c] then [] else [a]) + Without(Without(t, cs), [c]);
      }
    }
  }

  /** An element appended after the filter was set up survives it when it is not filtered. */
  lemma {:induction false} WithoutAppend(xs: seq<Handle>, cs: seq<Handle>, c: Handle)
    requires c !in cs
    ensures Without(xs + [c], cs) == Without(xs, cs) + [c]
  {
    if xs == [] {
      assert xs + [c] == [c];
    } else {
      var ys := xs + [c];
      assert ys[1..] == xs[1..] + [c];
      WithoutAppend(xs[1..], cs, c);
    }
  }

  /** Filtering out nothing, or only absent elements, leaves the list as it is. */
  lemma {:induction false} WithoutAbsent(xs: seq<Handle>, cs: seq<Handle>)
    requires forall c :: c in cs ==> c !in xs
    ensures Without(xs, cs) == xs
  {
    if xs != [] {
      WithoutAbsent(xs[1..], cs);
    }
  }
}
