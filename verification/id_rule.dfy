/**
 * The identifier rule of `Node.__init__`: a node without a parent gets 0; otherwise
 * the ids found among the root's descendants are scanned and the new id is one more
 * than their maximum, or 1 when none was found.
 */
module IdRule {

  /** The largest element of a non-empty list (Python's `max`). */
  function Max(xs: seq<int>): (m: int)
    requires xs != []
    ensures m in xs
    ensures forall x :: x in xs ==> x <= m
  {
    if |xs| == 1 then xs[0]
    else
      var rest := Max(xs[1..]);
      assert forall x :: x in xs ==> x == xs[0] || x in xs[1..];
      if xs[0] < rest then rest else xs[0]
  }

  /**
   * The id a new node receives, given whether it has a parent and the ids collected
   * from the descendants of its root (only nodes that have an id contribute).
   */
  function NextId(hasParent: bool, found: seq<int>): (id: int)
    ensures !hasParent ==> id == 0
    ensures hasParent && found == [] ==> id == 1
    ensures hasParent && found != [] ==> id - 1 in found
    ensures hasParent ==> forall x :: x in found ==> x < id
  {
    if !hasParent then 0
    else if |found| == 0 then 1
    else Max(found) + 1
  }

  /** With a parent and at least one id found, the new id is the least integer above every id found. */
  lemma NextIdIsLeastAbove(found: seq<int>, y: int)
    requires found != []
    requires forall x :: x in found ==> x < y
    ensures NextId(true, found) <= y
  {
    assert NextId(true, found) - 1 in found;
  }

  /** The new id differs from every id found: it cannot collide with an id present at the scan. */
  lemma NextIdIsFresh(found: seq<int>)
    ensures NextId(true, found) !in found
  {
  }

  /**
   * Only the SET of ids found matters: the traversal order of the descendants and repeated
   * ids do not change the result.
   */
  lemma NextIdIgnoresOrder(found1: seq<int>, found2: seq<int>, hasParent: bool)
    requires forall x :: x in found1 <==> x in found2
    ensures NextId(hasParent, found1) == NextId(hasParent, found2)
  {
    if hasParent && found1 != [] {
      assert found1[0] in found1;
      var a, b := NextId(true, found1), NextId(true, found2);
      assert a - 1 in found2 && b - 1 in found1;
      assert a - 1 < b && b - 1 < a;
    } else if hasParent && found2 != [] {
      assert found2[0] in found2;
    }
  }
}
