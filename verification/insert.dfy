/**
 Insertion into the unbalanced augmented tree (`insert_node` / `insertNode`,
 identical in all four copies of the tree). There is no rebalancing: the
 new interval always ends up in a fresh leaf.
 */
module Insertion {
  import opened Intervals
  import opened Trees

  /**
   Descend by `start` (strictly smaller goes left, an equal or larger start
   goes right), put a new node in the empty slot reached, and raise `max`
   to the inserted `end` on every node of the path.
   */
  function InsertNode(t: Tree, iv: Interval): (r: Tree)
    // exactly one interval is added, nothing is lost
    ensures Stored(r) == Stored(t) + multiset{iv}
    // the result is a node: the source's `insert_node` always returns `Some`
    ensures r.Node?
    // a non-empty tree keeps its root interval
    ensures t.Node? ==> r.interval == t.interval
    // the root's max now also covers the inserted end
    ensures r.max == MaxWith(t, iv.end)
    // a strictly smaller start goes into the left subtree, anything else (ties included)
    // into the right one; the subtree the descent does not enter is left untouched
    ensures t.Node? && iv.start < t.interval.start ==>
              Stored(r.left) == Stored(t.left) + multiset{iv} && r.right == t.right
    ensures t.Node? && iv.start >= t.interval.start ==>
              Stored(r.right) == Stored(t.right) + multiset{iv} && r.left == t.left
  {
    match t
    case Nil => NewNode(iv)
    case Node(x, m, l, rt) =>
      if iv.start < x.start then
        var l' := InsertNode(l, iv);
        Node(x, Max(m, iv.end), l', rt)
      else
        var rt' := InsertNode(rt, iv);
        Node(x, Max(m, iv.end), l, rt')
  }

  /** An interval lands in exactly one place of the new tree: where it was, or the inserted one. */
  lemma InsertedElements(t: Tree, iv: Interval)
    ensures forall x :: x in Elements(InsertNode(t, iv)) ==> x in Elements(t) || x == iv
  {
    var r := InsertNode(t, iv);
    StoredIsElements(t);
    StoredIsElements(r);
    forall x | x in Elements(r)
      ensures x in Elements(t) || x == iv
    {
      assert x in multiset(Elements(r));
    }
  }

  /** Insertion keeps the BST order on `start`, with ties sent right. */
  lemma {:induction false} InsertPreservesOrdered(t: Tree, iv: Interval)
    requires Ordered(t)
    ensures Ordered(InsertNode(t, iv))
  {
    match t
    case Nil =>
    case Node(x, m, l, rt) =>
      if iv.start < x.start {
        var l' := InsertNode(l, iv);
        InsertPreservesOrdered(l, iv);
        InsertedElements(l, iv);
        assert forall y :: y in Elements(l') ==> y.start < x.start;
        assert InsertNode(t, iv) == Node(x, Max(m, iv.end), l', rt);
      } else {
        var rt' := InsertNode(rt, iv);
        InsertPreservesOrdered(rt, iv);
        InsertedElements(rt, iv);
        assert forall y :: y in Elements(rt') ==> y.start >= x.start;
        assert InsertNode(t, iv) == Node(x, Max(m, iv.end), l, rt');
      }
  }

  /** Insertion keeps every node's `max` equal to the larger of its `end` and its children's `max`. */
  lemma {:induction false} InsertPreservesAugmented(t: Tree, iv: Interval)
    requires Augmented(t)
    ensures Augmented(InsertNode(t, iv))
  {
    match t
    case Nil =>
    case Node(x, m, l, rt) =>
      var e := iv.end;
      if iv.start < x.start {
        var l' := InsertNode(l, iv);
        InsertPreservesAugmented(l, iv);
        MaxWithRaised(l, l', x.end, e);
        MaxWithShift(rt, MaxWith(l, x.end), e);
      } else {
        var rt' := InsertNode(rt, iv);
        InsertPreservesAugmented(rt, iv);
        MaxWithRaised(rt, rt', MaxWith(l, x.end), e);
      }
  }

  /** Raising a child's `max` to `e` raises its parent's combined maximum to `e`. */
  lemma MaxWithRaised(c: Tree, c': Tree, a: int, e: int)
    requires c'.Node? && c'.max == MaxWith(c, e)
    ensures MaxWith(c', a) == Max(MaxWith(c, a), e)
  {
  }

  lemma MaxWithShift(t: Tree, a: int, e: int)
    ensures MaxWith(t, Max(a, e)) == Max(MaxWith(t, a), e)
  {
  }

  /** Both invariants together: a valid tree stays valid. */
  lemma InsertPreservesValid(t: Tree, iv: Interval)
    ensures Valid(t) ==> Valid(InsertNode(t, iv))
  {
    if Valid(t) {
      InsertPreservesOrdered(t, iv);
      InsertPreservesAugmented(t, iv);
    }
  }
}
