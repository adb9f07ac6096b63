/**
 The nodes of the augmented interval search tree.

 `Tree` plays the part of the source's `Option<Box<IntervalTreeNode>>`
 (`IntervalTreeNode | null` in TypeScript): `Nil` is the empty slot and
 `Node` an owned node with its interval, its `max` field and two children.
 */
module Trees {
  import opened Intervals

  datatype Tree = Nil | Node(interval: Interval, max: int, left: Tree, right: Tree)

  /** The stored intervals, node before left subtree before right subtree. */
  function Elements(t: Tree): seq<Interval> {
    match t
    case Nil => []
    case Node(iv, _, l, r) => [iv] + Elements(l) + Elements(r)
  }

  /** The stored intervals as a multiset: what the tree holds, regardless of shape. */
  function Stored(t: Tree): multiset<Interval> {
    match t
    case Nil => multiset{}
    case Node(iv, _, l, r) => multiset{iv} + Stored(l) + Stored(r)
  }

  /** The multiset and the pre-order listing hold the same intervals. */
  lemma {:induction false} StoredIsElements(t: Tree)
    ensures Stored(t) == multiset(Elements(t))
  {
    match t
    case Nil =>
    case Node(iv, _, l, r) =>
      StoredIsElements(l);
      StoredIsElements(r);
  }

  /** `m` raised to the `max` field of `t`, or `m` itself when `t` is empty. */
  function MaxWith(t: Tree, m: int): int {
    match t
    case Nil => m
    case Node(_, tm, _, _) => Max(tm, m)
  }

  /**
   BST order on `start`: everything in a left subtree starts strictly before
   the node, everything in a right subtree starts at or after it.
   */
  ghost predicate Ordered(t: Tree) {
    match t
    case Nil => true
    case Node(iv, _, l, r) =>
      && (forall x :: x in Elements(l) ==> x.start < iv.start)
      && (forall x :: x in Elements(r) ==> x.start >= iv.start)
      && Ordered(l)
      && Ordered(r)
  }

  /** Each node's `max` is the larger of its own `end` and its children's `max`. */
  ghost predicate Augmented(t: Tree) {
    match t
    case Nil => true
    case Node(iv, m, l, r) =>
      && m == MaxWith(r, MaxWith(l, iv.end))
      && Augmented(l)
      && Augmented(r)
  }

  ghost predicate Valid(t: Tree) {
    Ordered(t) && Augmented(t)
  }

  /** `IntervalTreeNode::new`: a childless node whose `max` is its own `end`. */
  function NewNode(iv: Interval): (n: Tree)
    ensures n.Node? && n.max == iv.end
    ensures Elements(n) == [iv]
    ensures Valid(n)
  {
    Node(iv, iv.end, Nil, Nil)
  }

  /**
   The local augmentation rule makes `max` the subtree maximum: it bounds
   every stored `end` below it and is the `end` of some stored interval.
   */
  lemma {:induction false} AugmentedMaxIsSubtreeMax(t: Tree)
    requires t.Node? && Augmented(t)
    ensures forall x :: x in Elements(t) ==> x.end <= t.max
    ensures exists x :: x in Elements(t) && x.end == t.max
  {
    var Node(iv, m, l, r) := t;
    assert iv in Elements(t);
    if l.Node? {
      AugmentedMaxIsSubtreeMax(l);
      var y :| y in Elements(l) && y.end == l.max;
      assert y in Elements(t);
    }
    if r.Node? {
      AugmentedMaxIsSubtreeMax(r);
      var y :| y in Elements(r) && y.end == r.max;
      assert y in Elements(t);
    }
  }
}
