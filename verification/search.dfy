/**
 The pruned stabbing query (`search_node` / `searchNode`). Like the source it
 threads the result list through the recursion: a node's own interval is
 appended first, then what its left subtree yields, then its right subtree.
 */
module Search {
  import opened Intervals
  import opened Trees

  /**
   `r` is `results` followed only by intervals drawn from `pool` that
   contain `point`: what one call of the traversal may do to its result list.
   */
  predicate AppendsMatches(r: seq<Interval>, results: seq<Interval>, point: int, pool: seq<Interval>) {
    && |results| <= |r|
    && r[..|results|] == results
    && forall i :: |results| <= i < |r| ==> Contains(r[i], point) && r[i] in pool
  }

  /** Three successive appends at a node (itself, left subtree, right subtree) make one append from the whole subtree. */
  lemma AppendsMatchesChain(t: Tree, point: int, results: seq<Interval>, withSelf: seq<Interval>,
                            withLeft: seq<Interval>, r: seq<Interval>)
    requires t.Node?
    requires AppendsMatches(withSelf, results, point, [t.interval])
    requires AppendsMatches(withLeft, withSelf, point, Elements(t.left))
    requires AppendsMatches(r, withLeft, point, Elements(t.right))
    ensures AppendsMatches(r, results, point, Elements(t))
  {
    forall i | |results| <= i < |r|
      ensures Contains(r[i], point) && r[i] in Elements(t)
    {
      if i < |withSelf| {
        assert r[i] == withLeft[..|withSelf|][i];
      } else if i < |withLeft| {
        assert r[i] == withLeft[i];
      }
    }
    assert r[..|results|] == withLeft[..|withSelf|][..|results|];
  }

  /**
   The traversal of src/main.rs, benches/interval_bench.rs and
   interval-tree-benchmark-suite.ts. The left child is visited only when it
   exists and its `max` reaches `point`; the right child (possibly empty)
   only when `point` is at or after the node's own `start`.
   */
  function SearchNode(t: Tree, point: int, results: seq<Interval>): (r: seq<Interval>)
    // collected results are kept in place; everything added is stored in `t` and contains the point
    ensures AppendsMatches(r, results, point, Elements(t))
  {
    match t
    case Nil => results
    case Node(iv, _, l, rt) =>
      var withSelf := if Contains(iv, point) then results + [iv] else results;
      var withLeft := if l.Node? && l.max >= point then SearchNode(l, point, withSelf) else withSelf;
      var r := if point >= iv.start then SearchNode(rt, point, withLeft) else withLeft;
      AppendsMatchesChain(t, point, results, withSelf, withLeft, r);
      r
  }

  /**
   The traversal of interval-tree-benchmark.ts, whose right-hand call is
   additionally guarded by `node.right &&`.
   */
  function SearchNodeGuarded(t: Tree, point: int, results: seq<Interval>): (r: seq<Interval>)
    ensures AppendsMatches(r, results, point, Elements(t))
  {
    match t
    case Nil => results
    case Node(iv, _, l, rt) =>
      var withSelf := if Contains(iv, point) then results + [iv] else results;
      var withLeft := if l.Node? && l.max >= point then SearchNodeGuarded(l, point, withSelf) else withSelf;
      var r := if rt.Node? && point >= iv.start then SearchNodeGuarded(rt, point, withLeft) else withLeft;
      AppendsMatchesChain(t, point, results, withSelf, withLeft, r);
      r
  }

  /** The extra `node.right` guard changes nothing: searching an empty slot returns at once. */
  lemma {:induction false} GuardedSearchAgrees(t: Tree, point: int, results: seq<Interval>)
    ensures SearchNodeGuarded(t, point, results) == SearchNode(t, point, results)
  {
    match t
    case Nil =>
    case Node(iv, _, l, rt) =>
      var withSelf := if Contains(iv, point) then results + [iv] else results;
      GuardedSearchAgrees(l, point, withSelf);
      var withLeft := if l.Node? && l.max >= point then SearchNode(l, point, withSelf) else withSelf;
      GuardedSearchAgrees(rt, point, withLeft);
  }

  /**
   Left pruning loses nothing: when the left child's `max` is below the
   point, no interval stored under it contains the point.
   */
  lemma LeftPruneSound(l: Tree, point: int)
    requires l.Node? && Augmented(l) && l.max < point
    ensures forall x :: x in Elements(l) ==> !Contains(x, point)
    ensures Scan(Elements(l), point) == []
  {
    AugmentedMaxIsSubtreeMax(l);
    ScanNone(Elements(l), point);
  }

  /**
   Right pruning loses nothing: when the point lies before the node's start,
   no interval of the right subtree, which all start at or after it, contains it.
   */
  lemma RightPruneSound(t: Tree, point: int)
    requires t.Node? && Ordered(t) && point < t.interval.start
    ensures forall x :: x in Elements(t.right) ==> !Contains(x, point)
    ensures Scan(Elements(t.right), point) == []
  {
    ScanNone(Elements(t.right), point);
  }

  /**
   Completeness: on a valid tree the pruned traversal appends exactly what a
   brute-force scan of all stored intervals finds, in pre-order.
   */
  lemma {:induction false} SearchComplete(t: Tree, point: int, results: seq<Interval>)
    requires Valid(t)
    ensures SearchNode(t, point, results) == results + Scan(Elements(t), point)
  {
    match t
    case Nil =>
    case Node(iv, _, l, rt) =>
      var self := Scan([iv], point);
      assert Scan([iv], point) == (if Contains(iv, point) then [iv] else []) + Scan([], point);
      var withSelf := if Contains(iv, point) then results + [iv] else results;
      assert withSelf == results + self;

      var withLeft := if l.Node? && l.max >= point then SearchNode(l, point, withSelf) else withSelf;
      if l.Node? && l.max >= point {
        SearchComplete(l, point, withSelf);
      } else if l.Node? {
        LeftPruneSound(l, point);
      }
      assert withLeft == results + self + Scan(Elements(l), point);

      var rightScan := Scan(Elements(rt), point);
      if point >= iv.start {
        SearchComplete(rt, point, withLeft);
      } else {
        RightPruneSound(t, point);
      }
      assert SearchNode(t, point, results) == withLeft + rightScan;

      assert Elements(t) == ([iv] + Elements(l)) + Elements(rt);
      ScanAppend([iv] + Elements(l), Elements(rt), point);
      ScanAppend([iv], Elements(l), point);
      assert Scan(Elements(t), point) == self + Scan(Elements(l), point) + rightScan;
      ConcatAssoc(results, self, Scan(Elements(l), point), rightScan);
  }

  /** Regrouping a four-way concatenation (kept apart so the completeness proof stays small). */
  lemma ConcatAssoc(a: seq<Interval>, b: seq<Interval>, c: seq<Interval>, d: seq<Interval>)
    ensures a + b + c + d == a + (b + c + d)
  {
  }
}
