/**
 The public face of the structure: `IntervalTree` owns an optional root and
 offers `insert` and `find_intersecting`, as in every copy of the source.
 */
module IntervalTrees {
  import opened Intervals
  import opened Trees
  import opened Insertion
  import opened Search

  datatype IntervalTree = IntervalTree(root: Tree)

  /** `IntervalTree::new`: no intervals, and trivially both invariants. */
  function New(): (tree: IntervalTree)
    ensures Stored(tree.root) == multiset{}
    ensures Valid(tree.root)
  {
    IntervalTree(Nil)
  }

  /** `insert`: the root is replaced by the result of inserting below it. */
  function Insert(tree: IntervalTree, iv: Interval): (r: IntervalTree)
    ensures Stored(r.root) == Stored(tree.root) + multiset{iv}
    ensures Valid(tree.root) ==> Valid(r.root)
    // an empty tree becomes a single childless node holding the interval
    ensures tree.root.Nil? ==> r.root.Node? && r.root.interval == iv && r.root.max == iv.end
                               && r.root.left == Nil && r.root.right == Nil
    // a non-empty tree keeps its root interval
    ensures tree.root.Node? ==> r.root.Node? && r.root.interval == tree.root.interval
  {
    InsertPreservesValid(tree.root, iv);
    IntervalTree(InsertNode(tree.root, iv))
  }

  /**
   `find_intersecting`: every interval returned is stored and contains the
   point, and an empty tree yields nothing.
   */
  function FindIntersecting(tree: IntervalTree, point: int): (r: seq<Interval>)
    ensures forall x :: x in r ==> Contains(x, point) && x in Stored(tree.root)
    ensures tree.root.Nil? ==> r == []
  {
    var r := SearchNode(tree.root, point, []);
    StoredIsElements(tree.root);
    assert forall x :: x in r ==> x in Elements(tree.root) by {
      forall x | x in r ensures x in Elements(tree.root) {
        var i :| 0 <= i < |r| && r[i] == x;
      }
    }
    r
  }

  /**
   Completeness of `find_intersecting`: on a valid tree, neither pruning
   rule loses a match, so the answer is exactly the brute-force filter of
   the stored intervals (and, as a multiset, part of the contents).
   */
  lemma FindIntersectingComplete(tree: IntervalTree, point: int)
    requires Valid(tree.root)
    ensures FindIntersecting(tree, point) == Scan(Elements(tree.root), point)
    ensures multiset(FindIntersecting(tree, point)) <= Stored(tree.root)
  {
    SearchComplete(tree.root, point, []);
    StoredIsElements(tree.root);
    ScanIsSubMultiset(Elements(tree.root), point);
  }

  /** `findIntersecting` of interval-tree-benchmark.ts gives the same answer as the other copies. */
  function FindIntersectingGuarded(tree: IntervalTree, point: int): (r: seq<Interval>)
    ensures r == FindIntersecting(tree, point)
  {
    GuardedSearchAgrees(tree.root, point, []);
    SearchNodeGuarded(tree.root, point, [])
  }

  /** A tree built by inserting `xs` one by one into a new tree, as the benchmark drivers do. */
  function Build(xs: seq<Interval>): (tree: IntervalTree)
    ensures Valid(tree.root)
    ensures Stored(tree.root) == multiset(xs)
  {
    if |xs| == 0 then New()
    else
      assert xs == xs[..|xs| - 1] + [xs[|xs| - 1]];
      Insert(Build(xs[..|xs| - 1]), xs[|xs| - 1])
  }

  /**
   On any tree built by insertions the query finds exactly the inserted
   intervals that contain the point, counted with multiplicity.
   */
  lemma QueryMatchesBruteForce(xs: seq<Interval>, point: int)
    ensures multiset(FindIntersecting(Build(xs), point)) == multiset(Scan(xs, point))
  {
    var tree := Build(xs);
    FindIntersectingComplete(tree, point);
    StoredIsElements(tree.root);
    ScanRespectsMultiset(Elements(tree.root), xs, point);
  }

  /**
   The result set does not depend on the insertion order, although the
   tree's shape and the order of the results may.
   */
  lemma QueryIndependentOfInsertionOrder(xs: seq<Interval>, ys: seq<Interval>, point: int)
    requires multiset(xs) == multiset(ys)
    ensures multiset(FindIntersecting(Build(xs), point)) == multiset(FindIntersecting(Build(ys), point))
  {
    QueryMatchesBruteForce(xs, point);
    QueryMatchesBruteForce(ys, point);
    ScanRespectsMultiset(xs, ys, point);
  }

  /** One interval `[5, 10]`: point 7 finds it, points 3 and 11 find nothing. */
  lemma SingleIntervalQueries()
    ensures FindIntersecting(Build([Interval(5, 10)]), 7) == [Interval(5, 10)]
    ensures FindIntersecting(Build([Interval(5, 10)]), 3) == []
    ensures FindIntersecting(Build([Interval(5, 10)]), 11) == []
  {
    var tree := Build([Interval(5, 10)]);
    assert tree.root == Node(Interval(5, 10), 10, Nil, Nil);
  }

  /** `[1, 5]`, `[2, 9]`, `[15, 20]`: point 4 finds the first two only. */
  lemma ThreeIntervalQuery()
    ensures FindIntersecting(Build([Interval(1, 5), Interval(2, 9), Interval(15, 20)]), 4)
            == [Interval(1, 5), Interval(2, 9)]
  {
    var xs := [Interval(1, 5), Interval(2, 9), Interval(15, 20)];
    var deepest := Node(Interval(15, 20), 20, Nil, Nil);
    var middle := Node(Interval(2, 9), 20, Nil, deepest);
    var root := Node(Interval(1, 5), 20, Nil, middle);
    assert xs[..2] == [Interval(1, 5), Interval(2, 9)];
    assert xs[..2][..1] == [Interval(1, 5)];
    assert Build(xs[..2][..1]).root == Node(Interval(1, 5), 5, Nil, Nil);
    assert Build(xs[..2]).root == Node(Interval(1, 5), 9, Nil, Node(Interval(2, 9), 9, Nil, Nil));
    assert Build(xs).root == root;
    assert SearchNode(deepest, 4, [Interval(1, 5), Interval(2, 9)]) == [Interval(1, 5), Interval(2, 9)];
    assert SearchNode(middle, 4, [Interval(1, 5)]) == [Interval(1, 5), Interval(2, 9)];
    assert SearchNode(root, 4, []) == SearchNode(middle, 4, [Interval(1, 5)]);
  }
}
