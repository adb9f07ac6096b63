# Augmented interval tree — a Dafny model

This project models the interval search tree of `interval-tree-ts-bench`.
The repository holds four copies of the tree: two in Rust and two in TypeScript.
It is an unbalanced binary search tree ordered by interval `start`.
Each node keeps a `max` field that stores the largest `end` in its subtree.
It supports two operations:

- `insert` descends by `start`. A strictly smaller start goes left. Any other start goes right, including an equal one. The new interval becomes a fresh leaf with `max = end`. Every node on the path has its `max` raised to the new `end`.
- `find_intersecting(point)` is a stabbing query. It walks the tree in pre-order and collects every interval with `start <= point <= end`. It enters the left child only if that child's `max >= point`. It enters the right child only if `point >= node.start`.

The model is functional. `Trees.Tree` (`Nil | Node(interval, max, left, right)`) stands for `Option<Box<IntervalTreeNode>>`, or `IntervalTreeNode | null` in TypeScript. `IntervalTrees.IntervalTree` wraps the root. Insertion returns a new tree instead of mutating one. The search threads its result list through the recursion, as the source does.

Correctness is measured against two invariants:

- `Trees.Ordered`: BST order on `start`. Ties go right.
- `Trees.Augmented`: every `max` is the larger of the node's own `end` and its children's `max`.

`Trees.Valid` is the two together. The query is checked against a brute-force oracle, `Intervals.Scan`, which is a linear filter over `Trees.Elements` (the stored intervals in pre-order).

The main results:

- insertion keeps both invariants;
- insertion adds exactly the given interval to the stored multiset;
- both pruning rules are sound;
- on a valid tree, the pruned search returns exactly the brute-force filter, in the same pre-order;
- the `node.right &&` guard in `interval-tree-benchmark.ts` changes nothing.

The four copies of `insert`/`insert_node` behave identically. The Rust copies match on `Option` where the TypeScript copies test for `null`, but they take the same branches. The four copies of `search_node` behave identically too, except for that guard. One model therefore covers all four. `benches/interval_bench.rs` matches `src/main.rs` line for line from line 4 to line 83.

Modules:

- `interval.dfy` (`Intervals`): `Interval`, inclusive containment, `Max`, the brute-force `Scan` and its lemmas.
- `tree.dfy` (`Trees`): the node type, its stored intervals, the invariants, the node constructor.
- `insert.dfy` (`Insertion`): `insert_node` and the proofs that it keeps the invariants.
- `search.dfy` (`Search`): `search_node` in both variants, the soundness of the two pruning rules, and completeness.
- `interval_tree.dfy` (`IntervalTrees`): the `IntervalTree` API (`new`, `insert`, `find_intersecting`), building a tree by repeated insertion the way the benchmark drivers do, and worked examples.

One might expect the right-subtree pruning rule `point >= node.start` to miss intervals when they overlap heavily. It does not. `Search.SearchComplete` proves that on every tree satisfying both invariants, the traversal misses no containing interval. `Insertion.InsertPreservesValid` proves that every tree built by `insert` satisfies them.

## Model

| member | source | states |
|---|---|---|
| Trees.NewNode | src/main.rs:19-26 | A new node has `max` equal to its own `end` and no children. It holds exactly its interval and satisfies both invariants. |
| Trees.AugmentedMaxIsSubtreeMax | src/main.rs:54 | The local rule `max = max(max, end)` makes a node's `max` the true subtree maximum. It is at least every stored `end` below the node, and it equals the `end` of some stored interval. |
| Insertion.InsertNode | src/main.rs:42-58 | Insertion adds exactly the given interval to the stored multiset and always yields a node. A non-empty tree keeps its root interval. The root's `max` becomes the larger of the old `max` and the new `end`. A strictly smaller start adds the interval to the left subtree and leaves the right one untouched; otherwise the reverse. |
| Insertion.InsertPreservesOrdered | src/main.rs:49-53 | Routing `<` left and `>=` right keeps the BST order on `start`, with ties on the right. |
| Insertion.InsertPreservesAugmented | src/main.rs:54 | Raising `max` along the whole path keeps every node's `max` equal to the larger of its `end` and its children's `max`. |
| Insertion.InsertPreservesValid | benches/interval_bench.rs:42-58 | A valid tree stays valid after any insertion. |
| Search.SearchNode | src/main.rs:66-82 | The traversal keeps the results it was given, in place. Everything it appends is stored in the visited subtree and contains the point. |
| Search.LeftPruneSound | src/main.rs:72-76 | If the left child's `max` is below the point, no interval in the left subtree contains the point. Skipping it loses nothing. |
| Search.RightPruneSound | src/main.rs:78-80 | If the point is before the node's `start`, no interval in the right subtree contains it. Skipping it loses nothing. |
| Search.SearchComplete | benches/interval_bench.rs:66-82 | On a valid tree, the pruned traversal appends exactly the brute-force filter of the subtree's stored intervals, in pre-order. |
| Search.SearchNodeGuarded | interval-tree-benchmark.ts:46-60 | The TypeScript traversal with the extra `node.right &&` guard. It keeps the given results and appends only stored intervals that contain the point. |
| Search.GuardedSearchAgrees | interval-tree-benchmark.ts:53-59 | The extra `node.right &&` guard gives the same result as the unguarded call on every tree, valid or not. |
| IntervalTrees.New | src/main.rs:34-36 | A new tree stores nothing and is valid. |
| IntervalTrees.Insert | interval-tree-benchmark-suite.ts:20-37 | `insert` adds exactly one interval and keeps validity. An empty tree becomes one childless node with `max = end`. A non-empty tree keeps its root interval. |
| IntervalTrees.FindIntersecting | src/main.rs:60-64 | Every returned interval is stored in the tree and contains the point. An empty tree yields an empty result. |
| IntervalTrees.FindIntersectingComplete | interval-tree-benchmark-suite.ts:39-59 | On a valid tree, the query equals the brute-force filter of the stored intervals. As a multiset, it is part of the tree's contents. |
| IntervalTrees.FindIntersectingGuarded | interval-tree-benchmark.ts:40-44 | `findIntersecting` of `interval-tree-benchmark.ts` returns the same sequence as the other three copies. |
| IntervalTrees.Build | src/main.rs:128-131 | A tree built by inserting a sequence of intervals one by one is valid. It stores exactly the multiset of that sequence. |
| IntervalTrees.QueryMatchesBruteForce | interval-tree-benchmark.ts:96-109 | On a tree built by insertions, every query returns exactly the inserted intervals that contain the point, counted with multiplicity. |
| IntervalTrees.QueryIndependentOfInsertionOrder | src/main.rs:128-145 | Inserting the same multiset of intervals in any order gives the same result multiset for every point. |
| IntervalTrees.SingleIntervalQueries | src/main.rs:66-70 | With only `[5, 10]` stored, point 7 finds `[5, 10]` and points 3 and 11 find nothing. |
| IntervalTrees.ThreeIntervalQuery | interval-tree-benchmark-suite.ts:45-59 | With `[1, 5]`, `[2, 9]` and `[15, 20]` inserted in that order, point 4 finds `[1, 5]` then `[2, 9]`, and not `[15, 20]`. |

## Left out

- Random workload generation (`generate_random_intervals`, `generate_random_points`, `generateRandomIntervals`, `generateRandomPoints`) is left out. It draws from an unseen random source.
- Timing and reporting (`Instant`, `performance.now`, `println!`, `console.log`, the millisecond and throughput figures) are left out. They are clock I/O and floating-point arithmetic.
- The Criterion and Benchmark.js harnesses (`bench_*`, `criterion_group!`, `Benchmark.Suite` and its listeners) are left out. They are calls into external libraries.
- Endpoints and points are mathematical integers, not Rust `i32` or TypeScript IEEE doubles. The tree only compares values and takes `max`, so no arithmetic can overflow or round.
- In-place mutation, `Box` ownership and `take()` are replaced by a functional tree. Object identity is not modelled. "Keeps its root" means the root node keeps its interval, not that it is the same object.
- Purity of the query is inherent in the model. The query is a function of the tree, so it cannot modify the tree, and repeating it gives the same answer. No separate lemma states this.
- Result order is modelled exactly: the node, then its left subtree, then its right subtree. Callers only rely on the results as a multiset.
- Recursion depth is not modelled. `insert_node`/`insertNode` (src/main.rs:50-52) and `search_node`/`searchNode` (src/main.rs:74, 79) recurse once per tree level, and nothing rebalances the tree. Inserting starts in ascending order therefore builds a chain as deep as the number of intervals. On a deep enough chain the TypeScript copies throw `RangeError` when the call stack runs out, and the Rust copies abort with a stack overflow. `Insertion.InsertNode` and `Search.SearchNode` always return a result.
