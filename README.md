# coitrees core, modelled in Dafny

coitrees ("cache-oblivious interval trees") stores a set of closed integer
intervals `[first, last]`, each carrying an opaque payload, in one array of
nodes. The tree is the balanced binary search tree whose root is the median
of the intervals sorted by `first`. The array holds its nodes in van Emde Boas
order: the top half of the tree's levels come first, each laid out the same
way recursively, and then each bottom subtree in turn. Children are array
indices. Every node also stores `subtree_first` and `subtree_last`, the
smallest `first` and largest `last` found in its subtree. A query walks down
from the root (array index 0), counts the nodes that overlap the query, and
skips any child whose `[subtree_first, subtree_last]` box misses the query.
The test suite checks the tree against a brute-force scan and computes
coverage with a brute-force sweep.

The project is split into these modules:

- `Intervals` (`intervals.dfy`): the node record and the closed-interval
  overlap test. It also holds the brute-force hit list (`Overlapping`), its
  count (`CountHits`), and a reference sort by `first`.
- `ImplicitTree` (`implicit_tree.dfy`): the median-split tree over sorted
  positions `[s, e)`, given as pure functions. It holds `traverse` and
  `traverse_recursion`, which record depth, preorder number and children.
- `VebLayout` (`veb_layout.dfy`): `stable_partition_by_depth` as a method on
  two arrays, plus the reference definition `Veb` of the van Emde Boas
  order. `Veb` is defined on the depth-truncated preorder listing
  `Truncated` of a subtree.
- `VebRecursion` (`veb_order.dfy`): `veb_order_recursion` on the index
  array, proved to produce `Veb`. Its run-time assertions are proved.
- `Arena` (`arena.dfy`): the linked arena. `Linked` says that node `at[p]`
  holds sorted interval `p` with the implicit tree's links. This module has
  `compute_subtree_sizes`, proved equal to the reference `Augment` and to
  establish `Augmented`, and `compute_tree_size`.
- `TreeQuery` (`query.dfy`): `query_recursion`.
- `CoiTree` (`coitree.dfy`): `veb_order` as a sequence of array steps, the
  `COITree` class, and `query`.
- `BruteForce` (`brute_force.dfy`): the test oracles `brute_force_query` and
  `brute_force_coverage` (its integer sweep), and `check_count_queries`.

Where the code and the documented design of the library differ, the model
follows the code:

- Intervals are sorted by `first` alone, with an unstable sort. They are not
  sorted by start and then end.
- Construction needs at least one interval. With no intervals the deepest
  depth is 0, so `veb_order_recursion(0, 0, 0, 0)` finds `min_depth ==
  max_depth` with `n == 0` and its assertion `n == 1` fails
  (src/main.rs:133-135, called at line 233).
- Each node keeps a `[subtree_first, subtree_last]` box, not only a maximum
  end. A child is visited when its box overlaps the query.
- This code has no scan threshold and no vectorised leaf scan.
- `query` returns the triple `(count, overlap, visited)`, and `overlap` is
  never changed.

## Model

| member | source | states |
|---|---|---|
| Intervals.Overlaps | src/main.rs:269-271 | when the closed intervals share a point the test is true; for non-empty intervals it is true only then |
| Intervals.Overlapping | tests/query.rs:17-25 | the hits listed are input intervals that overlap the query, and every input interval that overlaps it is listed |
| Intervals.OverlappingCount | tests/query.rs:117-120 | counting one per hit yields the length of the hit list |
| Intervals.OverlappingAppend | tests/query.rs:20-24 | the hits of a concatenation are the hits of the first part followed by those of the second |
| Intervals.CountHitsAppend | src/main.rs:280-303 | the number of hits in a concatenation is the sum over its parts |
| Intervals.CountHitsPermutation | src/main.rs:213 | reordering the intervals (the sort, the layout permutation) does not change how many overlap a query |
| Intervals.Insert | src/main.rs:213 | inserting into a list sorted by `first` keeps it sorted, adds exactly that element and grows it by one |
| Intervals.SortByFirst | src/main.rs:213 | a reordering of any input that is sorted by `first` exists: same multiset, same length |
| ImplicitTree.Mid | src/main.rs:74 | the root of `[s, e)` lies inside it, and the right half is at most one element smaller than the left half |
| ImplicitTree.Root | src/main.rs:70-74 | there is no root exactly when the range is empty; otherwise the root is in the range |
| ImplicitTree.TraverseRecursion | src/main.rs:63-93 | returns the subtree's root and advances the preorder counter by the subtree size; every position in the range gets the depth, preorder number and children of the implicit tree, and positions outside are untouched |
| ImplicitTree.Traverse | src/main.rs:52-59 | every position of `0..n` gets the implicit tree's depth, preorder number and children |
| ImplicitTree.PreorderNumbers | src/main.rs:76-77 | the j-th position in preorder lies in the range and is numbered `k + j` |
| ImplicitTree.PreorderCovers | src/main.rs:63-93 | every position of the range appears in the preorder listing |
| ImplicitTree.DfsBijection | src/main.rs:76-77 | each position's preorder number is in range, and the listing at that number gives the position back |
| ImplicitTree.TraverseDfsPermutation | src/main.rs:231 | preorder numbers are distinct and lie in `0..n`, so they order the positions without ties, and preorder is their inverse |
| ImplicitTree.ChildrenOrdered | src/main.rs:78-90 | a left child lies to the left of its parent and a right child to the right, each one level deeper |
| VebLayout.CopySlice | src/main.rs:121 | the window of `idxs` becomes that of `tmp`; nothing else changes |
| VebLayout.CountShallow | src/main.rs:101-107 | counts the indices in the window whose depth is at most the pivot |
| VebLayout.Distribute | src/main.rs:109-119 | `tmp`'s window becomes the shallow indices followed by the deep ones, each group in its original order, and the rest of `tmp` is left unchanged |
| VebLayout.DistributeOne | src/main.rs:112-118 | placing the next window entry keeps the distribution invariant: the shallow entries seen so far fill `tmp` from `start` up to `l` in order, the deep ones fill it from `start + left_size` up to `r` in order, and `tmp` outside the window is unchanged |
| VebLayout.StablePartitionByDepth | src/main.rs:97-123 | the window becomes the stable partition (shallow, then deep) of its old contents; the result is the shallow count; outside the window nothing changes |
| VebLayout.TruncatedRange | src/main.rs:127-131 | a truncated preorder listing of `[s, e)` holds only positions of `[s, e)` |
| VebLayout.ShallowOfTruncated | src/main.rs:139-141 | the shallow part of a subtree's listing is the listing cut at the pivot depth (the top tree) |
| VebLayout.DeepOfTruncated | src/main.rs:147-149 | the deep part is the concatenation of the listings of the bottom subtrees, left to right |
| VebLayout.BlocksAreSubtrees | src/main.rs:150-160 | every bottom subtree is a non-empty subrange rooted one level below the pivot |
| VebLayout.DeepestIsMax | src/main.rs:153-158 | the scanned maximum depth bounds every depth in the block and is attained |
| VebLayout.BlockCutoffFacts | src/main.rs:161-162 | cutting a bottom subtree at its own maximum depth loses nothing |
| VebLayout.Pivot | src/main.rs:139 | the pivot depth lies in `[minDepth, maxDepth)` |
| VebLayout.VebPermutes | src/main.rs:127-165 | the van Emde Boas order of a subtree is a permutation of its listing |
| VebRecursion.VebHead | src/main.rs:263 | the van Emde Boas order starts with the subtree's root, so the tree's root is at index 0 |
| VebRecursion.ScanBlock | src/main.rs:152-160 | finds the end of the current bottom subtree and its maximum depth; the assertion at line 155 holds |
| VebRecursion.PartitionTop | src/main.rs:139-141 | after the partition the window is the top tree followed by the bottom subtrees; the result is the top tree's size |
| VebRecursion.OrderTopSubtree | src/main.rs:143-145 | the top tree is put in van Emde Boas order in place, and the bottom subtrees follow it unchanged |
| VebRecursion.OrderNextBlock | src/main.rs:150-163 | one more bottom subtree is reordered, and the scan moves to the start of the next; the assertion at line 151 holds |
| VebRecursion.OrderBottomSubtrees | src/main.rs:147-164 | every bottom subtree is put in van Emde Boas order, left to right |
| VebRecursion.VebOrderRecursion | src/main.rs:127-165 | the window becomes exactly the van Emde Boas order of the subtree and the rest of the array is untouched; the assertion `n == 1` at line 135 holds |
| Arena.MinFirstIsMin | src/main.rs:171-183 | the subtree minimum of `first` bounds every interval in the range and is attained |
| Arena.MaxLastIsMax | src/main.rs:172-184 | the subtree maximum of `last` bounds every interval in the range and is attained |
| Arena.LinkedSubtrees | src/main.rs:246-257 | in a linked arena every subtree reached from the root is itself linked: each node's children are its subtrees' roots |
| Arena.AugmentKeeps | src/main.rs:186-187 | augmenting changes only `subtree_first` and `subtree_last` |
| Arena.AugmentRoot | src/main.rs:186-187 | after augmenting, the subtree's root holds the minimum `first` and maximum `last` of the subtree |
| Arena.AugmentAugmented | src/main.rs:169-188 | after augmenting, every node of the subtree holds its own subtree's bounds |
| Arena.ComputeSubtreeSizes | src/main.rs:169-188 | the arena becomes the augmentation of the old arena over the subtree |
| Arena.FillChild | src/main.rs:174-184 | one `if let Some(child)` block: an absent child leaves the arena and the running bounds as they were; a present child's subtree becomes its augmentation of the old arena, and the running `subtree_first`/`subtree_last` become the minimum/maximum with that subtree's least `first` and greatest `last` |
| Arena.ComputeTreeSize | src/main.rs:191-205 | the size counted from a subtree's root is the number of positions in it |
| TreeQuery.NoHitsOutsideBox | src/main.rs:289-302 | when a subtree's box misses the query, no interval in it overlaps the query, so skipping it is sound |
| TreeQuery.CountHitsSplit | src/main.rs:280-303 | the hits of a subtree are those of its left half, its root and its right half |
| TreeQuery.VisitChild | src/main.rs:289-295 | visiting a child adds exactly the hits of the child's subtree to the count |
| TreeQuery.QueryRecursion | src/main.rs:274-303 | adds exactly the number of intervals in the subtree that overlap the query; visits at least the root and at most the subtree; `overlap` is unchanged |
| CoiTree.HeightIsMax | src/main.rs:221-226 | the height bounds every depth and is attained |
| CoiTree.MaxDepth | src/main.rs:221-226 | the loop yields the largest depth |
| CoiTree.SortNodesByFirst | src/main.rs:213 | the arena becomes a reordering of itself sorted by `first` |
| CoiTree.SortByDfs | src/main.rs:228-231 | the positions ordered by preorder number, which is the preorder listing |
| CoiTree.PreorderIsPermutation | src/main.rs:228-231 | the preorder listing of `0..n` is a permutation of `0..n` |
| CoiTree.InvertPermutation | src/main.rs:236-239 | `revidx` is the inverse of the permutation `idxs` |
| CoiTree.InverseIsPermutation | src/main.rs:236-239 | the inverse of a permutation is a permutation |
| CoiTree.PlaceNodes | src/main.rs:242-258 | slot `i` receives the sorted node `idxs[i]` with its children mapped through `revidx` |
| CoiTree.PlacedIsLinked | src/main.rs:242-258 | the placed arena is linked: sorted interval `p` sits at `revidx[p]`, with the implicit tree's links |
| CoiTree.VebLayoutIsPermutation | src/main.rs:233 | the van Emde Boas order of the whole tree is a permutation of `0..n` and starts with the root |
| CoiTree.VebIndices | src/main.rs:228-233 | the index array ends up in the van Emde Boas order of the whole tree |
| CoiTree.LayOut | src/main.rs:228-239 | gives the layout, a permutation, and its inverse; the root sits at index 0 |
| CoiTree.PlaceAndLink | src/main.rs:242-261 | the arena becomes the sorted nodes placed by the layout and linked |
| CoiTree.Arrange | src/main.rs:219-261 | the arena is linked in the van Emde Boas layout with the root at index 0 |
| CoiTree.FillAugmentation | src/main.rs:263-265 | every node holds its subtree's bounds, the links are kept, and the assertion at line 265 holds |
| CoiTree.VebOrder | src/main.rs:209-266 | the arena holds a sorted reordering of its input, linked as the median-split tree in van Emde Boas layout with the root at index 0, with every node's subtree bounds filled in |
| CoiTree.COITree.constructor | src/main.rs:35-38 | builds a valid tree from the given intervals: its nodes are a reordering of them sorted by `first`, linked as the median-split tree, placed in the van Emde Boas layout (`layout` lists the sorted positions in arena order and `at` is its inverse), with every node's subtree bounds filled in |
| CoiTree.SearchOrder | src/main.rs:213 | a node's left child starts no later than the node, its right child no earlier |
| CoiTree.SubtreeOrder | src/main.rs:213 | the built tree is a search tree on `first` over whole subtrees: for every subtree reachable from the root, each node in its left half starts no later than its root and each node in its right half no earlier, and the subtree's nodes are linked below it |
| CoiTree.Query | src/main.rs:325-333 | the count is the number of input intervals that overlap the query (what brute force finds); `overlap` is 0; between 1 and n nodes are visited |
| BruteForce.BruteForceQuery | tests/query.rs:17-25 | visits exactly the overlapping intervals, in input order |
| BruteForce.UncoveredSplit | tests/query.rs:29-47 | the uncovered length of a range is the sum over two adjacent parts |
| BruteForce.AllUncovered | tests/query.rs:42-44 | a range with no covered point is entirely uncovered |
| BruteForce.AllCovered | tests/query.rs:36-39 | a range with every point covered has no uncovered length |
| BruteForce.SameCover | tests/query.rs:34-35 | interval lists covering the same points have the same uncovered length |
| BruteForce.CoveredSnoc | tests/query.rs:34 | adding an interval covers exactly the points it contains as well |
| BruteForce.SweepMiss | tests/query.rs:35 | an interval missing the query leaves the sweep state valid |
| BruteForce.SweepGap | tests/query.rs:36-39 | an interval starting past the covered prefix adds the gap before it to the uncovered length |
| BruteForce.SweepOverlap | tests/query.rs:39 | an interval starting inside the covered prefix only extends it |
| BruteForce.BruteForceCoverage | tests/query.rs:29-47 | for sorted, well-formed intervals the sweep's uncovered length is the number of query points covered by no interval; with no hits it is the query's length |
| BruteForce.CheckCountQueries | tests/query.rs:113-124 | for a tree built from the same intervals, the tree's count and the brute-force count agree on every query |

## Left out

- Integer widths: `i32` coordinates are `int` and `usize` values are `nat`. Overflow, in `last_cov + 1` and `uncov_len` of the coverage sweep or in the index arithmetic, is not modelled.
- `sort_unstable_by_key`: modelled by its contract (a reordering sorted by `first`). `CoiTree.SortNodesByFirst` fills it from one such reordering, and every later property holds for any sorted reordering.
- `idxs.sort_by_key(|i| info[*i].dfs)`: the keys are the distinct numbers `0..n`, so sorting means placing position `p` at index `dfs(p)`. `CoiTree.SortByDfs` does that.
- Payloads: `metadata` is an opaque type parameter, copied unchanged.
- `read_bed_file`, `query_bed_files`, `main` and all file, console and timing I/O are not part of this model.
- The library API the tests call (`query` with a callback, `query_count`, `coverage`, `SortedQuerent`) is not part of this model. `BruteForce.CheckCountQueries` counts with this file's `query`.
- `check_queries`, `check_coverage` and `check_sorted_querent_queries` compare against that library API. They are left out, and so are the random test drivers.
- `print_brute_force_coverage` is the same sweep with printing, so it is not modelled separately.
- `brute_force_coverage`: the final ratio `1 - uncov_len / (query_last - query_first + 1)` is floating point. The model returns `uncov_len`, the integer the ratio is computed from.
- BruteForce.BruteForceCoverage: for inputs holding an interval with `first > last + 1`, it states only that the result is non-negative, because the sweep's meaning needs well-formed intervals.
- The commented-out code is not modelled: the `overlap` accumulator in `query_recursion`, the alternative pruning on `subtree_last` alone, and `inlined_query`.
- `visited` and `count` are unbounded counters.
- `query_recursion` tests a child's box before descending into it. The model moves that test into `TreeQuery.VisitChild`, so the descent has the same branches.
- Empty input: construction and `query` require at least one interval. The source fails for an empty input on the assertion `n == 1` in `veb_order_recursion` (src/main.rs:133-135, reached from line 233), so the model does not model that panic.
