/** Construction of the tree: the nodes are sorted by `first`, laid out in
    van Emde Boas order of the implicit balanced tree over the sorted
    positions, linked through their new arena indices and augmented; and the
    tree object with its counting query. */
module CoiTree {
  import opened Intervals
  import opened ImplicitTree
  import opened VebLayout
  import opened VebRecursion
  import opened Arena
  import opened TreeQuery

  /** The traversal records of the implicit tree over [0, n). */
  ghost function TreeInfo(n: nat): (info: seq<TraversalInfo>)
    ensures |info| == n
    ensures forall p :: 0 <= p < n ==> info[p] == Info(0, n, 0, 0, p)
  {
    seq(n, p requires 0 <= p < n => Info(0, n, 0, 0, p))
  }

  /** The deepest depth among info[..k], or 0 when k is 0: the same maximum
      fold as VebLayout.DeepestUpTo, taken here over the whole traversal
      rather than over the entries a window of indices names. */
  function Height(info: seq<TraversalInfo>, k: nat): nat
    requires k <= |info|
  {
    if k == 0 then 0
    else if info[k - 1].depth > Height(info, k - 1) then info[k - 1].depth
    else Height(info, k - 1)
  }

  /** Height bounds every depth and, over a non-empty prefix, is one of them. */
  lemma {:induction false} HeightIsMax(info: seq<TraversalInfo>, k: nat)
    requires k <= |info|
    ensures forall p :: 0 <= p < k ==> info[p].depth <= Height(info, k)
    ensures k > 0 ==> exists p :: 0 <= p < k && info[p].depth == Height(info, k)
  {
    if k > 0 {
      HeightIsMax(info, k - 1);
      if info[k - 1].depth > Height(info, k - 1) || k == 1 {
        assert info[k - 1].depth == Height(info, k);
      } else {
        var p :| 0 <= p < k - 1 && info[p].depth == Height(info, k - 1);
        assert info[p].depth == Height(info, k);
      }
    }
  }

  /** The depth of the tree: the largest recorded depth, 0 to start with. */
  method MaxDepth(info: seq<TraversalInfo>) returns (maxDepth: nat)
    ensures maxDepth == Height(info, |info|)
    ensures forall p :: 0 <= p < |info| ==> info[p].depth <= maxDepth
  {
    maxDepth := 0;
    for i := 0 to |info|
      invariant maxDepth == Height(info, i)
    {
      if info[i].depth > maxDepth {
        maxDepth := info[i].depth;
      }
    }
    HeightIsMax(info, |info|);
  }

  /** Sort the arena by `first`, in place; which of several equal keys comes
      first is left open. */
  method SortNodesByFirst<T>(nodes: array<IntervalNode<T>>)
    modifies nodes
    ensures SortedByFirst(nodes[..])
    ensures multiset(nodes[..]) == multiset(old(nodes[..]))
  {
    var r := SortByFirst(nodes[..]);
    forall i | 0 <= i < nodes.Length {
      nodes[i] := r[i];
    }
    assert nodes[..] == r;
  }

  /** The positions 0 .. n-1 ordered by their preorder numbers. The numbers
      are distinct, so the sorted order is placing each position at its own
      number. */
  method SortByDfs(info: seq<TraversalInfo>) returns (idxs: array<nat>)
    requires forall p :: 0 <= p < |info| ==> info[p] == Info(0, |info|, 0, 0, p)
    ensures fresh(idxs) && idxs.Length == |info|
    ensures forall k :: 0 <= k < |info| ==> idxs[k] < |info| && info[idxs[k]].dfs == k
    ensures idxs[..] == Preorder(0, |info|)
  {
    var n := |info|;
    TraverseDfsPermutation(n);
    idxs := new nat[n](_ => 0);
    for p := 0 to n
      invariant forall q :: 0 <= q < p ==> idxs[Dfs(0, n, 0, q)] == q
    {
      idxs[info[p].dfs] := p;
    }
    forall k | 0 <= k < n
      ensures idxs[k] == Preorder(0, n)[k]
    {
      assert idxs[Dfs(0, n, 0, Preorder(0, n)[k])] == Preorder(0, n)[k];
    }
  }

  /** The preorder listing of [0, n) is a permutation of 0 .. n-1. */
  lemma PreorderIsPermutation(n: nat)
    ensures IsPermutation(Preorder(0, n), n)
    ensures forall p :: 0 <= p < n ==> p in Preorder(0, n)
  {
    PreorderNumbers(0, n, 0);
    forall p | 0 <= p < n
      ensures p in Preorder(0, n)
    {
      PreorderCovers(0, n, p);
    }
  }

  /** A sequence without repeats holds every value at most once. */
  lemma {:induction false} DistinctMultiplicity(xs: seq<nat>, v: nat)
    requires forall j, k :: 0 <= j < k < |xs| ==> xs[j] != xs[k]
    ensures multiset(xs)[v] <= 1
  {
    if xs != [] {
      assert xs == [xs[0]] + xs[1..];
      assert forall j, k :: 0 <= j < k < |xs[1..]| ==> xs[1..][j] != xs[1..][k] by {
        forall j, k | 0 <= j < k < |xs[1..]| ensures xs[1..][j] != xs[1..][k] {
          assert xs[1..][j] == xs[j + 1] && xs[1..][k] == xs[k + 1];
        }
      }
      DistinctMultiplicity(xs[1..], v);
      if v == xs[0] {
        assert v !in xs[1..] by {
          forall k | 0 <= k < |xs[1..]| ensures xs[1..][k] != v {
            assert xs[1..][k] == xs[k + 1];
          }
        }
      }
    }
  }

  /** A value at two positions occurs at least twice. */
  lemma RepeatedMultiplicity(ys: seq<nat>, j: nat, k: nat)
    requires j < k < |ys| && ys[j] == ys[k]
    ensures multiset(ys)[ys[j]] >= 2
  {
    assert ys == ys[..j] + [ys[j]] + ys[j + 1..k] + [ys[k]] + ys[k + 1..];
  }

  /** A rearrangement of a permutation of 0 .. n-1 is one too, and lists every value. */
  lemma PermutationOfPermutation(xs: seq<nat>, ys: seq<nat>, n: nat)
    requires IsPermutation(xs, n) && multiset(xs) == multiset(ys)
    requires forall p :: 0 <= p < n ==> p in xs
    ensures IsPermutation(ys, n)
    ensures forall p :: 0 <= p < n ==> p in ys
  {
    assert |ys| == |multiset(ys)| == |multiset(xs)| == n;
    forall k | 0 <= k < n
      ensures ys[k] < n
    {
      assert ys[k] in multiset(ys);
    }
    forall j, k | 0 <= j < k < n
      ensures ys[j] != ys[k]
    {
      if ys[j] == ys[k] {
        RepeatedMultiplicity(ys, j, k);
        DistinctMultiplicity(xs, ys[j]);
      }
    }
    forall p | 0 <= p < n
      ensures p in ys
    {
      assert p in xs;
      assert p in multiset(ys);
    }
  }

  /** Build the inverse of the permutation idxs in revidx. */
  method InvertPermutation(idxs: array<nat>, revidx: array<nat>)
    requires idxs != revidx && idxs.Length == revidx.Length
    requires IsPermutation(idxs[..], idxs.Length)
    requires forall p :: 0 <= p < idxs.Length ==> p in idxs[..]
    modifies revidx
    ensures forall k :: 0 <= k < idxs.Length ==> revidx[idxs[k]] == k
    ensures forall p :: 0 <= p < idxs.Length ==> revidx[p] < idxs.Length && idxs[revidx[p]] == p
  {
    var n := idxs.Length;
    for i := 0 to n
      invariant forall k :: 0 <= k < i ==> revidx[idxs[k]] == k
    {
      revidx[idxs[i]] := i;
    }
    forall p | 0 <= p < n
      ensures revidx[p] < n && idxs[revidx[p]] == p
    {
      assert p in idxs[..];
      var k :| 0 <= k < n && idxs[k] == p;
    }
  }

  /** The inverse of a permutation is a permutation. */
  lemma InverseIsPermutation(idxs: seq<nat>, revidx: seq<nat>, n: nat)
    requires |idxs| == n && |revidx| == n
    requires forall p :: 0 <= p < n ==> revidx[p] < n && idxs[revidx[p]] == p
    ensures IsPermutation(revidx, n)
  {
    forall j, k | 0 <= j < k < n
      ensures revidx[j] != revidx[k]
    {
      assert idxs[revidx[j]] == j && idxs[revidx[k]] == k;
    }
  }

  /** The node laid out at arena index i: the node at sorted position
      idxs[i], its child links translated to arena indices. */
  function Relinked<T>(node: IntervalNode<T>, p: nat, n: nat, revidx: seq<nat>): IntervalNode<T>
    requires p < n
  {
    node.(left := Lift(revidx, LeftChild(0, n, p)), right := Lift(revidx, RightChild(0, n, p)))
  }

  /** Copy the nodes into van Emde Boas order through a temporary arena,
      translating the child links through revidx, and copy them back. */
  method PlaceNodes<T>(nodes: array<IntervalNode<T>>, idxs: array<nat>, revidx: array<nat>, info: seq<TraversalInfo>)
    requires nodes.Length >= 1
    requires idxs.Length == nodes.Length && revidx.Length == nodes.Length && |info| == nodes.Length
    requires forall p :: 0 <= p < |info| ==> info[p] == Info(0, |info|, 0, 0, p)
    requires forall k :: 0 <= k < idxs.Length ==> idxs[k] < nodes.Length
    modifies nodes
    ensures forall i :: 0 <= i < nodes.Length ==>
      nodes[i] == Relinked(old(nodes[idxs[i]]), idxs[i], nodes.Length, revidx[..])
  {
    var n := nodes.Length;
    var filler := nodes[0];
    var vebNodes := new IntervalNode<T>[n](_ => filler);
    for i := 0 to n
      modifies vebNodes
      invariant forall k :: 0 <= k < i ==> vebNodes[k] == Relinked(nodes[idxs[k]], idxs[k], n, revidx[..])
    {
      var p := idxs[i];
      ChildrenOrdered(0, n, 0, p);
      var left := match info[p].left
        case Some(l) => Some(revidx[l])
        case None => None;
      var right := match info[p].right
        case Some(r) => Some(revidx[r])
        case None => None;
      vebNodes[i] := nodes[p].(left := left, right := right);
    }
    forall i | 0 <= i < n {
      nodes[i] := vebNodes[i];
    }
  }

  /** The arena that PlaceNodes leaves is linked: the node at sorted position
      p sits at index revidx[p] with its children's indices. */
  lemma PlacedIsLinked<T>(nodes: seq<IntervalNode<T>>, idxs: seq<nat>, revidx: seq<nat>, sorted: seq<IntervalNode<T>>)
    requires |nodes| == |idxs| == |sorted| && IsPermutation(revidx, |sorted|)
    requires forall k :: 0 <= k < |idxs| ==> idxs[k] < |sorted|
    requires forall p :: 0 <= p < |sorted| ==> idxs[revidx[p]] == p
    requires forall i :: 0 <= i < |nodes| ==> nodes[i] == Relinked(sorted[idxs[i]], idxs[i], |sorted|, revidx)
    ensures Linked(nodes, revidx, sorted)
  {
    forall p | 0 <= p < |sorted|
      ensures nodes[revidx[p]] == Relinked(sorted[p], p, |sorted|, revidx)
    {
      assert idxs[revidx[p]] == p;
    }
  }

  /** The van Emde Boas order of the tree over n sorted positions: the
      sorted position whose node goes to each arena index. */
  ghost function VebLayoutOf(n: nat): seq<nat>
  {
    Veb(TreeInfo(n), 0, n, 0, Height(TreeInfo(n), n))
  }

  /** The van Emde Boas order lists every sorted position exactly once and
      starts with the root of the whole tree. */
  lemma VebLayoutIsPermutation(n: nat)
    requires n >= 1
    ensures IsPermutation(VebLayoutOf(n), n)
    ensures forall p :: 0 <= p < n ==> p in VebLayoutOf(n)
    ensures VebLayoutOf(n)[0] == Mid(0, n)
  {
    var info := TreeInfo(n);
    var maxDepth := Height(info, n);
    assert DepthsMatch(info, 0, n, 0);
    VebPermutes(info, 0, n, 0, maxDepth);
    HeightIsMax(info, n);
    TruncatedFull(info, 0, n, 0, maxDepth);
    PreorderIsPermutation(n);
    PermutationOfPermutation(Preorder(0, n), VebLayoutOf(n), n);
    VebHead(info, 0, n, 0, maxDepth);
  }

  /** The index part of `veb_order`: traverse the implicit tree, order
      the sorted positions by preorder number and reorder them into van Emde
      Boas order. idxs[i] is the sorted position whose node goes to arena
      index i. */
  method VebIndices(n: nat) returns (info: seq<TraversalInfo>, idxs: array<nat>, tmp: array<nat>)
    requires n >= 1
    ensures fresh(idxs) && fresh(tmp) && idxs != tmp
    ensures |info| == n && idxs.Length == n && tmp.Length == n
    ensures forall p :: 0 <= p < n ==> info[p] == Info(0, n, 0, 0, p)
    ensures idxs[..] == VebLayoutOf(n)
  {
    info := Traverse(n);
    assert info == TreeInfo(n);
    var maxDepth := MaxDepth(info);
    idxs := SortByDfs(info);
    tmp := new nat[n](_ => 0);
    assert DepthsMatch(info, 0, n, 0);
    TruncatedFull(info, 0, n, 0, maxDepth);
    assert idxs[0..n] == Truncated(0, n, 0, maxDepth);
    VebOrderRecursion(idxs, tmp, info, 0, n, 0, maxDepth, 0, n);
  }

  /** The layout part of `veb_order`: the van Emde Boas order and its
      inverse revidx, which gives the arena index of each sorted position. */
  method LayOut(n: nat) returns (info: seq<TraversalInfo>, idxs: array<nat>, revidx: array<nat>)
    requires n >= 1
    ensures fresh(idxs) && fresh(revidx) && idxs != revidx
    ensures |info| == n && idxs.Length == n && revidx.Length == n
    ensures forall p :: 0 <= p < n ==> info[p] == Info(0, n, 0, 0, p)
    ensures idxs[..] == VebLayoutOf(n) && IsPermutation(idxs[..], n)
    ensures forall k :: 0 <= k < n ==> idxs[k] < n && revidx[idxs[k]] == k
    ensures forall p :: 0 <= p < n ==> revidx[p] < n && idxs[revidx[p]] == p
    ensures IsPermutation(revidx[..], n)
    ensures revidx[Mid(0, n)] == 0
  {
    info, idxs, revidx := VebIndices(n);
    VebLayoutIsPermutation(n);
    InvertPermutation(idxs, revidx);
    InverseIsPermutation(idxs[..], revidx[..], n);
    assert idxs[0] == Mid(0, n);
  }

  /** Put the nodes in van Emde Boas order, link them and fill in the
      augmentation. Returns, as ghosts, the sorted order the nodes were laid
      over and the arena index `at[p]` of each sorted position p. */
  method VebOrder<T>(nodes: array<IntervalNode<T>>) returns (ghost sorted: seq<IntervalNode<T>>, ghost at: seq<nat>, ghost layout: seq<nat>)
    requires nodes.Length >= 1
    modifies nodes
    ensures |sorted| == nodes.Length
    ensures SortedByFirst(sorted) && multiset(sorted) == multiset(old(nodes[..]))
    ensures Linked(nodes[..], at, sorted) && at[Mid(0, |sorted|)] == 0
    ensures Augmented(nodes[..], at, sorted, 0, |sorted|)
    ensures layout == VebLayoutOf(|sorted|) && IsPermutation(layout, |sorted|)
    ensures forall i :: 0 <= i < |sorted| ==> at[layout[i]] == i
  {
    SortNodesByFirst(nodes);
    sorted := nodes[..];
    at, layout := Arrange(nodes);
    FillAugmentation(nodes, at, sorted);
  }

  /** The layout and placement parts of `veb_order`: move the sorted nodes to their
      arena indices in van Emde Boas order and link each to its children. */
  method Arrange<T>(nodes: array<IntervalNode<T>>) returns (ghost at: seq<nat>, ghost layout: seq<nat>)
    requires nodes.Length >= 1
    modifies nodes
    ensures Linked(nodes[..], at, old(nodes[..])) && at[Mid(0, nodes.Length)] == 0
    ensures layout == VebLayoutOf(nodes.Length) && IsPermutation(layout, nodes.Length)
    ensures forall i :: 0 <= i < nodes.Length ==> at[layout[i]] == i
  {
    var n := nodes.Length;
    var info, idxs, revidx := LayOut(n);
    at := revidx[..];
    layout := idxs[..];
    PlaceAndLink(nodes, idxs, revidx, info);
  }

  /** The placement part of `veb_order` with its meaning: once the nodes are placed
      the arena is linked over the sorted order they were placed from. */
  method PlaceAndLink<T>(nodes: array<IntervalNode<T>>, idxs: array<nat>, revidx: array<nat>, info: seq<TraversalInfo>)
    requires nodes.Length >= 1 && idxs.Length == revidx.Length == |info| == nodes.Length
    requires forall p :: 0 <= p < |info| ==> info[p] == Info(0, |info|, 0, 0, p)
    requires forall k :: 0 <= k < idxs.Length ==> idxs[k] < idxs.Length
    requires IsPermutation(revidx[..], nodes.Length)
    requires forall p :: 0 <= p < nodes.Length ==> idxs[revidx[p]] == p
    modifies nodes
    ensures Linked(nodes[..], revidx[..], old(nodes[..]))
  {
    PlaceNodes(nodes, idxs, revidx, info);
    PlacedIsLinked(nodes[..], idxs[..], revidx[..], old(nodes[..]));
  }

  /** The last part of `veb_order`: fill in every node's
      [subtreeFirst, subtreeLast] from the root down, and check that the
      tree reached from the root has every node. */
  method FillAugmentation<T>(nodes: array<IntervalNode<T>>, ghost at: seq<nat>, ghost sorted: seq<IntervalNode<T>>)
    requires |sorted| >= 1 && Linked(nodes[..], at, sorted) && at[Mid(0, |sorted|)] == 0
    modifies nodes
    ensures nodes[..] == Augment(old(nodes[..]), at, sorted, 0, |sorted|)
    ensures Linked(nodes[..], at, sorted) && Augmented(nodes[..], at, sorted, 0, |sorted|)
  {
    var n := nodes.Length;
    ghost var linked := nodes[..];
    LinkedSubtrees(linked, at, sorted, 0, n);
    ComputeSubtreeSizes(nodes, 0, at, sorted, 0, n);
    AugmentKeeps(linked, at, sorted, 0, n);
    LinkedFrame(linked, nodes[..], at, sorted);
    AugmentAugmented(linked, at, sorted, 0, n);

    LinkedSubtrees(nodes[..], at, sorted, 0, n);
    var size := ComputeTreeSize(nodes[..], 0, at, sorted, 0, n);
    assert size == nodes.Length;
  }

  /** The tree: its arena in van Emde Boas order. The ghost fields record
      the input it was built from, that input sorted by `first`, the arena
      index of each sorted position, and the layout: the sorted position
      whose node sits at each arena index. */
  class COITree<T> {
    const nodes: seq<IntervalNode<T>>
    ghost const input: seq<IntervalNode<T>>
    ghost const sorted: seq<IntervalNode<T>>
    ghost const at: seq<nat>
    ghost const layout: seq<nat>

    ghost predicate Valid() {
      |input| >= 1 && |sorted| == |input| &&
      SortedByFirst(sorted) && multiset(sorted) == multiset(input) &&
      Linked(nodes, at, sorted) && at[Mid(0, |sorted|)] == 0 &&
      Augmented(nodes, at, sorted, 0, |sorted|) &&
      layout == VebLayoutOf(|sorted|) && IsPermutation(layout, |sorted|) &&
      (forall i :: 0 <= i < |sorted| ==> at[layout[i]] == i)
    }

    constructor(input: seq<IntervalNode<T>>)
      requires |input| >= 1
      ensures Valid() && this.input == input
    {
      var arena := new IntervalNode<T>[|input|](i requires 0 <= i < |input| => input[i]);
      assert arena[..] == input;
      ghost var s, a, l := VebOrder(arena);
      nodes := arena[..];
      this.input := input;
      sorted := s;
      at := a;
      layout := l;
    }
  }

  /** The arena is a binary search tree on `first`: a node's left child
      starts no later than it, its right child no earlier. */
  lemma SearchOrder<T>(tree: COITree<T>, p: nat)
    requires tree.Valid() && p < |tree.sorted|
    ensures var node := tree.nodes[tree.at[p]];
      (node.left.Some? ==> node.left.value < |tree.nodes| && tree.nodes[node.left.value].first <= node.first) &&
      (node.right.Some? ==> node.right.value < |tree.nodes| && node.first <= tree.nodes[node.right.value].first)
  {
    var n := |tree.sorted|;
    ChildrenOrdered(0, n, 0, p);
    assert tree.nodes[tree.at[p]].first == tree.sorted[p].first;
    match LeftChild(0, n, p) {
      case Some(l) => assert tree.nodes[tree.at[l]].first == tree.sorted[l].first;
      case None =>
    }
    match RightChild(0, n, p) {
      case Some(r) => assert tree.nodes[tree.at[r]].first == tree.sorted[r].first;
      case None =>
    }
  }

  /** The arena is a binary search tree on `first` over whole subtrees:
      for every range [s, e) reached from the root, the node at arena index
      at[Mid(s, e)] roots a subtree linked over exactly [s, e), every node of
      its left half starts no later than it and every node of its right
      half no earlier. */
  lemma SubtreeOrder<T>(tree: COITree<T>, s: nat, e: nat)
    requires tree.Valid() && Reachable(0, |tree.sorted|, s, e) && s < e
    ensures e <= |tree.sorted| && LinkedBelow(tree.nodes, tree.at, tree.sorted, s, e)
    ensures var m := Mid(s, e);
      (forall q :: s <= q < m ==> tree.nodes[tree.at[q]].first <= tree.nodes[tree.at[m]].first) &&
      (forall q :: m < q < e ==> tree.nodes[tree.at[m]].first <= tree.nodes[tree.at[q]].first)
  {
    LinkedSubtrees(tree.nodes, tree.at, tree.sorted, s, e);
    ReachableBounds(0, |tree.sorted|, s, e);
  }

  /** Count the nodes of the tree that overlap [first, last], starting at
      the root, index 0. The count is the number of input intervals that
      overlap the query; `overlap` stays 0; at least the root and at most
      every node is visited, and every counted node was visited. */
  method Query<T>(tree: COITree<T>, first: int, last: int) returns (count: nat, overlap: nat, visited: nat)
    requires tree.Valid()
    ensures count == |Overlapping(tree.input, first, last)|
    ensures overlap == 0
    ensures 1 <= visited <= |tree.nodes| && count <= visited
  {
    ghost var n := |tree.sorted|;
    count, overlap, visited := 0, 0, 0;
    LinkedSubtrees(tree.nodes, tree.at, tree.sorted, 0, n);
    count, overlap, visited := QueryRecursion(tree.nodes, 0, first, last, count, overlap, visited, tree.at, tree.sorted, 0, n);
    assert tree.sorted[0..n] == tree.sorted;
    CountHitsPermutation(tree.sorted, tree.input, first, last);
    OverlappingCount(tree.input, first, last);
  }
}
