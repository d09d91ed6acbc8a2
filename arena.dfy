/** The node arena of a built tree. Node i of the arena holds the interval
    at some sorted position p = at^-1(i); its `left`/`right` links are the
    arena indices of p's children in the implicit tree over the sorted
    positions, and its `subtreeFirst`/`subtreeLast` fields summarise the
    positions below it. Recursions over the links are justified by the ghost
    range [s, e) of sorted positions that the visited subtree covers. */
module Arena {
  import opened Intervals
  import opened ImplicitTree

  /** xs lists each of 0 .. n-1 exactly once. */
  predicate IsPermutation(xs: seq<nat>, n: nat)
  {
    |xs| == n && (forall k :: 0 <= k < n ==> xs[k] < n) && (forall j, k :: 0 <= j < k < n ==> xs[j] != xs[k])
  }

  /** Distinct positions of a permutation hold distinct values. */
  lemma PermutationDistinct(xs: seq<nat>, n: nat, i: nat, j: nat)
    requires IsPermutation(xs, n) && i < n && j < n && i != j
    ensures xs[i] != xs[j]
  {
    if j < i {
      assert xs[j] != xs[i];
    }
  }

  /** A child position translated to an arena index. */
  function Lift(at: seq<nat>, c: Option<nat>): (r: Option<nat>)
    ensures r.Some? <==> c.Some? && c.value < |at|
    ensures r.Some? ==> r.value == at[c.value]
  {
    match c
    case None => None
    case Some(p) => if p < |at| then Some(at[p]) else None
  }

  /** [s, e) is the range of some subtree of the implicit tree over [S, E). */
  ghost predicate Reachable(S: nat, E: nat, s: nat, e: nat)
    decreases E - S
  {
    (s == S && e == E) ||
    (S < E && (Reachable(S, Mid(S, E), s, e) || Reachable(Mid(S, E) + 1, E, s, e)))
  }

  lemma {:induction false} ReachableBounds(S: nat, E: nat, s: nat, e: nat)
    requires S <= E && Reachable(S, E, s, e)
    ensures S <= s <= e <= E
    decreases E - S
  {
    if !(s == S && e == E) {
      var M := Mid(S, E);
      if Reachable(S, M, s, e) {
        ReachableBounds(S, M, s, e);
      } else {
        ReachableBounds(M + 1, E, s, e);
      }
    }
  }

  /** The two halves of a reachable range are reachable. */
  lemma {:induction false} ReachableHalves(S: nat, E: nat, s: nat, e: nat)
    requires S <= E && Reachable(S, E, s, e) && s < e
    ensures Reachable(S, E, s, Mid(s, e)) && Reachable(S, E, Mid(s, e) + 1, e)
    decreases E - S
  {
    var M := Mid(S, E);
    if s == S && e == E {
      assert Reachable(S, M, S, M);
      assert Reachable(M + 1, E, M + 1, E);
    } else if Reachable(S, M, s, e) {
      ReachableHalves(S, M, s, e);
    } else {
      ReachableHalves(M + 1, E, s, e);
    }
  }

  /** Inside the tree over [S, E), the children of the root of a reachable
      range [s, e) are the roots of its two halves. */
  lemma {:induction false} ReachableChildren(S: nat, E: nat, s: nat, e: nat)
    requires S <= E && Reachable(S, E, s, e) && s < e
    ensures S <= Mid(s, e) < E
    ensures LeftChild(S, E, Mid(s, e)) == Root(s, Mid(s, e))
    ensures RightChild(S, E, Mid(s, e)) == Root(Mid(s, e) + 1, e)
    decreases E - S
  {
    ReachableBounds(S, E, s, e);
    var M := Mid(S, E);
    if !(s == S && e == E) {
      if Reachable(S, M, s, e) {
        ReachableBounds(S, M, s, e);
        ReachableChildren(S, M, s, e);
      } else {
        ReachableBounds(M + 1, E, s, e);
        ReachableChildren(M + 1, E, s, e);
      }
    }
  }

  /** Smallest `first` among xs[s..e]. */
  function MinFirst<T>(xs: seq<IntervalNode<T>>, s: nat, e: nat): int
    requires s < e <= |xs|
    decreases e - s
  {
    if s + 1 == e then xs[s].first
    else
      var rest := MinFirst(xs, s + 1, e);
      if xs[s].first <= rest then xs[s].first else rest
  }

  /** Largest `last` among xs[s..e]. */
  function MaxLast<T>(xs: seq<IntervalNode<T>>, s: nat, e: nat): int
    requires s < e <= |xs|
    decreases e - s
  {
    if s + 1 == e then xs[s].last
    else
      var rest := MaxLast(xs, s + 1, e);
      if xs[s].last >= rest then xs[s].last else rest
  }

  /** MinFirst is a lower bound of the `first`s of the range, attained by one of them. */
  lemma {:induction false} MinFirstIsMin<T>(xs: seq<IntervalNode<T>>, s: nat, e: nat)
    requires s < e <= |xs|
    ensures forall k :: s <= k < e ==> MinFirst(xs, s, e) <= xs[k].first
    ensures exists k :: s <= k < e && xs[k].first == MinFirst(xs, s, e)
    decreases e - s
  {
    if s + 1 < e {
      MinFirstIsMin(xs, s + 1, e);
      var k :| s + 1 <= k < e && xs[k].first == MinFirst(xs, s + 1, e);
      if xs[s].first <= MinFirst(xs, s + 1, e) {
        assert xs[s].first == MinFirst(xs, s, e);
      } else {
        assert xs[k].first == MinFirst(xs, s, e);
      }
    } else {
      assert xs[s].first == MinFirst(xs, s, e);
    }
  }

  /** MaxLast is an upper bound of the `last`s of the range, attained by one of them. */
  lemma {:induction false} MaxLastIsMax<T>(xs: seq<IntervalNode<T>>, s: nat, e: nat)
    requires s < e <= |xs|
    ensures forall k :: s <= k < e ==> xs[k].last <= MaxLast(xs, s, e)
    ensures exists k :: s <= k < e && xs[k].last == MaxLast(xs, s, e)
    decreases e - s
  {
    if s + 1 < e {
      MaxLastIsMax(xs, s + 1, e);
      var k :| s + 1 <= k < e && xs[k].last == MaxLast(xs, s + 1, e);
      if xs[s].last >= MaxLast(xs, s + 1, e) {
        assert xs[s].last == MaxLast(xs, s, e);
      } else {
        assert xs[k].last == MaxLast(xs, s, e);
      }
    } else {
      assert xs[s].last == MaxLast(xs, s, e);
    }
  }

  function Min(a: int, b: int): int { if a <= b then a else b }
  function Max(a: int, b: int): int { if a >= b then a else b }

  /** A bound that is attained is the minimum. */
  lemma MinFirstUnique<T>(xs: seq<IntervalNode<T>>, s: nat, e: nat, c: int, w: nat)
    requires s < e <= |xs| && s <= w < e && xs[w].first == c
    requires forall k :: s <= k < e ==> c <= xs[k].first
    ensures MinFirst(xs, s, e) == c
  {
    MinFirstIsMin(xs, s, e);
  }

  /** A bound that is attained is the maximum. */
  lemma MaxLastUnique<T>(xs: seq<IntervalNode<T>>, s: nat, e: nat, c: int, w: nat)
    requires s < e <= |xs| && s <= w < e && xs[w].last == c
    requires forall k :: s <= k < e ==> xs[k].last <= c
    ensures MaxLast(xs, s, e) == c
  {
    MaxLastIsMax(xs, s, e);
  }

  /** The smallest `first` of a range combines from a root m and the two sides of it. */
  lemma MinFirstSplit<T>(xs: seq<IntervalNode<T>>, s: nat, m: nat, e: nat)
    requires s <= m < e <= |xs|
    ensures MinFirst(xs, s, e) ==
      Min(Min(xs[m].first, if s < m then MinFirst(xs, s, m) else xs[m].first),
          if m + 1 < e then MinFirst(xs, m + 1, e) else xs[m].first)
  {
    if s < m { MinFirstIsMin(xs, s, m); }
    if m + 1 < e { MinFirstIsMin(xs, m + 1, e); }
    var l := if s < m then MinFirst(xs, s, m) else xs[m].first;
    var r := if m + 1 < e then MinFirst(xs, m + 1, e) else xs[m].first;
    var c := Min(Min(xs[m].first, l), r);
    var wl :| s <= wl <= m && xs[wl].first == l;
    var wr :| m <= wr < e && xs[wr].first == r;
    var w := if c == xs[m].first then m else if c == l then wl else wr;
    MinFirstUnique(xs, s, e, c, w);
  }

  /** The largest `last` of a range combines from a root m and the two sides of it. */
  lemma MaxLastSplit<T>(xs: seq<IntervalNode<T>>, s: nat, m: nat, e: nat)
    requires s <= m < e <= |xs|
    ensures MaxLast(xs, s, e) ==
      Max(Max(xs[m].last, if s < m then MaxLast(xs, s, m) else xs[m].last),
          if m + 1 < e then MaxLast(xs, m + 1, e) else xs[m].last)
  {
    if s < m { MaxLastIsMax(xs, s, m); }
    if m + 1 < e { MaxLastIsMax(xs, m + 1, e); }
    var l := if s < m then MaxLast(xs, s, m) else xs[m].last;
    var r := if m + 1 < e then MaxLast(xs, m + 1, e) else xs[m].last;
    var c := Max(Max(xs[m].last, l), r);
    var wl :| s <= wl <= m && xs[wl].last == l;
    var wr :| m <= wr < e && xs[wr].last == r;
    var w := if c == xs[m].last then m else if c == l then wl else wr;
    MaxLastUnique(xs, s, e, c, w);
  }

  /** The arena `nodes` holds the sorted intervals `sorted`, the one at
      sorted position p at index at[p], linked as the implicit tree over the
      sorted positions. */
  ghost predicate Linked<T>(nodes: seq<IntervalNode<T>>, at: seq<nat>, sorted: seq<IntervalNode<T>>)
  {
    |nodes| == |sorted| && IsPermutation(at, |sorted|) &&
    forall p {:trigger nodes[at[p]]} :: 0 <= p < |sorted| ==>
      var node := nodes[at[p]];
      node.first == sorted[p].first && node.last == sorted[p].last && node.metadata == sorted[p].metadata &&
      node.left == Lift(at, LeftChild(0, |sorted|, p)) && node.right == Lift(at, RightChild(0, |sorted|, p))
  }

  /** Every subtree root below the range [s, e) records the smallest `first`
      and the largest `last` of its own range. */
  ghost predicate Augmented<T>(nodes: seq<IntervalNode<T>>, at: seq<nat>, sorted: seq<IntervalNode<T>>, s: nat, e: nat)
    decreases e - s
  {
    s >= e ||
    (e <= |sorted| && e <= |at| && at[Mid(s, e)] < |nodes| &&
     nodes[at[Mid(s, e)]].subtreeFirst == MinFirst(sorted, s, e) &&
     nodes[at[Mid(s, e)]].subtreeLast == MaxLast(sorted, s, e) &&
     Augmented(nodes, at, sorted, s, Mid(s, e)) &&
     Augmented(nodes, at, sorted, Mid(s, e) + 1, e))
  }

  /** Augmented only looks at the nodes of the range. */
  lemma {:induction false} AugmentedFrame<T>(nodes: seq<IntervalNode<T>>, nodes': seq<IntervalNode<T>>,
    at: seq<nat>, sorted: seq<IntervalNode<T>>, s: nat, e: nat)
    requires e <= |at| && |nodes| == |nodes'|
    requires forall p :: s <= p < e && at[p] < |nodes| ==>
      nodes'[at[p]].subtreeFirst == nodes[at[p]].subtreeFirst && nodes'[at[p]].subtreeLast == nodes[at[p]].subtreeLast
    requires Augmented(nodes, at, sorted, s, e)
    ensures Augmented(nodes', at, sorted, s, e)
    decreases e - s
  {
    if s < e {
      AugmentedFrame(nodes, nodes', at, sorted, s, Mid(s, e));
      AugmentedFrame(nodes, nodes', at, sorted, Mid(s, e) + 1, e);
    }
  }

  /** The two nodes agree on everything but the augmentation. */
  ghost predicate SameButAugmentation<T>(a: IntervalNode<T>, b: IntervalNode<T>)
  {
    a.first == b.first && a.last == b.last && a.left == b.left && a.right == b.right && a.metadata == b.metadata
  }

  /** `after` differs from `before` in the augmentation fields at most. */
  ghost predicate OnlyAugmentationChanged<T>(after: seq<IntervalNode<T>>, before: seq<IntervalNode<T>>)
  {
    |after| == |before| && forall k :: 0 <= k < |after| ==> SameButAugmentation(after[k], before[k])
  }

  /** Linked only looks at the fields the augmentation leaves alone. */
  lemma LinkedFrame<T>(nodes: seq<IntervalNode<T>>, nodes': seq<IntervalNode<T>>, at: seq<nat>, sorted: seq<IntervalNode<T>>)
    requires Linked(nodes, at, sorted) && OnlyAugmentationChanged(nodes', nodes)
    ensures Linked(nodes', at, sorted)
  {
  }

  /** The links of the subtree over sorted positions [s, e), read from its
      root down: the root holds the interval of position Mid(s, e) and links
      to the roots of the two halves, which are linked in turn. */
  ghost predicate LinkedBelow<T>(nodes: seq<IntervalNode<T>>, at: seq<nat>, sorted: seq<IntervalNode<T>>, s: nat, e: nat)
    decreases e - s
  {
    s >= e ||
    (e <= |sorted| && e <= |at| && at[Mid(s, e)] < |nodes| &&
     var m := Mid(s, e);
     nodes[at[m]].first == sorted[m].first && nodes[at[m]].last == sorted[m].last &&
     nodes[at[m]].left == (if s < m then Some(at[Mid(s, m)]) else None) &&
     nodes[at[m]].right == (if m + 1 < e then Some(at[Mid(m + 1, e)]) else None) &&
     LinkedBelow(nodes, at, sorted, s, m) && LinkedBelow(nodes, at, sorted, m + 1, e))
  }

  /** The root of a reachable range holds its interval and links to the roots of the two halves. */
  lemma RootLinked<T>(nodes: seq<IntervalNode<T>>, at: seq<nat>, sorted: seq<IntervalNode<T>>, s: nat, e: nat)
    requires Linked(nodes, at, sorted) && Reachable(0, |sorted|, s, e) && s < e
    ensures e <= |sorted| && e <= |at| && at[Mid(s, e)] < |nodes|
    ensures var m := Mid(s, e);
     nodes[at[m]].first == sorted[m].first && nodes[at[m]].last == sorted[m].last &&
     nodes[at[m]].left == (if s < m then Some(at[Mid(s, m)]) else None) &&
     nodes[at[m]].right == (if m + 1 < e then Some(at[Mid(m + 1, e)]) else None)
  {
    ReachableChildren(0, |sorted|, s, e);
    ReachableBounds(0, |sorted|, s, e);
    var m := Mid(s, e);
    assert nodes[at[m]].left == Lift(at, LeftChild(0, |sorted|, m));
    assert nodes[at[m]].right == Lift(at, RightChild(0, |sorted|, m));
  }

  /** Every subtree of a linked arena is linked from its root down. */
  lemma {:induction false} LinkedSubtrees<T>(nodes: seq<IntervalNode<T>>, at: seq<nat>, sorted: seq<IntervalNode<T>>, s: nat, e: nat)
    requires Linked(nodes, at, sorted) && Reachable(0, |sorted|, s, e)
    ensures LinkedBelow(nodes, at, sorted, s, e)
    decreases e - s
  {
    if s < e {
      ReachableHalves(0, |sorted|, s, e);
      RootLinked(nodes, at, sorted, s, e);
      LinkedSubtrees(nodes, at, sorted, s, Mid(s, e));
      LinkedSubtrees(nodes, at, sorted, Mid(s, e) + 1, e);
    }
  }

  /** LinkedBelow only looks at the fields the augmentation leaves alone. */
  lemma {:induction false} LinkedBelowFrame<T>(nodes: seq<IntervalNode<T>>, nodes': seq<IntervalNode<T>>,
    at: seq<nat>, sorted: seq<IntervalNode<T>>, s: nat, e: nat)
    requires LinkedBelow(nodes, at, sorted, s, e) && OnlyAugmentationChanged(nodes', nodes)
    ensures LinkedBelow(nodes', at, sorted, s, e)
    decreases e - s
  {
    if s < e {
      assert SameButAugmentation(nodes'[at[Mid(s, e)]], nodes[at[Mid(s, e)]]);
      LinkedBelowFrame(nodes, nodes', at, sorted, s, Mid(s, e));
      LinkedBelowFrame(nodes, nodes', at, sorted, Mid(s, e) + 1, e);
    }
  }

  /** The arena after `compute_subtree_sizes` has run on the subtree over
      sorted positions [s, e): the left subtree is filled in first, then the
      right one, then the root records the smallest `first` and the largest
      `last` of the whole range. */
  ghost function Augment<T>(nodes: seq<IntervalNode<T>>, at: seq<nat>, sorted: seq<IntervalNode<T>>, s: nat, e: nat): (r: seq<IntervalNode<T>>)
    requires e <= |sorted| && e <= |at| && forall p :: 0 <= p < |at| ==> at[p] < |nodes|
    ensures |r| == |nodes|
    decreases e - s
  {
    if e <= s then nodes
    else
      var m := Mid(s, e);
      var l := Augment(nodes, at, sorted, s, m);
      var r := Augment(l, at, sorted, m + 1, e);
      r[at[m] := r[at[m]].(subtreeFirst := MinFirst(sorted, s, e), subtreeLast := MaxLast(sorted, s, e))]
  }

  /** Filling in a subtree changes the augmentation fields only. */
  lemma {:induction false} AugmentKeeps<T>(nodes: seq<IntervalNode<T>>, at: seq<nat>, sorted: seq<IntervalNode<T>>, s: nat, e: nat)
    requires e <= |sorted| && e <= |at| && forall p :: 0 <= p < |at| ==> at[p] < |nodes|
    ensures OnlyAugmentationChanged(Augment(nodes, at, sorted, s, e), nodes)
    decreases e - s
  {
    if s < e {
      var m := Mid(s, e);
      var l := Augment(nodes, at, sorted, s, m);
      AugmentKeeps(nodes, at, sorted, s, m);
      AugmentKeeps(l, at, sorted, m + 1, e);
    }
  }

  /** Filling in a subtree leaves every arena slot outside it untouched. */
  lemma {:induction false} AugmentOutside<T>(nodes: seq<IntervalNode<T>>, at: seq<nat>, sorted: seq<IntervalNode<T>>, s: nat, e: nat, k: nat)
    requires e <= |sorted| && e <= |at| && forall p :: 0 <= p < |at| ==> at[p] < |nodes|
    requires k < |nodes| && forall p :: s <= p < e ==> at[p] != k
    ensures Augment(nodes, at, sorted, s, e)[k] == nodes[k]
    decreases e - s
  {
    if s < e {
      var m := Mid(s, e);
      AugmentOutside(nodes, at, sorted, s, m, k);
      AugmentOutside(Augment(nodes, at, sorted, s, m), at, sorted, m + 1, e, k);
    }
  }

  /** A slot of the left half is untouched by filling in the right half and then the root. */
  lemma LeftSlotKept<T>(l: seq<IntervalNode<T>>, at: seq<nat>, sorted: seq<IntervalNode<T>>,
    s: nat, e: nat, v: IntervalNode<T>, p: nat)
    requires s < e <= |sorted| && IsPermutation(at, |sorted|) && |l| == |sorted|
    requires s <= p < Mid(s, e)
    ensures Augment(l, at, sorted, Mid(s, e) + 1, e)[at[Mid(s, e)] := v][at[p]] == l[at[p]]
  {
    var m := Mid(s, e);
    forall q | m + 1 <= q < e
      ensures at[q] != at[p]
    {
      PermutationDistinct(at, |sorted|, q, p);
    }
    AugmentOutside(l, at, sorted, m + 1, e, at[p]);
    PermutationDistinct(at, |sorted|, p, m);
  }

  /** Filling in the right half and then the root keeps the left half augmented. */
  lemma KeepLeft<T>(l: seq<IntervalNode<T>>, fin: seq<IntervalNode<T>>, at: seq<nat>, sorted: seq<IntervalNode<T>>,
    s: nat, e: nat, v: IntervalNode<T>)
    requires s < e <= |sorted| && IsPermutation(at, |sorted|) && |l| == |sorted|
    requires fin == Augment(l, at, sorted, Mid(s, e) + 1, e)[at[Mid(s, e)] := v]
    requires Augmented(l, at, sorted, s, Mid(s, e))
    ensures Augmented(fin, at, sorted, s, Mid(s, e))
  {
    var m := Mid(s, e);
    forall p | s <= p < m
      ensures fin[at[p]].subtreeFirst == l[at[p]].subtreeFirst && fin[at[p]].subtreeLast == l[at[p]].subtreeLast
    {
      LeftSlotKept(l, at, sorted, s, e, v, p);
    }
    AugmentedFrame(l, fin, at, sorted, s, m);
  }

  /** Filling in the root keeps the right half augmented. */
  lemma KeepRight<T>(r: seq<IntervalNode<T>>, fin: seq<IntervalNode<T>>, at: seq<nat>, sorted: seq<IntervalNode<T>>,
    s: nat, e: nat, v: IntervalNode<T>)
    requires s < e <= |sorted| && IsPermutation(at, |sorted|) && |r| == |sorted|
    requires fin == r[at[Mid(s, e)] := v]
    requires Augmented(r, at, sorted, Mid(s, e) + 1, e)
    ensures Augmented(fin, at, sorted, Mid(s, e) + 1, e)
  {
    var m := Mid(s, e);
    forall p | m + 1 <= p < e
      ensures fin[at[p]].subtreeFirst == r[at[p]].subtreeFirst && fin[at[p]].subtreeLast == r[at[p]].subtreeLast
    {
      PermutationDistinct(at, |sorted|, p, m);
    }
    AugmentedFrame(r, fin, at, sorted, m + 1, e);
  }

  /** Filling in the whole subtree over [s, e) leaves it augmented: each
      subtree root below records the extremes of its own range. */
  lemma {:induction false} AugmentAugmented<T>(nodes: seq<IntervalNode<T>>, at: seq<nat>, sorted: seq<IntervalNode<T>>, s: nat, e: nat)
    requires e <= |sorted| && IsPermutation(at, |sorted|) && |nodes| == |sorted|
    ensures Augmented(Augment(nodes, at, sorted, s, e), at, sorted, s, e)
    decreases e - s
  {
    if s < e {
      var m := Mid(s, e);
      var l := Augment(nodes, at, sorted, s, m);
      var r := Augment(l, at, sorted, m + 1, e);
      var v := r[at[m]].(subtreeFirst := MinFirst(sorted, s, e), subtreeLast := MaxLast(sorted, s, e));
      var fin := Augment(nodes, at, sorted, s, e);
      assert fin == r[at[m] := v];
      AugmentAugmented(nodes, at, sorted, s, m);
      AugmentAugmented(l, at, sorted, m + 1, e);
      KeepLeft(l, fin, at, sorted, s, e, v);
      KeepRight(r, fin, at, sorted, s, e, v);
    }
  }

  /** The root of a filled-in subtree records the extremes of its range. */
  lemma AugmentRoot<T>(nodes: seq<IntervalNode<T>>, at: seq<nat>, sorted: seq<IntervalNode<T>>, s: nat, e: nat)
    requires s < e <= |sorted| && e <= |at| && forall p :: 0 <= p < |at| ==> at[p] < |nodes|
    ensures Augment(nodes, at, sorted, s, e)[at[Mid(s, e)]].subtreeFirst == MinFirst(sorted, s, e)
    ensures Augment(nodes, at, sorted, s, e)[at[Mid(s, e)]].subtreeLast == MaxLast(sorted, s, e)
  {
  }

  /** The middle step of ComputeSubtreeSizes: filling in the left half
      keeps the right half linked and the root's right link. */
  lemma LeftDone<T>(before: seq<IntervalNode<T>>, mid: seq<IntervalNode<T>>,
    at: seq<nat>, sorted: seq<IntervalNode<T>>, s: nat, e: nat)
    requires LinkedBelow(before, at, sorted, s, e) && s < e <= |sorted| && e <= |at|
    requires forall p :: 0 <= p < |at| ==> at[p] < |before|
    requires mid == Augment(before, at, sorted, s, Mid(s, e))
    ensures |mid| == |before| && LinkedBelow(mid, at, sorted, Mid(s, e) + 1, e)
    ensures mid[at[Mid(s, e)]].right == if Mid(s, e) + 1 < e then Some(at[Mid(Mid(s, e) + 1, e)]) else None
  {
    var m := Mid(s, e);
    AugmentKeeps(before, at, sorted, s, m);
    LinkedBelowFrame(before, mid, at, sorted, m + 1, e);
    assert SameButAugmentation(mid[at[m]], before[at[m]]);
  }

  /** The last step of ComputeSubtreeSizes: once both halves are filled in,
      recording the running extremes at the root yields the filled-in subtree. */
  lemma RootStep<T>(before: seq<IntervalNode<T>>, mid: seq<IntervalNode<T>>, late: seq<IntervalNode<T>>,
    at: seq<nat>, sorted: seq<IntervalNode<T>>, s: nat, e: nat, lo: int, hi: int)
    requires s < e <= |sorted|
    requires e <= |at|
    requires forall p :: 0 <= p < |at| ==> at[p] < |before|
    requires mid == Augment(before, at, sorted, s, Mid(s, e))
    requires late == Augment(mid, at, sorted, Mid(s, e) + 1, e)
    requires var m := Mid(s, e);
      var lo' := if s < m then Min(sorted[m].first, MinFirst(sorted, s, m)) else sorted[m].first;
      var hi' := if s < m then Max(sorted[m].last, MaxLast(sorted, s, m)) else sorted[m].last;
      lo == (if m + 1 < e then Min(lo', MinFirst(sorted, m + 1, e)) else lo') &&
      hi == (if m + 1 < e then Max(hi', MaxLast(sorted, m + 1, e)) else hi')
    ensures Augment(before, at, sorted, s, e) ==
      late[at[Mid(s, e)] := late[at[Mid(s, e)]].(subtreeFirst := lo, subtreeLast := hi)]
  {
    MinFirstSplit(sorted, s, Mid(s, e), e);
    MaxLastSplit(sorted, s, Mid(s, e), e);
  }

  /** One `if let Some(child)` block of ComputeSubtreeSizes: fill in the
      child's subtree, covering sorted positions [s, e), and fold its extremes
      into the running ones. */
  method FillChild<T>(nodes: array<IntervalNode<T>>, child: Option<nat>, subtreeFirst: int, subtreeLast: int,
    ghost at: seq<nat>, ghost sorted: seq<IntervalNode<T>>, ghost s: nat, ghost e: nat)
    returns (first': int, last': int)
    requires LinkedBelow(nodes[..], at, sorted, s, e) && e <= |sorted| && e <= |at|
    requires forall p :: 0 <= p < |at| ==> at[p] < nodes.Length
    requires child == if s < e then Some(at[Mid(s, e)]) else None
    modifies nodes
    ensures nodes[..] == Augment(old(nodes[..]), at, sorted, s, e)
    ensures first' == if s < e then Min(subtreeFirst, MinFirst(sorted, s, e)) else subtreeFirst
    ensures last' == if s < e then Max(subtreeLast, MaxLast(sorted, s, e)) else subtreeLast
    decreases e - s, 1
  {
    first', last' := subtreeFirst, subtreeLast;
    match child {
      case Some(c) =>
        ghost var before := nodes[..];
        ComputeSubtreeSizes(nodes, c, at, sorted, s, e);
        AugmentRoot(before, at, sorted, s, e);
        first' := Min(first', nodes[c].subtreeFirst);
        last' := Max(last', nodes[c].subtreeLast);
      case None =>
    }
  }

  /** Fill in `subtreeFirst`/`subtreeLast` of the subtree rooted at arena
      index rootIdx, children first. The subtree covers sorted positions
      [s, e). */
  method ComputeSubtreeSizes<T>(nodes: array<IntervalNode<T>>, rootIdx: nat,
    ghost at: seq<nat>, ghost sorted: seq<IntervalNode<T>>, ghost s: nat, ghost e: nat)
    requires LinkedBelow(nodes[..], at, sorted, s, e) && s < e <= |sorted| && e <= |at|
    requires forall p :: 0 <= p < |at| ==> at[p] < nodes.Length
    requires rootIdx == at[Mid(s, e)]
    modifies nodes
    ensures nodes[..] == Augment(old(nodes[..]), at, sorted, s, e)
    decreases e - s, 0
  {
    ghost var m := Mid(s, e);
    ghost var before := nodes[..];

    var subtreeFirst := nodes[rootIdx].first;
    var subtreeLast := nodes[rootIdx].last;

    subtreeFirst, subtreeLast := FillChild(nodes, nodes[rootIdx].left, subtreeFirst, subtreeLast, at, sorted, s, m);
    ghost var mid := nodes[..];
    LeftDone(before, mid, at, sorted, s, e);

    subtreeFirst, subtreeLast := FillChild(nodes, nodes[rootIdx].right, subtreeFirst, subtreeLast, at, sorted, m + 1, e);
    ghost var late := nodes[..];
    RootStep(before, mid, late, at, sorted, s, e, subtreeFirst, subtreeLast);

    nodes[rootIdx] := nodes[rootIdx].(subtreeFirst := subtreeFirst, subtreeLast := subtreeLast);
    assert nodes[..] == late[rootIdx := late[rootIdx].(subtreeFirst := subtreeFirst, subtreeLast := subtreeLast)];
  }

  /** The number of nodes reachable from arena index rootIdx through the
      links; the subtree covers sorted positions [s, e), so it has e - s. */
  function ComputeTreeSize<T>(nodes: seq<IntervalNode<T>>, rootIdx: nat,
    ghost at: seq<nat>, ghost sorted: seq<IntervalNode<T>>, ghost s: nat, ghost e: nat): (size: nat)
    requires LinkedBelow(nodes, at, sorted, s, e) && s < e && rootIdx == at[Mid(s, e)]
    ensures size == e - s
    decreases e - s
  {
    var m := Mid(s, e);
    var leftSize := match nodes[rootIdx].left
      case Some(left) => ComputeTreeSize(nodes, left, at, sorted, s, m)
      case None => 0;
    var rightSize := match nodes[rootIdx].right
      case Some(right) => ComputeTreeSize(nodes, right, at, sorted, m + 1, e)
      case None => 0;
    1 + leftSize + rightSize
  }
}
