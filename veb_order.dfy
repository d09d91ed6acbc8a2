/** The recursive van Emde Boas reordering of the index array, proved to
    produce the layout `Veb` of VebLayout. */
module VebRecursion {
  import opened Intervals
  import opened ImplicitTree
  import opened VebLayout

  /** A subtree cut at its own root depth is its root alone. */
  lemma TruncatedAtRoot(s: nat, e: nat, d: nat)
    requires s < e
    ensures Truncated(s, e, d, d) == [Mid(s, e)]
  {
    TruncatedUnfold(s, e, d, d);
    assert Truncated(s, Mid(s, e), d + 1, d) == [];
    assert Truncated(Mid(s, e) + 1, e, d + 1, d) == [];
  }

  /** The layout has as many entries as the listing it permutes. */
  lemma VebLength(info: seq<TraversalInfo>, s: nat, e: nat, d: nat, maxDepth: nat)
    requires DepthsMatch(info, s, e, d)
    ensures |Veb(info, s, e, d, maxDepth)| == |Truncated(s, e, d, maxDepth)|
  {
    VebPermutes(info, s, e, d, maxDepth);
    assert |multiset(Veb(info, s, e, d, maxDepth))| == |multiset(Truncated(s, e, d, maxDepth))|;
  }

  /** The layout of a subtree starts with the subtree's root. */
  lemma {:induction false} VebHead(info: seq<TraversalInfo>, s: nat, e: nat, d: nat, maxDepth: nat)
    requires s < e && d <= maxDepth && DepthsMatch(info, s, e, d)
    ensures |Veb(info, s, e, d, maxDepth)| > 0 && Veb(info, s, e, d, maxDepth)[0] == Mid(s, e)
    decreases maxDepth - d
  {
    if d < maxDepth {
      var pivot := Pivot(d, maxDepth);
      VebHead(info, s, e, d, pivot);
      VebUnfold(info, s, e, d, maxDepth);
      VebSplitUnfold(info, s, e, d, maxDepth, pivot);
    }
  }

  lemma FlattenHead(blocks: seq<(nat, nat)>, d: nat, maxDepth: nat)
    requires blocks != []
    ensures Flatten(blocks, d, maxDepth) == Truncated(blocks[0].0, blocks[0].1, d, maxDepth) + Flatten(blocks[1..], d, maxDepth)
  {
  }

  /** An array that differs from y only inside [start, end) is y with that window replaced. */
  lemma Reassemble(x: seq<nat>, y: seq<nat>, start: nat, end: nat)
    requires |x| == |y| && start <= end <= |x|
    requires forall k :: 0 <= k < |x| && !(start <= k < end) ==> x[k] == y[k]
    ensures x == y[..start] + x[start..end] + y[end..]
  {
    var z := y[..start] + x[start..end] + y[end..];
    forall k | 0 <= k < |x| ensures x[k] == z[k] {
      if k < start {
        assert z[k] == y[..start][k];
      } else if k < end {
        assert z[k] == x[start..end][k - start];
      } else {
        assert z[k] == y[end..][k - end];
      }
    }
  }

  /** The window of q + (m + r1) + r2 right after q is m. */
  lemma WindowOf(x: seq<nat>, q: seq<nat>, m: seq<nat>, r1: seq<nat>, r2: seq<nat>)
    requires x == q + (m + r1) + r2
    ensures |q| + |m| <= |x| && x[|q|..|q| + |m|] == m
  {
    forall k | 0 <= k < |m| ensures x[|q|..|q| + |m|][k] == m[k] {
      assert x[|q| + k] == (m + r1)[k];
    }
  }

  /** Replacing the window m of q + (m + r1) + r2 by m2. */
  lemma ReplaceWindow(x: seq<nat>, y: seq<nat>, q: seq<nat>, m: seq<nat>, m2: seq<nat>, r1: seq<nat>, r2: seq<nat>)
    requires x == q + (m + r1) + r2 && |q| + |m| <= |x|
    requires y == x[..|q|] + m2 + x[|q| + |m|..]
    ensures y == (q + m2) + r1 + r2
  {
    assert x[..|q|] == q;
    assert x[|q| + |m|..] == r1 + r2;
  }

  lemma JoinMiddle(y: seq<nat>, pre: seq<nat>, a: seq<nat>, c: seq<nat>, v: seq<nat>, post: seq<nat>)
    requires y == (pre + a) + c + post && v == a + c
    ensures y == pre + v + post
  {
  }

  /** Each entry of a truncated subtree listing has a traversal record. */
  lemma TruncatedHasInfo(info: seq<TraversalInfo>, s: nat, e: nat, d: nat, maxDepth: nat)
    requires DepthsMatch(info, s, e, d)
    ensures forall k :: 0 <= k < |Truncated(s, e, d, maxDepth)| ==> Truncated(s, e, d, maxDepth)[k] < |info|
  {
    TruncatedRange(s, e, d, maxDepth);
  }

  /** A window holding a truncated subtree listing holds only positions
      that have a traversal record. */
  lemma WindowHasInfo(a: seq<nat>, start: nat, end: nat, info: seq<TraversalInfo>, s: nat, e: nat, d: nat, maxDepth: nat)
    requires start <= end <= |a| && a[start..end] == Truncated(s, e, d, maxDepth)
    requires DepthsMatch(info, s, e, d)
    ensures forall k :: start <= k < end ==> a[k] < |info|
  {
    TruncatedHasInfo(info, s, e, d, maxDepth);
    forall k | start <= k < end
      ensures a[k] < |info|
    {
      assert a[k] == a[start..end][k - start];
    }
  }

  /** Bottom subtrees: non-empty ranges whose depths are measured from root depth d. */
  predicate ValidBlocks(info: seq<TraversalInfo>, blocks: seq<(nat, nat)>, d: nat)
  {
    forall k :: 0 <= k < |blocks| ==> blocks[k].0 < blocks[k].1 && DepthsMatch(info, blocks[k].0, blocks[k].1, d)
  }

  /** Where the scan of the bottom blocks stands: the array holds `front`, then
      the unprocessed blocks b.. in preorder, then `post`. If the window is
      not exhausted, block b starts at the scan position with an entry at
      depth d, is followed only by deeper entries, and the entry after it
      (if any) starts the next block at depth d again. */
  lemma {:induction false} BlockStep(x: seq<nat>, front: seq<nat>, post: seq<nat>, info: seq<TraversalInfo>,
    blocks: seq<(nat, nat)>, b: nat, d: nat, maxDepth: nat)
    requires b <= |blocks| && ValidBlocks(info, blocks, d) && d <= maxDepth
    requires x == front + Flatten(blocks[b..], d, maxDepth) + post && |front| < |x| - |post|
    ensures b < |blocks|
    ensures var blk := blocks[b];
      var tb := Truncated(blk.0, blk.1, d, maxDepth);
      var rest := Flatten(blocks[b + 1..], d, maxDepth);
      && x == front + (tb + rest) + post
      && |tb| >= 1
      && (forall k :: 0 <= k < |tb| ==> tb[k] < |info|)
      && DepthAt(info, tb[0]) == d
      && (forall k :: 1 <= k < |tb| ==> DepthAt(info, tb[k]) > d)
      && (|front| + |tb| < |x| - |post| ==>
            x[|front| + |tb|] < |info| && DepthAt(info, x[|front| + |tb|]) == d)
  {
    if b == |blocks| {
      assert false;
    }
    var blk := blocks[b];
    var tb := Truncated(blk.0, blk.1, d, maxDepth);
    var rest := Flatten(blocks[b + 1..], d, maxDepth);
    FlattenHead(blocks[b..], d, maxDepth);
    assert blocks[b..][1..] == blocks[b + 1..];
    assert x == front + (tb + rest) + post;
    RootDepth(info, blk.0, blk.1, d);
    TruncatedDepths(info, blk.0, blk.1, d, maxDepth);
    TruncatedHasInfo(info, blk.0, blk.1, d, maxDepth);
    if |front| + |tb| < |x| - |post| {
      assert x[|front| + |tb|] == rest[0];
      if b + 1 == |blocks| {
        assert false;
      }
      var next := blocks[b + 1];
      FlattenHead(blocks[b + 1..], d, maxDepth);
      RootDepth(info, next.0, next.1, d);
      TruncatedHasInfo(info, next.0, next.1, d, maxDepth);
    }
  }

  /** Once the unprocessed blocks contribute no entries, every block has been processed. */
  lemma FlattenDone(info: seq<TraversalInfo>, blocks: seq<(nat, nat)>, b: nat, d: nat, maxDepth: nat)
    requires b <= |blocks| && ValidBlocks(info, blocks, d) && d <= maxDepth
    requires |Flatten(blocks[b..], d, maxDepth)| == 0
    ensures b == |blocks|
  {
  }

  /** Appending the layout of block b extends the laid-out prefix by one block. */
  lemma FrontStep(front: seq<nat>, head: seq<nat>, info: seq<TraversalInfo>, blocks: seq<(nat, nat)>, b: nat,
    d: nat, maxDepth: nat, cutoff: nat)
    requires b < |blocks| && front == head + VebOfBlocks(info, blocks[..b], d, maxDepth)
    requires cutoff == BlockCutoff(info, blocks[b], d, maxDepth) && d <= cutoff <= maxDepth
    ensures front + Veb(info, blocks[b].0, blocks[b].1, d, cutoff) == head + VebOfBlocks(info, blocks[..b + 1], d, maxDepth)
  {
    VebOfBlocksUnfold(info, blocks[..b + 1], d, maxDepth);
    assert blocks[..b + 1][..b] == blocks[..b];
  }

  /** Everything one round of the bottom-subtree loop needs to know about
      block b: it is a valid subtree, its listing tb sits right after
      `front` and satisfies the scan's expectations, and its cut-off depth
      leaves the listing unchanged. */
  lemma BlockWindow(x: seq<nat>, front: seq<nat>, post: seq<nat>, info: seq<TraversalInfo>,
    blocks: seq<(nat, nat)>, b: nat, d: nat, maxDepth: nat)
    requires b <= |blocks| && ValidBlocks(info, blocks, d) && d <= maxDepth
    requires x == front + Flatten(blocks[b..], d, maxDepth) + post && |front| < |x| - |post|
    ensures b < |blocks|
    ensures var blk := blocks[b];
      var tb := Truncated(blk.0, blk.1, d, maxDepth);
      var rest := Flatten(blocks[b + 1..], d, maxDepth);
      var cutoff := BlockCutoff(info, blk, d, maxDepth);
      && blk.0 < blk.1 && DepthsMatch(info, blk.0, blk.1, d)
      && x == front + (tb + rest) + post
      && |tb| >= 1 && |front| + |tb| <= |x| - |post|
      && x[|front|..|front| + |tb|] == tb
      && (forall k :: 0 <= k < |tb| ==> tb[k] < |info|)
      && DepthAt(info, tb[0]) == d
      && (forall k :: 1 <= k < |tb| ==> DepthAt(info, tb[k]) > d)
      && (|front| + |tb| < |x| - |post| ==>
            x[|front| + |tb|] < |info| && DepthAt(info, x[|front| + |tb|]) == d)
      && d <= cutoff <= maxDepth
      && tb == Truncated(blk.0, blk.1, d, cutoff)
  {
    BlockStep(x, front, post, info, blocks, b, d, maxDepth);
    var blk := blocks[b];
    var tb := Truncated(blk.0, blk.1, d, maxDepth);
    WindowOf(x, front, tb, Flatten(blocks[b + 1..], d, maxDepth), post);
    BlockCutoffFacts(info, blk, d, maxDepth);
  }

  /** After block b has been laid out in place, the laid-out prefix covers blocks ..b+1. */
  lemma BlockDone(x: seq<nat>, y: seq<nat>, front: seq<nat>, head: seq<nat>, post: seq<nat>,
    info: seq<TraversalInfo>, blocks: seq<(nat, nat)>, b: nat, d: nat, maxDepth: nat, cutoff: nat)
    requires b < |blocks| && blocks[b].0 < blocks[b].1 && DepthsMatch(info, blocks[b].0, blocks[b].1, d)
    requires front == head + VebOfBlocks(info, blocks[..b], d, maxDepth)
    requires cutoff == BlockCutoff(info, blocks[b], d, maxDepth) && d <= cutoff <= maxDepth
    requires x == front + (Truncated(blocks[b].0, blocks[b].1, d, maxDepth) + Flatten(blocks[b + 1..], d, maxDepth)) + post
    requires Truncated(blocks[b].0, blocks[b].1, d, maxDepth) == Truncated(blocks[b].0, blocks[b].1, d, cutoff)
    requires |front| + |Truncated(blocks[b].0, blocks[b].1, d, maxDepth)| <= |x|
    requires y == x[..|front|] + Veb(info, blocks[b].0, blocks[b].1, d, cutoff)
      + x[|front| + |Truncated(blocks[b].0, blocks[b].1, d, maxDepth)|..]
    ensures |head + VebOfBlocks(info, blocks[..b + 1], d, maxDepth)| == |front| + |Truncated(blocks[b].0, blocks[b].1, d, maxDepth)|
    ensures y == head + VebOfBlocks(info, blocks[..b + 1], d, maxDepth) + Flatten(blocks[b + 1..], d, maxDepth) + post
  {
    var tb := Truncated(blocks[b].0, blocks[b].1, d, maxDepth);
    var vebBlock := Veb(info, blocks[b].0, blocks[b].1, d, cutoff);
    ReplaceWindow(x, y, front, tb, vebBlock, Flatten(blocks[b + 1..], d, maxDepth), post);
    VebLength(info, blocks[b].0, blocks[b].1, d, cutoff);
    FrontStep(front, head, info, blocks, b, d, maxDepth, cutoff);
  }

  /** After the partition by depth, the window [start, end) holds the top
      part (the subtree cut at the pivot) followed by the bottom subtrees. */
  lemma PartitionWindow(x: seq<nat>, a0: seq<nat>, start: nat, end: nat, topSize: nat, info: seq<TraversalInfo>,
    s: nat, e: nat, d: nat, maxDepth: nat, pivot: nat)
    requires |x| == |a0| && start <= end <= |x|
    requires x[..start] == a0[..start] && x[end..] == a0[end..]
    requires a0[start..end] == Truncated(s, e, d, maxDepth)
    requires x[start..end] == Shallow(a0[start..end], info, pivot) + Deep(a0[start..end], info, pivot)
    requires topSize == |Shallow(a0[start..end], info, pivot)|
    requires DepthsMatch(info, s, e, d) && d <= pivot < maxDepth
    ensures topSize == |Truncated(s, e, d, pivot)| && start + topSize <= end
    ensures x == a0[..start] + (Truncated(s, e, d, pivot) + Flatten(Blocks(s, e, d, pivot), pivot + 1, maxDepth)) + a0[end..]
    ensures x[start..start + topSize] == Truncated(s, e, d, pivot)
    ensures ValidBlocks(info, Blocks(s, e, d, pivot), pivot + 1)
  {
    ShallowOfTruncated(info, s, e, d, maxDepth, pivot);
    DeepOfTruncated(info, s, e, d, maxDepth, pivot);
    BlocksAreSubtrees(info, s, e, d, pivot);
    assert x == x[..start] + x[start..end] + x[end..];
    var top := Truncated(s, e, d, pivot);
    var bottom := Flatten(Blocks(s, e, d, pivot), pivot + 1, maxDepth);
    WindowOf(x, a0[..start], top, bottom, a0[end..]);
  }

  /** The laid-out top part followed by the laid-out bottom subtrees is the layout of the whole. */
  lemma VebAssembled(y: seq<nat>, head: seq<nat>, pre: seq<nat>, post: seq<nat>, info: seq<TraversalInfo>,
    s: nat, e: nat, d: nat, maxDepth: nat, pivot: nat)
    requires d < maxDepth && pivot == Pivot(d, maxDepth)
    requires head == pre + Veb(info, s, e, d, pivot)
    requires y == head + VebOfBlocks(info, Blocks(s, e, d, pivot), pivot + 1, maxDepth) + post
    ensures y == pre + Veb(info, s, e, d, maxDepth) + post
  {
    VebUnfold(info, s, e, d, maxDepth);
    VebSplitUnfold(info, s, e, d, maxDepth, pivot);
    JoinMiddle(y, pre, Veb(info, s, e, d, pivot), VebOfBlocks(info, Blocks(s, e, d, pivot), pivot + 1, maxDepth),
      Veb(info, s, e, d, maxDepth), post);
  }

  /** Find the end of the bottom subtree that starts at idxs[i]: the scan
      stops at the next entry at the subtree's root depth, and records the
      deepest depth it passed. The listing of the subtree, tb, is ghost. */
  method ScanBlock(idxs: array<nat>, info: seq<TraversalInfo>, i: nat, end: nat, bottom: nat, ghost tb: seq<nat>)
    returns (j: nat, subtreeMaxDepth: nat)
    requires i < end <= idxs.Length && |tb| >= 1 && i + |tb| <= end
    requires idxs[i..i + |tb|] == tb && forall k :: 0 <= k < |tb| ==> tb[k] < |info|
    requires DepthAt(info, tb[0]) == bottom
    requires forall k :: 1 <= k < |tb| ==> DepthAt(info, tb[k]) > bottom
    requires i + |tb| < end ==> idxs[i + |tb|] < |info| && DepthAt(info, idxs[i + |tb|]) == bottom
    ensures j == i + |tb|
    ensures subtreeMaxDepth == DeepestUpTo(info, tb, |tb|)
  {
    j := i + 1;
    subtreeMaxDepth := info[idxs[i]].depth;
    while j < end && info[idxs[j]].depth != bottom
      invariant i + 1 <= j <= i + |tb|
      invariant j < i + |tb| ==> idxs[j] == tb[j - i]
      invariant subtreeMaxDepth == DeepestUpTo(info, tb, j - i)
      decreases end - j
    {
      assert idxs[j] == tb[j - i];
      assert info[idxs[j]].depth > bottom;
      if info[idxs[j]].depth > subtreeMaxDepth {
        subtreeMaxDepth := info[idxs[j]].depth;
      }
      j := j + 1;
    }
  }

  /** Reorder idxs[start..end], which holds the preorder listing of the
      implicit subtree over [s, e) rooted at depth minDepth and cut at
      maxDepth, into van Emde Boas order. The run-time assertions of the
      recursion are proved to hold. */
  method VebOrderRecursion(idxs: array<nat>, tmp: array<nat>, info: seq<TraversalInfo>,
    start: nat, end: nat, minDepth: nat, maxDepth: nat, ghost s: nat, ghost e: nat)
    requires idxs != tmp
    requires start <= end <= idxs.Length && end <= tmp.Length
    requires s < e && minDepth <= maxDepth && DepthsMatch(info, s, e, minDepth)
    requires idxs[start..end] == Truncated(s, e, minDepth, maxDepth)
    modifies idxs, tmp
    ensures idxs[..] == old(idxs[..start]) + Veb(info, s, e, minDepth, maxDepth) + old(idxs[end..])
    decreases maxDepth - minDepth, 2
  {
    ghost var a0 := idxs[..];
    ghost var pre, post := a0[..start], a0[end..];
    var n := end - start;
    if minDepth == maxDepth {
      TruncatedAtRoot(s, e, minDepth);
      assert n == 1;
      Reassemble(a0, a0, start, end);
      return;
    }

    var pivotDepth := minDepth + (maxDepth - minDepth) / 2;
    assert pivotDepth == Pivot(minDepth, maxDepth);
    ghost var head := pre + Veb(info, s, e, minDepth, pivotDepth);
    var topSize := OrderTopSubtree(idxs, tmp, info, start, end, minDepth, maxDepth, pivotDepth, s, e, pre, post);

    // find and recurse on bottom subtrees
    OrderBottomSubtrees(idxs, tmp, info, start + topSize, end, pivotDepth + 1, maxDepth,
      Blocks(s, e, minDepth, pivotDepth), head, post);
    VebAssembled(idxs[..], head, pre, post, info, s, e, minDepth, maxDepth, pivotDepth);
  }

  /** After the top part has been laid out in place. */
  lemma TopDone(x: seq<nat>, y: seq<nat>, pre: seq<nat>, post: seq<nat>, info: seq<TraversalInfo>,
    s: nat, e: nat, d: nat, maxDepth: nat, pivot: nat)
    requires DepthsMatch(info, s, e, d) && d <= pivot < maxDepth
    requires x == pre + (Truncated(s, e, d, pivot) + Flatten(Blocks(s, e, d, pivot), pivot + 1, maxDepth)) + post
    requires |pre| + |Truncated(s, e, d, pivot)| <= |x|
    requires y == x[..|pre|] + Veb(info, s, e, d, pivot) + x[|pre| + |Truncated(s, e, d, pivot)|..]
    ensures |pre + Veb(info, s, e, d, pivot)| == |pre| + |Truncated(s, e, d, pivot)|
    ensures y == pre + Veb(info, s, e, d, pivot) + Flatten(Blocks(s, e, d, pivot), pivot + 1, maxDepth) + post
  {
    var top, v := Truncated(s, e, d, pivot), Veb(info, s, e, d, pivot);
    var bottom := Flatten(Blocks(s, e, d, pivot), pivot + 1, maxDepth);
    VebLength(info, s, e, d, pivot);
    ReplaceWindow(x, y, pre, top, v, bottom, post);
  }

  /** Partition a window holding a truncated subtree listing by depth: the
      top of the subtree (down to pivot) comes first, in preorder, and the
      bottom subtrees follow one after another, each in preorder. */
  method PartitionTop(idxs: array<nat>, tmp: array<nat>, info: seq<TraversalInfo>,
    start: nat, end: nat, minDepth: nat, maxDepth: nat, pivotDepth: nat, ghost s: nat, ghost e: nat)
    returns (topSize: nat)
    requires idxs != tmp
    requires start <= end <= idxs.Length && end <= tmp.Length
    requires minDepth <= pivotDepth < maxDepth && DepthsMatch(info, s, e, minDepth)
    requires idxs[start..end] == Truncated(s, e, minDepth, maxDepth)
    modifies idxs, tmp
    ensures topSize == |Truncated(s, e, minDepth, pivotDepth)| && start + topSize <= end
    ensures idxs[..] == old(idxs[..start])
      + (Truncated(s, e, minDepth, pivotDepth) + Flatten(Blocks(s, e, minDepth, pivotDepth), pivotDepth + 1, maxDepth))
      + old(idxs[end..])
    ensures idxs[start..start + topSize] == Truncated(s, e, minDepth, pivotDepth)
    ensures ValidBlocks(info, Blocks(s, e, minDepth, pivotDepth), pivotDepth + 1)
  {
    ghost var a0 := idxs[..];
    WindowHasInfo(a0, start, end, info, s, e, minDepth, maxDepth);
    topSize := StablePartitionByDepth(idxs, tmp, info, pivotDepth, start, end);
    PartitionWindow(idxs[..], a0, start, end, topSize, info, s, e, minDepth, maxDepth, pivotDepth);
  }

  /** The first half of a level of the recursion: partition idxs[start..end]
      by depth around the pivot, then lay out the top part (the subtree cut
      at the pivot) recursively. The bottom subtrees are left in preorder,
      one after the other, behind it. */
  method OrderTopSubtree(idxs: array<nat>, tmp: array<nat>, info: seq<TraversalInfo>,
    start: nat, end: nat, minDepth: nat, maxDepth: nat, pivotDepth: nat, ghost s: nat, ghost e: nat,
    ghost pre: seq<nat>, ghost post: seq<nat>)
    returns (topSize: nat)
    requires idxs != tmp
    requires start <= end <= idxs.Length && end <= tmp.Length
    requires s < e && minDepth <= pivotDepth < maxDepth && DepthsMatch(info, s, e, minDepth)
    requires idxs[start..end] == Truncated(s, e, minDepth, maxDepth)
    requires pre == idxs[..start] && post == idxs[end..]
    modifies idxs, tmp
    ensures start + topSize <= end && start + topSize == |pre + Veb(info, s, e, minDepth, pivotDepth)|
    ensures ValidBlocks(info, Blocks(s, e, minDepth, pivotDepth), pivotDepth + 1)
    ensures idxs[..] == pre + Veb(info, s, e, minDepth, pivotDepth)
      + Flatten(Blocks(s, e, minDepth, pivotDepth), pivotDepth + 1, maxDepth) + post
    decreases maxDepth - minDepth, 1
  {
    topSize := PartitionTop(idxs, tmp, info, start, end, minDepth, maxDepth, pivotDepth, s, e);
    ghost var a1 := idxs[..];
    VebOrderRecursion(idxs, tmp, info, start, start + topSize, minDepth, pivotDepth, s, e);
    TopDone(a1, idxs[..], pre, post, info, s, e, minDepth, maxDepth, pivotDepth);
  }

  /** The bottom-subtree loop of the recursion: idxs[start..end] holds the
      bottom subtrees `blocks` (roots at depth bottomSubtreeDepth) one after
      the other, each in preorder; each is found by scanning and laid out
      recursively. */
  method OrderBottomSubtrees(idxs: array<nat>, tmp: array<nat>, info: seq<TraversalInfo>,
    start: nat, end: nat, bottomSubtreeDepth: nat, maxDepth: nat,
    ghost blocks: seq<(nat, nat)>, ghost head: seq<nat>, ghost post: seq<nat>)
    requires idxs != tmp
    requires end <= idxs.Length && end <= tmp.Length
    requires ValidBlocks(info, blocks, bottomSubtreeDepth) && bottomSubtreeDepth <= maxDepth
    requires idxs[..] == head + Flatten(blocks, bottomSubtreeDepth, maxDepth) + post
    requires start == |head| && end == idxs.Length - |post|
    modifies idxs, tmp
    ensures idxs[..] == head + VebOfBlocks(info, blocks, bottomSubtreeDepth, maxDepth) + post
    decreases maxDepth - bottomSubtreeDepth + 1, 1
  {
    var i := start;
    ghost var b := 0;
    ghost var front := head;
    assert blocks[..0] == [] && blocks[0..] == blocks;
    while i < end
      invariant 0 <= b <= |blocks|
      invariant front == head + VebOfBlocks(info, blocks[..b], bottomSubtreeDepth, maxDepth)
      invariant i == |front| <= end
      invariant idxs[..] == front + Flatten(blocks[b..], bottomSubtreeDepth, maxDepth) + post
      decreases end - i
    {
      i := OrderNextBlock(idxs, tmp, info, i, end, bottomSubtreeDepth, maxDepth, blocks, b, head, front, post);
      front := head + VebOfBlocks(info, blocks[..b + 1], bottomSubtreeDepth, maxDepth);
      b := b + 1;
    }
    FlattenDone(info, blocks, b, bottomSubtreeDepth, maxDepth);
    assert blocks[..b] == blocks && blocks[b..] == [];
    assert idxs[..] == front + [] + post;
  }

  /** One round of the bottom-subtree loop: the block starting at idxs[i] is
      delimited by scanning, laid out recursively, and the scan moves past it. */
  method OrderNextBlock(idxs: array<nat>, tmp: array<nat>, info: seq<TraversalInfo>,
    i: nat, end: nat, bottomSubtreeDepth: nat, maxDepth: nat,
    ghost blocks: seq<(nat, nat)>, ghost b: nat, ghost head: seq<nat>, ghost front: seq<nat>, ghost post: seq<nat>)
    returns (j: nat)
    requires idxs != tmp
    requires end <= idxs.Length && end <= tmp.Length
    requires b <= |blocks| && ValidBlocks(info, blocks, bottomSubtreeDepth) && bottomSubtreeDepth <= maxDepth
    requires front == head + VebOfBlocks(info, blocks[..b], bottomSubtreeDepth, maxDepth)
    requires i == |front| < end == idxs.Length - |post|
    requires idxs[..] == front + Flatten(blocks[b..], bottomSubtreeDepth, maxDepth) + post
    modifies idxs, tmp
    ensures b < |blocks| && i < j <= end
    ensures j == |head + VebOfBlocks(info, blocks[..b + 1], bottomSubtreeDepth, maxDepth)|
    ensures idxs[..] == head + VebOfBlocks(info, blocks[..b + 1], bottomSubtreeDepth, maxDepth)
      + Flatten(blocks[b + 1..], bottomSubtreeDepth, maxDepth) + post
    decreases maxDepth - bottomSubtreeDepth + 1, 0
  {
    BlockWindow(idxs[..], front, post, info, blocks, b, bottomSubtreeDepth, maxDepth);
    ghost var blk := blocks[b];
    ghost var tb := Truncated(blk.0, blk.1, bottomSubtreeDepth, maxDepth);
    assert info[idxs[i]].depth == bottomSubtreeDepth;
    var subtreeMaxDepth;
    j, subtreeMaxDepth := ScanBlock(idxs, info, i, end, bottomSubtreeDepth, tb);
    ghost var a2 := idxs[..];
    VebOrderRecursion(idxs, tmp, info, i, j, bottomSubtreeDepth, subtreeMaxDepth, blk.0, blk.1);
    BlockDone(a2, idxs[..], front, head, post, info, blocks, b, bottomSubtreeDepth, maxDepth, subtreeMaxDepth);
  }
}
