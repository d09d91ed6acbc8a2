/** Reordering of the index array into van Emde Boas order: stable
    partitions by depth split a (depth-truncated) subtree into its top half
    and the bottom subtrees hanging below it, recursively. The index array
    starts out in preorder, and each recursive call receives the preorder
    listing of a truncated subtree; under that precondition the run-time
    assertions of the recursion are proved to hold. */
module VebLayout {
  import opened Intervals
  import opened ImplicitTree

  /** Depth recorded for position x (0 for a position without a record). */
  function DepthAt(info: seq<TraversalInfo>, x: nat): nat
  {
    if x < |info| then info[x].depth else 0
  }

  /** The entries of xs whose depth is at most pivot, in their original order. */
  function Shallow(xs: seq<nat>, info: seq<TraversalInfo>, pivot: nat): seq<nat>
  {
    if xs == [] then []
    else
      var x := xs[|xs| - 1];
      Shallow(xs[..|xs| - 1], info, pivot) + (if DepthAt(info, x) <= pivot then [x] else [])
  }

  /** The entries of xs whose depth exceeds pivot, in their original order. */
  function Deep(xs: seq<nat>, info: seq<TraversalInfo>, pivot: nat): seq<nat>
  {
    if xs == [] then []
    else
      var x := xs[|xs| - 1];
      Deep(xs[..|xs| - 1], info, pivot) + (if DepthAt(info, x) > pivot then [x] else [])
  }

  lemma {:induction false} FilterAppend(a: seq<nat>, b: seq<nat>, info: seq<TraversalInfo>, pivot: nat)
    ensures Shallow(a + b, info, pivot) == Shallow(a, info, pivot) + Shallow(b, info, pivot)
    ensures Deep(a + b, info, pivot) == Deep(a, info, pivot) + Deep(b, info, pivot)
    decreases |b|
  {
    if b == [] {
      assert a + b == a;
    } else {
      var b' := b[..|b| - 1];
      assert (a + b)[..|a + b| - 1] == a + b';
      FilterAppend(a, b', info, pivot);
    }
  }

  /** One step of the filters: the last entry goes to exactly one group. */
  lemma FilterUnfold(xs: seq<nat>, info: seq<TraversalInfo>, pivot: nat)
    requires xs != []
    ensures Shallow(xs, info, pivot) == Shallow(xs[..|xs| - 1], info, pivot) +
      (if DepthAt(info, xs[|xs| - 1]) <= pivot then [xs[|xs| - 1]] else [])
    ensures Deep(xs, info, pivot) == Deep(xs[..|xs| - 1], info, pivot) +
      (if DepthAt(info, xs[|xs| - 1]) > pivot then [xs[|xs| - 1]] else [])
  {
  }

  lemma MultisetLast(xs: seq<nat>)
    requires xs != []
    ensures multiset(xs) == multiset(xs[..|xs| - 1]) + multiset{xs[|xs| - 1]}
  {
    assert xs == xs[..|xs| - 1] + [xs[|xs| - 1]];
  }

  /** Appending x to one of two groups that partition m partitions m + {x}. */
  lemma SplitStep(m: multiset<nat>, n: nat, x: nat, sh: seq<nat>, dp: seq<nat>, sh2: seq<nat>, dp2: seq<nat>)
    requires |sh| + |dp| == n && multiset(sh) + multiset(dp) == m
    requires (sh2 == sh + [x] && dp2 == dp) || (sh2 == sh && dp2 == dp + [x])
    ensures |sh2| + |dp2| == n + 1
    ensures multiset(sh2) + multiset(dp2) == m + multiset{x}
  {
  }

  /** The two groups together hold exactly the entries of xs. */
  lemma {:induction false} FilterSplit(xs: seq<nat>, info: seq<TraversalInfo>, pivot: nat)
    ensures multiset(Shallow(xs, info, pivot)) + multiset(Deep(xs, info, pivot)) == multiset(xs)
    ensures |Shallow(xs, info, pivot)| + |Deep(xs, info, pivot)| == |xs|
  {
    if xs != [] {
      var xs' := xs[..|xs| - 1];
      FilterSplit(xs', info, pivot);
      FilterUnfold(xs, info, pivot);
      SplitStep(multiset(xs'), |xs'|, xs[|xs| - 1], Shallow(xs', info, pivot), Deep(xs', info, pivot),
        Shallow(xs, info, pivot), Deep(xs, info, pivot));
      MultisetLast(xs);
    }
  }

  /** The shallow entries among the first n of xs, in order. */
  function ShallowUpTo(xs: seq<nat>, info: seq<TraversalInfo>, pivot: nat, n: nat): seq<nat>
    requires n <= |xs|
  {
    if n == 0 then []
    else ShallowUpTo(xs, info, pivot, n - 1) + (if DepthAt(info, xs[n - 1]) <= pivot then [xs[n - 1]] else [])
  }

  /** The deep entries among the first n of xs, in order. */
  function DeepUpTo(xs: seq<nat>, info: seq<TraversalInfo>, pivot: nat, n: nat): seq<nat>
    requires n <= |xs|
  {
    if n == 0 then []
    else DeepUpTo(xs, info, pivot, n - 1) + (if DepthAt(info, xs[n - 1]) > pivot then [xs[n - 1]] else [])
  }

  /** Scanning the first n entries yields the two groups of the prefix xs[..n]. */
  lemma {:induction false} UpToIsFilter(xs: seq<nat>, info: seq<TraversalInfo>, pivot: nat, n: nat)
    requires n <= |xs|
    ensures ShallowUpTo(xs, info, pivot, n) == Shallow(xs[..n], info, pivot)
    ensures DeepUpTo(xs, info, pivot, n) == Deep(xs[..n], info, pivot)
  {
    if n > 0 {
      UpToIsFilter(xs, info, pivot, n - 1);
      assert xs[..n][..n - 1] == xs[..n - 1];
    }
  }

  lemma {:induction false} UpToLength(xs: seq<nat>, info: seq<TraversalInfo>, pivot: nat, n: nat)
    requires n <= |xs|
    ensures |ShallowUpTo(xs, info, pivot, n)| + |DeepUpTo(xs, info, pivot, n)| == n
  {
    if n > 0 {
      UpToLength(xs, info, pivot, n - 1);
    }
  }

  /** The groups of a shorter scan are no longer than those of a longer one. */
  lemma {:induction false} UpToMonotone(xs: seq<nat>, info: seq<TraversalInfo>, pivot: nat, n: nat, m: nat)
    requires n <= m <= |xs|
    ensures |ShallowUpTo(xs, info, pivot, n)| <= |ShallowUpTo(xs, info, pivot, m)|
    ensures |DeepUpTo(xs, info, pivot, n)| <= |DeepUpTo(xs, info, pivot, m)|
    decreases m - n
  {
    if n < m {
      UpToMonotone(xs, info, pivot, n, m - 1);
    }
  }

  /** Copy tmp[start..end] over idxs[start..end]. */
  method CopySlice(idxs: array<nat>, tmp: array<nat>, start: nat, end: nat)
    requires idxs != tmp
    requires start <= end <= idxs.Length && end <= tmp.Length
    modifies idxs
    ensures idxs[start..end] == tmp[start..end]
    ensures forall k :: 0 <= k < idxs.Length && !(start <= k < end) ==> idxs[k] == old(idxs[k])
  {
    forall k | start <= k < end {
      idxs[k] := tmp[k];
    }
  }

  /** A slice that agrees pointwise with sh and then dp is their concatenation. */
  lemma JoinPointwise(t: seq<nat>, start: nat, mid: nat, end: nat, sh: seq<nat>, dp: seq<nat>)
    requires start <= mid <= end <= |t| && |sh| == mid - start && |dp| == end - mid
    requires forall k :: start <= k < mid ==> t[k] == sh[k - start]
    requires forall k :: mid <= k < end ==> t[k] == dp[k - mid]
    ensures t[start..end] == sh + dp
  {
    forall j | 0 <= j < end - start ensures t[start..end][j] == (sh + dp)[j] {
      assert t[start..end][j] == t[start + j];
    }
  }

  /** Number of entries of idxs[start..end] at depth at most pivot. */
  method CountShallow(idxs: array<nat>, info: seq<TraversalInfo>, pivot: nat, start: nat, end: nat)
    returns (leftSize: nat)
    requires start <= end <= idxs.Length
    requires forall k :: start <= k < end ==> idxs[k] < |info|
    ensures leftSize == |ShallowUpTo(idxs[start..end], info, pivot, end - start)|
  {
    ghost var xs := idxs[start..end];
    leftSize := 0;
    for i := start to end
      invariant leftSize == |ShallowUpTo(xs, info, pivot, i - start)|
    {
      assert xs[i - start] == idxs[i];
      if info[idxs[i]].depth <= pivot {
        leftSize := leftSize + 1;
      }
    }
  }

  /** The first i - start entries of the window have been distributed: the
      shallow ones to t[start..l] and the deep ones to t[start + leftSize..r],
      each group in its original order. */
  ghost predicate Distributed(t: seq<nat>, xs: seq<nat>, info: seq<TraversalInfo>, pivot: nat,
    start: nat, end: nat, leftSize: nat, i: nat, l: nat, r: nat)
    requires start <= i <= end <= |t| && |xs| == end - start
  {
    l == start + |ShallowUpTo(xs, info, pivot, i - start)| &&
    r == start + leftSize + |DeepUpTo(xs, info, pivot, i - start)| &&
    l <= start + leftSize <= r <= end &&
    (forall k :: start <= k < l ==> t[k] == ShallowUpTo(xs, info, pivot, i - start)[k - start]) &&
    (forall k :: start + leftSize <= k < r ==> t[k] == DeepUpTo(xs, info, pivot, i - start)[k - start - leftSize])
  }

  /** A shallow entry goes to the next free slot of the first group. */
  lemma ShallowStep(t: seq<nat>, xs: seq<nat>, info: seq<TraversalInfo>, pivot: nat,
    start: nat, end: nat, leftSize: nat, i: nat, l: nat, r: nat)
    requires start <= i < end <= |t| && |xs| == end - start && DepthAt(info, xs[i - start]) <= pivot
    requires leftSize == |ShallowUpTo(xs, info, pivot, end - start)|
    requires Distributed(t, xs, info, pivot, start, end, leftSize, i, l, r)
    ensures l < start + leftSize
    ensures Distributed(t[l := xs[i - start]], xs, info, pivot, start, end, leftSize, i + 1, l + 1, r)
  {
    UpToLength(xs, info, pivot, end - start);
    UpToMonotone(xs, info, pivot, i + 1 - start, end - start);
  }

  /** A deep entry goes to the next free slot of the second group. */
  lemma DeepStep(t: seq<nat>, xs: seq<nat>, info: seq<TraversalInfo>, pivot: nat,
    start: nat, end: nat, leftSize: nat, i: nat, l: nat, r: nat)
    requires start <= i < end <= |t| && |xs| == end - start && DepthAt(info, xs[i - start]) > pivot
    requires leftSize == |ShallowUpTo(xs, info, pivot, end - start)|
    requires Distributed(t, xs, info, pivot, start, end, leftSize, i, l, r)
    ensures r < end
    ensures Distributed(t[r := xs[i - start]], xs, info, pivot, start, end, leftSize, i + 1, l, r + 1)
  {
    UpToLength(xs, info, pivot, end - start);
    UpToMonotone(xs, info, pivot, i + 1 - start, end - start);
  }

  /** One step of the distribution: entry x, the i-th of the window, goes to
      the next free slot of its group. */
  method DistributeOne(tmp: array<nat>, x: nat, info: seq<TraversalInfo>, pivot: nat,
    start: nat, end: nat, leftSize: nat, ghost xs: seq<nat>, i: nat, l: nat, r: nat)
    returns (l': nat, r': nat)
    requires start <= i < end <= tmp.Length && |xs| == end - start && x == xs[i - start] && x < |info|
    requires leftSize == |ShallowUpTo(xs, info, pivot, end - start)|
    requires Distributed(tmp[..], xs, info, pivot, start, end, leftSize, i, l, r)
    modifies tmp
    ensures Distributed(tmp[..], xs, info, pivot, start, end, leftSize, i + 1, l', r')
    ensures tmp[..start] == old(tmp[..start]) && tmp[end..] == old(tmp[end..])
  {
    assert DepthAt(info, x) == info[x].depth;
    if info[x].depth <= pivot {
      ShallowStep(tmp[..], xs, info, pivot, start, end, leftSize, i, l, r);
      tmp[l] := x;
      l', r' := l + 1, r;
    } else {
      DeepStep(tmp[..], xs, info, pivot, start, end, leftSize, i, l, r);
      tmp[r] := x;
      l', r' := l, r + 1;
    }
    assert tmp[..] == old(tmp[..])[if l' > l then l else r := x];
  }

  /** Write the shallow entries of idxs[start..end] to tmp[start..start + leftSize]
      and the deep ones after them, each group in its original order. */
  method Distribute(
    idxs: array<nat>, tmp: array<nat>, info: seq<TraversalInfo>, pivot: nat, start: nat, end: nat, leftSize: nat,
    ghost xs: seq<nat>)
    requires idxs != tmp
    requires start <= end <= idxs.Length && end <= tmp.Length
    requires |xs| == end - start && forall k :: start <= k < end ==> idxs[k] == xs[k - start] < |info|
    requires leftSize == |ShallowUpTo(xs, info, pivot, end - start)|
    modifies tmp
    ensures tmp[start..end] == ShallowUpTo(xs, info, pivot, end - start) + DeepUpTo(xs, info, pivot, end - start)
    ensures tmp[..start] == old(tmp[..start]) && tmp[end..] == old(tmp[end..])
  {
    ghost var n := |xs|;
    UpToLength(xs, info, pivot, n);
    var l: nat := start;
    var r: nat := start + leftSize;
    for i := start to end
      invariant Distributed(tmp[..], xs, info, pivot, start, end, leftSize, i, l, r)
      invariant tmp[..start] == old(tmp[..start]) && tmp[end..] == old(tmp[end..])
    {
      var x := idxs[i];
      assert x == xs[i - start];
      l, r := DistributeOne(tmp, x, info, pivot, start, end, leftSize, xs, i, l, r);
    }
    JoinPointwise(tmp[..], start, l, end, ShallowUpTo(xs, info, pivot, n), DeepUpTo(xs, info, pivot, n));
  }

  /** Stable partition of idxs[start..end]: entries at depth <= pivot first,
      then the deeper ones, each group in its original order. Returns the
      size of the first group. */
  method StablePartitionByDepth(
    idxs: array<nat>, tmp: array<nat>, info: seq<TraversalInfo>, pivot: nat, start: nat, end: nat)
    returns (leftSize: nat)
    requires idxs != tmp
    requires start <= end <= idxs.Length && end <= tmp.Length
    requires forall k :: start <= k < end ==> idxs[k] < |info|
    modifies idxs, tmp
    ensures leftSize == |Shallow(old(idxs[start..end]), info, pivot)|
    ensures idxs[start..end] == Shallow(old(idxs[start..end]), info, pivot) + Deep(old(idxs[start..end]), info, pivot)
    ensures idxs[..start] == old(idxs[..start]) && idxs[end..] == old(idxs[end..])
  {
    ghost var xs := idxs[start..end];
    UpToIsFilter(xs, info, pivot, |xs|);
    assert xs[..|xs|] == xs;
    leftSize := CountShallow(idxs, info, pivot, start, end);
    assert forall k :: start <= k < end ==> idxs[k] == xs[k - start];
    Distribute(idxs, tmp, info, pivot, start, end, leftSize, xs);
    CopySlice(idxs, tmp, start, end);
  }

  /** Positions of the subtree over [s, e) (its root at depth d) that lie at
      depth at most maxDepth, in preorder. */
  function Truncated(s: nat, e: nat, d: nat, maxDepth: nat): (t: seq<nat>)
    ensures s < e && d <= maxDepth ==> |t| > 0 && t[0] == Mid(s, e)
    decreases e - s
  {
    if e <= s || maxDepth < d then []
    else
      var m := Mid(s, e);
      [m] + Truncated(s, m, d + 1, maxDepth) + Truncated(m + 1, e, d + 1, maxDepth)
  }

  lemma TruncatedUnfold(s: nat, e: nat, d: nat, maxDepth: nat)
    requires s < e && d <= maxDepth
    ensures Truncated(s, e, d, maxDepth) ==
      [Mid(s, e)] + Truncated(s, Mid(s, e), d + 1, maxDepth) + Truncated(Mid(s, e) + 1, e, d + 1, maxDepth)
  {
  }

  /** A truncated subtree lists positions of its own range only. */
  lemma {:induction false} TruncatedRange(s: nat, e: nat, d: nat, maxDepth: nat)
    ensures forall k :: 0 <= k < |Truncated(s, e, d, maxDepth)| ==> s <= Truncated(s, e, d, maxDepth)[k] < e
    decreases e - s
  {
    if s < e && d <= maxDepth {
      var m := Mid(s, e);
      TruncatedRange(s, m, d + 1, maxDepth);
      TruncatedRange(m + 1, e, d + 1, maxDepth);
      var left, right := Truncated(s, m, d + 1, maxDepth), Truncated(m + 1, e, d + 1, maxDepth);
      var t := Truncated(s, e, d, maxDepth);
      TruncatedUnfold(s, e, d, maxDepth);
      assert t == [m] + left + right;
      forall k | 0 <= k < |t| ensures s <= t[k] < e {
        IndexRootThen(m, left, right, k);
        if 0 < k <= |left| {
          assert s <= left[k - 1] < m;
        } else if |left| < k {
          assert m + 1 <= right[k - 1 - |left|] < e;
        }
      }
    }
  }

  /** info records, for every position of [s, e), its depth in the subtree over [s, e) rooted at depth d. */
  predicate DepthsMatch(info: seq<TraversalInfo>, s: nat, e: nat, d: nat)
  {
    e <= |info| && forall x {:trigger Depth(s, e, d, x)} :: s <= x < e ==> DepthAt(info, x) == Depth(s, e, d, x)
  }

  /** The root of a subtree is at the subtree's root depth. */
  lemma RootDepth(info: seq<TraversalInfo>, s: nat, e: nat, d: nat)
    requires s < e && DepthsMatch(info, s, e, d)
    ensures DepthAt(info, Mid(s, e)) == d
  {
    assert Depth(s, e, d, Mid(s, e)) == d;
  }

  lemma DepthsMatchHalves(info: seq<TraversalInfo>, s: nat, e: nat, d: nat)
    requires s < e && DepthsMatch(info, s, e, d)
    ensures DepthsMatch(info, s, Mid(s, e), d + 1)
    ensures DepthsMatch(info, Mid(s, e) + 1, e, d + 1)
    ensures DepthAt(info, Mid(s, e)) == d
  {
    var m := Mid(s, e);
    assert Depth(s, e, d, m) == d;
    forall x | s <= x < m ensures DepthAt(info, x) == Depth(s, m, d + 1, x) {
      assert Depth(s, e, d, x) == Depth(s, m, d + 1, x);
    }
    forall x | m < x < e ensures DepthAt(info, x) == Depth(m + 1, e, d + 1, x) {
      assert Depth(s, e, d, x) == Depth(m + 1, e, d + 1, x);
    }
  }

  /** Depths in a truncated subtree lie between its root depth and the
      cut-off, and only the root (listed first) is at the root depth. */
  lemma {:induction false} TruncatedDepths(info: seq<TraversalInfo>, s: nat, e: nat, d: nat, maxDepth: nat)
    requires DepthsMatch(info, s, e, d)
    ensures forall k :: 0 <= k < |Truncated(s, e, d, maxDepth)| ==>
      d <= DepthAt(info, Truncated(s, e, d, maxDepth)[k]) <= maxDepth
    ensures forall k :: 0 < k < |Truncated(s, e, d, maxDepth)| ==>
      d < DepthAt(info, Truncated(s, e, d, maxDepth)[k])
    decreases e - s
  {
    if s < e && d <= maxDepth {
      var m := Mid(s, e);
      DepthsMatchHalves(info, s, e, d);
      TruncatedDepths(info, s, m, d + 1, maxDepth);
      TruncatedDepths(info, m + 1, e, d + 1, maxDepth);
      var left, right := Truncated(s, m, d + 1, maxDepth), Truncated(m + 1, e, d + 1, maxDepth);
      TruncatedUnfold(s, e, d, maxDepth);
      forall k | 0 < k < |Truncated(s, e, d, maxDepth)|
        ensures d < DepthAt(info, Truncated(s, e, d, maxDepth)[k]) <= maxDepth
      {
        IndexRootThen(m, left, right, k);
      }
    }
  }

  /** When no position of the range is deeper than maxDepth, the truncated
      subtree is the whole preorder listing. */
  lemma {:induction false} TruncatedFull(info: seq<TraversalInfo>, s: nat, e: nat, d: nat, maxDepth: nat)
    requires DepthsMatch(info, s, e, d)
    requires forall x :: s <= x < e ==> DepthAt(info, x) <= maxDepth
    ensures Truncated(s, e, d, maxDepth) == Preorder(s, e)
    decreases e - s
  {
    if s < e {
      var m := Mid(s, e);
      DepthsMatchHalves(info, s, e, d);
      TruncatedFull(info, s, m, d + 1, maxDepth);
      TruncatedFull(info, m + 1, e, d + 1, maxDepth);
    }
  }

  /** A depth bound on a listing [m] + left + right holds for each of its three parts. */
  lemma BoundParts(t: seq<nat>, m: nat, left: seq<nat>, right: seq<nat>, info: seq<TraversalInfo>, lower: nat)
    requires t == [m] + left + right
    requires forall k :: 0 <= k < |t| ==> DepthAt(info, t[k]) <= lower
    ensures DepthAt(info, m) <= lower
    ensures forall k :: 0 <= k < |left| ==> DepthAt(info, left[k]) <= lower
    ensures forall k :: 0 <= k < |right| ==> DepthAt(info, right[k]) <= lower
  {
    assert t[0] == m;
    forall k | 0 <= k < |left| ensures DepthAt(info, left[k]) <= lower {
      assert t[k + 1] == left[k];
    }
    forall k | 0 <= k < |right| ensures DepthAt(info, right[k]) <= lower {
      assert t[k + 1 + |left|] == right[k];
    }
  }

  /** A cut-off at or above every depth present can be lowered to any bound on them. */
  lemma {:induction false} TruncatedLower(info: seq<TraversalInfo>, s: nat, e: nat, d: nat, maxDepth: nat, lower: nat)
    requires DepthsMatch(info, s, e, d) && lower <= maxDepth
    requires forall k :: 0 <= k < |Truncated(s, e, d, maxDepth)| ==>
      DepthAt(info, Truncated(s, e, d, maxDepth)[k]) <= lower
    ensures Truncated(s, e, d, maxDepth) == Truncated(s, e, d, lower)
    decreases e - s
  {
    if s < e && d <= maxDepth {
      var m := Mid(s, e);
      DepthsMatchHalves(info, s, e, d);
      TruncatedUnfold(s, e, d, maxDepth);
      BoundParts(Truncated(s, e, d, maxDepth), m, Truncated(s, m, d + 1, maxDepth), Truncated(m + 1, e, d + 1, maxDepth), info, lower);
      TruncatedLower(info, s, m, d + 1, maxDepth, lower);
      TruncatedLower(info, m + 1, e, d + 1, maxDepth, lower);
      TruncatedUnfold(s, e, d, lower);
    }
  }

  lemma {:induction false} AllDeep(xs: seq<nat>, info: seq<TraversalInfo>, pivot: nat)
    requires forall k :: 0 <= k < |xs| ==> DepthAt(info, xs[k]) > pivot
    ensures Shallow(xs, info, pivot) == []
    ensures Deep(xs, info, pivot) == xs
  {
    if xs != [] {
      AllDeep(xs[..|xs| - 1], info, pivot);
      assert xs == xs[..|xs| - 1] + [xs[|xs| - 1]];
    }
  }

  lemma FilterSingle(m: nat, info: seq<TraversalInfo>, pivot: nat)
    ensures Shallow([m], info, pivot) == if DepthAt(info, m) <= pivot then [m] else []
    ensures Deep([m], info, pivot) == if DepthAt(info, m) > pivot then [m] else []
  {
    FilterUnfold([m], info, pivot);
    assert [m][..0] == [];
  }

  /** Filtering a root followed by its two subtree listings. */
  lemma FilterRootThen(m: nat, left: seq<nat>, right: seq<nat>, info: seq<TraversalInfo>, pivot: nat)
    ensures DepthAt(info, m) <= pivot ==>
      Shallow([m] + left + right, info, pivot) == [m] + Shallow(left, info, pivot) + Shallow(right, info, pivot)
    ensures DepthAt(info, m) <= pivot ==>
      Deep([m] + left + right, info, pivot) == Deep(left, info, pivot) + Deep(right, info, pivot)
  {
    FilterAppend([m] + left, right, info, pivot);
    FilterAppend([m], left, info, pivot);
    FilterSingle(m, info, pivot);
    if DepthAt(info, m) <= pivot {
      assert Deep([m], info, pivot) + Deep(left, info, pivot) == Deep(left, info, pivot);
    }
  }

  lemma ShallowJoin(t: seq<nat>, tp: seq<nat>, m: nat, left: seq<nat>, right: seq<nat>,
    leftp: seq<nat>, rightp: seq<nat>, info: seq<TraversalInfo>, pivot: nat)
    requires t == [m] + left + right && tp == [m] + leftp + rightp && DepthAt(info, m) <= pivot
    requires Shallow(left, info, pivot) == leftp && Shallow(right, info, pivot) == rightp
    ensures Shallow(t, info, pivot) == tp
  {
    FilterRootThen(m, left, right, info, pivot);
  }

  /** The shallow group of a truncated subtree whose root is not below the
      pivot joins those of its two halves. */
  lemma {:induction false} ShallowOfTopRoot(info: seq<TraversalInfo>, s: nat, e: nat, d: nat, maxDepth: nat, pivot: nat)
    requires s < e && d <= pivot <= maxDepth && DepthAt(info, Mid(s, e)) <= pivot
    requires Shallow(Truncated(s, Mid(s, e), d + 1, maxDepth), info, pivot) == Truncated(s, Mid(s, e), d + 1, pivot)
    requires Shallow(Truncated(Mid(s, e) + 1, e, d + 1, maxDepth), info, pivot) == Truncated(Mid(s, e) + 1, e, d + 1, pivot)
    ensures Shallow(Truncated(s, e, d, maxDepth), info, pivot) == Truncated(s, e, d, pivot)
  {
    var m := Mid(s, e);
    TruncatedUnfold(s, e, d, maxDepth);
    TruncatedUnfold(s, e, d, pivot);
    ShallowJoin(Truncated(s, e, d, maxDepth), Truncated(s, e, d, pivot), m,
      Truncated(s, m, d + 1, maxDepth), Truncated(m + 1, e, d + 1, maxDepth),
      Truncated(s, m, d + 1, pivot), Truncated(m + 1, e, d + 1, pivot), info, pivot);
  }

  /** A subtree rooted below the pivot has no shallow entries. */
  lemma {:induction false} ShallowBelowPivot(info: seq<TraversalInfo>, s: nat, e: nat, d: nat, maxDepth: nat, pivot: nat)
    requires DepthsMatch(info, s, e, d) && pivot < d
    ensures Shallow(Truncated(s, e, d, maxDepth), info, pivot) == []
    ensures Truncated(s, e, d, pivot) == []
  {
    TruncatedDepths(info, s, e, d, maxDepth);
    AllDeep(Truncated(s, e, d, maxDepth), info, pivot);
  }

  /** The shallow group of a truncated subtree is the subtree truncated at the pivot. */
  lemma {:induction false} ShallowOfTruncated(info: seq<TraversalInfo>, s: nat, e: nat, d: nat, maxDepth: nat, pivot: nat)
    requires DepthsMatch(info, s, e, d) && pivot <= maxDepth
    ensures Shallow(Truncated(s, e, d, maxDepth), info, pivot) == Truncated(s, e, d, pivot)
    decreases e - s
  {
    if s < e && d <= maxDepth {
      if pivot < d {
        ShallowBelowPivot(info, s, e, d, maxDepth, pivot);
      } else {
        var m := Mid(s, e);
        DepthsMatchHalves(info, s, e, d);
        ShallowOfTruncated(info, s, m, d + 1, maxDepth, pivot);
        ShallowOfTruncated(info, m + 1, e, d + 1, maxDepth, pivot);
        ShallowOfTopRoot(info, s, e, d, maxDepth, pivot);
      }
    }
  }

  /** Roots (as subranges) of the subtrees that hang just below depth pivot, left to right. */
  function Blocks(s: nat, e: nat, d: nat, pivot: nat): seq<(nat, nat)>
    decreases e - s
  {
    if e <= s then []
    else if d > pivot then [(s, e)]
    else
      var m := Mid(s, e);
      Blocks(s, m, d + 1, pivot) + Blocks(m + 1, e, d + 1, pivot)
  }

  lemma BlocksUnfold(s: nat, e: nat, d: nat, pivot: nat)
    requires s < e && d <= pivot
    ensures Blocks(s, e, d, pivot) == Blocks(s, Mid(s, e), d + 1, pivot) + Blocks(Mid(s, e) + 1, e, d + 1, pivot)
  {
  }

  /** Preorder listings of the given subtrees (roots at depth d, cut at maxDepth), one after the other. */
  function Flatten(blocks: seq<(nat, nat)>, d: nat, maxDepth: nat): seq<nat>
  {
    if blocks == [] then []
    else Truncated(blocks[0].0, blocks[0].1, d, maxDepth) + Flatten(blocks[1..], d, maxDepth)
  }

  lemma {:induction false} FlattenAppend(a: seq<(nat, nat)>, b: seq<(nat, nat)>, d: nat, maxDepth: nat)
    ensures Flatten(a + b, d, maxDepth) == Flatten(a, d, maxDepth) + Flatten(b, d, maxDepth)
  {
    if a == [] {
      assert a + b == b;
    } else {
      assert (a + b)[1..] == a[1..] + b;
      FlattenAppend(a[1..], b, d, maxDepth);
    }
  }

  /** Each bottom block is a non-empty subrange whose depths, measured from
      its own root at depth pivot + 1, agree with the enclosing subtree's. */
  lemma {:induction false} BlocksAreSubtrees(info: seq<TraversalInfo>, s: nat, e: nat, d: nat, pivot: nat)
    requires DepthsMatch(info, s, e, d) && d <= pivot + 1
    ensures forall k :: 0 <= k < |Blocks(s, e, d, pivot)| ==>
      var b := Blocks(s, e, d, pivot)[k];
      s <= b.0 < b.1 <= e && DepthsMatch(info, b.0, b.1, pivot + 1)
    decreases e - s
  {
    if s < e && d <= pivot {
      var m := Mid(s, e);
      DepthsMatchHalves(info, s, e, d);
      BlocksAreSubtrees(info, s, m, d + 1, pivot);
      BlocksAreSubtrees(info, m + 1, e, d + 1, pivot);
      var bl: seq<(nat, nat)>, br: seq<(nat, nat)> := Blocks(s, m, d + 1, pivot), Blocks(m + 1, e, d + 1, pivot);
      assert Blocks(s, e, d, pivot) == bl + br;
      forall k | 0 <= k < |bl| + |br|
        ensures var b: (nat, nat) := (bl + br)[k]; s <= b.0 < b.1 <= e && DepthsMatch(info, b.0, b.1, pivot + 1)
      {
        if k < |bl| {
          assert (bl + br)[k] == bl[k];
        } else {
          assert (bl + br)[k] == br[k - |bl|];
        }
      }
    }
  }

  /** A subtree rooted just below the pivot forms a single bottom block. */
  lemma {:induction false} DeepOfBottomBlock(info: seq<TraversalInfo>, s: nat, e: nat, d: nat, maxDepth: nat, pivot: nat)
    requires DepthsMatch(info, s, e, d) && d == pivot + 1 && s < e
    ensures Deep(Truncated(s, e, d, maxDepth), info, pivot) == Flatten(Blocks(s, e, d, pivot), pivot + 1, maxDepth)
  {
    var t := Truncated(s, e, d, maxDepth);
    TruncatedDepths(info, s, e, d, maxDepth);
    AllDeep(t, info, pivot);
    assert Blocks(s, e, d, pivot) == [(s, e)];
    assert Flatten([(s, e)], pivot + 1, maxDepth) == t + Flatten([], pivot + 1, maxDepth);
  }

  lemma {:induction false} JoinDeep(t: seq<nat>, m: nat, left: seq<nat>, right: seq<nat>,
    b: seq<(nat, nat)>, bl: seq<(nat, nat)>, br: seq<(nat, nat)>, info: seq<TraversalInfo>, maxDepth: nat, pivot: nat)
    requires t == [m] + left + right && b == bl + br && DepthAt(info, m) <= pivot
    requires Deep(left, info, pivot) == Flatten(bl, pivot + 1, maxDepth)
    requires Deep(right, info, pivot) == Flatten(br, pivot + 1, maxDepth)
    ensures Deep(t, info, pivot) == Flatten(b, pivot + 1, maxDepth)
  {
    FilterRootThen(m, left, right, info, pivot);
    FlattenAppend(bl, br, pivot + 1, maxDepth);
  }

  /** The deep group of a subtree whose root is above the pivot joins those of its two halves. */
  lemma {:induction false} DeepOfTopRoot(info: seq<TraversalInfo>, s: nat, e: nat, d: nat, maxDepth: nat, pivot: nat)
    requires s < e && d <= pivot < maxDepth && DepthAt(info, Mid(s, e)) <= pivot
    requires Deep(Truncated(s, Mid(s, e), d + 1, maxDepth), info, pivot) ==
      Flatten(Blocks(s, Mid(s, e), d + 1, pivot), pivot + 1, maxDepth)
    requires Deep(Truncated(Mid(s, e) + 1, e, d + 1, maxDepth), info, pivot) ==
      Flatten(Blocks(Mid(s, e) + 1, e, d + 1, pivot), pivot + 1, maxDepth)
    ensures Deep(Truncated(s, e, d, maxDepth), info, pivot) == Flatten(Blocks(s, e, d, pivot), pivot + 1, maxDepth)
  {
    var m := Mid(s, e);
    BlocksUnfold(s, e, d, pivot);
    TruncatedUnfold(s, e, d, maxDepth);
    JoinDeep(Truncated(s, e, d, maxDepth), m, Truncated(s, m, d + 1, maxDepth), Truncated(m + 1, e, d + 1, maxDepth),
      Blocks(s, e, d, pivot), Blocks(s, m, d + 1, pivot), Blocks(m + 1, e, d + 1, pivot), info, maxDepth, pivot);
  }

  lemma DeepOfEmpty(info: seq<TraversalInfo>, s: nat, e: nat, d: nat, maxDepth: nat, pivot: nat)
    requires e <= s
    ensures Deep(Truncated(s, e, d, maxDepth), info, pivot) == Flatten(Blocks(s, e, d, pivot), pivot + 1, maxDepth)
  {
    assert Truncated(s, e, d, maxDepth) == [];
    assert Blocks(s, e, d, pivot) == [];
  }

  /** The deep group of a truncated subtree is the concatenation of the
      bottom subtrees, each in preorder. */
  lemma {:induction false} DeepOfTruncated(info: seq<TraversalInfo>, s: nat, e: nat, d: nat, maxDepth: nat, pivot: nat)
    requires DepthsMatch(info, s, e, d) && d <= pivot + 1 && pivot < maxDepth
    ensures Deep(Truncated(s, e, d, maxDepth), info, pivot) == Flatten(Blocks(s, e, d, pivot), pivot + 1, maxDepth)
    decreases e - s
  {
    if s < e {
      if d > pivot {
        DeepOfBottomBlock(info, s, e, d, maxDepth, pivot);
      } else {
        var m := Mid(s, e);
        DepthsMatchHalves(info, s, e, d);
        DeepOfTruncated(info, s, m, d + 1, maxDepth, pivot);
        DeepOfTruncated(info, m + 1, e, d + 1, maxDepth, pivot);
        DeepOfTopRoot(info, s, e, d, maxDepth, pivot);
      }
    } else {
      DeepOfEmpty(info, s, e, d, maxDepth, pivot);
    }
  }

  /** Deepest recorded depth among the first n entries of xs (0 when n is 0). */
  function DeepestUpTo(info: seq<TraversalInfo>, xs: seq<nat>, n: nat): nat
    requires n <= |xs|
  {
    if n == 0 then 0
    else
      var d, m := DepthAt(info, xs[n - 1]), DeepestUpTo(info, xs, n - 1);
      if d > m then d else m
  }

  /** DeepestUpTo is the maximum: it bounds every scanned depth and is one of them. */
  lemma {:induction false} DeepestIsMax(info: seq<TraversalInfo>, xs: seq<nat>, n: nat)
    requires n <= |xs|
    ensures forall k :: 0 <= k < n ==> DepthAt(info, xs[k]) <= DeepestUpTo(info, xs, n)
    ensures n > 0 ==> exists k :: 0 <= k < n && DepthAt(info, xs[k]) == DeepestUpTo(info, xs, n)
  {
    if n > 0 {
      DeepestIsMax(info, xs, n - 1);
      if n - 1 > 0 && DepthAt(info, xs[n - 1]) <= DeepestUpTo(info, xs, n - 1) {
        var k :| 0 <= k < n - 1 && DepthAt(info, xs[k]) == DeepestUpTo(info, xs, n - 1);
        assert DepthAt(info, xs[k]) == DeepestUpTo(info, xs, n);
      }
    }
  }

  /** Depth cut-off of the recursion on one bottom subtree: the deepest depth
      present in its truncated listing. */
  function BlockCutoff(info: seq<TraversalInfo>, block: (nat, nat), d: nat, maxDepth: nat): nat
  {
    var t := Truncated(block.0, block.1, d, maxDepth);
    DeepestUpTo(info, t, |t|)
  }

  /** The depth at which a level of the layout splits the subtree: halfway
      between its root depth and its cut-off, rounded down. */
  function Pivot(d: nat, maxDepth: nat): (p: nat)
    requires d < maxDepth
    ensures d <= p < maxDepth
  {
    d + (maxDepth - d) / 2
  }

  /** The van Emde Boas listing of the subtree over [s, e) rooted at depth d
      and cut at maxDepth: the top half (depths d .. pivot) laid out
      recursively, followed by each bottom subtree laid out recursively, left
      to right. */
  function Veb(info: seq<TraversalInfo>, s: nat, e: nat, d: nat, maxDepth: nat): seq<nat>
    decreases if d <= maxDepth then maxDepth - d else 0, 3, 0
  {
    if maxDepth <= d then Truncated(s, e, d, maxDepth)
    else VebSplit(info, s, e, d, maxDepth, Pivot(d, maxDepth))
  }

  /** The layout of a subtree split at depth pivot: the top half, then the bottom subtrees. */
  function VebSplit(info: seq<TraversalInfo>, s: nat, e: nat, d: nat, maxDepth: nat, pivot: nat): seq<nat>
    requires d <= pivot < maxDepth
    decreases maxDepth - d, 2, 0
  {
    Veb(info, s, e, d, pivot) + VebOfBlocks(info, Blocks(s, e, d, pivot), pivot + 1, maxDepth)
  }

  /** The bottom subtrees, each laid out by Veb with its own depth cut-off, one after the other. */
  function VebOfBlocks(info: seq<TraversalInfo>, blocks: seq<(nat, nat)>, d: nat, maxDepth: nat): seq<nat>
    decreases if d <= maxDepth + 1 then maxDepth + 1 - d else 0, 1, |blocks|
  {
    if blocks == [] then []
    else
      var last := blocks[|blocks| - 1];
      var cutoff := BlockCutoff(info, last, d, maxDepth);
      VebOfBlocks(info, blocks[..|blocks| - 1], d, maxDepth) +
        (if d <= cutoff <= maxDepth then Veb(info, last.0, last.1, d, cutoff)
         else Truncated(last.0, last.1, d, maxDepth))
  }

  /** The cut-off of a bottom subtree lies between its root depth and the
      outer cut-off, and truncating there loses nothing. */
  lemma BlockCutoffFacts(info: seq<TraversalInfo>, block: (nat, nat), d: nat, maxDepth: nat)
    requires block.0 < block.1 && DepthsMatch(info, block.0, block.1, d) && d <= maxDepth
    ensures d <= BlockCutoff(info, block, d, maxDepth) <= maxDepth
    ensures Truncated(block.0, block.1, d, maxDepth) == Truncated(block.0, block.1, d, BlockCutoff(info, block, d, maxDepth))
  {
    var t := Truncated(block.0, block.1, d, maxDepth);
    TruncatedDepths(info, block.0, block.1, d, maxDepth);
    DeepestIsMax(info, t, |t|);
    var k :| 0 <= k < |t| && DepthAt(info, t[k]) == DeepestUpTo(info, t, |t|);
    assert Depth(block.0, block.1, d, t[0]) == d;
    TruncatedLower(info, block.0, block.1, d, maxDepth, BlockCutoff(info, block, d, maxDepth));
  }

  lemma VebUnfold(info: seq<TraversalInfo>, s: nat, e: nat, d: nat, maxDepth: nat)
    requires d < maxDepth
    ensures Veb(info, s, e, d, maxDepth) == VebSplit(info, s, e, d, maxDepth, Pivot(d, maxDepth))
  {
  }

  lemma VebSplitUnfold(info: seq<TraversalInfo>, s: nat, e: nat, d: nat, maxDepth: nat, pivot: nat)
    requires d <= pivot < maxDepth
    ensures VebSplit(info, s, e, d, maxDepth, pivot) == Veb(info, s, e, d, pivot) + VebOfBlocks(info, Blocks(s, e, d, pivot), pivot + 1, maxDepth)
  {
  }

  lemma JoinPermutations(v: seq<nat>, v1: seq<nat>, v2: seq<nat>, a: seq<nat>, b: seq<nat>, t: seq<nat>)
    requires v == v1 + v2
    requires multiset(v1) == multiset(a) && multiset(v2) == multiset(b)
    requires multiset(a) + multiset(b) == multiset(t)
    ensures multiset(v) == multiset(t)
  {
  }

  /** Laying out a truncated subtree in van Emde Boas order permutes its preorder listing. */
  lemma {:induction false} VebPermutes(info: seq<TraversalInfo>, s: nat, e: nat, d: nat, maxDepth: nat)
    requires DepthsMatch(info, s, e, d)
    ensures multiset(Veb(info, s, e, d, maxDepth)) == multiset(Truncated(s, e, d, maxDepth))
    decreases if d <= maxDepth then maxDepth - d else 0, 2, 0
  {
    if maxDepth > d {
      var pivot := Pivot(d, maxDepth);
      var t := Truncated(s, e, d, maxDepth);
      VebTopPermutes(info, s, e, d, maxDepth, pivot);
      VebBottomPermutes(info, s, e, d, maxDepth, pivot);
      FilterSplit(t, info, pivot);
      VebUnfold(info, s, e, d, maxDepth); VebSplitUnfold(info, s, e, d, maxDepth, pivot);
      JoinPermutations(Veb(info, s, e, d, maxDepth), Veb(info, s, e, d, pivot),
        VebOfBlocks(info, Blocks(s, e, d, pivot), pivot + 1, maxDepth), Shallow(t, info, pivot), Deep(t, info, pivot), t);
    }
  }

  /** The top half of the layout permutes the entries at depth at most the pivot. */
  lemma VebTopPermutes(info: seq<TraversalInfo>, s: nat, e: nat, d: nat, maxDepth: nat, pivot: nat)
    requires DepthsMatch(info, s, e, d) && d <= pivot < maxDepth
    ensures multiset(Veb(info, s, e, d, pivot)) == multiset(Shallow(Truncated(s, e, d, maxDepth), info, pivot))
    decreases maxDepth - d, 1, 0
  {
    ShallowOfTruncated(info, s, e, d, maxDepth, pivot);
    VebPermutes(info, s, e, d, pivot);
  }

  /** The bottom subtrees, laid out one after the other, permute the entries below the pivot. */
  lemma VebBottomPermutes(info: seq<TraversalInfo>, s: nat, e: nat, d: nat, maxDepth: nat, pivot: nat)
    requires DepthsMatch(info, s, e, d) && d <= pivot < maxDepth
    ensures multiset(VebOfBlocks(info, Blocks(s, e, d, pivot), pivot + 1, maxDepth)) ==
      multiset(Deep(Truncated(s, e, d, maxDepth), info, pivot))
    decreases maxDepth - d, 1, 0
  {
    DeepOfTruncated(info, s, e, d, maxDepth, pivot);
    BlocksAreSubtrees(info, s, e, d, pivot);
    VebOfBlocksPermutes(info, Blocks(s, e, d, pivot), pivot + 1, maxDepth);
  }

  lemma VebOfBlocksUnfold(info: seq<TraversalInfo>, blocks: seq<(nat, nat)>, d: nat, maxDepth: nat)
    requires blocks != []
    ensures var last, cutoff := blocks[|blocks| - 1], BlockCutoff(info, blocks[|blocks| - 1], d, maxDepth);
      VebOfBlocks(info, blocks, d, maxDepth) == VebOfBlocks(info, blocks[..|blocks| - 1], d, maxDepth) +
        (if d <= cutoff <= maxDepth then Veb(info, last.0, last.1, d, cutoff)
         else Truncated(last.0, last.1, d, maxDepth))
  {
  }

  lemma FlattenLast(blocks: seq<(nat, nat)>, d: nat, maxDepth: nat)
    requires blocks != []
    ensures Flatten(blocks, d, maxDepth) ==
      Flatten(blocks[..|blocks| - 1], d, maxDepth) + Truncated(blocks[|blocks| - 1].0, blocks[|blocks| - 1].1, d, maxDepth)
  {
    var init, last := blocks[..|blocks| - 1], blocks[|blocks| - 1];
    assert blocks == init + [last];
    FlattenAppend(init, [last], d, maxDepth);
    assert Flatten([last], d, maxDepth) == Truncated(last.0, last.1, d, maxDepth) + Flatten([], d, maxDepth);
  }

  lemma {:induction false} VebOfBlocksPermutes(info: seq<TraversalInfo>, blocks: seq<(nat, nat)>, d: nat, maxDepth: nat)
    requires forall k :: 0 <= k < |blocks| ==> blocks[k].0 < blocks[k].1 && DepthsMatch(info, blocks[k].0, blocks[k].1, d)
    ensures multiset(VebOfBlocks(info, blocks, d, maxDepth)) == multiset(Flatten(blocks, d, maxDepth))
    decreases if d <= maxDepth + 1 then maxDepth + 1 - d else 0, 0, |blocks|
  {
    if blocks != [] {
      var init, last := blocks[..|blocks| - 1], blocks[|blocks| - 1];
      var t := Truncated(last.0, last.1, d, maxDepth);
      var cutoff := BlockCutoff(info, last, d, maxDepth);
      var lastVeb := if d <= cutoff <= maxDepth then Veb(info, last.0, last.1, d, cutoff) else t;
      assert multiset(lastVeb) == multiset(t) by {
        if d <= cutoff <= maxDepth {
          BlockCutoffFacts(info, last, d, maxDepth);
          VebPermutes(info, last.0, last.1, d, cutoff);
        }
      }
      VebOfBlocksPermutes(info, init, d, maxDepth);
      VebOfBlocksUnfold(info, blocks, d, maxDepth);
      FlattenLast(blocks, d, maxDepth);
      JoinPermutations(VebOfBlocks(info, blocks, d, maxDepth), VebOfBlocks(info, init, d, maxDepth), lastVeb,
        Flatten(init, d, maxDepth), t, Flatten(blocks, d, maxDepth));
    }
  }
}
