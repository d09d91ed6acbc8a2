/** The implicit balanced binary search tree laid over sorted positions
    [0, n): the midpoint of a range is its root, the two halves are its
    subtrees. The pure functions below say, for every position, what the
    depth-first traversal records about it; `TraverseRecursion` is proved to
    write exactly that. */
module ImplicitTree {
  import opened Intervals

  /** What the traversal records for one sorted position. */
  datatype TraversalInfo = TraversalInfo(depth: nat, dfs: nat, left: Option<nat>, right: Option<nat>)

  /** Root of the non-empty range [s, e): its midpoint. The two halves differ in size by at most one. */
  function Mid(s: nat, e: nat): (m: nat)
    requires s < e
    ensures s <= m < e
    ensures e - 1 - m <= m - s <= e - m
  {
    s + (e - s) / 2
  }

  /** Root of the range [s, e), or None when it is empty. */
  function Root(s: nat, e: nat): (r: Option<nat>)
    ensures r.None? <==> e <= s
    ensures r.Some? ==> s <= r.value < e
  {
    if s < e then Some(Mid(s, e)) else None
  }

  /** Depth of position x in the tree over [s, e) whose root has depth d. */
  function Depth(s: nat, e: nat, d: nat, x: nat): nat
    requires s <= x < e
    decreases e - s
  {
    var m := Mid(s, e);
    if x == m then d
    else if x < m then Depth(s, m, d + 1, x)
    else Depth(m + 1, e, d + 1, x)
  }

  /** Preorder number of position x in the tree over [s, e) when its root is numbered k. */
  function Dfs(s: nat, e: nat, k: nat, x: nat): nat
    requires s <= x < e
    decreases e - s
  {
    var m := Mid(s, e);
    if x == m then k
    else if x < m then Dfs(s, m, k + 1, x)
    else Dfs(m + 1, e, k + 1 + (m - s), x)
  }

  /** Left child of position x in the tree over [s, e). */
  function LeftChild(s: nat, e: nat, x: nat): Option<nat>
    requires s <= x < e
    decreases e - s
  {
    var m := Mid(s, e);
    if x == m then Root(s, m)
    else if x < m then LeftChild(s, m, x)
    else LeftChild(m + 1, e, x)
  }

  /** Right child of position x in the tree over [s, e). */
  function RightChild(s: nat, e: nat, x: nat): Option<nat>
    requires s <= x < e
    decreases e - s
  {
    var m := Mid(s, e);
    if x == m then Root(m + 1, e)
    else if x < m then RightChild(s, m, x)
    else RightChild(m + 1, e, x)
  }

  /** The record the traversal of [s, e), started at depth d with counter k, leaves at position x. */
  function Info(s: nat, e: nat, d: nat, k: nat, x: nat): TraversalInfo
    requires s <= x < e
  {
    TraversalInfo(Depth(s, e, d, x), Dfs(s, e, k, x), LeftChild(s, e, x), RightChild(s, e, x))
  }

  /** Positions of [s, e) in preorder: root, left subtree, right subtree. */
  function Preorder(s: nat, e: nat): (r: seq<nat>)
    ensures s <= e ==> |r| == e - s
    decreases e - s
  {
    if e <= s then []
    else
      var m := Mid(s, e);
      [m] + Preorder(s, m) + Preorder(m + 1, e)
  }

  /** Fill `info[start..end]` by a depth-first walk of the implicit tree over
      [start, end) and return its root. `dfs` is the counter on entry; the
      counter on exit is returned as `dfsOut`. */
  method TraverseRecursion(info: array<TraversalInfo>, start: nat, end: nat, depth: nat, dfs: nat)
    returns (root: Option<nat>, dfsOut: nat)
    requires start < end ==> end <= info.Length
    modifies info
    ensures root == Root(start, end)
    ensures dfsOut == if start < end then dfs + (end - start) else dfs
    ensures forall p :: start <= p < end ==> info[p] == Info(start, end, depth, dfs, p)
    ensures forall p :: 0 <= p < info.Length && !(start <= p < end) ==> info[p] == old(info[p])
    decreases end - start
  {
    if start >= end {
      return None, dfs;
    }
    var rootIdx := start + (end - start) / 2;
    info[rootIdx] := info[rootIdx].(depth := depth, dfs := dfs);
    var counter := dfs + 1;
    var left: Option<nat> := None;
    var right: Option<nat> := None;
    if rootIdx > start {
      left, counter := TraverseRecursion(info, start, rootIdx, depth + 1, counter);
    }
    if rootIdx + 1 < end {
      right, counter := TraverseRecursion(info, rootIdx + 1, end, depth + 1, counter);
    }
    info[rootIdx] := info[rootIdx].(left := left, right := right);
    return Some(rootIdx), counter;
  }

  /** The traversal records of the implicit tree over [0, n). */
  method Traverse(n: nat) returns (info: seq<TraversalInfo>)
    ensures |info| == n
    ensures forall p :: 0 <= p < n ==> info[p] == Info(0, n, 0, 0, p)
  {
    var a := new TraversalInfo[n](_ => TraversalInfo(0, 0, None, None));
    var root, dfs := TraverseRecursion(a, 0, n, 0, 0);
    info := a[..];
  }

  /** Indexing a listing made of a root followed by two sub-listings. */
  lemma IndexRootThen<A>(m: A, left: seq<A>, right: seq<A>, j: nat)
    requires j < 1 + |left| + |right|
    ensures j == 0 ==> ([m] + left + right)[j] == m
    ensures 0 < j <= |left| ==> ([m] + left + right)[j] == left[j - 1]
    ensures |left| < j ==> ([m] + left + right)[j] == right[j - 1 - |left|]
  {
  }

  lemma PreorderUnfold(s: nat, e: nat)
    requires s < e
    ensures Preorder(s, e) == [Mid(s, e)] + Preorder(s, Mid(s, e)) + Preorder(Mid(s, e) + 1, e)
  {
  }

  /** Preorder numbers in the two halves continue those of the enclosing range. */
  lemma DfsHalves(s: nat, e: nat, k: nat, x: nat)
    requires s <= x < e
    ensures x == Mid(s, e) ==> Dfs(s, e, k, x) == k
    ensures x < Mid(s, e) ==> Dfs(s, e, k, x) == Dfs(s, Mid(s, e), k + 1, x)
    ensures x > Mid(s, e) ==> Dfs(s, e, k, x) == Dfs(Mid(s, e) + 1, e, k + 1 + (Mid(s, e) - s), x)
  {
  }

  /** The preorder listing holds each position of [s, e) once, and the
      position at index j gets preorder number k + j. */
  lemma {:induction false} PreorderNumbers(s: nat, e: nat, k: nat)
    requires s <= e
    ensures forall j :: 0 <= j < e - s ==>
      s <= Preorder(s, e)[j] < e && Dfs(s, e, k, Preorder(s, e)[j]) == k + j
    decreases e - s
  {
    if s < e {
      var m := Mid(s, e);
      PreorderNumbers(s, m, k + 1);
      PreorderNumbers(m + 1, e, k + 1 + (m - s));
      var left, right := Preorder(s, m), Preorder(m + 1, e);
      PreorderUnfold(s, e);
      forall j | 0 <= j < e - s
        ensures s <= Preorder(s, e)[j] < e && Dfs(s, e, k, Preorder(s, e)[j]) == k + j
      {
        IndexRootThen(m, left, right, j);
        DfsHalves(s, e, k, Preorder(s, e)[j]);
      }
    }
  }

  lemma {:induction false} PreorderCovers(s: nat, e: nat, x: nat)
    requires s <= x < e
    ensures x in Preorder(s, e)
    decreases e - s
  {
    var m := Mid(s, e);
    if x < m {
      PreorderCovers(s, m, x);
    } else if x > m {
      PreorderCovers(m + 1, e, x);
    }
  }

  /** Preorder numbers of [s, e) are k .. k + (e - s) - 1, each used by exactly one position. */
  lemma DfsBijection(s: nat, e: nat, k: nat, x: nat)
    requires s <= x < e
    ensures k <= Dfs(s, e, k, x) < k + (e - s)
    ensures Preorder(s, e)[Dfs(s, e, k, x) - k] == x
  {
    PreorderNumbers(s, e, k);
    PreorderCovers(s, e, x);
    var j :| 0 <= j < |Preorder(s, e)| && Preorder(s, e)[j] == x;
  }

  /** The traversal of [0, n) numbers the positions with a permutation of 0 .. n-1. */
  lemma TraverseDfsPermutation(n: nat)
    ensures forall x :: 0 <= x < n ==> Dfs(0, n, 0, x) < n
    ensures forall x, y :: 0 <= x < n && 0 <= y < n && Dfs(0, n, 0, x) == Dfs(0, n, 0, y) ==> x == y
    ensures forall v :: 0 <= v < n ==> Preorder(0, n)[v] < n && Dfs(0, n, 0, Preorder(0, n)[v]) == v
  {
    forall x | 0 <= x < n
      ensures Dfs(0, n, 0, x) < n && Preorder(0, n)[Dfs(0, n, 0, x)] == x
    {
      DfsBijection(0, n, 0, x);
    }
    PreorderNumbers(0, n, 0);
  }

  /** Recorded children lie on the correct side of their parent, inside the
      range, one level deeper: the implicit tree is a binary search tree over
      the sorted positions. */
  lemma {:induction false} ChildrenOrdered(s: nat, e: nat, d: nat, x: nat)
    requires s <= x < e
    ensures LeftChild(s, e, x).Some? ==>
      var l := LeftChild(s, e, x).value;
      s <= l < x && Depth(s, e, d, l) == Depth(s, e, d, x) + 1
    ensures RightChild(s, e, x).Some? ==>
      var r := RightChild(s, e, x).value;
      x < r < e && Depth(s, e, d, r) == Depth(s, e, d, x) + 1
    decreases e - s
  {
    var m := Mid(s, e);
    if x < m {
      ChildrenOrdered(s, m, d + 1, x);
    } else if x > m {
      ChildrenOrdered(m + 1, e, d + 1, x);
    }
  }
}
