/** The counting query: a depth-first descent from the root of the arena
    that counts the nodes whose interval overlaps the query and skips every
    child whose [subtreeFirst, subtreeLast] box misses the query. */
module TreeQuery {
  import opened Intervals
  import opened ImplicitTree
  import opened Arena

  /** A node outside a box that misses the query cannot overlap it. */
  lemma NoHitsOutsideBox<T>(xs: seq<IntervalNode<T>>, s: nat, e: nat, first: int, last: int)
    requires s < e <= |xs|
    requires !Overlaps(MinFirst(xs, s, e), MaxLast(xs, s, e), first, last)
    ensures CountHits(xs[s..e], first, last) == 0
  {
    MinFirstIsMin(xs, s, e);
    MaxLastIsMax(xs, s, e);
    NoHits(xs[s..e], first, last);
  }

  /** A sequence none of whose nodes overlaps the query has no hits. */
  lemma {:induction false} NoHits<T>(xs: seq<IntervalNode<T>>, first: int, last: int)
    requires forall k :: 0 <= k < |xs| ==> !Hit(xs[k], first, last)
    ensures CountHits(xs, first, last) == 0
  {
    if xs != [] {
      assert !Hit(xs[0], first, last);
      NoHits(xs[1..], first, last);
    }
  }

  /** The hits of a range are those of its left half, its root and its right half. */
  lemma CountHitsSplit<T>(xs: seq<IntervalNode<T>>, s: nat, m: nat, e: nat, first: int, last: int)
    requires s <= m < e <= |xs|
    ensures CountHits(xs[s..e], first, last) ==
      CountHits(xs[s..m], first, last) + (if Hit(xs[m], first, last) then 1 else 0) + CountHits(xs[m + 1..e], first, last)
  {
    assert xs[s..e] == xs[s..m] + [xs[m]] + xs[m + 1..e];
    CountHitsAppend(xs[s..m] + [xs[m]], xs[m + 1..e], first, last);
    CountHitsAppend(xs[s..m], [xs[m]], first, last);
    assert CountHits([xs[m]], first, last) == (if Hit(xs[m], first, last) then 1 else 0) + CountHits(xs[m..m], first, last);
  }

  /** Visit one child of the current node: descend into it when its box
      overlaps the query. The child's subtree covers sorted positions [s, e). */
  method VisitChild<T>(nodes: seq<IntervalNode<T>>, child: Option<nat>, first: int, last: int,
    count: nat, overlap: nat, visited: nat,
    ghost at: seq<nat>, ghost sorted: seq<IntervalNode<T>>, ghost s: nat, ghost e: nat)
    returns (count': nat, overlap': nat, visited': nat)
    requires LinkedBelow(nodes, at, sorted, s, e) && Augmented(nodes, at, sorted, s, e)
    requires s <= e && child == if s < e then Some(at[Mid(s, e)]) else None
    ensures s < e ==> e <= |sorted|
    ensures count' == count + (if s < e then CountHits(sorted[s..e], first, last) else 0)
    ensures overlap' == overlap
    ensures visited <= visited' <= visited + (e - s)
    ensures count' - count <= visited' - visited
    decreases e - s, 1
  {
    count', overlap', visited' := count, overlap, visited;
    match child {
      case Some(c) =>
        if Overlaps(nodes[c].subtreeFirst, nodes[c].subtreeLast, first, last) {
          count', overlap', visited' := QueryRecursion(nodes, c, first, last, count', overlap', visited', at, sorted, s, e);
        } else {
          NoHitsOutsideBox(sorted, s, e, first, last);
        }
      case None =>
    }
  }

  /** Count the nodes of the subtree rooted at arena index rootIdx that
      overlap [first, last], adding to `count`; `visited` counts the nodes
      looked at and `overlap` is passed through untouched. The subtree
      covers sorted positions [s, e). */
  method QueryRecursion<T>(nodes: seq<IntervalNode<T>>, rootIdx: nat, first: int, last: int,
    count: nat, overlap: nat, visited: nat,
    ghost at: seq<nat>, ghost sorted: seq<IntervalNode<T>>, ghost s: nat, ghost e: nat)
    returns (count': nat, overlap': nat, visited': nat)
    requires LinkedBelow(nodes, at, sorted, s, e) && Augmented(nodes, at, sorted, s, e)
    requires s < e && rootIdx == at[Mid(s, e)]
    ensures e <= |sorted|
    ensures count' == count + CountHits(sorted[s..e], first, last)
    ensures overlap' == overlap
    ensures visited + 1 <= visited' <= visited + (e - s)
    ensures count' - count <= visited' - visited
    decreases e - s, 0
  {
    ghost var m := Mid(s, e);
    count', overlap', visited' := count, overlap, visited + 1;
    if Overlaps(nodes[rootIdx].first, nodes[rootIdx].last, first, last) {
      count' := count' + 1;
    }
    count', overlap', visited' := VisitChild(nodes, nodes[rootIdx].left, first, last, count', overlap', visited', at, sorted, s, m);
    count', overlap', visited' := VisitChild(nodes, nodes[rootIdx].right, first, last, count', overlap', visited', at, sorted, m + 1, e);
    CountHitsSplit(sorted, s, m, e, first, last);
  }
}
