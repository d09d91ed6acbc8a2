/** Interval records, the closed-interval overlap test and overlap counting. */
module Intervals {

  datatype Option<+T> = None | Some(value: T)

  /** One element of the tree's arena. `left`/`right` are indices into the
      same arena; `subtreeFirst`/`subtreeLast` are the augmentation that the
      builder fills in. Coordinates are closed: the interval is [first, last]. */
  datatype IntervalNode<T> = IntervalNode(
    first: int,
    last: int,
    subtreeFirst: int,
    subtreeLast: int,
    left: Option<nat>,
    right: Option<nat>,
    metadata: T)

  /** The integer point x lies in the closed interval [first, last]. */
  predicate Contains(first: int, last: int, x: int)
  {
    first <= x <= last
  }

  /** Closed-interval overlap test. Intervals that share an integer point
      always overlap; for non-empty intervals (first <= last) the converse holds
      too. An empty interval [s, s-1] still "overlaps" a query containing s-1
      and s, since the test only compares end points. */
  function Overlaps(firstA: int, lastA: int, firstB: int, lastB: int): (r: bool)
    ensures (exists x :: Contains(firstA, lastA, x) && Contains(firstB, lastB, x)) ==> r
    ensures firstA <= lastA && firstB <= lastB && r ==>
      exists x :: Contains(firstA, lastA, x) && Contains(firstB, lastB, x)
  {
    var r := firstA <= lastB && lastA >= firstB;
    var point := if firstA < firstB then firstB else firstA;
    assert firstA <= lastA && firstB <= lastB && r ==>
      Contains(firstA, lastA, point) && Contains(firstB, lastB, point);
    r
  }

  /** The node's own interval overlaps the query [first, last]. */
  predicate Hit<T>(node: IntervalNode<T>, first: int, last: int)
  {
    Overlaps(node.first, node.last, first, last)
  }

  /** The subsequence of `xs` whose intervals overlap [first, last], in order. */
  function Overlapping<T>(xs: seq<IntervalNode<T>>, first: int, last: int): (r: seq<IntervalNode<T>>)
    ensures |r| <= |xs|
    ensures forall k :: 0 <= k < |r| ==> r[k] in xs && Hit(r[k], first, last)
    ensures forall k :: 0 <= k < |xs| && Hit(xs[k], first, last) ==> xs[k] in r
  {
    if xs == [] then []
    else
      var rest := Overlapping(xs[1..], first, last);
      assert forall k :: 1 <= k < |xs| ==> xs[k] == xs[1..][k - 1];
      if Hit(xs[0], first, last) then [xs[0]] + rest else rest
  }

  /** Number of elements of `xs` that overlap [first, last]. */
  function CountHits<T>(xs: seq<IntervalNode<T>>, first: int, last: int): nat
  {
    if xs == [] then 0
    else (if Hit(xs[0], first, last) then 1 else 0) + CountHits(xs[1..], first, last)
  }

  lemma {:induction false} OverlappingCount<T>(xs: seq<IntervalNode<T>>, first: int, last: int)
    ensures |Overlapping(xs, first, last)| == CountHits(xs, first, last)
  {
    if xs != [] {
      OverlappingCount(xs[1..], first, last);
    }
  }

  /** Filtering a concatenation filters each part, keeping their order. */
  lemma {:induction false} OverlappingAppend<T>(a: seq<IntervalNode<T>>, b: seq<IntervalNode<T>>, first: int, last: int)
    ensures Overlapping(a + b, first, last) == Overlapping(a, first, last) + Overlapping(b, first, last)
  {
    if a == [] {
      assert a + b == b;
    } else {
      assert (a + b)[1..] == a[1..] + b;
      OverlappingAppend(a[1..], b, first, last);
    }
  }

  lemma {:induction false} CountHitsAppend<T>(a: seq<IntervalNode<T>>, b: seq<IntervalNode<T>>, first: int, last: int)
    ensures CountHits(a + b, first, last) == CountHits(a, first, last) + CountHits(b, first, last)
  {
    if a == [] {
      assert a + b == b;
    } else {
      assert (a + b)[1..] == a[1..] + b;
      CountHitsAppend(a[1..], b, first, last);
    }
  }

  lemma MultisetRemove<T>(ys: seq<T>, j: nat)
    requires j < |ys|
    ensures multiset(ys[..j] + ys[j + 1..]) == multiset(ys) - multiset{ys[j]}
  {
    assert ys == ys[..j] + [ys[j]] + ys[j + 1..];
  }

  /** Taking one node out of a sequence takes its hit, if any, out of the count. */
  lemma CountHitsRemove<T>(ys: seq<IntervalNode<T>>, j: nat, first: int, last: int)
    requires j < |ys|
    ensures CountHits(ys, first, last) ==
      (if Hit(ys[j], first, last) then 1 else 0) + CountHits(ys[..j] + ys[j + 1..], first, last)
  {
    assert ys == ys[..j] + [ys[j]] + ys[j + 1..];
    CountHitsAppend(ys[..j] + [ys[j]], ys[j + 1..], first, last);
    CountHitsAppend(ys[..j], [ys[j]], first, last);
    CountHitsAppend(ys[..j], ys[j + 1..], first, last);
    assert CountHits([ys[j]], first, last) == (if Hit(ys[j], first, last) then 1 else 0) + CountHits<T>([], first, last);
  }

  /** The count depends on the multiset of nodes only, not on their order. */
  lemma {:induction false} CountHitsPermutation<T>(xs: seq<IntervalNode<T>>, ys: seq<IntervalNode<T>>, first: int, last: int)
    requires multiset(xs) == multiset(ys)
    ensures CountHits(xs, first, last) == CountHits(ys, first, last)
    decreases |xs|
  {
    if xs == [] {
      assert |ys| == |multiset(ys)| == 0;
    } else {
      var x := xs[0];
      assert x in multiset(ys) by {
        assert x in multiset(xs);
      }
      var j :| 0 <= j < |ys| && ys[j] == x;
      MultisetRemove(ys, j);
      assert multiset(xs[1..]) == multiset(xs) - multiset{x} by {
        assert xs == [x] + xs[1..];
      }
      CountHitsPermutation(xs[1..], ys[..j] + ys[j + 1..], first, last);
      CountHitsRemove(ys, j, first, last);
    }
  }

  predicate SortedByFirst<T>(xs: seq<IntervalNode<T>>)
  {
    forall i, j :: 0 <= i < j < |xs| ==> xs[i].first <= xs[j].first
  }

  lemma SortedCons<T>(h: IntervalNode<T>, rest: seq<IntervalNode<T>>)
    requires SortedByFirst(rest)
    requires forall k :: 0 <= k < |rest| ==> h.first <= rest[k].first
    ensures SortedByFirst([h] + rest)
  {
    forall i, j | 0 <= i < j < |rest| + 1 ensures ([h] + rest)[i].first <= ([h] + rest)[j].first {
      assert ([h] + rest)[j] == rest[j - 1];
      if i > 0 {
        assert ([h] + rest)[i] == rest[i - 1];
      }
    }
  }

  /** Every element of a permutation of ys + [x] is bounded below by a common bound of ys and x. */
  lemma BoundOfPermutation<T>(lo: int, x: IntervalNode<T>, ys: seq<IntervalNode<T>>, r: seq<IntervalNode<T>>)
    requires multiset(r) == multiset(ys) + multiset{x}
    requires lo <= x.first && forall k :: 0 <= k < |ys| ==> lo <= ys[k].first
    ensures forall k :: 0 <= k < |r| ==> lo <= r[k].first
  {
    forall k | 0 <= k < |r| ensures lo <= r[k].first {
      assert r[k] in multiset(r);
      if r[k] != x {
        assert r[k] in multiset(ys);
      }
    }
  }

  function Insert<T>(x: IntervalNode<T>, xs: seq<IntervalNode<T>>): (r: seq<IntervalNode<T>>)
    requires SortedByFirst(xs)
    ensures SortedByFirst(r)
    ensures multiset(r) == multiset(xs) + multiset{x}
    ensures |r| == |xs| + 1
  {
    if xs == [] || x.first <= xs[0].first then
      SortedCons(x, xs);
      [x] + xs
    else
      var rest := Insert(x, xs[1..]);
      assert xs == [xs[0]] + xs[1..];
      BoundOfPermutation(xs[0].first, x, xs[1..], rest);
      SortedCons(xs[0], rest);
      [xs[0]] + rest
  }

  /** Stands for the library sort by `first`: some permutation of the input
      ordered by `first`; which of several equal keys comes first is not
      promised. */
  function SortByFirst<T>(xs: seq<IntervalNode<T>>): (r: seq<IntervalNode<T>>)
    ensures SortedByFirst(r)
    ensures multiset(r) == multiset(xs)
    ensures |r| == |xs|
  {
    if xs == [] then []
    else
      assert xs == [xs[0]] + xs[1..];
      Insert(xs[0], SortByFirst(xs[1..]))
  }
}
