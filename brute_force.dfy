/** The reference answers the tree is compared against: a linear scan for
    the overlapping intervals, an integer sweep for the length of the query
    left uncovered, and the comparison of the tree's count with the scan's. */
module BruteForce {
  import opened Intervals
  import opened Arena
  import opened CoiTree

  /** Report every interval that overlaps [first, last], in input order.
      The visitor is modelled by the sequence of intervals it is handed. */
  method BruteForceQuery<T>(intervals: seq<IntervalNode<T>>, first: int, last: int)
    returns (visited: seq<IntervalNode<T>>)
    ensures visited == Overlapping(intervals, first, last)
    ensures |visited| == CountHits(intervals, first, last)
  {
    visited := [];
    for i := 0 to |intervals|
      invariant visited == Overlapping(intervals[..i], first, last)
    {
      var interval := intervals[i];
      OverlappingAppend(intervals[..i], [interval], first, last);
      assert intervals[..i + 1] == intervals[..i] + [interval];
      assert Overlapping([interval], first, last) == (if Hit(interval, first, last) then [interval] else []);
      if Overlaps(interval.first, interval.last, first, last) {
        visited := visited + [interval];
      }
    }
    assert intervals[..|intervals|] == intervals;
    OverlappingCount(intervals, first, last);
  }

  /** Every interval holds at least as many points as an empty one: first is
      at most one past last. */
  predicate WellFormed<T>(xs: seq<IntervalNode<T>>)
  {
    forall k :: 0 <= k < |xs| ==> xs[k].first <= xs[k].last + 1
  }

  /** Some interval of xs contains the point x. */
  predicate Covered<T>(xs: seq<IntervalNode<T>>, x: int)
  {
    exists k :: 0 <= k < |xs| && Contains(xs[k].first, xs[k].last, x)
  }

  /** The number of integer points of [lo, hi] that no interval of xs contains. */
  function Uncovered<T>(xs: seq<IntervalNode<T>>, lo: int, hi: int): nat
    decreases hi - lo
  {
    if hi < lo then 0
    else Uncovered(xs, lo, hi - 1) + (if Covered(xs, hi) then 0 else 1)
  }

  /** Counting uncovered points over [lo, hi] splits at any mid point. */
  lemma {:induction false} UncoveredSplit<T>(xs: seq<IntervalNode<T>>, lo: int, mid: int, hi: int)
    requires lo - 1 <= mid <= hi
    ensures Uncovered(xs, lo, hi) == Uncovered(xs, lo, mid) + Uncovered(xs, mid + 1, hi)
    decreases hi - mid
  {
    if mid < hi {
      UncoveredSplit(xs, lo, mid, hi - 1);
    }
  }

  /** A range with every point uncovered counts all its points. */
  lemma {:induction false} AllUncovered<T>(xs: seq<IntervalNode<T>>, lo: int, hi: int)
    requires lo - 1 <= hi
    requires forall y :: lo <= y <= hi ==> !Covered(xs, y)
    ensures Uncovered(xs, lo, hi) == hi - lo + 1
    decreases hi - lo
  {
    if lo <= hi {
      AllUncovered(xs, lo, hi - 1);
    }
  }

  /** A range with every point covered counts nothing. */
  lemma {:induction false} AllCovered<T>(xs: seq<IntervalNode<T>>, lo: int, hi: int)
    requires forall y :: lo <= y <= hi ==> Covered(xs, y)
    ensures Uncovered(xs, lo, hi) == 0
    decreases hi - lo
  {
    if lo <= hi {
      AllCovered(xs, lo, hi - 1);
    }
  }

  /** Two interval lists covering the same points of [lo, hi] leave the
      same number of them uncovered. */
  lemma {:induction false} SameCover<T>(xs: seq<IntervalNode<T>>, ys: seq<IntervalNode<T>>, lo: int, hi: int)
    requires forall y :: lo <= y <= hi ==> (Covered(xs, y) <==> Covered(ys, y))
    ensures Uncovered(xs, lo, hi) == Uncovered(ys, lo, hi)
    decreases hi - lo
  {
    if lo <= hi {
      SameCover(xs, ys, lo, hi - 1);
    }
  }

  /** A point is covered by a list extended with one interval exactly when
      the list or the new interval covers it. */
  lemma CoveredSnoc<T>(xs: seq<IntervalNode<T>>, x: IntervalNode<T>, y: int)
    ensures Covered(xs + [x], y) <==> Covered(xs, y) || Contains(x.first, x.last, y)
  {
    if Covered(xs, y) {
      var k :| 0 <= k < |xs| && Contains(xs[k].first, xs[k].last, y);
      assert (xs + [x])[k] == xs[k];
    }
    if Contains(x.first, x.last, y) {
      assert (xs + [x])[|xs|] == x;
    }
    if Covered(xs + [x], y) {
      var k :| 0 <= k < |xs| + 1 && Contains((xs + [x])[k].first, (xs + [x])[k].last, y);
      if k < |xs| {
        assert (xs + [x])[k] == xs[k];
      }
    }
  }

  /** The state of the sweep after the first i intervals: lastCov is the
      furthest end of an overlapping interval seen so far (or first - 1), and
      uncovLen counts the points of the query up to lastCov that none of them
      covers. */
  predicate Swept<T>(xs: seq<IntervalNode<T>>, i: nat, first: int, last: int, lastCov: int, uncovLen: int)
    requires i <= |xs|
  {
    first - 1 <= lastCov && EndsBefore(xs, i, first, last, lastCov) && Reached(xs, i, first, last, lastCov) &&
    uncovLen == Uncovered(xs[..i], first, Min(lastCov, last))
  }

  /** Every overlapping interval among the first i ends by lastCov. */
  predicate EndsBefore<T>(xs: seq<IntervalNode<T>>, i: nat, first: int, last: int, lastCov: int)
    requires i <= |xs|
  {
    forall k :: 0 <= k < i && Hit(xs[k], first, last) ==> xs[k].last <= lastCov
  }

  /** lastCov is still the sweep's start, or the end of an overlapping
      interval among the first i. */
  predicate Reached<T>(xs: seq<IntervalNode<T>>, i: nat, first: int, last: int, lastCov: int)
    requires i <= |xs|
  {
    lastCov == first - 1 || exists k :: 0 <= k < i && Hit(xs[k], first, last) && xs[k].last == lastCov
  }

  /** The sweep's bookkeeping of lastCov after one more interval. */
  lemma ReachStep<T>(xs: seq<IntervalNode<T>>, i: nat, first: int, last: int, lastCov: int)
    requires i < |xs| && EndsBefore(xs, i, first, last, lastCov) && Reached(xs, i, first, last, lastCov)
    ensures var L' := if Hit(xs[i], first, last) then Max(lastCov, xs[i].last) else lastCov;
      EndsBefore(xs, i + 1, first, last, L') && Reached(xs, i + 1, first, last, L')
  {
    if lastCov != first - 1 {
      var j :| 0 <= j < i && Hit(xs[j], first, last) && xs[j].last == lastCov;
      assert 0 <= j < i + 1;
    }
  }

  /** An interval that misses the query covers none of its points. */
  lemma MissCoversNothing<T>(x: IntervalNode<T>, first: int, last: int, y: int)
    requires !Hit(x, first, last) && first <= y <= last
    ensures !Contains(x.first, x.last, y)
  {
    if Contains(x.first, x.last, y) {
      assert Contains(first, last, y);
    }
  }

  /** Points of the query past lastCov are covered by none of the intervals
      swept so far. */
  lemma BeyondUncovered<T>(xs: seq<IntervalNode<T>>, i: nat, first: int, last: int, lastCov: int, y: int)
    requires i <= |xs|
    requires forall k :: 0 <= k < i && Hit(xs[k], first, last) ==> xs[k].last <= lastCov
    requires lastCov < y && first <= y <= last
    ensures !Covered(xs[..i], y)
  {
    forall k | 0 <= k < i
      ensures !Contains(xs[k].first, xs[k].last, y)
    {
      if !Hit(xs[k], first, last) {
        MissCoversNothing(xs[k], first, last, y);
      }
    }
  }

  /** Sweep step for an interval that misses the query: nothing changes. */
  lemma SweepMiss<T>(xs: seq<IntervalNode<T>>, i: nat, first: int, last: int, lastCov: int, uncovLen: int)
    requires i < |xs| && !Hit(xs[i], first, last)
    requires Swept(xs, i, first, last, lastCov, uncovLen)
    ensures Swept(xs, i + 1, first, last, lastCov, uncovLen)
  {
    assert xs[..i + 1] == xs[..i] + [xs[i]];
    forall y | first <= y <= Min(lastCov, last)
      ensures Covered(xs[..i + 1], y) <==> Covered(xs[..i], y)
    {
      CoveredSnoc(xs[..i], xs[i], y);
      MissCoversNothing(xs[i], first, last, y);
    }
    SameCover(xs[..i + 1], xs[..i], first, Min(lastCov, last));
    ReachStep(xs, i, first, last, lastCov);
  }

  /** Sweep step for an overlapping interval that starts past lastCov: the
      gap [lastCov + 1, first - 1] before it is uncovered, and it covers the
      rest up to its own end. */
  lemma SweepGap<T>(xs: seq<IntervalNode<T>>, i: nat, first: int, last: int, lastCov: int, uncovLen: int)
    requires i < |xs| && WellFormed(xs) && Hit(xs[i], first, last) && xs[i].first > lastCov
    requires Swept(xs, i, first, last, lastCov, uncovLen)
    ensures Swept(xs, i + 1, first, last, Max(lastCov, xs[i].last), uncovLen + xs[i].first - (lastCov + 1))
  {
    var x := xs[i];
    var L := lastCov;
    var L' := Max(L, x.last);
    assert xs[..i + 1] == xs[..i] + [x];
    forall y | first <= y <= L
      ensures Covered(xs[..i + 1], y) <==> Covered(xs[..i], y)
    {
      CoveredSnoc(xs[..i], x, y);
    }
    SameCover(xs[..i + 1], xs[..i], first, L);
    forall y | L + 1 <= y <= x.first - 1
      ensures !Covered(xs[..i + 1], y) && !Contains(x.first, x.last, y)
    {
      BeyondUncovered(xs, i, first, last, L, y);
      CoveredSnoc(xs[..i], x, y);
    }
    AllUncovered(xs[..i + 1], L + 1, x.first - 1);
    forall y | x.first <= y <= Min(L', last)
      ensures Covered(xs[..i + 1], y) && Contains(x.first, x.last, y)
    {
      CoveredSnoc(xs[..i], x, y);
    }
    AllCovered(xs[..i + 1], x.first, Min(L', last));
    UncoveredSplit(xs[..i + 1], first, x.first - 1, Min(L', last));
    UncoveredSplit(xs[..i + 1], first, L, x.first - 1);
    ReachStep(xs, i, first, last, lastCov);
  }

  /** Sweep step for an overlapping interval that starts at or before
      lastCov: sorted order means an earlier interval already covers its
      points up to lastCov, so it only adds covered points. */
  lemma SweepOverlap<T>(xs: seq<IntervalNode<T>>, i: nat, first: int, last: int, lastCov: int, uncovLen: int)
    requires i < |xs| && SortedByFirst(xs) && Hit(xs[i], first, last) && xs[i].first <= lastCov
    requires Swept(xs, i, first, last, lastCov, uncovLen)
    ensures Swept(xs, i + 1, first, last, Max(lastCov, xs[i].last), uncovLen)
  {
    var x := xs[i];
    var L := lastCov;
    var L' := Max(L, x.last);
    assert xs[..i + 1] == xs[..i] + [x];
    forall y | first <= y <= Min(L, last)
      ensures Covered(xs[..i + 1], y) <==> Covered(xs[..i], y)
    {
      CoveredSnoc(xs[..i], x, y);
      if Contains(x.first, x.last, y) {
        var j :| 0 <= j < i && Hit(xs[j], first, last) && xs[j].last == L;
        assert xs[j].first <= x.first;
        assert xs[..i][j] == xs[j];
      }
    }
    SameCover(xs[..i + 1], xs[..i], first, Min(L, last));
    if L < Min(L', last) {
      forall y | L + 1 <= y <= Min(L', last)
        ensures Covered(xs[..i + 1], y) && Contains(x.first, x.last, y)
      {
        CoveredSnoc(xs[..i], x, y);
      }
      AllCovered(xs[..i + 1], L + 1, Min(L', last));
      UncoveredSplit(xs[..i + 1], first, L, Min(L', last));
    }
    ReachStep(xs, i, first, last, lastCov);
  }

  /** The length of [first, last] that the sorted intervals leave uncovered.
      For well-formed intervals it is the number of integer points of the
      query no interval contains; when no interval overlaps the query it is
      the length of the whole query. */
  method BruteForceCoverage<T>(intervals: seq<IntervalNode<T>>, first: int, last: int) returns (uncovLen: int)
    requires SortedByFirst(intervals)
    ensures WellFormed(intervals) ==> uncovLen == Uncovered(intervals, first, last)
    ensures CountHits(intervals, first, last) == 0 && first <= last ==> uncovLen == last - first + 1
    ensures 0 <= uncovLen
  {
    var lastCov := first - 1;
    uncovLen := 0;
    for i := 0 to |intervals|
      invariant first - 1 <= lastCov && 0 <= uncovLen
      invariant CountHits(intervals[..i], first, last) == 0 ==> lastCov == first - 1 && uncovLen == 0
      invariant WellFormed(intervals) ==> Swept(intervals, i, first, last, lastCov, uncovLen)
    {
      var interval := intervals[i];
      if WellFormed(intervals) {
        if !Hit(interval, first, last) {
          SweepMiss(intervals, i, first, last, lastCov, uncovLen);
        } else if interval.first > lastCov {
          SweepGap(intervals, i, first, last, lastCov, uncovLen);
        } else {
          SweepOverlap(intervals, i, first, last, lastCov, uncovLen);
        }
      }
      assert intervals[..i + 1] == intervals[..i] + [interval];
      CountHitsAppend(intervals[..i], [interval], first, last);
      if Overlaps(interval.first, interval.last, first, last) {
        if interval.first > lastCov {
          uncovLen := uncovLen + interval.first - (lastCov + 1);
        }
        lastCov := Max(lastCov, interval.last);
      }
    }
    assert intervals[..|intervals|] == intervals;
    if WellFormed(intervals) {
      if lastCov < last {
        UncoveredSplit(intervals, first, lastCov, last);
        forall y | lastCov + 1 <= y <= last
          ensures !Covered(intervals, y)
        {
          BeyondUncovered(intervals, |intervals|, first, last, lastCov, y);
        }
        AllUncovered(intervals, lastCov + 1, last);
      }
    }
    if lastCov < last {
      uncovLen := uncovLen + last - lastCov;
    }
  }

  /** Run each query against the tree and by brute force and compare the
      counts. The tree was built from the same intervals, so every
      comparison agrees. */
  method CheckCountQueries<T>(a: COITree<T>, b: seq<IntervalNode<T>>, queries: seq<(int, int)>) returns (agreed: bool)
    requires a.Valid() && a.input == b
    ensures agreed
  {
    agreed := true;
    for q := 0 to |queries|
      invariant agreed
    {
      var (queryFirst, queryLast) := queries[q];
      var aCount, overlap, visited := Query(a, queryFirst, queryLast);
      var hits := BruteForceQuery(b, queryFirst, queryLast);
      var bCount := |hits|;
      agreed := agreed && aCount == bCount;
    }
  }
}
