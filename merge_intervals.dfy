/** Overlap of closed integer intervals `[start, end]` (a `std::pair<int, int>`) and
    the merge of a list of intervals sorted by start: a single pass keeps a current
    interval, widens it over every following interval it overlaps, and flushes it to
    the output at the first one it does not. */
module MergeIntervals {

  /** `first` is the start and `second` the end. */
  datatype Interval = Interval(start: int, end: int)

  /** `lo <= hi`. */
  predicate WellFormed(i: Interval) {
    i.start <= i.end
  }

  /** Two intervals overlap unless one of them ends before the other starts. */
  function IntervalOverlap(first: Interval, second: Interval): (r: bool)
    ensures r <==> !(second.start > first.end || first.start > second.end)
  {
    first.end >= second.start && second.end >= first.start
  }

  /** Overlap does not depend on the order of the arguments. */
  lemma OverlapSymmetric(a: Interval, b: Interval)
    ensures IntervalOverlap(a, b) <==> IntervalOverlap(b, a)
  {
  }

  /** Well-formed intervals overlap exactly when they share an integer point. */
  lemma OverlapIsSharedPoint(a: Interval, b: Interval)
    requires WellFormed(a) && WellFormed(b)
    ensures IntervalOverlap(a, b) <==> exists x :: Within(a, x) && Within(b, x)
  {
    if IntervalOverlap(a, b) {
      var x := if a.start <= b.start then b.start else a.start;
      assert Within(a, x) && Within(b, x);
    }
  }

  /** `x` lies in `[i.start, i.end]`. */
  predicate Within(i: Interval, x: int) {
    i.start <= x <= i.end
  }

  /** Intervals that touch at an endpoint overlap; intervals with a gap between them do
      not. */
  lemma TouchingAndSeparated(a: Interval, b: Interval)
    requires WellFormed(a) && WellFormed(b)
    ensures a.end == b.start ==> IntervalOverlap(a, b) && IntervalOverlap(b, a)
    ensures a.end < b.start ==> !IntervalOverlap(a, b) && !IntervalOverlap(b, a)
  {
  }

  function Max(a: int, b: int): (r: int)
    ensures r >= a && r >= b && (r == a || r == b)
  {
    if a >= b then a else b
  }

  /** The loop of `MergeSorted` from current interval `curr` over the intervals still
      to come: the output it goes on to produce. */
  function Merge(curr: Interval, rest: seq<Interval>): (r: seq<Interval>)
    ensures 1 <= |r| <= |rest| + 1
    ensures r[0].start == curr.start && r[0].end >= curr.end
    decreases |rest|
  {
    if |rest| == 0 then [curr]
    else if IntervalOverlap(curr, rest[0]) then Merge(Interval(curr.start, Max(curr.end, rest[0].end)), rest[1..])
    else [curr] + Merge(rest[0], rest[1..])
  }

  /** What `MergeSorted` returns: nothing for no input, otherwise the merge from the
      first interval. */
  function MergeSortedSpec(intervals: seq<Interval>): (r: seq<Interval>)
    ensures |intervals| == 0 <==> |r| == 0
    ensures |r| <= |intervals|
    ensures |intervals| > 0 ==> r[0].start == intervals[0].start
  {
    if |intervals| == 0 then [] else Merge(intervals[0], intervals[1..])
  }

  /** `MergeSorted`: the loop with its `curr` and its `merged` vector. */
  method MergeSorted(intervals: seq<Interval>) returns (merged: seq<Interval>)
    ensures merged == MergeSortedSpec(intervals)
  {
    if |intervals| == 0 {
      return [];
    }
    var curr := intervals[0];
    merged := [];
    for i := 1 to |intervals|
      invariant merged + Merge(curr, intervals[i..]) == Merge(intervals[0], intervals[1..])
    {
      assert intervals[i..][1..] == intervals[i + 1..];
      if IntervalOverlap(curr, intervals[i]) {
        curr := Interval(curr.start, Max(curr.end, intervals[i].end));
      } else {
        merged := merged + [curr];
        curr := intervals[i];
      }
    }
    merged := merged + [curr];
  }

  /** Sorted by start, as `MergeSorted` expects. */
  ghost predicate SortedByStart(s: seq<Interval>) {
    forall i, j :: 0 <= i < j < |s| ==> s[i].start <= s[j].start
  }

  ghost predicate AllWellFormed(s: seq<Interval>) {
    forall i :: 0 <= i < |s| ==> WellFormed(s[i])
  }

  /** Each interval ends before the next one starts. */
  ghost predicate Separated(s: seq<Interval>) {
    forall k :: 0 <= k < |s| - 1 ==> s[k].end < s[k + 1].start
  }

  /** The precondition the merge relies on: `curr` starts no later than the rest, which
      is sorted by start, and every interval is well formed. */
  ghost predicate MergeReady(curr: Interval, rest: seq<Interval>) {
    && WellFormed(curr) && AllWellFormed(rest) && SortedByStart(rest)
    && (forall i :: 0 <= i < |rest| ==> curr.start <= rest[i].start)
  }

  /** From a start-sorted list of well-formed intervals the merge produces well-formed
      intervals, each ending before the next one starts. */
  lemma {:induction false} MergeSeparated(curr: Interval, rest: seq<Interval>)
    requires MergeReady(curr, rest)
    ensures AllWellFormed(Merge(curr, rest)) && Separated(Merge(curr, rest))
    decreases |rest|
  {
    if |rest| > 0 {
      var next := rest[0];
      if IntervalOverlap(curr, next) {
        MergeSeparated(Interval(curr.start, Max(curr.end, next.end)), rest[1..]);
      } else {
        MergeSeparated(next, rest[1..]);
        var tail := Merge(next, rest[1..]);
        assert Merge(curr, rest) == [curr] + tail;
        assert curr.end < tail[0].start;
      }
    }
  }

  /** Consequently consecutive output intervals do not overlap and their starts
      strictly increase. */
  lemma MergeSortedSeparated(intervals: seq<Interval>)
    requires AllWellFormed(intervals) && SortedByStart(intervals)
    ensures forall k :: 0 <= k < |MergeSortedSpec(intervals)| - 1 ==>
      var o := MergeSortedSpec(intervals);
      !IntervalOverlap(o[k], o[k + 1]) && o[k].start < o[k + 1].start
  {
    if |intervals| > 0 {
      MergeSeparated(intervals[0], intervals[1..]);
    }
  }

  /** Some interval of `s` contains `x`. */
  ghost predicate Covers(s: seq<Interval>, x: int) {
    exists k :: 0 <= k < |s| && Within(s[k], x)
  }

  /** Merging covers exactly the points the input covers. */
  lemma {:induction false} MergeCovers(curr: Interval, rest: seq<Interval>, x: int)
    requires MergeReady(curr, rest)
    ensures Covers(Merge(curr, rest), x) <==> Covers([curr] + rest, x)
    decreases |rest|
  {
    if |rest| > 0 {
      var next := rest[0];
      if IntervalOverlap(curr, next) {
        var wide := Interval(curr.start, Max(curr.end, next.end));
        MergeCovers(wide, rest[1..], x);
        CoversWidened(curr, next, rest[1..], x);
        assert Merge(curr, rest) == Merge(wide, rest[1..]);
        assert rest == [next] + rest[1..];
      } else {
        MergeCovers(next, rest[1..], x);
        CoversCons(curr, rest, x);
        assert Merge(curr, rest) == [curr] + Merge(next, rest[1..]);
        CoversCons(curr, Merge(next, rest[1..]), x);
        assert rest == [next] + rest[1..];
      }
    } else {
      assert [curr] + rest == Merge(curr, rest);
    }
  }

  /** A cover by `[i] + s` is a cover by `i` or by `s`. */
  lemma CoversCons(i: Interval, s: seq<Interval>, x: int)
    ensures Covers([i] + s, x) <==> Within(i, x) || Covers(s, x)
  {
    if Within(i, x) {
      assert ([i] + s)[0] == i;
    }
    if Covers(s, x) {
      var k :| 0 <= k < |s| && Within(s[k], x);
      assert ([i] + s)[k + 1] == s[k];
    }
    if Covers([i] + s, x) && !Within(i, x) {
      var k :| 0 <= k < |s| + 1 && Within(([i] + s)[k], x);
      assert k > 0 && ([i] + s)[k] == s[k - 1];
    }
  }

  /** Two overlapping intervals, the first starting no later, cover what their
      widening of the first covers. */
  lemma CoversWidened(curr: Interval, next: Interval, more: seq<Interval>, x: int)
    requires WellFormed(next) && curr.start <= next.start && IntervalOverlap(curr, next)
    ensures Covers([Interval(curr.start, Max(curr.end, next.end))] + more, x) <==> Covers([curr] + ([next] + more), x)
  {
    var wide := Interval(curr.start, Max(curr.end, next.end));
    CoversCons(wide, more, x);
    CoversCons(curr, [next] + more, x);
    CoversCons(next, more, x);
  }

  /** `MergeSorted` on a start-sorted list of well-formed intervals covers exactly the
      points the input covers. */
  lemma MergeSortedCovers(intervals: seq<Interval>, x: int)
    requires AllWellFormed(intervals) && SortedByStart(intervals)
    ensures Covers(MergeSortedSpec(intervals), x) <==> Covers(intervals, x)
  {
    if |intervals| > 0 {
      MergeCovers(intervals[0], intervals[1..], x);
      assert [intervals[0]] + intervals[1..] == intervals;
    }
  }

  /** The `static_assert`s on `IntervalOverlap`. */
  lemma OverlapExamples()
    ensures !IntervalOverlap(Interval(0, 1), Interval(2, 3)) && !IntervalOverlap(Interval(2, 3), Interval(0, 1))
    ensures IntervalOverlap(Interval(3, 6), Interval(6, 7)) && IntervalOverlap(Interval(6, 7), Interval(3, 6))
  {
  }

  /** The `static_assert`s on `MergeSorted`. */
  method MergeExamples() returns (r0: seq<Interval>, r1: seq<Interval>, r2: seq<Interval>, r3: seq<Interval>, r4: seq<Interval>)
    ensures r0 == [] && r1 == [Interval(1, 2)] && r2 == [Interval(1, 3)]
    ensures r3 == [Interval(1, 2), Interval(3, 5)] && r4 == [Interval(1, 10)]
  {
    r0 := MergeSorted([]);
    r1 := MergeSorted([Interval(1, 2)]);
    r2 := MergeSorted([Interval(1, 2), Interval(2, 3)]);
    r3 := MergeSorted([Interval(1, 2), Interval(3, 5)]);
    var in4 := [Interval(1, 5), Interval(4, 7), Interval(6, 10)];
    assert in4[1..] == [Interval(4, 7), Interval(6, 10)] && in4[1..][1..] == [Interval(6, 10)];
    r4 := MergeSorted(in4);
  }
}
