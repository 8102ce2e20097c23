/** The sequential `QuickSort(first, last)` over the index range `[first, last)` of an
    array: the first element is the pivot, the rest of the range is partitioned by
    `x < pivot`, the pivot is swapped to the end of the smaller part, and both parts
    are sorted recursively. */
module ConcurrentQsort {

  /** `s[lo..hi]` is in non-decreasing order. */
  ghost predicate SortedRange(s: seq<int>, lo: int, hi: int)
    requires 0 <= lo <= hi <= |s|
  {
    forall i, j :: lo <= i < j < hi ==> s[i] <= s[j]
  }

  /** Every element of `s[lo..hi]` is below `p`. */
  ghost predicate AllBelow(s: seq<int>, lo: int, hi: int, p: int)
    requires 0 <= lo <= hi <= |s|
  {
    forall i :: lo <= i < hi ==> s[i] < p
  }

  /** Every element of `s[lo..hi]` is at least `p`. */
  ghost predicate AllAtLeast(s: seq<int>, lo: int, hi: int, p: int)
    requires 0 <= lo <= hi <= |s|
  {
    forall i :: lo <= i < hi ==> s[i] >= p
  }

  /** `t` is `s` with only `s[lo..hi]` rearranged. */
  ghost predicate PermutedWithin(s: seq<int>, t: seq<int>, lo: int, hi: int)
    requires 0 <= lo <= hi <= |s|
  {
    && |t| == |s|
    && multiset(t) == multiset(s)
    && t[..lo] == s[..lo]
    && t[hi..] == s[hi..]
  }

  /** Rearranging within a range keeps the range's multiset. */
  lemma PermutedRange(s: seq<int>, t: seq<int>, lo: int, hi: int)
    requires 0 <= lo <= hi <= |s| && PermutedWithin(s, t, lo, hi)
    ensures multiset(t[lo..hi]) == multiset(s[lo..hi])
  {
    assert s == s[..lo] + s[lo..hi] + s[hi..];
    assert t == t[..lo] + t[lo..hi] + t[hi..];
    assert multiset(s) == multiset(s[..lo]) + multiset(s[lo..hi]) + multiset(s[hi..]);
    assert multiset(t) == multiset(s[..lo]) + multiset(t[lo..hi]) + multiset(s[hi..]);
    forall x
      ensures multiset(t[lo..hi])[x] == multiset(s[lo..hi])[x]
    {
      assert multiset(t)[x] == multiset(s)[x];
    }
  }

  /** A bound on every element of a range survives rearranging it. */
  lemma {:induction false} PermutedBounds(s: seq<int>, t: seq<int>, lo: int, hi: int, p: int)
    requires 0 <= lo <= hi <= |s| && PermutedWithin(s, t, lo, hi)
    ensures AllBelow(s, lo, hi, p) ==> AllBelow(t, lo, hi, p)
    ensures AllAtLeast(s, lo, hi, p) ==> AllAtLeast(t, lo, hi, p)
  {
    PermutedRange(s, t, lo, hi);
    forall i | lo <= i < hi
      ensures t[i] in multiset(s[lo..hi])
    {
      assert t[i] == t[lo..hi][i - lo];
    }
    forall x | x in multiset(s[lo..hi])
      ensures exists k :: lo <= k < hi && s[k] == x
    {
      var k :| 0 <= k < hi - lo && s[lo..hi][k] == x;
      assert s[lo + k] == x;
    }
  }

  /** Two rearrangements within the same range make one. */
  lemma PermutedTrans(s: seq<int>, t: seq<int>, u: seq<int>, lo: int, hi: int)
    requires 0 <= lo <= hi <= |s|
    requires PermutedWithin(s, t, lo, hi) && PermutedWithin(t, u, lo, hi)
    ensures PermutedWithin(s, u, lo, hi)
  {
  }

  /** A rearrangement within a range is one within any range containing it. */
  lemma PermutedWiden(s: seq<int>, t: seq<int>, lo: int, hi: int, lo': int, hi': int)
    requires 0 <= lo' <= lo <= hi <= hi' <= |s|
    requires PermutedWithin(s, t, lo, hi)
    ensures PermutedWithin(s, t, lo', hi')
  {
    assert s[..lo'] == s[..lo][..lo'] && t[..lo'] == t[..lo][..lo'];
    assert s[hi'..] == s[hi..][hi' - hi..] && t[hi'..] == t[hi..][hi' - hi..];
  }

  /** `std::iter_swap`. */
  method IterSwap(a: array<int>, i: nat, j: nat)
    requires i < a.Length && j < a.Length
    modifies a
    ensures a[..] == old(a[..])[i := old(a[j])][j := old(a[i])]
    ensures PermutedWithin(old(a[..]), a[..], if i <= j then i else j, if i <= j then j + 1 else i + 1)
  {
    a[i], a[j] := a[j], a[i];
  }

  /** An implementation of `std::partition` meeting its standard contract: the range
      is rearranged so that the elements satisfying `x < pivot` come first, and the
      returned index is where the others start. */
  method Partition(a: array<int>, lo: nat, hi: nat, pivot: int) returns (d: nat)
    requires lo <= hi <= a.Length
    modifies a
    ensures lo <= d <= hi
    ensures AllBelow(a[..], lo, d, pivot) && AllAtLeast(a[..], d, hi, pivot)
    ensures PermutedWithin(old(a[..]), a[..], lo, hi)
  {
    d := lo;
    for j := lo to hi
      invariant lo <= d <= j
      invariant AllBelow(a[..], lo, d, pivot) && AllAtLeast(a[..], d, j, pivot)
      invariant PermutedWithin(old(a[..]), a[..], lo, hi)
    {
      if a[j] < pivot {
        ghost var before := a[..];
        IterSwap(a, d, j);
        PermutedWiden(before, a[..], d, j + 1, lo, hi);
        PermutedTrans(old(a[..]), before, a[..], lo, hi);
        d := d + 1;
      }
    }
  }

  /** Steps 1 to 3 of `QuickSort` on a non-empty range: partition the range after the
      pivot `a[first]` by `x < pivot`, then swap the pivot to `divide - 1`, the end of
      the smaller part. */
  method PlacePivot(a: array<int>, first: nat, last: nat) returns (divide: nat)
    requires first < last <= a.Length
    modifies a
    ensures first < divide <= last && a[divide - 1] == old(a[first])
    ensures AllBelow(a[..], first, divide - 1, a[divide - 1]) && AllAtLeast(a[..], divide, last, a[divide - 1])
    ensures PermutedWithin(old(a[..]), a[..], first, last)
  {
    var pivot := a[first];
    divide := Partition(a, first + 1, last, pivot);
    ghost var parted := a[..];
    PermutedWiden(old(a[..]), parted, first + 1, last, first, last);
    IterSwap(a, first, divide - 1);
    SwapKeepsSplit(parted, a[..], first, divide, last, pivot);
    PermutedWiden(parted, a[..], first, divide, first, last);
    PermutedTrans(old(a[..]), parted, a[..], first, last);
  }

  /** Sorts `a[first..last]` in place and rearranges nothing outside it. */
  method QuickSort(a: array<int>, first: nat, last: nat)
    requires first <= last <= a.Length
    modifies a
    ensures SortedRange(a[..], first, last)
    ensures PermutedWithin(old(a[..]), a[..], first, last)
    decreases last - first
  {
    if last - first == 0 {
      return;
    }
    var divide := PlacePivot(a, first, last);
    ghost var pivoted := a[..];
    ghost var pivot := a[divide - 1];
    QuickSort(a, first, divide - 1);
    ghost var left := a[..];
    PermutedBounds(pivoted, left, first, divide - 1, pivot);
    QuickSort(a, divide, last);
    PermutedBounds(left, a[..], divide, last, pivot);
    SortedJoin(pivoted, left, a[..], first, divide, last, pivot);
    PermutedWiden(pivoted, left, first, divide - 1, first, last);
    PermutedWiden(left, a[..], divide, last, first, last);
    PermutedTrans(pivoted, left, a[..], first, last);
    PermutedTrans(old(a[..]), pivoted, a[..], first, last);
  }

  /** After the partition of `(first, last)` and the swap of the pivot from `first` to
      `divide - 1`, the pivot separates the two parts. */
  lemma SwapKeepsSplit(parted: seq<int>, pivoted: seq<int>, first: int, divide: int, last: int, pivot: int)
    requires 0 <= first < divide <= last <= |parted|
    requires parted[first] == pivot
    requires AllBelow(parted, first + 1, divide, pivot) && AllAtLeast(parted, divide, last, pivot)
    requires pivoted == parted[first := parted[divide - 1]][divide - 1 := parted[first]]
    ensures pivoted[divide - 1] == pivot
    ensures AllBelow(pivoted, first, divide - 1, pivot) && AllAtLeast(pivoted, divide, last, pivot)
  {
  }

  /** A sorted part below the pivot, the pivot, and a sorted part not below it make a
      sorted range. */
  lemma SortedJoin(pivoted: seq<int>, left: seq<int>, done: seq<int>, first: int, divide: int, last: int, pivot: int)
    requires 0 <= first < divide <= last <= |pivoted|
    requires pivoted[divide - 1] == pivot
    requires PermutedWithin(pivoted, left, first, divide - 1)
    requires AllBelow(left, first, divide - 1, pivot) && SortedRange(left, first, divide - 1)
    requires PermutedWithin(left, done, divide, last)
    requires AllAtLeast(done, divide, last, pivot) && SortedRange(done, divide, last)
    ensures SortedRange(done, first, last)
  {
    assert done[..divide] == left[..divide];
    assert left[divide - 1..] == pivoted[divide - 1..];
    assert done[divide - 1] == left[divide - 1] == pivoted[divide - 1];
    forall i | first <= i < divide
      ensures done[i] == left[i]
    {
      assert done[i] == done[..divide][i];
    }
  }

  /** Sorting a whole array: the result is sorted and a permutation of the input. */
  method Sort(a: array<int>)
    modifies a
    ensures SortedRange(a[..], 0, a.Length)
    ensures multiset(a[..]) == old(multiset(a[..]))
  {
    QuickSort(a, 0, a.Length);
  }

  /** An empty range is left alone. */
  method EmptyRangeScenario() returns (s: seq<int>)
    ensures s == [3, 1, 2]
  {
    var a := new int[3];
    a[0], a[1], a[2] := 3, 1, 2;
    QuickSort(a, 1, 1);
    s := a[..];
  }
}
