/** `binary_search`, `lower_bound` and `upper_bound` over a read-only random-access
    container of `int`s, each a loop that narrows an index interval `[low, high]` or
    `[low, high)` around its midpoint `low + (high - low) / 2`. */
module BinarySearch {

  /** Non-decreasing order. */
  ghost predicate Sorted(c: seq<int>) {
    forall i, j :: 0 <= i < j < |c| ==> c[i] <= c[j]
  }

  /** `i` is `std::lower_bound`'s answer: everything before it is below `value`,
      everything from it on is not. */
  ghost predicate IsLowerBound(c: seq<int>, value: int, i: int) {
    && 0 <= i <= |c|
    && (forall j :: 0 <= j < i ==> c[j] < value)
    && (forall j :: i <= j < |c| ==> c[j] >= value)
  }

  /** `i` is `std::upper_bound`'s answer: everything before it is at most `value`,
      everything from it on is above it. */
  ghost predicate IsUpperBound(c: seq<int>, value: int, i: int) {
    && 0 <= i <= |c|
    && (forall j :: 0 <= j < i ==> c[j] <= value)
    && (forall j :: i <= j < |c| ==> c[j] > value)
  }

  /** Closed-interval search. A hit is always a real occurrence; on a sorted container
      a miss means the value does not occur (an empty container misses at once, as
      `high` starts at -1). */
  method Search(c: seq<int>, value: int) returns (found: bool)
    ensures found ==> value in c
    ensures Sorted(c) ==> (found <==> value in c)
  {
    var low, high := 0, |c| - 1;
    while low <= high
      invariant 0 <= low <= high + 1 <= |c|
      invariant Sorted(c) ==> forall j :: 0 <= j < |c| && !(low <= j <= high) ==> c[j] != value
      decreases high - low
    {
      var mid := low + (high - low) / 2;
      if c[mid] == value {
        return true;
      }
      if c[mid] < value {
        low := mid + 1;
      } else {
        high := mid - 1;
      }
    }
    return false;
  }

  /** Half-open search for the first element not below `value`. Whatever the order,
      the answer is a boundary: the element before it is below `value` and the one at
      it is not; on a sorted container it is the least such index. */
  method LowerBound(c: seq<int>, value: int) returns (r: int)
    ensures 0 <= r <= |c|
    ensures r > 0 ==> c[r - 1] < value
    ensures r < |c| ==> c[r] >= value
    ensures Sorted(c) ==> IsLowerBound(c, value, r)
  {
    var low, high := 0, |c|;
    while low < high
      invariant 0 <= low <= high <= |c|
      invariant low > 0 ==> c[low - 1] < value
      invariant high < |c| ==> c[high] >= value
      invariant Sorted(c) ==> (forall j :: 0 <= j < low ==> c[j] < value) && (forall j :: high <= j < |c| ==> c[j] >= value)
    {
      var mid := low + (high - low) / 2;
      if c[mid] < value {
        low := mid + 1;
      } else {
        high := mid;
      }
    }
    return low;
  }

  /** Half-open search for the first element above `value`, with the same boundary
      guarantee as `LowerBound`. */
  method UpperBound(c: seq<int>, value: int) returns (r: int)
    ensures 0 <= r <= |c|
    ensures r > 0 ==> c[r - 1] <= value
    ensures r < |c| ==> c[r] > value
    ensures Sorted(c) ==> IsUpperBound(c, value, r)
  {
    var low, high := 0, |c|;
    while low < high
      invariant 0 <= low <= high <= |c|
      invariant low > 0 ==> c[low - 1] <= value
      invariant high < |c| ==> c[high] > value
      invariant Sorted(c) ==> (forall j :: 0 <= j < low ==> c[j] <= value) && (forall j :: high <= j < |c| ==> c[j] > value)
    {
      var mid := low + (high - low) / 2;
      if c[mid] <= value {
        low := mid + 1;
      } else {
        high := mid;
      }
    }
    return low;
  }

  /** The elements before a lower bound are below `value`. */
  lemma BelowLowerBound(c: seq<int>, value: int, i: int, k: int)
    requires IsLowerBound(c, value, i) && 0 <= k < i
    ensures c[k] < value
  {
  }

  /** The elements before an upper bound are at most `value`. */
  lemma BelowUpperBound(c: seq<int>, value: int, i: int, k: int)
    requires IsUpperBound(c, value, i) && 0 <= k < i
    ensures c[k] <= value
  {
  }

  /** The two bounds delimit exactly the occurrences of `value`: the lower bound comes
      first, and an index lies between them iff it holds `value`. */
  lemma EqualRange(c: seq<int>, value: int, lo: int, hi: int)
    requires IsLowerBound(c, value, lo) && IsUpperBound(c, value, hi)
    ensures lo <= hi
    ensures forall j :: 0 <= j < |c| ==> (lo <= j < hi <==> c[j] == value)
  {
    if hi < lo {
      BelowLowerBound(c, value, lo, hi);
      assert false;
    }
  }

  /** A container has at most one lower bound for each value. */
  lemma LowerBoundUnique(c: seq<int>, value: int, i: int, i': int)
    requires IsLowerBound(c, value, i) && IsLowerBound(c, value, i')
    ensures i == i'
  {
    if i < i' {
      BelowLowerBound(c, value, i', i);
      assert false;
    } else if i' < i {
      BelowLowerBound(c, value, i, i');
      assert false;
    }
  }

  /** A container has at most one upper bound for each value. */
  lemma UpperBoundUnique(c: seq<int>, value: int, i: int, i': int)
    requires IsUpperBound(c, value, i) && IsUpperBound(c, value, i')
    ensures i == i'
  {
    if i < i' {
      BelowUpperBound(c, value, i', i);
      assert false;
    } else if i' < i {
      BelowUpperBound(c, value, i, i');
      assert false;
    }
  }

  /** The ten-element vector of `main`. */
  function SampleVector(): (v: seq<int>)
    ensures |v| == 10 && Sorted(v)
  {
    [1, 2, 3, 4, 10, 10, 10, 56, 66, 101]
  }

  /** The `binary_search` assertions of `main`, on an empty vector and on the sample. */
  method SearchScenario() returns (hits: seq<bool>)
    ensures hits == [false, true, true, true, false, false]
  {
    var v1 := SampleVector();
    assert v1[4] == 10 && v1[9] == 101 && v1[0] == 1;
    var e := Search([], 123);
    var h1 := Search(v1, 10);
    var h2 := Search(v1, 101);
    var h3 := Search(v1, 1);
    var h4 := Search(v1, 65);
    var h5 := Search(v1, -18);
    hits := [e, h1, h2, h3, h4, h5];
  }

  /** The `lower_bound` assertions of `main`: each answer is the one boundary of the
      sample vector for that value. */
  method LowerBoundScenario() returns (lowers: seq<int>)
    ensures lowers == [10, 0, 0, 4, 7, 1]
  {
    var v1 := SampleVector();
    var l1 := LowerBound(v1, 102);
    var l2 := LowerBound(v1, 1);
    var l3 := LowerBound(v1, -1);
    var l4 := LowerBound(v1, 10);
    var l5 := LowerBound(v1, 56);
    var l6 := LowerBound(v1, 2);
    assert IsLowerBound(v1, 10, 4) && IsLowerBound(v1, 56, 7) && IsLowerBound(v1, 2, 1);
    LowerBoundUnique(v1, 10, l4, 4);
    LowerBoundUnique(v1, 56, l5, 7);
    LowerBoundUnique(v1, 2, l6, 1);
    lowers := [l1, l2, l3, l4, l5, l6];
  }

  /** The `upper_bound` assertions of `main`. */
  method UpperBoundScenario() returns (uppers: seq<int>)
    ensures uppers == [10, 1, 0, 7, 8, 2]
  {
    var v1 := SampleVector();
    var u1 := UpperBound(v1, 102);
    var u2 := UpperBound(v1, 1);
    var u3 := UpperBound(v1, -1);
    var u4 := UpperBound(v1, 10);
    var u5 := UpperBound(v1, 56);
    var u6 := UpperBound(v1, 2);
    assert IsUpperBound(v1, 1, 1) && IsUpperBound(v1, 10, 7) && IsUpperBound(v1, 56, 8) && IsUpperBound(v1, 2, 2);
    UpperBoundUnique(v1, 1, u2, 1);
    UpperBoundUnique(v1, 10, u4, 7);
    UpperBoundUnique(v1, 56, u5, 8);
    UpperBoundUnique(v1, 2, u6, 2);
    uppers := [u1, u2, u3, u4, u5, u6];
  }
}
