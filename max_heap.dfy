/** `MaxHeap`: a binary max-heap stored 1-based in a vector (`slots[0]` is unused), so
    the parent of slot `i` is `i / 2`. The source is a template over any `T` with `<`
    and `>`; the model fixes `T = int`. The vector grows and shrinks, so `slots` is a
    sequence field that the methods reassign. */
module Heap {
  import opened Common

  /** The heap property: every slot from 2 on is at most its parent. */
  ghost predicate IsHeap(s: seq<int>) {
    forall i :: 2 <= i < |s| ==> s[i / 2] >= s[i]
  }

  /** The heap property for the slots whose parent is at least `lo`, except the slots
      whose parent is `hole`. */
  ghost predicate HeapBelow(s: seq<int>, lo: nat, hole: int) {
    forall c :: 2 <= c < |s| && c / 2 >= lo && c / 2 != hole ==> s[c / 2] >= s[c]
  }

  /** The heap property except on the slot `hole` itself (the edge to its parent). */
  ghost predicate HeapExcept(s: seq<int>, hole: nat) {
    forall c :: 2 <= c < |s| && c != hole ==> s[c / 2] >= s[c]
  }

  /** `idx`'s parent, when it is at least `lo`, dominates `idx`'s children: what a slot
      needs from above before it can be sifted. */
  ghost predicate ParentCoversChildren(s: seq<int>, idx: nat, lo: nat) {
    idx >= 2 && idx / 2 >= lo ==>
      forall c :: 2 <= c < |s| && c / 2 == idx ==> s[idx / 2] >= s[c]
  }

  /** `std::swap` of two slots. */
  function SwapSlots(s: seq<int>, i: nat, j: nat): (r: seq<int>)
    requires i < |s| && j < |s|
    ensures |r| == |s| && r[i] == s[j] && r[j] == s[i]
    ensures forall k :: 0 <= k < |s| && k != i && k != j ==> r[k] == s[k]
    ensures multiset(r) == multiset(s)
  {
    s[i := s[j]][j := s[i]]
  }

  /** Swapping two slots from 1 on keeps the stored elements and slot 0. */
  lemma SwapKeepsElements(s: seq<int>, i: nat, j: nat)
    requires 1 <= i < |s| && 1 <= j < |s|
    ensures multiset(SwapSlots(s, i, j)[1..]) == multiset(s[1..])
  {
    assert SwapSlots(s, i, j)[1..] == SwapSlots(s[1..], i - 1, j - 1);
  }

  /** `v` is at least each child of `idx` that exists. */
  ghost predicate DominatesChildren(s: seq<int>, idx: nat, v: int) {
    && (idx * 2 < |s| ==> v >= s[idx * 2])
    && (idx * 2 + 1 < |s| ==> v >= s[idx * 2 + 1])
  }

  /** The children of `idx` are the slots `2 * idx` and `2 * idx + 1`. */
  lemma ChildrenDominated(s: seq<int>, idx: nat, v: int)
    requires idx >= 1 && DominatesChildren(s, idx, v)
    ensures forall c :: 2 <= c < |s| && c / 2 == idx ==> v >= s[c]
  {
    forall c | 2 <= c < |s| && c / 2 == idx
      ensures v >= s[c]
    {
      assert c == idx * 2 || c == idx * 2 + 1;
    }
  }

  /** A slot at least as large as its children closes the hole below it. */
  lemma SettledHere(s: seq<int>, idx: nat, lo: nat)
    requires 1 <= lo <= idx && HeapBelow(s, lo, idx)
    requires idx < |s| ==> DominatesChildren(s, idx, s[idx])
    ensures HeapBelow(s, lo, -1)
  {
    if idx < |s| {
      ChildrenDominated(s, idx, s[idx]);
    }
  }

  /** The slots below `lo` are the same in both sequences. */
  ghost predicate SamePrefix(a: seq<int>, b: seq<int>, lo: nat) {
    |a| == |b| && forall k :: 0 <= k < |a| && k < lo ==> a[k] == b[k]
  }

  lemma SamePrefixTrans(a: seq<int>, b: seq<int>, c: seq<int>, lo: nat)
    requires SamePrefix(a, b, lo) && SamePrefix(b, c, lo)
    ensures SamePrefix(a, c, lo)
  {
  }

  /** A swap of two slots from `lo` on leaves the slots below `lo` alone. */
  lemma SwapKeepsPrefix(s: seq<int>, i: nat, j: nat, lo: nat)
    requires lo <= i < |s| && lo <= j < |s|
    ensures SamePrefix(s, SwapSlots(s, i, j), lo)
  {
  }

  /** One sink step: when `l` is the larger child of `idx` and larger than `slots[idx]`,
      swapping them leaves the hole at `l`, whose new parent covers its children. */
  lemma {:induction false} SinkStep(s: seq<int>, idx: nat, l: nat, lo: nat)
    requires 1 <= lo <= idx && idx < l < |s| && l / 2 == idx
    requires HeapBelow(s, lo, idx) && ParentCoversChildren(s, idx, lo)
    requires s[l] > s[idx]
    requires forall c :: 2 <= c < |s| && c / 2 == idx ==> s[l] >= s[c]
    ensures HeapBelow(SwapSlots(s, l, idx), lo, l)
    ensures ParentCoversChildren(SwapSlots(s, l, idx), l, lo)
  {
    var t := SwapSlots(s, l, idx);
    forall c | 2 <= c < |t| && c / 2 >= lo && c / 2 != l
      ensures t[c / 2] >= t[c]
    {
      if c / 2 == idx {
        assert t[c / 2] == s[l];
      } else if c == idx {
        assert t[c / 2] == s[idx / 2];
      } else {
        assert c != l;
      }
    }
    forall c | 2 <= c < |t| && c / 2 == l
      ensures t[l / 2] >= t[c]
    {
      assert c != l && c != idx;
    }
  }

  /** One sift-up step: swapping a slot with its smaller parent moves the hole up. */
  lemma {:induction false} LiftStep(s: seq<int>, i: nat)
    requires 2 <= i < |s| && s[i / 2] < s[i]
    requires HeapExcept(s, i) && ParentCoversChildren(s, i, 1)
    ensures HeapExcept(SwapSlots(s, i / 2, i), i / 2)
    ensures ParentCoversChildren(SwapSlots(s, i / 2, i), i / 2, 1)
  {
    var p := i / 2;
    var t := SwapSlots(s, p, i);
    forall c | 2 <= c < |t| && c != p
      ensures t[c / 2] >= t[c]
    {
      if c == i {
      } else if c / 2 == i {
        assert t[c / 2] == s[p];
      } else if c / 2 == p {
        assert t[c / 2] == s[i];
      } else {
        assert t[c / 2] == s[c / 2];
      }
    }
    if p >= 2 {
      forall c | 2 <= c < |t| && c / 2 == p
        ensures t[p / 2] >= t[c]
      {
        assert p != i && p / 2 != p;
        assert s[p / 2] >= s[p];
      }
    }
  }

  /** In a heap the root dominates every slot: follow the parents from `i` up to 1. */
  lemma {:induction false} RootDominates(s: seq<int>, i: nat)
    requires IsHeap(s) && 1 <= i < |s|
    ensures s[i] <= s[1]
    decreases i
  {
    if i > 1 {
      RootDominates(s, i / 2);
    }
  }

  lemma RootIsMaximum(s: seq<int>)
    requires IsHeap(s) && |s| >= 2
    ensures forall x :: x in multiset(s[1..]) ==> x <= s[1]
  {
    forall x | x in multiset(s[1..])
      ensures x <= s[1]
    {
      var k :| 0 <= k < |s[1..]| && s[1..][k] == x;
      RootDominates(s, k + 1);
    }
  }

  /** Swapping slot 1 with the last slot and dropping the last slot removes exactly one
      occurrence of the old `slots[1]` from the stored elements. */
  lemma {:induction false} PopRemovesRoot(s: seq<int>)
    requires |s| >= 2
    ensures multiset(SwapSlots(s, 1, |s| - 1)[..|s| - 1][1..]) == multiset(s[1..]) - multiset{s[1]}
  {
    var n := |s|;
    var t := SwapSlots(s, 1, n - 1);
    SwapKeepsElements(s, 1, n - 1);
    assert t[1..] == t[..n - 1][1..] + [t[n - 1]];
    assert t[n - 1] == s[1];
  }

  /** Non-increasing order. */
  ghost predicate NonIncreasing(s: seq<int>) {
    forall i, j :: 0 <= i < j < |s| ==> s[i] >= s[j]
  }

  class MaxHeap {
    var slots: seq<int>

    ghost predicate Valid()
      reads this
    {
      |slots| >= 1 && IsHeap(slots)
    }

    /** The stored elements (slot 0 is not one of them). */
    ghost function Elements(): multiset<int>
      reads this
      requires |slots| >= 1
    {
      multiset(slots[1..])
    }

    /** The default constructor: one unused slot, no elements. */
    constructor ()
      ensures Valid() && slots == [0] && Elements() == multiset{}
    {
      slots := [0];
    }

    /** The vector constructor: copies `data` into slots 1.., then `BuildHeap`. */
    constructor FromVector(data: seq<int>)
      ensures Valid() && |slots| == |data| + 1
      ensures Elements() == multiset(data)
    {
      slots := seq(|data| + 1, _ => 0);
      new;
      var i := 1;
      while i < |slots|
        invariant 1 <= i <= |data| + 1 && |slots| == |data| + 1
        invariant forall k :: 1 <= k < i ==> slots[k] == data[k - 1]
      {
        slots := slots[i := data[i - 1]];
        i := i + 1;
      }
      assert slots[1..] == data;
      BuildHeap();
    }

    function Empty(): (r: bool)
      reads this
      ensures r <==> |slots| < 2
      ensures |slots| >= 1 ==> (r <==> Elements() == multiset{})
    {
      assert |slots| >= 2 ==> slots[1] in multiset(slots[1..]);
      |slots| < 2
    }

    /** The largest element; throws `runtime_error` on an empty heap. */
    function Top(): (r: Result<int, string>)
      reads this
      requires Valid()
      ensures Empty() <==> r == Err("Top: empty heap!")
      ensures r.Ok? ==> r.value in Elements()
      ensures r.Ok? ==> forall x :: x in Elements() ==> x <= r.value
    {
      if Empty() then Err("Top: empty heap!")
      else
        RootIsMaximum(slots);
        assert slots[1] in multiset(slots[1..]);
        Ok(slots[1])
    }

    /** Throws on an empty heap; otherwise moves the last slot to the root, drops one
        slot and restores the heap property with `MaxHeapify(1)`. */
    method Pop() returns (err: Option<string>)
      requires Valid()
      modifies this
      ensures Valid()
      ensures old(|slots|) < 2 ==> err == Some("Pop: empty heap!") && slots == old(slots)
      ensures old(|slots|) >= 2 ==>
        err == None && |slots| == old(|slots|) - 1
        && Elements() == old(Elements()) - multiset{old(slots[1])}
    {
      if Empty() {
        return Some("Pop: empty heap!");
      }
      PopRemovesRoot(slots);
      slots := SwapSlots(slots, 1, |slots| - 1);
      slots := slots[..|slots| - 1];
      MaxHeapify(1, 1);
      err := None;
    }

    /** Appends `val` and sifts it up: exactly one more occurrence of `val`. */
    method Push(val: int)
      requires Valid()
      modifies this
      ensures Valid() && |slots| == old(|slots|) + 1
      ensures Elements() == old(Elements()) + multiset{val}
    {
      assert (slots + [val])[1..] == slots[1..] + [val];
      slots := slots + [val];
      SiftUp(|slots| - 1);
    }

    /** Sinks `slots[idx]` until neither child is larger. `lo` is a proof-only bound:
        the heap property is known for the slots whose parent is at least `lo`, except
        below `idx`, and `idx`'s parent (when at least `lo`) dominates `idx`'s
        children. Afterwards it holds for all slots whose parent is at least `lo`. */
    method MaxHeapify(idx: nat, ghost lo: nat)
      requires |slots| >= 1 && 1 <= lo <= idx
      requires HeapBelow(slots, lo, idx) && ParentCoversChildren(slots, idx, lo)
      modifies this
      ensures |slots| == old(|slots|) && multiset(slots[1..]) == old(multiset(slots[1..]))
      ensures HeapBelow(slots, lo, -1)
      ensures SamePrefix(old(slots), slots, lo)
      decreases |slots| - idx
    {
      var left := idx * 2;
      var right := idx * 2 + 1;
      var largest := idx;
      if left < |slots| && slots[left] > slots[largest] {
        largest := left;
      }
      if right < |slots| && slots[right] > slots[largest] {
        largest := right;
      }
      assert largest < |slots| ==> DominatesChildren(slots, idx, slots[largest]);
      if idx != largest {
        ChildrenDominated(slots, idx, slots[largest]);
        SinkStep(slots, idx, largest, lo);
        SwapKeepsElements(slots, largest, idx);
        ghost var before := slots;
        slots := SwapSlots(slots, largest, idx);
        SwapKeepsPrefix(before, largest, idx, lo);
        MaxHeapify(largest, lo);
        SamePrefixTrans(before, SwapSlots(before, largest, idx), slots, lo);
      } else {
        SettledHere(slots, idx, lo);
      }
    }

    /** Lifts `slots[idx]` while it is larger than its parent. */
    method SiftUp(idx: nat)
      requires 1 <= idx < |slots|
      requires HeapExcept(slots, idx) && ParentCoversChildren(slots, idx, 1)
      modifies this
      ensures |slots| == old(|slots|) && multiset(slots[1..]) == old(multiset(slots[1..]))
      ensures IsHeap(slots)
    {
      var i := idx;
      while i > 1
        invariant 1 <= i < |slots| && |slots| == old(|slots|)
        invariant multiset(slots[1..]) == old(multiset(slots[1..]))
        invariant HeapExcept(slots, i) && ParentCoversChildren(slots, i, 1)
      {
        var parent := i / 2;
        if slots[parent] < slots[i] {
          LiftStep(slots, i);
          SwapKeepsElements(slots, parent, i);
          slots := SwapSlots(slots, parent, i);
          i := parent;
        } else {
          break;
        }
      }
    }

    /** Heapifies slots `(n - 1) / 2` down to 1; every later slot is a leaf. */
    method BuildHeap()
      requires |slots| >= 1
      modifies this
      ensures Valid()
      ensures |slots| == old(|slots|) && multiset(slots[1..]) == old(multiset(slots[1..]))
    {
      var i := (|slots| - 1) / 2;
      while i >= 1
        invariant 0 <= i <= (|slots| - 1) / 2
        invariant |slots| == old(|slots|) && multiset(slots[1..]) == old(multiset(slots[1..]))
        invariant HeapBelow(slots, i + 1, -1)
      {
        MaxHeapify(i, i);
        i := i - 1;
      }
    }
  }

  /** Appending the maximum of the remaining elements keeps the output non-increasing. */
  lemma DrainStep(out: seq<int>, before: multiset<int>, after: multiset<int>, top: int)
    requires NonIncreasing(out)
    requires |out| > 0 ==> forall x :: x in before ==> x <= out[|out| - 1]
    requires top in before && (forall x :: x in before ==> x <= top)
    requires after == before - multiset{top}
    ensures NonIncreasing(out + [top])
    ensures forall x :: x in after ==> x <= top
    ensures multiset(out + [top]) + after == multiset(out) + before
  {
    forall x | x in after
      ensures x <= top
    {
      assert x in before;
    }
  }

  /** The `while (!h.Empty()) { Top(); Pop(); }` loop of `main`: the values come out
      non-increasing and are exactly the stored elements. */
  method Drain(h: MaxHeap) returns (out: seq<int>)
    requires h.Valid()
    modifies h
    ensures h.Valid() && h.Empty()
    ensures NonIncreasing(out) && multiset(out) == old(h.Elements())
  {
    out := [];
    while !h.Empty()
      invariant h.Valid()
      invariant multiset(out) + h.Elements() == old(h.Elements())
      invariant NonIncreasing(out)
      invariant |out| > 0 ==> forall x :: x in h.Elements() ==> x <= out[|out| - 1]
      decreases |h.slots|
    {
      ghost var before := h.Elements();
      var top := h.Top();
      var _ := h.Pop();
      DrainStep(out, before, h.Elements(), top.value);
      out := out + [top.value];
    }
  }

  /** The second half of `main`: build a heap from {2, -3, 1, 4, 99, 15} and drain it. */
  method BuildDrainScenario() returns (out: seq<int>)
    ensures NonIncreasing(out)
    ensures multiset(out) == multiset([2, -3, 1, 4, 99, 15])
  {
    var h := new MaxHeap.FromVector([2, -3, 1, 4, 99, 15]);
    out := Drain(h);
  }

  /** The first half of `main`: push 1, 5, 7, 3, then drain. */
  method PushDrainScenario() returns (out: seq<int>)
    ensures NonIncreasing(out)
    ensures multiset(out) == multiset{1, 5, 7, 3}
  {
    var h := new MaxHeap();
    h.Push(1);
    h.Push(5);
    h.Push(7);
    h.Push(3);
    out := Drain(h);
  }
}
