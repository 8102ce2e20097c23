/** `ArrayBasedBoundedQueue<T>`: a ring buffer over a vector of `capacity + 1` slots.
    One slot always stays free so that `head == tail` means empty and
    `(tail + 1) % n == head` means full. */
module ArrayQueue {
  import opened Common

  /** `c` sits in the ring `d` from slot `h` on, wrapping round at the end. */
  ghost predicate Laid<T>(c: seq<T>, d: seq<T>, h: nat) {
    && |d| >= 1 && h < |d| && |c| < |d|
    && forall i :: 0 <= i < |c| ==> c[i] == d[Wrap(h + i, |d|)]
  }

  class ArrayBasedBoundedQueue<T(0)> {
    var head: nat
    var tail: nat
    const data: array<T>

    /** The queued elements, oldest first. */
    ghost var Contents: seq<T>

    ghost predicate Valid()
      reads this, data
    {
      && data.Length >= 1
      && head < data.Length
      && tail < data.Length
      && |Contents| < data.Length
      && tail == Wrap(head + |Contents|, data.Length)
      && Laid(Contents, data[..], head)
    }

    /** The number of elements the queue can hold. */
    ghost function Capacity(): nat
      reads this, data
      requires Valid()
    {
      data.Length - 1
    }

    /** The vector gets `capacity + 1` slots; the queue starts empty. */
    constructor (capacity: nat)
      ensures Valid() && fresh(data)
      ensures data.Length == capacity + 1 && Capacity() == capacity
      ensures head == 0 && tail == 0 && Contents == []
    {
      data := new T[capacity + 1];
      head, tail := 0, 0;
      Contents := [];
    }

    function Empty(): (r: bool)
      reads this, data
      requires Valid()
      ensures r <==> Contents == []
    {
      head == tail
    }

    function Full(): (r: bool)
      reads this, data
      requires Valid()
      ensures r <==> |Contents| == Capacity()
    {
      (tail + 1) % data.Length == head
    }

    function Size(): (r: nat)
      reads this, data
      requires Valid()
      ensures r == |Contents| && r <= Capacity()
    {
      if tail >= head then tail - head else tail + data.Length - head
    }

    /** Fails without change on a full queue; otherwise appends at the back. */
    method Enqueue(value: T) returns (ok: bool)
      requires Valid()
      modifies this, data
      ensures Valid()
      ensures ok <==> |old(Contents)| < Capacity()
      ensures Contents == if ok then old(Contents) + [value] else old(Contents)
      ensures !ok ==> head == old(head) && tail == old(tail) && data[..] == old(data[..])
    {
      if Full() {
        return false;
      }
      data[tail] := value;
      tail := tail + 1;
      if tail == data.Length {
        tail := 0;
      }
      Contents := Contents + [value];
      ok := true;
    }

    /** Always succeeds: on a full queue the oldest element is dropped first. With
        capacity 0 the value is written and at once dropped. */
    method EnqueueCycle(value: T) returns (ok: bool)
      requires Valid()
      modifies this, data
      ensures Valid() && ok
      ensures |old(Contents)| < Capacity() ==> Contents == old(Contents) + [value]
      ensures |old(Contents)| == Capacity() ==> Contents == (old(Contents) + [value])[1..]
    {
      ghost var wasFull, c0, h0, t0, n, d0 := Full(), Contents, head, tail, data.Length, data[..];
      if Full() {
        head := head + 1;
        if head == data.Length {
          head := 0;
        }
      }
      data[tail] := value;
      tail := tail + 1;
      if tail == data.Length {
        tail := 0;
      }
      Contents := if wasFull then (Contents + [value])[1..] else Contents + [value];
      ok := true;
      TailAfterCycle(h0, |c0|, n, wasFull);
      RingAfterCycle(c0, d0, h0, value, wasFull, Contents, data[..], head);
    }

    /** Fails on an empty queue, leaving the caller's `current` value; otherwise yields
        and removes the front element. */
    method Dequeue(current: T) returns (ok: bool, value: T)
      requires Valid()
      modifies this
      ensures Valid() && tail == old(tail)
      ensures ok <==> old(Contents) != []
      ensures !ok ==> value == current && Contents == old(Contents) && head == old(head)
      ensures ok ==> value == old(Contents)[0] && Contents == old(Contents)[1..]
    {
      if Empty() {
        return false, current;
      }
      value := data[head];
      head := head + 1;
      if head == data.Length {
        head := 0;
      }
      Contents := Contents[1..];
      ok := true;
    }
  }

  /** The ring layout after `EnqueueCycle`: the value lands in the slot after the last
      element and, on a full ring, the head moves on by one. */
  lemma RingAfterCycle<T>(c0: seq<T>, d0: seq<T>, h0: nat, v: T, full: bool, c: seq<T>, d: seq<T>, h: nat)
    requires Laid(c0, d0, h0) && (full <==> |c0| == |d0| - 1)
    requires c == if full then (c0 + [v])[1..] else c0 + [v]
    requires h == if full then Wrap(h0 + 1, |d0|) else h0
    requires d == d0[Wrap(h0 + |c0|, |d0|) := v]
    ensures Laid(c, d, h)
  {
    var n := |d0|;
    forall i | 0 <= i < |c|
      ensures c[i] == d[Wrap(h + i, n)]
    {
      var k := if full then i + 1 else i;
      assert c[i] == (c0 + [v])[k];
      assert Wrap(h + i, n) == Wrap(h0 + k, n) by {
        if full {
          WrapShift(h0, k, n);
        }
      }
      if k < |c0| {
        WrapDistinct(h0, k, |c0|, n);
      }
    }
  }

  /** The tail after `EnqueueCycle` is the slot after the last element again. */
  lemma TailAfterCycle(h0: nat, m: nat, n: nat, full: bool)
    requires h0 < n && m < n && (full <==> m == n - 1)
    ensures Wrap(Wrap(h0 + m, n) + 1, n)
         == if full then Wrap(Wrap(h0 + 1, n) + m, n) else Wrap(h0 + m + 1, n)
  {
  }

  /** Advancing the head by one slot and then `k - 1` more reaches the same slot as
      advancing by `k` at once. */
  lemma WrapShift(h: nat, k: nat, n: nat)
    requires h < n && 1 <= k < n
    ensures Wrap(Wrap(h + 1, n) + k - 1, n) == Wrap(h + k, n)
  {
  }

  /** Distinct offsets below the ring size reach distinct slots. */
  lemma WrapDistinct(h: nat, k: nat, k': nat, n: nat)
    requires h < n && k < k' < n
    ensures Wrap(h + k, n) != Wrap(h + k', n)
  {
  }

  /** What `main` does: capacity 3 holds 1, 2, 3 and refuses 4; `EnqueueCycle(4)`
      drops 1, so the dequeues give 2, 3, 4 and the queue is empty again. */
  method CycleScenario()
    returns (sizeEmpty: nat, sizeFull: nat, refused: bool, cycled: bool, fullAfter: bool, out: seq<int>, emptyAfter: bool)
    ensures sizeEmpty == 0 && sizeFull == 3 && refused && cycled && fullAfter
    ensures out == [2, 3, 4] && emptyAfter
  {
    var q := new ArrayBasedBoundedQueue<int>(3);
    assert q.Empty() && !q.Full();
    sizeEmpty := q.Size();
    var a := q.Enqueue(1);
    assert q.Contents == [1];
    var b := q.Enqueue(2);
    assert q.Contents == [1, 2];
    var c := q.Enqueue(3);
    assert q.Contents == [1, 2, 3];
    assert !q.Empty() && q.Full();
    var d := q.Enqueue(4);
    refused := !d;
    assert q.Contents == [1, 2, 3];
    sizeFull := q.Size();
    cycled := q.EnqueueCycle(4);
    assert q.Contents == [2, 3, 4];
    fullAfter := q.Full();
    var ok1, v1 := q.Dequeue(-1);
    assert v1 == 2 && q.Contents == [3, 4];
    var ok2, v2 := q.Dequeue(v1);
    assert v2 == 3 && q.Contents == [4];
    var ok3, v3 := q.Dequeue(v2);
    assert v3 == 4 && q.Contents == [];
    out := [v1, v2, v3];
    emptyAfter := q.Empty();
  }
}
