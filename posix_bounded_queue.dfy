/** The POSIX C bounded queue (`BQueue`): a ring buffer of `int` slots with `head`,
    `tail`, `size`, `capacity` and a `close` flag. The mutex and the two condition
    variables are not modelled; a blocking `queue_wait_*` call is modelled by one step
    that either stays `Blocked` (its wait predicate is false, nothing changes) or fires.
    The C functions accept a NULL handle, so the operations take a `BQueue?`. */
module PosixBoundedQueue {
  import opened Common

  class BQueue {
    const capacity: nat
    var size: nat
    var head: nat
    var tail: nat
    const slots: array<int>
    var close: bool

    /** The buffered elements, oldest first. */
    ghost var Contents: seq<int>

    /** The ring-buffer invariant: indices stay below `capacity`, `tail` is `size` slots
        past `head` modulo `capacity` (`Wrap` is `%` here), and the slots from `head` hold `Contents`. */
    ghost predicate Valid()
      reads this, slots
    {
      && capacity >= 1
      && slots.Length == capacity
      && size <= capacity
      && head < capacity
      && tail < capacity
      && tail == Wrap(head + size, capacity)
      && |Contents| == size
      && forall i :: 0 <= i < size ==> Contents[i] == slots[Wrap(head + i, capacity)]
    }

    /** `queue_init`: a requested capacity of 0 is coerced to 1, the slots are
        zero-filled (`calloc`), and the queue starts empty and open. */
    constructor Init(requested: nat)
      ensures Valid() && fresh(slots)
      ensures capacity == if requested > 0 then requested else 1
      ensures size == 0 && head == 0 && tail == 0 && !close && Contents == []
      ensures forall i :: 0 <= i < capacity ==> slots[i] == 0
    {
      capacity := if requested > 0 then requested else 1;
      slots := new int[if requested > 0 then requested else 1](_ => 0);
      size, head, tail, close := 0, 0, 0, false;
      Contents := [];
    }

    /** Appends `val` at `tail` (the shared body of `queue_try_push` and
        `queue_wait_push`); the caller has checked that the queue is not full. */
    method PushSlot(val: int)
      requires Valid() && size < capacity
      modifies this, slots
      ensures Valid() && close == old(close) && head == old(head)
      ensures size == old(size) + 1 && tail == (old(tail) + 1) % capacity
      ensures slots[..] == old(slots[..])[old(tail) := val]
      ensures Contents == old(Contents) + [val]
    {
      slots[tail] := val;
      tail := (tail + 1) % capacity;
      assert tail == Wrap(old(tail) + 1, capacity);
      size := size + 1;
      Contents := Contents + [val];
    }

    /** Removes the element at `head` (the shared body of `queue_try_pop` and
        `queue_wait_pop`); the caller has checked that the queue is not empty. */
    method PopSlot() returns (front: int)
      requires Valid() && size > 0
      modifies this
      ensures Valid() && close == old(close) && tail == old(tail)
      ensures front == old(slots[head]) && front == old(Contents)[0]
      ensures size == old(size) - 1 && head == (old(head) + 1) % capacity
      ensures Contents == old(Contents)[1..]
    {
      front := slots[head];
      assert front == Contents[0];
      head := (head + 1) % capacity;
      assert head == Wrap(old(head) + 1, capacity);
      size := size - 1;
      Contents := Contents[1..];
    }
  }

  /** `queue_empty`: a NULL handle counts as empty. */
  function QueueEmpty(q: BQueue?): (r: bool)
    reads q
    ensures q == null ==> r
    ensures q != null ==> (r <==> q.size == 0)
  {
    q == null || q.size == 0
  }

  /** `queue_full`: a NULL handle is never full. */
  function QueueFull(q: BQueue?): (r: bool)
    reads q
    ensures q == null ==> !r
    ensures q != null ==> (r <==> q.size == q.capacity)
  {
    q != null && q.size == q.capacity
  }

  /** `queue_try_push`: fails on NULL or full, and does NOT look at `close`. */
  method QueueTryPush(q: BQueue?, val: int) returns (ok: bool)
    requires q != null ==> q.Valid()
    modifies q, if q != null then {q.slots} else {}
    ensures q == null ==> !ok
    ensures q != null ==> q.Valid() && q.close == old(q.close)
    ensures q != null ==> ok == (old(q.size) < q.capacity)
    ensures q != null && !ok ==>
      q.size == old(q.size) && q.head == old(q.head) && q.tail == old(q.tail)
      && q.slots[..] == old(q.slots[..]) && q.Contents == old(q.Contents)
    ensures q != null && ok ==>
      q.size == old(q.size) + 1 && q.head == old(q.head)
      && q.tail == (old(q.tail) + 1) % q.capacity
      && q.slots[..] == old(q.slots[..])[old(q.tail) := val]
      && q.Contents == old(q.Contents) + [val]
  {
    if q == null || QueueFull(q) {
      return false;
    }
    q.PushSlot(val);
    ok := true;
  }

  /** `queue_try_pop`: fails on NULL or empty. `keep` says whether the caller passed a
      non-NULL `val`; when it did not, the front element is discarded. */
  method QueueTryPop(q: BQueue?, keep: bool) returns (ok: bool, val: Option<int>)
    requires q != null ==> q.Valid()
    modifies q
    ensures q == null ==> !ok && val == None
    ensures q != null ==> q.Valid() && q.close == old(q.close)
    ensures q != null ==> ok == (old(q.size) > 0)
    ensures q != null && !ok ==>
      val == None && q.size == old(q.size) && q.head == old(q.head)
      && q.tail == old(q.tail) && q.Contents == old(q.Contents)
    ensures q != null && ok ==>
      val == (if keep then Some(old(q.Contents)[0]) else None)
      && q.size == old(q.size) - 1 && q.tail == old(q.tail)
      && q.head == (old(q.head) + 1) % q.capacity
      && q.Contents == old(q.Contents)[1..]
  {
    if q == null || QueueEmpty(q) {
      return false, None;
    }
    var front := q.PopSlot();
    ok := true;
    val := if keep then Some(front) else None;
  }

  /** One step of `queue_wait_push`. It sleeps while the queue is full and open; once
      awake it refuses if the queue is closed, even when there is room. */
  method QueueWaitPush(q: BQueue?, val: int) returns (step: Step<bool>)
    requires q != null ==> q.Valid()
    modifies q, if q != null then {q.slots} else {}
    ensures q == null ==> step == Fired(false)
    ensures q != null ==> q.Valid() && q.close == old(q.close)
    ensures q != null ==>
      step == (if old(q.size) == q.capacity && !q.close then Blocked
               else Fired(!q.close))
    ensures q != null && step != Fired(true) ==>
      q.size == old(q.size) && q.head == old(q.head) && q.tail == old(q.tail)
      && q.slots[..] == old(q.slots[..]) && q.Contents == old(q.Contents)
    ensures q != null && step == Fired(true) ==>
      q.size == old(q.size) + 1 && q.head == old(q.head)
      && q.tail == (old(q.tail) + 1) % q.capacity
      && q.slots[..] == old(q.slots[..])[old(q.tail) := val]
      && q.Contents == old(q.Contents) + [val]
  {
    if q == null {
      return Fired(false);
    }
    if q.size == q.capacity && !q.close {
      return Blocked;
    }
    if q.close {
      return Fired(false);
    }
    q.PushSlot(val);
    step := Fired(true);
  }

  /** One step of `queue_wait_pop`. It sleeps while the queue is empty and open; once
      awake it still drains buffered elements after close, and fails only when empty. */
  method QueueWaitPop(q: BQueue?, keep: bool) returns (step: Step<bool>, val: Option<int>)
    requires q != null ==> q.Valid()
    modifies q
    ensures q == null ==> step == Fired(false) && val == None
    ensures q != null ==> q.Valid() && q.close == old(q.close)
    ensures q != null ==>
      step == (if old(q.size) == 0 && !q.close then Blocked
               else Fired(old(q.size) > 0))
    ensures q != null && step != Fired(true) ==>
      val == None && q.size == old(q.size) && q.head == old(q.head)
      && q.tail == old(q.tail) && q.Contents == old(q.Contents)
    ensures q != null && step == Fired(true) ==>
      val == (if keep then Some(old(q.Contents)[0]) else None)
      && q.size == old(q.size) - 1 && q.tail == old(q.tail)
      && q.head == (old(q.head) + 1) % q.capacity
      && q.Contents == old(q.Contents)[1..]
  {
    if q == null {
      return Fired(false), None;
    }
    if q.size == 0 && !q.close {
      return Blocked, None;
    }
    if q.size == 0 {
      return Fired(false), None;
    }
    var front := q.PopSlot();
    step := Fired(true);
    val := if keep then Some(front) else None;
  }

  /** `queue_close`: sets the flag once; a second call (or a NULL handle) changes
      nothing. The buffered elements are untouched. */
  method QueueClose(q: BQueue?)
    requires q != null ==> q.Valid()
    modifies q
    ensures q != null ==> q.Valid() && q.close
    ensures q != null ==>
      q.size == old(q.size) && q.head == old(q.head) && q.tail == old(q.tail)
      && q.Contents == old(q.Contents)
  {
    if q == null {
      return;
    }
    if q.close {
      return;
    }
    q.close := true;
  }

  /** The first loop of `main`: pushes `1 * 1` to `5 * 5` into an empty queue of
      capacity 5, each accepted, and a sixth push of -1 refused. */
  method PushSquares(q: BQueue) returns (pushed: seq<bool>)
    requires q.Valid() && q.capacity == 5 && q.Contents == []
    modifies q, q.slots
    ensures q.Valid() && q.close == old(q.close)
    ensures q.Contents == [1, 4, 9, 16, 25]
    ensures pushed == [true, true, true, true, true, false]
  {
    pushed := [];
    var i := 1;
    while i <= 5
      invariant 1 <= i <= 6
      invariant q.Valid() && q.close == old(q.close)
      invariant q.Contents == seq(i - 1, k => (k + 1) * (k + 1))
      invariant pushed == seq(i - 1, k => true)
    {
      var ok := QueueTryPush(q, i * i);
      pushed := pushed + [ok];
      i := i + 1;
    }
    var sixth := QueueTryPush(q, -1);
    pushed := pushed + [sixth];
  }

  /** The `for (;;)` loop of `main`: pops until `queue_try_pop` fails, which yields the
      buffered elements oldest first and leaves the queue empty. */
  method PopUntilEmpty(q: BQueue) returns (popped: seq<int>)
    requires q.Valid()
    modifies q
    ensures q.Valid() && q.close == old(q.close)
    ensures popped == old(q.Contents) && q.Contents == []
  {
    popped := [];
    while true
      invariant q.Valid() && q.close == old(q.close)
      invariant popped + q.Contents == old(q.Contents)
      decreases |q.Contents|
    {
      ghost var before := q.Contents;
      var ok, v := QueueTryPop(q, true);
      if !ok {
        assert |q.Contents| == 0;
        break;
      }
      assert before == [v.value] + q.Contents;
      popped := popped + [v.value];
      assert popped + q.Contents == (popped[..|popped| - 1]) + before;
    }
  }

  /** The last loop of the boundary checks: on an empty queue, `capacity / 2 + 1` rounds
      of one push and one discarding pop, each of which succeeds, leave it empty. */
  method PushPopRounds(q: BQueue) returns (allOk: bool)
    requires q.Valid() && q.Contents == []
    modifies q, q.slots
    ensures q.Valid() && q.Contents == []
    ensures allOk
  {
    allOk := true;
    var i := 1;
    while i <= q.capacity / 2 + 1
      invariant q.Valid() && q.Contents == [] && allOk
    {
      var pushed := QueueTryPush(q, i);
      var popped, _ := QueueTryPop(q, false);
      allOk := allOk && pushed && popped;
      i := i + 1;
    }
  }

  /** The boundary checks of `main`: a new queue of capacity 5 is empty and not full,
      takes the five squares and refuses a sixth value, pops them in order, and is
      empty after the push/pop rounds. */
  method BoundaryScenario() returns (pushed: seq<bool>, popped: seq<int>, emptyAfter: bool)
    ensures pushed == [true, true, true, true, true, false]
    ensures popped == [1, 4, 9, 16, 25]
    ensures emptyAfter
  {
    var q := new BQueue.Init(5);
    var fresh0 := QueueEmpty(q) && !QueueFull(q);
    assert fresh0;
    pushed := PushSquares(q);
    popped := PopUntilEmpty(q);
    var rounds := PushPopRounds(q);
    emptyAfter := QueueEmpty(q);
  }

  /** Close semantics: after `queue_close` on a queue of capacity 3 holding 7 and 8,
      `queue_wait_push` refuses although there is room, `queue_try_push` still succeeds
      (it ignores the flag), and `queue_wait_pop` drains 7, 8, 5 before reporting
      end-of-stream; a second close changes nothing. */
  method CloseScenario() returns (waitPush: Step<bool>, tryPush: bool, drained: seq<Option<int>>, last: Step<bool>)
    ensures waitPush == Fired(false) && tryPush
    ensures drained == [Some(7), Some(8), Some(5)]
    ensures last == Fired(false)
  {
    var q := new BQueue.Init(3);
    var a := QueueTryPush(q, 7);
    var b := QueueTryPush(q, 8);
    QueueClose(q);
    QueueClose(q);
    waitPush := QueueWaitPush(q, 9);
    tryPush := QueueTryPush(q, 5);
    var s1, v1 := QueueWaitPop(q, true);
    var s2, v2 := QueueWaitPop(q, true);
    var s3, v3 := QueueWaitPop(q, true);
    drained := [v1, v2, v3];
    var v4;
    last, v4 := QueueWaitPop(q, true);
  }

  /** Every operation on a NULL handle reports failure and a NULL handle is empty and
      not full. */
  method NullHandleScenario() returns (empty: bool, full: bool, push: bool, pop: bool, wpush: Step<bool>, wpop: Step<bool>)
    ensures empty && !full && !push && !pop
    ensures wpush == Fired(false) && wpop == Fired(false)
  {
    var q: BQueue? := null;
    empty := QueueEmpty(q);
    full := QueueFull(q);
    push := QueueTryPush(q, 1);
    var v;
    pop, v := QueueTryPop(q, true);
    wpush := QueueWaitPush(q, 1);
    wpop, v := QueueWaitPop(q, true);
    QueueClose(q);
  }
}
