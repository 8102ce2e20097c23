/** `LockBasedBoundedQueue<T>`: the closeable bounded channel built on `std::queue`.
    The mutex and condition variables are not modelled; `WaitAndEmplace` and
    `WaitAndPop` are each one step that is `Blocked` (nothing changes) while the
    predicate given to `wait` is false, and otherwise completes. */
module LockBasedQueue {
  import opened Common

  class LockBasedBoundedQueue<T> {
    var closed: bool
    const capacity: nat
    /** The `std::queue`, front first. */
    var queue: seq<T>

    ghost predicate Valid()
      reads this
    {
      capacity >= 1 && |queue| <= capacity
    }

    /** The capacity is `max(1, capacity)`; the queue starts empty and open. */
    constructor (requested: nat)
      ensures Valid()
      ensures capacity == if requested < 1 then 1 else requested
      ensures !closed && queue == []
    {
      closed := false;
      capacity := if requested < 1 then 1 else requested;
      queue := [];
    }

    /** Sets `closed`; a second call returns early and changes nothing. */
    method Close()
      requires Valid()
      modifies this
      ensures Valid() && closed && queue == old(queue)
    {
      if closed {
        return;
      }
      closed := true;
    }

    /** One step of `WaitAndEmplace`: it waits until there is room or the queue is
        closed; a closed queue refuses and stays unchanged, otherwise `value` goes to
        the back. */
    method WaitAndEmplace(value: T) returns (step: Step<bool>)
      requires Valid()
      modifies this
      ensures Valid() && closed == old(closed)
      ensures step == (if |old(queue)| < capacity || closed then Fired(!closed) else Blocked)
      ensures queue == if step == Fired(true) then old(queue) + [value] else old(queue)
    {
      if !(|queue| < capacity || closed) {
        return Blocked;
      }
      if closed {
        return Fired(false);
      }
      queue := queue + [value];
      step := Fired(true);
    }

    /** One step of `WaitAndPop`: it waits until the queue is non-empty or closed; it
        returns the front element and removes it, or nullopt when the queue is empty
        (which, once awake, means closed). Buffered elements drain after close. */
    method WaitAndPop() returns (step: Step<Option<T>>)
      requires Valid()
      modifies this
      ensures Valid() && closed == old(closed)
      ensures old(queue) == [] && !closed ==> step == Blocked && queue == old(queue)
      ensures old(queue) == [] && closed ==> step == Fired(None) && queue == old(queue)
      ensures old(queue) != [] ==>
        step == Fired(Some(old(queue)[0])) && queue == old(queue)[1..]
    {
      if !(queue != [] || closed) {
        return Blocked;
      }
      if queue == [] {
        return Fired(None);
      }
      var res := queue[0];
      queue := queue[1..];
      step := Fired(Some(res));
    }
  }

  /** A producer fills a queue of capacity 2 with 1 and 2, a third emplace blocks,
      close makes it refuse, and a consumer still drains 1, 2 before the nullopt
      sentinel. */
  method ProducerConsumerScenario()
    returns (third: Step<bool>, afterClose: Step<bool>, drained: seq<Step<Option<int>>>)
    ensures third == Blocked && afterClose == Fired(false)
    ensures drained == [Fired(Some(1)), Fired(Some(2)), Fired(None)]
  {
    var q := new LockBasedBoundedQueue<int>(2);
    var a := q.WaitAndEmplace(1);
    var b := q.WaitAndEmplace(2);
    third := q.WaitAndEmplace(3);
    q.Close();
    q.Close();
    afterClose := q.WaitAndEmplace(3);
    var p1 := q.WaitAndPop();
    var p2 := q.WaitAndPop();
    var p3 := q.WaitAndPop();
    drained := [p1, p2, p3];
  }

  /** A capacity of 0 is coerced to 1: one element fits, the next one blocks. */
  method ZeroCapacityScenario() returns (first: Step<bool>, second: Step<bool>)
    ensures first == Fired(true) && second == Blocked
  {
    var q := new LockBasedBoundedQueue<int>(0);
    first := q.WaitAndEmplace(10);
    second := q.WaitAndEmplace(11);
  }
}
