/** `ArrayBasedBoundedStack<T, N>`: a fixed array of `N + 1` slots used from index 1;
    the elements are `data[1..top]`, bottom first. */
module ArrayStack {

  class ArrayBasedBoundedStack<T(0)> {
    /** The template parameter `N`. */
    const N: nat
    var top: nat
    const data: array<T>

    ghost predicate Valid()
      reads this
    {
      N >= 1 && data.Length == N + 1 && top <= N
    }

    /** The stacked elements, bottom first; they occupy indices 1 to `top`. */
    ghost function Contents(): (s: seq<T>)
      reads this, data
      requires Valid()
      ensures |s| == top
    {
      data[1..top + 1]
    }

    /** A fresh stack with `N` slots; `N >= 1` is the source's `static_assert`. */
    constructor (n: nat)
      requires n >= 1
      ensures Valid() && fresh(data) && N == n && Contents() == []
    {
      N := n;
      top := 0;
      data := new T[n + 1];
    }

    function Capacity(): (r: nat)
      reads this
      requires Valid()
      ensures r == N && r >= 1
    {
      N
    }

    function Size(): (r: nat)
      reads this, data
      requires Valid()
      ensures r == |Contents()| && r <= Capacity()
    {
      top
    }

    function Empty(): (r: bool)
      reads this, data
      requires Valid()
      ensures r <==> Size() == 0
      ensures r <==> Contents() == []
    {
      top == 0
    }

    /** Fails without change when `top == N`; otherwise stores at `++top`. */
    method Push(val: T) returns (ok: bool)
      requires Valid()
      modifies this, data
      ensures Valid()
      ensures ok <==> old(top) < N
      ensures Contents() == if ok then old(Contents()) + [val] else old(Contents())
      ensures !ok ==> top == old(top) && data[..] == old(data[..])
    {
      if top == Capacity() {
        return false;
      }
      top := top + 1;
      data[top] := val;
      ok := true;
    }

    /** Fails on an empty stack, leaving the caller's `current`; otherwise yields
        `data[top--]`. */
    method Pop(current: T) returns (ok: bool, val: T)
      requires Valid()
      modifies this
      ensures Valid() && data[..] == old(data[..])
      ensures ok <==> old(top) > 0
      ensures !ok ==> val == current && top == old(top)
      ensures ok ==> val == old(Contents())[old(top) - 1] && Contents() == old(Contents())[..old(top) - 1]
    {
      if Empty() {
        return false, current;
      }
      val := data[top];
      top := top - 1;
      ok := true;
    }
  }

  /** What `main` does: a 10-slot stack refuses a pop when empty, takes 123 and 256,
      and pops them back in LIFO order. */
  method LifoScenario() returns (cap: nat, firstPop: bool, sizes: seq<nat>, popped: seq<int>, emptyAfter: bool)
    ensures cap == 10 && !firstPop
    ensures sizes == [1, 2, 0] && popped == [256, 123] && emptyAfter
  {
    var s := new ArrayBasedBoundedStack<int>(10);
    cap := s.Capacity();
    var elem := -1;
    firstPop, elem := s.Pop(elem);
    var a := s.Push(123);
    var n1 := s.Size();
    var b := s.Push(256);
    var n2 := s.Size();
    var ok1, e1 := s.Pop(elem);
    var ok2, e2 := s.Pop(e1);
    sizes := [n1, n2, s.Size()];
    popped := [e1, e2];
    emptyAfter := s.Empty();
  }
}
