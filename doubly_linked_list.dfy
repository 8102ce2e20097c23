/** `DoublyLinkedList<T>`: nodes linked forward by `next` (which owns the following
    node) and backward by `prev`, with `head` and `tail` pointers. The ghost sequence
    `Nodes` lists the nodes from head to tail and `Contents` their data. */
module DoublyLinkedList {
  import opened Common

  class Node<T> {
    var data: T
    var next: Node?<T>
    var prev: Node?<T>

    constructor (data: T)
      ensures this.data == data && next == null && prev == null
    {
      this.data := data;
      next := null;
      prev := null;
    }
  }

  /** The node after position `i` in the chain, null after the last. */
  ghost function Succ<T>(ns: seq<Node<T>>, i: int): Node?<T>
    requires 0 <= i < |ns|
  {
    if i + 1 < |ns| then ns[i + 1] else null
  }

  /** The node before position `i` in the chain, null before the first. */
  ghost function Pred<T>(ns: seq<Node<T>>, i: int): Node?<T>
    requires 0 <= i < |ns|
  {
    if i > 0 then ns[i - 1] else null
  }

  /** Each node's `next` is the following node of `ns`, and the last one's is null. */
  ghost predicate Linked<T>(ns: seq<Node<T>>)
    reads ns
  {
    forall i {:trigger ns[i].next} :: 0 <= i < |ns| ==> ns[i].next == Succ(ns, i)
  }

  /** Each node's `prev` is the preceding node of `ns`, and the first one's is null. */
  ghost predicate Backlinked<T>(ns: seq<Node<T>>)
    reads ns
  {
    forall i {:trigger ns[i].prev} :: 0 <= i < |ns| ==> ns[i].prev == Pred(ns, i)
  }

  /** A chain that ends in null visits no node twice: two equal nodes would have equal
      successors all the way to the end, where one of them has none. */
  lemma {:induction false} LinkedDistinct<T>(ns: seq<Node<T>>, p: nat, q: nat)
    requires Linked(ns) && p < q < |ns|
    ensures ns[p] != ns[q]
    decreases |ns| - q
  {
    if q + 1 < |ns| {
      LinkedDistinct(ns, p + 1, q + 1);
    }
    assert ns[p].next == ns[p + 1];
    assert ns[q].next == Succ(ns, q);
  }

  /** Two positions of a chain hold different nodes. */
  lemma NodesDistinct<T>(ns: seq<Node<T>>, p: nat, q: nat)
    requires Linked(ns) && p < |ns| && q < |ns| && p != q
    ensures ns[p] != ns[q]
  {
    if p < q {
      LinkedDistinct(ns, p, q);
    } else {
      LinkedDistinct(ns, q, p);
    }
  }

  /** The node at `i` occurs nowhere else in a chain. */
  lemma LinkedUnique<T>(ns: seq<Node<T>>, i: nat)
    requires Linked(ns) && i < |ns|
    ensures forall k :: 0 <= k < |ns| && k != i ==> ns[k] != ns[i]
  {
    forall k | 0 <= k < |ns| && k != i
      ensures ns[k] != ns[i]
    {
      NodesDistinct(ns, k, i);
    }
  }

  /** `s` with `v` inserted at position `k`. */
  ghost function InsertAt<T>(s: seq<T>, k: nat, v: T): (r: seq<T>)
    requires k <= |s|
    ensures |r| == |s| + 1 && r[k] == v
    ensures forall j {:trigger r[j]} :: 0 <= j < k ==> r[j] == s[j]
    ensures forall j {:trigger r[j]} :: k < j < |r| ==> r[j] == s[j - 1]
  {
    s[..k] + [v] + s[k..]
  }

  class DoublyLinkedList<T(==)> {
    var head: Node?<T>
    var tail: Node?<T>

    ghost var Nodes: seq<Node<T>>
    ghost var Contents: seq<T>
    ghost var Repr: set<Node<T>>

    /** The nodes form one chain from `head` to `tail`: each `next` is the following
        node, each `prev` the preceding one, and the ends are null. */
    ghost predicate Valid()
      reads this, Repr
    {
      && |Nodes| == |Contents|
      && (forall nd :: nd in Nodes ==> nd in Repr)
      && (forall i {:trigger Nodes[i].data} :: 0 <= i < |Nodes| ==> Nodes[i].data == Contents[i])
      && Linked(Nodes) && Backlinked(Nodes)
      && head == (if |Nodes| == 0 then null else Nodes[0])
      && tail == (if |Nodes| == 0 then null else Nodes[|Nodes| - 1])
    }

    /** An empty list: both pointers null. */
    constructor ()
      ensures Valid() && Contents == [] && Repr == {}
    {
      head, tail := null, null;
      Nodes, Contents, Repr := [], [], {};
    }

    /** `head` and `tail` are null together, exactly when the list is empty, and no node
        occurs twice. */
    lemma WellFormed()
      requires Valid()
      ensures (head == null) <==> (tail == null)
      ensures (head == null) <==> (Contents == [])
      ensures forall p, q :: 0 <= p < q < |Nodes| ==> Nodes[p] != Nodes[q]
    {
      forall p, q | 0 <= p < q < |Nodes|
        ensures Nodes[p] != Nodes[q]
      {
        LinkedDistinct(Nodes, p, q);
      }
    }

    /** The new node becomes the head, and also the tail when the list was empty. */
    method Prepend(data: T)
      requires Valid()
      modifies this, Repr
      ensures Valid() && Contents == [data] + old(Contents)
      ensures fresh(Nodes[0]) && Nodes == [Nodes[0]] + old(Nodes) && Repr == old(Repr) + {Nodes[0]}
    {
      ghost var n := Nodes;
      if |n| > 0 {
        LinkedUnique(n, 0);
      }
      var newHead := new Node(data);
      newHead.next := head;
      if newHead.next != null {
        newHead.next.prev := newHead;
      }
      head := newHead;
      if tail == null {
        tail := head;
      }
      Nodes, Contents, Repr := [newHead] + Nodes, [data] + Contents, Repr + {newHead};
      PrependedValid(n, old(Contents), newHead);
    }

    /** The state `Prepend` leaves: only the new node `v` and the old head's `prev` were
        written, and the ghost chain has `v` in front. */
    twostate lemma PrependedValid(ns: seq<Node<T>>, new cs: seq<T>, new v: Node<T>)
      requires old(Valid()) && ns == old(Nodes) && cs == old(Contents)
      requires v !in ns && v.prev == null && v.next == (if |ns| == 0 then null else ns[0])
      requires |ns| > 0 ==> ns[0].prev == v
      requires forall o :: o in old(Repr) ==> o.next == old(o.next) && o.data == old(o.data)
      requires forall o :: o in old(Repr) && (|ns| == 0 || o != ns[0]) ==> o.prev == old(o.prev)
      requires Nodes == [v] + ns && Contents == [v.data] + cs
      requires Repr == old(Repr) + {v} && head == v
      requires tail == if |ns| == 0 then v else old(tail)
      ensures Valid()
    {
      forall j | 0 <= j < |Nodes|
        ensures Nodes[j].next == Succ(Nodes, j)
        ensures Nodes[j].prev == Pred(Nodes, j)
        ensures Nodes[j].data == Contents[j]
      {
        if j > 0 {
          assert Nodes[j] == ns[j - 1] && Contents[j] == cs[j - 1];
          assert Nodes[j].next == old(ns[j - 1].next);
          if j > 1 {
            assert Nodes[j].prev == old(ns[j - 1].prev);
          }
        }
      }
    }

    /** The state `InsertAfter` leaves: only `ns[i].next`, the successor's `prev` and the
        new node `v` were written, and the ghost chain has `v` at `i + 1`. */
    twostate lemma SplicedValid(ns: seq<Node<T>>, new cs: seq<T>, new i: nat, new v: Node<T>)
      requires old(Valid()) && ns == old(Nodes) && cs == old(Contents) && i < |ns|
      requires forall k :: 0 <= k < |ns| && k != i ==> ns[k] != ns[i]
      requires i + 1 < |ns| ==> forall k :: 0 <= k < |ns| && k != i + 1 ==> ns[k] != ns[i + 1]
      requires ns[i].next == v && v.prev == ns[i] && v.next == Succ(ns, i)
      requires i + 1 < |ns| ==> ns[i + 1].prev == v
      requires forall o :: o in old(Repr) && o != ns[i] ==> o.next == old(o.next)
      requires forall o :: o in old(Repr) && (i + 1 == |ns| || o != ns[i + 1]) ==> o.prev == old(o.prev)
      requires forall o :: o in old(Repr) ==> o.data == old(o.data)
      requires Nodes == InsertAt(ns, i + 1, v) && Contents == InsertAt(cs, i + 1, v.data)
      requires Repr == old(Repr) + {v} && head == old(head)
      requires tail == if i + 1 == |ns| then v else old(tail)
      ensures Valid()
    {
      forall j | 0 <= j < |Nodes|
        ensures Nodes[j].data == Contents[j]
      {
        if j <= i {
          assert Nodes[j] == ns[j];
        } else if j > i + 1 {
          assert Nodes[j] == ns[j - 1];
        }
      }
    }

    /** Links a new node between `x` (at position `i`) and its successor; the new node
        becomes the tail when `x` was the tail. */
    method InsertAfter(x: Node<T>, ghost i: nat, data: T)
      requires Valid() && i < |Nodes| && Nodes[i] == x
      modifies this, Repr
      ensures Valid()
      ensures Contents == InsertAt(old(Contents), i + 1, data)
      ensures fresh(Nodes[i + 1]) && Nodes == InsertAt(old(Nodes), i + 1, Nodes[i + 1])
      ensures Repr == old(Repr) + {Nodes[i + 1]}
    {
      ghost var n := Nodes;
      assert x.next == Succ(n, i);
      LinkedUnique(n, i);
      if i + 1 < |n| {
        LinkedUnique(n, i + 1);
      }
      var newNode := new Node(data);
      newNode.prev := x;
      newNode.next := x.next;
      if newNode.next != null {
        newNode.next.prev := newNode;
      } else {
        tail := newNode;
      }
      x.next := newNode;
      Nodes := InsertAt(Nodes, i + 1, newNode);
      Contents := InsertAt(Contents, i + 1, data);
      Repr := Repr + {newNode};
      SplicedValid(n, old(Contents), i, newNode);
    }

    /** Unlinks `x` (at position `i`): its predecessor, or `head`, takes over its
        successor, and `tail` moves back when `x` was the tail. */
    method Remove(x: Node<T>, ghost i: nat)
      requires Valid() && i < |Nodes| && Nodes[i] == x
      modifies this, Repr
      ensures Valid() && Repr == old(Repr)
      ensures Nodes == old(Nodes)[..i] + old(Nodes)[i + 1..]
      ensures Contents == old(Contents)[..i] + old(Contents)[i + 1..]
    {
      ghost var n := Nodes;
      assert x.next == Succ(n, i) && x.prev == Pred(n, i);
      LinkedUnique(n, i);
      if i > 0 {
        LinkedUnique(n, i - 1);
      }
      if i + 1 < |n| {
        LinkedUnique(n, i + 1);
      }
      var left := x.prev;
      if left != null {
        left.next := x.next;
        if left.next != null {
          left.next.prev := left;
        } else {
          tail := left;
        }
      } else {
        head := x.next;
        if head == null {
          tail := null;
        } else {
          head.prev := null;
        }
      }
      Nodes := Nodes[..i] + Nodes[i + 1..];
      Contents := Contents[..i] + Contents[i + 1..];
      RemovedValid(n, old(Contents), i);
    }

    /** The state `Remove` leaves: only the predecessor's `next` (or `head`) and the
        successor's `prev` (or `tail`) were written, and the ghost chain lost position
        `i`. */
    twostate lemma RemovedValid(ns: seq<Node<T>>, new cs: seq<T>, new i: nat)
      requires old(Valid()) && ns == old(Nodes) && cs == old(Contents) && i < |ns|
      requires forall k :: 0 <= k < |ns| && k != i ==> ns[k] != ns[i]
      requires i > 0 ==> forall k :: 0 <= k < |ns| && k != i - 1 ==> ns[k] != ns[i - 1]
      requires i + 1 < |ns| ==> forall k :: 0 <= k < |ns| && k != i + 1 ==> ns[k] != ns[i + 1]
      requires i > 0 ==> ns[i - 1].next == Succ(ns, i)
      requires i + 1 < |ns| ==> ns[i + 1].prev == Pred(ns, i)
      requires forall o :: o in old(Repr) && (i == 0 || o != ns[i - 1]) ==> o.next == old(o.next)
      requires forall o :: o in old(Repr) && (i + 1 == |ns| || o != ns[i + 1]) ==> o.prev == old(o.prev)
      requires forall o :: o in old(Repr) ==> o.data == old(o.data)
      requires Nodes == ns[..i] + ns[i + 1..] && Contents == cs[..i] + cs[i + 1..]
      requires Repr == old(Repr)
      requires head == if i == 0 then Succ(ns, i) else old(head)
      requires tail == if i + 1 == |ns| then Pred(ns, i) else old(tail)
      ensures Valid()
    {
      forall j | 0 <= j < |Nodes|
        ensures Nodes[j].next == Succ(Nodes, j)
        ensures Nodes[j].prev == Pred(Nodes, j)
        ensures Nodes[j].data == Contents[j]
      {
        if j < i {
          assert Nodes[j] == ns[j] && Contents[j] == cs[j];
          if j < i - 1 {
            assert Nodes[j].next == old(ns[j].next);
          }
          assert Nodes[j].prev == old(ns[j].prev);
        } else {
          assert Nodes[j] == ns[j + 1] && Contents[j] == cs[j + 1];
          if j > i {
            assert Nodes[j].prev == old(ns[j + 1].prev);
          }
          assert Nodes[j].next == old(ns[j + 1].next);
        }
      }
    }

    /** The value becomes the new tail; the head stays unless the list was empty. */
    method Append(data: T)
      requires Valid()
      modifies this, Repr
      ensures Valid() && Contents == old(Contents) + [data]
      ensures fresh(Repr - old(Repr))
    {
      if tail == null {
        Prepend(data);
      } else {
        InsertAfter(tail, |Nodes| - 1, data);
      }
    }

    /** Removes the last element; a no-op on an empty list. */
    method PopBack()
      requires Valid()
      modifies this, Repr
      ensures Valid() && Repr == old(Repr)
      ensures Contents == if old(Contents) == [] then old(Contents) else old(Contents)[..|old(Contents)| - 1]
    {
      if tail != null {
        Remove(tail, |Nodes| - 1);
      }
    }

    /** Removes the first element; a no-op on an empty list. */
    method PopFront()
      requires Valid()
      modifies this, Repr
      ensures Valid() && Repr == old(Repr)
      ensures Contents == if old(Contents) == [] then old(Contents) else old(Contents)[1..]
    {
      if head != null {
        Remove(head, 0);
      }
    }

    /** Follows `next` from the head until a node holds `key`. */
    method Search(key: T) returns (found: bool)
      requires Valid()
      ensures found <==> key in Contents
    {
      var node := head;
      ghost var i := 0;
      while node != null && node.data != key
        invariant 0 <= i <= |Nodes|
        invariant node == if i < |Nodes| then Nodes[i] else null
        invariant key !in Contents[..i]
        decreases |Nodes| - i
      {
        assert Contents[..i + 1] == Contents[..i] + [Contents[i]];
        assert node.next == Succ(Nodes, i);
        node := node.next;
        i := i + 1;
      }
      assert node == null ==> Contents[..i] == Contents;
      found := node != null;
    }

    /** The first value, or null on an empty list. */
    function Head(): (r: Option<T>)
      reads this, Repr
      requires Valid()
      ensures r.None? <==> Contents == []
      ensures r.Some? ==> r.value == Contents[0]
    {
      if head != null then Some(head.data) else None
    }

    /** The last value, or null on an empty list. */
    function Tail(): (r: Option<T>)
      reads this, Repr
      requires Valid()
      ensures r.None? <==> Contents == []
      ensures r.Some? ==> r.value == Contents[|Contents| - 1]
    {
      if tail != null then Some(tail.data) else None
    }
  }

  /** The prepends of the first half of `main`: 3, 2 and 1 onto an empty list. */
  method PrependThree() returns (l: DoublyLinkedList<int>, h1: Option<int>, t1: Option<int>)
    ensures fresh(l) && fresh(l.Repr) && l.Valid() && l.Contents == [1, 2, 3]
    ensures h1 == Some(1) && t1 == Some(3)
  {
    l := new DoublyLinkedList<int>();
    l.Prepend(3);
    l.Prepend(2);
    l.Prepend(1);
    h1, t1 := l.Head(), l.Tail();
  }

  /** The first half of `main`: three prepends, an append, and four pops from the
      back down to an empty list. */
  method PrependPopBackScenario()
    returns (heads: seq<Option<int>>, tails: seq<Option<int>>)
    ensures heads == [Some(1), Some(1), None]
    ensures tails == [Some(3), Some(4), Some(3), Some(2), Some(1), None]
  {
    var l, h1, t1 := PrependThree();
    l.Append(4);
    var h2, t2 := l.Head(), l.Tail();
    l.PopBack();
    var t3 := l.Tail();
    l.PopBack();
    var t4 := l.Tail();
    l.PopBack();
    var t5 := l.Tail();
    l.PopBack();
    heads := [h1, h2, l.Head()];
    tails := [t1, t2, t3, t4, t5, l.Tail()];
  }

  /** The appends of the second half of `main`: 1, 2 and 3 onto an empty list. */
  method AppendThree() returns (l: DoublyLinkedList<int>, heads: seq<Option<int>>, tails: seq<Option<int>>)
    ensures fresh(l) && fresh(l.Repr) && l.Valid() && l.Contents == [1, 2, 3]
    ensures heads == [Some(1), Some(1), Some(1)] && tails == [Some(1), Some(2), Some(3)]
  {
    l := new DoublyLinkedList<int>();
    l.Append(1);
    var h1, t1 := l.Head(), l.Tail();
    l.Append(2);
    var h2, t2 := l.Head(), l.Tail();
    l.Append(3);
    heads := [h1, h2, l.Head()];
    tails := [t1, t2, l.Tail()];
  }

  /** The searches of the second half of `main`: 1, 2 and 3 are found in the list
      `[1, 2, 3]` and 4 is not. */
  method ListSearchScenario() returns (found: seq<bool>)
    ensures found == [true, true, true, false]
  {
    var l, hs, ts := AppendThree();
    var f1 := l.Search(1);
    var f2 := l.Search(2);
    var f3 := l.Search(3);
    var f4 := l.Search(4);
    found := [f1, f2, f3, f4];
  }

  /** The end of `main`: three pops from the front of `[1, 2, 3]` leave an empty list. */
  method PopFrontScenario() returns (heads: seq<Option<int>>, tails: seq<Option<int>>)
    ensures heads == [Some(1), Some(1), Some(1), Some(2), Some(3), None]
    ensures tails == [Some(1), Some(2), Some(3), None]
  {
    var l, hs, ts := AppendThree();
    l.PopFront();
    var h4 := l.Head();
    l.PopFront();
    var h5 := l.Head();
    l.PopFront();
    heads := hs + [h4, h5, l.Head()];
    tails := ts + [l.Tail()];
  }
}
