/** `MyArray<T>`: an owning pointer to a heap array and its size, with copy and move
    constructors, a by-value assignment built on `swap`, element-wise equality and
    unchecked indexing. The element type's value-initialisation (`T{}`) is passed to the
    sizing constructor as `init`. */
module RuleOfFiveSwap {

  class MyArray<T(==)> {
    /** `nullptr` for a default-constructed or moved-from array. */
    var arr: array?<T>
    var size: nat

    ghost predicate Valid()
      reads this
    {
      if arr == null then size == 0 else arr.Length == size
    }

    /** The elements. */
    ghost function Contents(): (s: seq<T>)
      reads this, arr
      requires Valid()
      ensures |s| == size
    {
      if arr == null then [] else arr[..]
    }

    /** The default constructor: no storage, size 0. */
    constructor ()
      ensures Valid() && arr == null && Contents() == []
    {
      arr, size := null, 0;
    }

    /** `size` value-initialised elements in storage of its own. */
    constructor WithSize(n: nat, init: T)
      ensures Valid() && arr != null && fresh(arr)
      ensures Contents() == seq(n, _ => init)
    {
      arr := new T[n](_ => init);
      size := n;
    }

    /** The copy constructor: fresh storage with the same elements. */
    constructor Copy(other: MyArray<T>)
      requires other.Valid()
      ensures Valid() && arr != null && fresh(arr)
      ensures Contents() == other.Contents()
    {
      size := other.size;
      if other.arr == null {
        arr := new T[0];
      } else {
        var src := other.arr;
        arr := new T[src.Length](i reads src requires 0 <= i < src.Length => src[i]);
      }
    }

    /** The move constructor: takes over the storage and leaves `other` empty, with no
        storage. */
    constructor Move(other: MyArray<T>)
      requires other.Valid()
      modifies other
      ensures Valid() && arr == old(other.arr) && size == old(other.size)
      ensures other.Valid() && other.arr == null && other.Contents() == []
    {
      arr, size := other.arr, other.size;
      new;
      other.arr, other.size := null, 0;
    }

    /** By-value assignment: the argument is copied, then swapped in; `this` ends up
        with fresh storage holding `other`'s elements, and `other` is unchanged. */
    method Assign(other: MyArray<T>)
      requires other.Valid()
      modifies this
      ensures Valid() && arr != null && fresh(arr)
      ensures Contents() == old(other.Contents())
    {
      var tmp := new MyArray.Copy(other);
      Swap(this, tmp);
    }

    /** Sizes equal and elements equal index by index. */
    method Equals(other: MyArray<T>) returns (r: bool)
      requires Valid() && other.Valid()
      ensures r <==> Contents() == other.Contents()
    {
      if size != other.size {
        return false;
      }
      var i := 0;
      while i < size
        invariant i <= size
        invariant forall j :: 0 <= j < i ==> arr[j] == other.arr[j]
      {
        if arr[i] != other.arr[i] {
          return false;
        }
        i := i + 1;
      }
      return true;
    }

    /** The negation of `Equals`. */
    method NotEquals(other: MyArray<T>) returns (r: bool)
      requires Valid() && other.Valid()
      ensures r <==> Contents() != other.Contents()
    {
      var eq := Equals(other);
      r := !eq;
    }

    function Size(): (r: nat)
      reads this, arr
      requires Valid()
      ensures r == |Contents()|
    {
      size
    }

    /** Reading through `operator[]`; the index is not checked, so it must be in range. */
    function Get(idx: nat): (r: T)
      reads this, arr
      requires Valid() && idx < size
      ensures r == Contents()[idx]
    {
      arr[idx]
    }

    /** Writing through the reference `operator[]` returns: only that element
        changes. */
    method Set(idx: nat, v: T)
      requires Valid() && idx < size
      modifies arr
      ensures Valid() && Contents() == old(Contents())[idx := v]
    {
      arr[idx] := v;
    }
  }

  /** The hidden friend `swap`: exchanges the storage pointers and the sizes. */
  method Swap<T(==)>(left: MyArray<T>, right: MyArray<T>)
    modifies left, right
    ensures left.arr == old(right.arr) && left.size == old(right.size)
    ensures right.arr == old(left.arr) && right.size == old(left.size)
  {
    left.arr, right.arr := right.arr, left.arr;
    left.size, right.size := right.size, left.size;
  }

  /** The element type of the first half of `main`; its value-initialisation is 66. */
  datatype Foo = Foo(val: int)

  /** The first half of `main`: assigning a 6-element array to an 8-element one makes
      the target a copy of the source's elements. */
  method FooScenario() returns (written: int, dst: int, dstSize: nat, srcFirst: int)
    ensures written == 3333 && dst == 1234 && dstSize == 6 && srcFirst == 1234
  {
    var a := new MyArray.WithSize(8, Foo(66));
    a.Set(0, Foo(3333));
    written := a.Get(0).val;
    var b := new MyArray.WithSize(6, Foo(66));
    b.Set(0, Foo(1234));
    a.Assign(b);
    dst := a.Get(0).val;
    dstSize := a.Size();
    srcFirst := b.Get(0).val;
  }

  /** The second half of `main`: a 13-element array differs from an empty one until it
      is assigned to it; then both hold 33 at index 1 and compare equal. */
  method IntScenario() returns (differBefore: bool, copied: int, kept: int, equalAfter: bool)
    ensures differBefore && copied == 33 && kept == 33 && equalAfter
  {
    var a2 := new MyArray.WithSize(13, 0);
    a2.Set(1, 33);
    var a3 := new MyArray.WithSize(0, 0);
    differBefore := a3.NotEquals(a2);
    a3.Assign(a2);
    copied, kept := a3.Get(1), a2.Get(1);
    equalAfter := a3.Equals(a2);
  }

  /** Moving out of an array leaves the source empty and the target with its
      elements. */
  method MoveScenario() returns (movedSize: nat, sourceSize: nat, first: int)
    ensures movedSize == 3 && sourceSize == 0 && first == 7
  {
    var a := new MyArray.WithSize(3, 7);
    var b := new MyArray.Move(a);
    movedSize, sourceSize := b.Size(), a.Size();
    first := b.Get(0);
  }
}
