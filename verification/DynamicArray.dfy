// The growable array of usr/lisp/array.c.
module DynamicArray {
  class Array<T(0)> {
    var data: array<T>
    var size: nat

    // Every push leaves room for one more.
    ghost predicate Valid()
      reads this
    {
      size < data.Length
    }

    ghost function Contents(): seq<T>
      requires Valid()
      reads this, data
    {
      data[..size]
    }

    constructor ()
      ensures Valid() && fresh(data) && Contents() == []
    {
      data := new T[1024];
      size := 0;
    }

    // array_grow: twice the room, when there is none left.
    method Grow()
      requires 0 < size <= data.Length
      modifies this
      ensures Valid() && size == old(size)
      ensures Contents() == old(data[..size])
      ensures data == old(data) || fresh(data)
    {
      if size != data.Length {
        return;
      }
      var newData := new T[data.Length * 2];
      Copy(data, newData, size);
      data := newData;
    }

    // array_shrink: half the room, when less than half is used.
    method Shrink()
      requires Valid()
      modifies this
      ensures Valid() && size == old(size)
      ensures Contents() == old(Contents())
      ensures data == old(data) || fresh(data)
    {
      if size <= 4 || size >= data.Length / 2 {
        return;
      }
      var newData := new T[data.Length / 2];
      Copy(data, newData, size);
      data := newData;
    }

    static method Copy(src: array<T>, dst: array<T>, count: nat)
      requires count <= src.Length && count <= dst.Length && src != dst
      modifies dst
      ensures dst[..count] == src[..count]
    {
      for i := 0 to count
        invariant dst[..i] == src[..i]
      {
        dst[i] := src[i];
      }
    }

    method Push(elem: T)
      requires Valid()
      modifies this, data
      ensures Valid() && Contents() == old(Contents()) + [elem]
      ensures data == old(data) || fresh(data)
    {
      data[size] := elem;
      size := size + 1;
      Grow();
    }

    method Pop() returns (elem: T)
      requires Valid() && size > 0
      modifies this
      ensures Valid() && old(Contents()) == Contents() + [elem]
      ensures data == old(data) || fresh(data)
    {
      elem := data[size - 1];
      size := size - 1;
      assert old(Contents()) == data[..size] + [elem];
      Shrink();
    }

    // Shifts everything after position i down by one, in place.
    method Remove(i: nat)
      requires Valid() && i < size
      modifies this`size, data
      ensures Valid() && size == old(size) - 1
      ensures Contents() == old(Contents())[..i] + old(Contents())[i + 1..]
    {
      for j := i to size - 1
        invariant size == old(size)
        invariant forall k :: 0 <= k < j ==> data[k] == if k < i then old(data[k]) else old(data[k + 1])
        invariant forall k :: j <= k < size ==> data[k] == old(data[k])
      {
        data[j] := data[j + 1];
      }
      size := size - 1;
    }
  }
}
