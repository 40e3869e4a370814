/** The growable array of `void*` of array.h.  `data` is the buffer of
    `capacity` slots (NULL once an empty array has been shrunk), of which the
    first `size` are in use; `Contents()` is that prefix.  The element type is
    a parameter instead of `void*`, and `arrayGet`'s NULL for a missing index
    is `None`. */
module Arrays {

  import Alloc

  datatype Option<T> = None | Some(value: T)

  /** Largest capacity whose `roundup(capacity + 1)` still fits: 2^63 - 1. */
  const MaxCapacity: nat := 0x7FFF_FFFF_FFFF_FFFF

  /** The capacity `arrayPush` moves to when the array is full. */
  function Grown(capacity: nat): (r: nat)
    requires capacity <= MaxCapacity
    ensures capacity < r <= 2 * capacity + 1
    ensures Alloc.IsPowerOfTwo(r)
  {
    Alloc.RoundUpBounds(capacity + 1);
    Alloc.RoundUpIsPowerOfTwo(capacity + 1);
    Alloc.RoundUp(capacity + 1)
  }

  class DynArray<T(0)> {
    var data: array?<T>
    var size: nat
    var capacity: nat

    ghost predicate Valid()
      reads this
    {
      (data == null ==> capacity == 0) &&
      (data != null ==> data.Length == capacity) &&
      size <= capacity
    }

    /** The elements in use, in order. */
    ghost function Contents(): seq<T>
      requires Valid()
      reads this, data
    {
      if data == null then [] else data[..size]
    }

    /** `arrayNew(capacity)`: empty, with room for `capacity` elements. */
    constructor (capacity: nat)
      ensures Valid() && fresh(data)
      ensures size == 0 && this.capacity == capacity && Contents() == []
    {
      data := new T[capacity];
      size := 0;
      this.capacity := capacity;
    }

    /** `arrayGet`: the element at `index`, or `None` (NULL) past the end. */
    function Get(index: nat): (r: Option<T>)
      requires Valid()
      reads this, data
      ensures r.None? <==> index >= size
      ensures r.Some? ==> r.value == Contents()[index]
    {
      if index >= size then None else Some(data[index])
    }

    /** `arrayLast`: the last element, or `None` (NULL) when empty. */
    function Last(): (r: Option<T>)
      requires Valid()
      reads this, data
      ensures r.None? <==> Contents() == []
      ensures r.Some? ==> r.value == Contents()[|Contents()| - 1]
    {
      if size > 0 then Some(data[size - 1]) else None
    }

    /** `arrayPush`: append `x`, first growing a full buffer to
        `roundup(capacity + 1)` slots and carrying the old elements over. */
    method Push(x: T)
      requires Valid() && capacity <= MaxCapacity
      modifies this, data
      ensures Valid()
      ensures Contents() == old(Contents()) + [x]
      ensures old(size) == old(capacity) ==> capacity == Grown(old(capacity)) && fresh(data)
      ensures old(size) < old(capacity) ==> capacity == old(capacity) && data == old(data)
    {
      if size == capacity {
        Grow();
      }
      data[size] := x;
      size := size + 1;
    }

    /** The growing half of `arrayPush`: `drealloc` the full buffer to
        `roundup(capacity + 1)` slots, keeping the elements. */
    method Grow()
      requires Valid() && size == capacity && capacity <= MaxCapacity
      modifies this
      ensures Valid() && fresh(data) && size == old(size)
      ensures capacity == Grown(old(capacity)) && Contents() == old(Contents())
    {
      var newCapacity := Grown(capacity);
      var moved := new T[newCapacity];
      if data != null {
        forall k | 0 <= k < size {
          moved[k] := data[k];
        }
      }
      data := moved;
      capacity := newCapacity;
    }

    /** `arraySet`: replace the element at `index`; past the end nothing changes. */
    method Set(index: nat, x: T)
      requires Valid()
      modifies data
      ensures Valid()
      ensures index < size ==> Contents() == old(Contents())[index := x]
      ensures index >= size ==> Contents() == old(Contents())
    {
      if index >= size {
        return;
      }
      data[index] := x;
    }

    /** `arrayClear`: forget every element, keep the buffer. */
    method Clear()
      requires Valid()
      modifies this
      ensures Valid() && Contents() == [] && size == 0
      ensures capacity == old(capacity) && data == old(data)
    {
      size := 0;
    }

    /** `arrayPop`: drop the last element; an empty array is left alone. */
    method Pop()
      requires Valid()
      modifies this
      ensures Valid() && capacity == old(capacity) && data == old(data)
      ensures old(size) > 0 ==> size == old(size) - 1 && Contents() == old(Contents())[..old(size) - 1]
      ensures old(size) == 0 ==> size == 0 && Contents() == []
    {
      if size > 0 {
        size := size - 1;
      }
    }

    /** `arrayShrink`: cut the buffer down to `size` slots; an empty array
        gives its buffer back and ends with NULL data and capacity 0. */
    method Shrink()
      requires Valid()
      modifies this
      ensures Valid() && Contents() == old(Contents())
      ensures old(size) < old(capacity) ==> capacity == size
      ensures old(size) == old(capacity) ==> capacity == old(capacity) && data == old(data)
      ensures old(size) == 0 && old(capacity) > 0 ==> data == null && capacity == 0
    {
      if size < capacity {
        if size == 0 && capacity > 0 {
          data := null;
          capacity := 0;
          size := 0;
        } else {
          var kept := new T[size];
          forall k | 0 <= k < size {
            kept[k] := data[k];
          }
          data := kept;
          capacity := size;
        }
      }
    }

    /** `arrayExtend(this, other)`: push every element of `other` in order.
        The loop re-reads `other->size`, so the two arrays must differ (with
        `other == this` the source never stops). */
    method Extend(other: DynArray<T>)
      requires Valid() && other.Valid() && other != this
      requires other.data == null || other.data != data
      requires capacity <= MaxCapacity && size + other.size <= 0x4000_0000_0000_0000
      modifies this, data
      ensures Valid()
      ensures Contents() == old(Contents()) + old(other.Contents())
      ensures other.Contents() == old(other.Contents())
    {
      ghost var c0, o0 := Contents(), other.Contents();
      var i := 0;
      while i < other.size
        invariant Valid() && 0 <= i <= other.size
        invariant capacity <= MaxCapacity
        invariant size == old(size) + i
        invariant other.data == null || other.data != data
        invariant other.Contents() == o0
        invariant Contents() == c0 + o0[..i]
        invariant data == old(data) || fresh(data)
        decreases other.size - i
      {
        var item := other.Get(i);
        Push(item.value);
        PrefixStep(o0, i);
        i := i + 1;
      }
      PrefixAll(o0);
    }
  }

  lemma PrefixStep<T>(s: seq<T>, i: int)
    requires 0 <= i < |s|
    ensures s[..i + 1] == s[..i] + [s[i]]
  {
  }

  lemma PrefixAll<T>(s: seq<T>)
    ensures s[..|s|] == s
  {
  }
}
