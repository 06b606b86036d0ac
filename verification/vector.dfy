/**
 * The growable array `eng::vector` (src/eng/container/vector.h): a buffer
 * `data` of `capacity` slots whose first `size` slots hold the elements.
 * The model keeps the size and capacity bookkeeping and the element values;
 * constructing and destroying an element in a slot has no effect on the values
 * here.
 */
module Vector {

  /** Capacity of the first buffer of an empty vector (vector.h:26). */
  const DefaultSize: nat := 4

  function Min(x: int, y: int): int {
    if x < y then x else y
  }

  function Max(x: int, y: int): int {
    if x < y then y else x
  }

  /** `size * GROWTH_FACTOR` converted back to a size: 1.5 times `size`, truncated. */
  function Grown(size: nat): nat {
    size + size / 2
  }

  /** The capacity `emplace_back` asks for when the buffer is full. */
  function NewCapacity(size: nat): nat {
    if size == 0 then DefaultSize else Grown(size)
  }

  /** Whether `pop_back` shrinks the buffer first: `size * 1.5 * 1.5 <= capacity`,
      that is, the capacity is more than two growth steps away from the size. */
  function ShrinkDue(size: nat, capacity: nat): bool {
    9 * size <= 4 * capacity
  }

  /** Growing by the factor 1.5 and truncating is `Grown`. */
  lemma GrowthTruncated(size: nat)
    ensures (size as real * 1.5).Floor == Grown(size)
  {
    var q, r := size / 2, size % 2;
    assert size == 2 * q + r;
    assert size as real * 1.5 == (3 * q + r) as real + (r as real) / 2.0;
  }

  /** The shrink test of `pop_back`, computed exactly, is `ShrinkDue`. */
  lemma ShrinkTestExact(size: nat, capacity: nat)
    ensures size as real * 1.5 * 1.5 <= capacity as real <==> ShrinkDue(size, capacity)
  {
    assert size as real * 1.5 * 1.5 == (9 * size) as real / 4.0;
  }

  /** Growth makes room for one more element for every size but one: from
      size 1 the capacity stays 1. */
  lemma GrowthMakesRoom(size: nat)
    ensures NewCapacity(size) > size <==> size != 1
  {
  }

  /** The growth `emplace_back` evidently intends: 1.5 times the size, but
      always at least one more slot. */
  function CorrectedNewCapacity(size: nat): nat {
    Max(NewCapacity(size), size + 1)
  }

  lemma CorrectedGrowthMakesRoom(size: nat)
    ensures CorrectedNewCapacity(size) > size
    ensures size != 1 ==> CorrectedNewCapacity(size) == NewCapacity(size)
  {
    GrowthMakesRoom(size);
  }

  /** When `pop_back` shrinks, the new buffer is strictly smaller than the
      old one and still holds every element. */
  lemma ShrinkKeepsRoom(size: nat, capacity: nat)
    requires 0 < size && ShrinkDue(size, capacity)
    ensures size <= Grown(size) < capacity
  {
  }

  /** The outcome of `pop_back`: done, or the `std::out_of_range` thrown on
      an empty vector. */
  datatype PopResult = Popped | OutOfRange

  class Vector<T(0)> {
    var data: array<T>
    var size: nat
    var capacity: nat

    /** The buffer has `capacity` slots and the elements fit in it. */
    ghost predicate Valid()
      reads this
    {
      data.Length == capacity && size <= capacity
    }

    /** The elements, in order. */
    ghost function Elements(): (r: seq<T>)
      reads this, data
      requires Valid()
      ensures |r| == size
    {
      data[..size]
    }

    /** The empty vector, without a buffer (vector.h:29-34). */
    constructor()
      ensures Valid() && Elements() == [] && capacity == 0
    {
      data := new T[0];
      size := 0;
      capacity := 0;
    }

    /** `count` copies of `value`, in a buffer of exactly `count` slots (vector.h:82-89). */
    constructor Filled(count: nat, value: T)
      ensures Valid() && Elements() == seq(count, _ => value) && capacity == count
    {
      data := new T[count];
      size := 0;
      capacity := count;
      new;
      Assign(count, value);
    }

    /** Moves the first `min(newCapacity, size)` elements, in order, to a new
        buffer of `newCapacity` slots; the elements past it are dropped. */
    method Reallocate(newCapacity: nat)
      requires Valid()
      modifies this
      ensures Valid() && fresh(data)
      ensures capacity == newCapacity && size == Min(newCapacity, old(size))
      ensures Elements() == old(Elements())[..size]
    {
      var newData := new T[newCapacity];
      var newSize := Min(newCapacity, size);
      var i := 0;
      while i < newSize
        invariant 0 <= i <= newSize
        invariant newData[..i] == data[..i]
        modifies newData
      {
        newData[i] := data[i];
        i := i + 1;
      }
      size := newSize;
      capacity := newCapacity;
      data := newData;
    }

    /** `push_back`, and `emplace_back` with the element already built:
        appends `x`, growing a full buffer to `NewCapacity(size)` first. At
        size and capacity 1 the growth leaves capacity 1 and the write would
        fall past the buffer, so that state is excluded. */
    method PushBack(x: T)
      requires Valid() && !(size == 1 && capacity == 1)
      modifies this, data
      ensures Valid()
      ensures Elements() == old(Elements()) + [x]
      ensures capacity == if old(size) < old(capacity) then old(capacity) else NewCapacity(old(size))
    {
      if size >= capacity {
        GrowthMakesRoom(size);
        Reallocate(NewCapacity(size));
      }
      data[size] := x;
      size := size + 1;
    }

    /** Removes the last element. An empty vector is `OutOfRange` and left as
        it is. When the capacity is more than two growth steps away from the
        size, the buffer first shrinks to 1.5 times the size. */
    method PopBack() returns (r: PopResult)
      requires Valid()
      modifies this
      ensures Valid()
      ensures r == OutOfRange <==> old(size) == 0
      ensures old(size) == 0 ==> size == 0 && capacity == old(capacity) && data == old(data)
      ensures old(size) > 0 ==> Elements() == old(Elements())[..old(size) - 1]
      ensures old(size) > 0 ==> capacity == if ShrinkDue(old(size), old(capacity)) then Grown(old(size)) else old(capacity)
    {
      if size == 0 {
        return OutOfRange;
      }
      if ShrinkDue(size, capacity) {
        Reallocate(Grown(size));
      }
      size := size - 1;
      r := Popped;
    }

    /** Destroys the elements from the back; the buffer stays. */
    method Clear()
      requires Valid()
      modifies this
      ensures Valid() && Elements() == []
      ensures capacity == old(capacity) && data == old(data)
    {
      while size > 0
        invariant Valid() && capacity == old(capacity) && data == old(data)
      {
        size := size - 1;
      }
    }

    /** Grows the buffer to `newCapacity` slots if it has fewer; never shrinks it. */
    method Reserve(newCapacity: nat)
      requires Valid()
      modifies this
      ensures Valid() && Elements() == old(Elements())
      ensures capacity == Max(old(capacity), newCapacity)
      ensures old(capacity) >= newCapacity ==> data == old(data)
    {
      if capacity < newCapacity {
        Reallocate(newCapacity);
      }
    }

    /** Shrinks the buffer to exactly the elements. */
    method ShrinkToFit()
      requires Valid()
      modifies this
      ensures Valid() && Elements() == old(Elements())
      ensures capacity == size
    {
      if size != capacity {
        Reallocate(size);
      }
    }

    /** `assign(count, value)`: `count` copies of `value`, in the old buffer
        if it is large enough, otherwise in a new one of exactly `count` slots. */
    method Assign(count: nat, value: T)
      requires Valid()
      modifies this, data
      ensures Valid() && Elements() == seq(count, _ => value)
      ensures capacity == Max(old(capacity), count)
      ensures count <= old(capacity) ==> data == old(data)
    {
      var d := data;
      if count > capacity {
        d := new T[count];
      }
      var assignRange := Min(count, size);
      var i := 0;
      while i < assignRange
        invariant 0 <= i <= assignRange
        invariant forall k :: 0 <= k < i ==> d[k] == value
        modifies d
      {
        d[i] := value;
        i := i + 1;
      }
      // The elements from `assignRange` to `size` are destroyed here.
      var j := size;
      while j < count
        invariant size <= j <= Max(size, count)
        invariant forall k :: 0 <= k < assignRange || size <= k < j ==> d[k] == value
        modifies d
      {
        d[j] := value;
        j := j + 1;
      }
      if count > capacity {
        data := d;
        capacity := count;
      }
      size := count;
      assert forall k :: 0 <= k < count ==> data[k] == value;
    }

    /** `operator[]`: the element at `index`. */
    method Get(index: nat) returns (x: T)
      requires Valid() && index < size
      ensures x == Elements()[index]
    {
      x := data[index];
    }

    /** The first element. */
    method Front() returns (x: T)
      requires Valid() && size > 0
      ensures x == Elements()[0]
    {
      x := data[0];
    }

    /** The last element. */
    method Back() returns (x: T)
      requires Valid() && size > 0
      ensures x == Elements()[|Elements()| - 1]
    {
      x := data[size - 1];
    }

    /** Whether there are no elements. */
    method Empty() returns (b: bool)
      requires Valid()
      ensures b <==> Elements() == []
    {
      b := size == 0;
    }
  }

  /** Appending an element and popping it again gives back the same elements. */
  method PushThenPop<T(0)>(v: Vector<T>, x: T)
    requires v.Valid() && !(v.size == 1 && v.capacity == 1)
    modifies v, v.data
    ensures v.Valid() && v.Elements() == old(v.Elements())
  {
    v.PushBack(x);
    var r := v.PopBack();
    assert old(v.Elements()) == (old(v.Elements()) + [x])[..|old(v.Elements())|];
  }
}
