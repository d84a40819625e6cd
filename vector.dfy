/**
 * The dynamic array of vector.h (Vector<T>): one RawMemory and the count
 * `size` of live elements at its front. Its value is `Elements()`, the
 * first `size` slots; every method states the new value in terms of the old
 * one through the functions of module VectorSpec.
 *
 * Positions (iterators) are indices into the live range. Value construction
 * T() is the parameter `def`. Destroying elements has no counterpart: which
 * slots are live is told by `size` alone.
 */
module AdvancedVector {
  import opened Memory
  import opened VectorSpec

  class Vector<T(0)> {
    const data: RawMemory<T>
    var size: nat
    ghost var Repr: set<object>

    /** The storage is well formed, owned by this vector only, and holds every live element. */
    ghost predicate Valid()
      reads this, Repr
      ensures Valid() ==> this in Repr
    {
      this in Repr && data in Repr &&
      Repr == {this} + data.Footprint() &&
      data.Valid() && size <= data.capacity
    }

    /** The live elements, slots [0, size). */
    ghost function Elements(): (s: seq<T>)
      reads this, Repr
      requires Valid()
      ensures |s| == size
    {
      data.Slots()[..size]
    }

    function Size(): (n: nat)
      reads this, Repr
      requires Valid()
      ensures n == |Elements()| && n <= Capacity()
    {
      size
    }

    function Capacity(): (c: nat)
      reads this, Repr
      requires Valid()
      ensures c == |data.Slots()| && |Elements()| <= c
    {
      data.capacity
    }

    /** `Vector() = default`: empty, and nothing is allocated. */
    constructor ()
      ensures Valid() && fresh(Repr)
      ensures Elements() == [] && Capacity() == 0 && data.buffer == null
    {
      data := new RawMemory<T>();
      size := 0;
      new;
      Repr := {this} + data.Footprint();
    }

    /** `explicit Vector(size_t size)`: `n` value-constructed elements in exactly `n` slots. */
    constructor Sized(n: nat, def: T)
      ensures Valid() && fresh(Repr)
      ensures Elements() == Defaults(n, def) && Capacity() == n
    {
      data := new RawMemory<T>.Sized(n);
      size := n;
      new;
      Repr := {this} + data.Footprint();
      UninitializedValueConstructN(data, 0, n, def);
    }

    /** Copy construction: equal elements in new storage of exactly `other.Size()` slots. */
    constructor Copy(other: Vector<T>)
      requires other.Valid()
      ensures Valid() && fresh(Repr)
      ensures Elements() == other.Elements() && Capacity() == other.Size()
    {
      data := new RawMemory<T>.Sized(other.size);
      size := other.size;
      new;
      Repr := {this} + data.Footprint();
      UninitializedCopyN(other.data, 0, size, data, 0);
    }

    /** Move construction: takes over the storage of `other`, which is left empty with no storage. */
    constructor Move(other: Vector<T>)
      requires other.Valid()
      modifies other, other.data
      ensures Valid() && other.Valid() && Repr !! other.Repr
      ensures Elements() == old(other.Elements()) && Capacity() == old(other.Capacity())
      ensures data.buffer == old(other.data.buffer)
      ensures other.Elements() == [] && other.Capacity() == 0 && other.data.buffer == null
    {
      data := new RawMemory<T>();
      size := 0;
      new;
      Repr := {this} + data.Footprint();
      Swap(other);
    }

    /** Exchanges storage, capacity and size with `other`; no element is touched. */
    method Swap(other: Vector<T>)
      requires Valid() && other.Valid()
      requires this == other || Repr !! other.Repr
      modifies this, data, other, other.data
      ensures Valid() && other.Valid()
      ensures this == other || Repr !! other.Repr
      ensures data.buffer == old(other.data.buffer) && other.data.buffer == old(data.buffer)
      ensures Elements() == old(other.Elements()) && Capacity() == old(other.Capacity())
      ensures other.Elements() == old(Elements()) && other.Capacity() == old(Capacity())
    {
      data.Swap(other.data);
      var n := size;
      size := other.size;
      other.size := n;
      Repr := {this} + data.Footprint();
      other.Repr := {other} + other.data.Footprint();
    }

    /**
     * Copy assignment. Assigning to itself changes nothing. When `rhs` does
     * not fit, a full copy is built and swapped in; otherwise the storage is
     * kept, the common prefix is overwritten element by element and the rest
     * of `rhs` is copied behind it.
     */
    method CopyAssign(rhs: Vector<T>)
      requires Valid() && rhs.Valid()
      requires this == rhs || Repr !! rhs.Repr
      modifies Repr
      ensures Valid() && rhs.Valid() && fresh(Repr - old(Repr))
      ensures this == rhs || Repr !! rhs.Repr
      ensures Elements() == old(rhs.Elements()) && rhs.Elements() == old(rhs.Elements())
      ensures old(rhs.size) > old(Capacity()) ==> Capacity() == old(rhs.size) && fresh(data.buffer)
      ensures old(rhs.size) <= old(Capacity()) ==> Capacity() == old(Capacity()) && data.buffer == old(data.buffer)
    {
      if this != rhs {
        if rhs.size > data.capacity {
          var temp := new Vector<T>.Copy(rhs);
          Swap(temp);
        } else {
          AssignWithinCapacity(rhs);
        }
      }
    }

    /**
     * The branch of copy assignment where `rhs` fits in the current storage:
     * the common prefix is written element by element, the rest of `rhs` is
     * copied into free slots, and any excess tail is dropped.
     */
    method AssignWithinCapacity(rhs: Vector<T>)
      requires Valid() && rhs.Valid() && Repr !! rhs.Repr
      requires rhs.size <= data.capacity
      modifies this, data.buffer
      ensures Valid() && Repr == old(Repr) && data.buffer == old(data.buffer)
      ensures Elements() == rhs.Elements()
    {
      ghost var src, before := rhs.data.Slots(), data.Slots();
      var i := 0;
      while i < size && i < rhs.size
        modifies data.buffer
        invariant i <= size && i <= rhs.size
        invariant |data.Slots()| == |before|
        invariant forall j :: 0 <= j < i ==> data.Slots()[j] == src[j]
        invariant forall j :: i <= j < |before| ==> data.Slots()[j] == before[j]
      {
        var x := rhs.data.Get(i);
        data.Set(i, x);
        i := i + 1;
      }
      ghost var written := data.Slots();
      assert written[..i] == src[..i];
      if size < rhs.size {
        UninitializedCopyN(rhs.data, size, rhs.size - size, data, size);
        assert data.Slots()[..rhs.size] == written[..size] + src[size..rhs.size];
      }
      // when rhs is shorter, the excess tail is destroyed (vector.h:136-138): no change to any slot
      assert data.Slots()[..rhs.size] == src[..rhs.size];
      size := rhs.size;
    }

    /** Move assignment: a swap, so `rhs` ends up with the previous contents of this vector. */
    method MoveAssign(rhs: Vector<T>)
      requires Valid() && rhs.Valid()
      requires this == rhs || Repr !! rhs.Repr
      modifies this, data, rhs, rhs.data
      ensures Valid() && rhs.Valid()
      ensures this == rhs || Repr !! rhs.Repr
      ensures Elements() == old(rhs.Elements()) && Capacity() == old(rhs.Capacity())
      ensures rhs != this ==> rhs.Elements() == old(Elements()) && rhs.Capacity() == old(Capacity())
    {
      if this != rhs {
        Swap(rhs);
      }
    }

    /**
     * Makes room for `newCapacity` elements: no change when it is not more
     * than the capacity, otherwise the elements move to new storage of
     * exactly that many slots.
     */
    method Reserve(newCapacity: nat)
      requires Valid()
      modifies Repr
      ensures Valid() && fresh(Repr - old(Repr))
      ensures Elements() == old(Elements())
      ensures newCapacity <= old(Capacity()) ==> Capacity() == old(Capacity()) && data.buffer == old(data.buffer)
      ensures newCapacity > old(Capacity()) ==> Capacity() == newCapacity && fresh(data.buffer)
    {
      if newCapacity <= data.capacity {
        return;
      }
      var newData := new RawMemory<T>.Sized(newCapacity);
      UninitializedCopyN(data, 0, size, newData, 0);
      // the moved-from originals are destroyed (vector.h:184): no change to any slot
      data.Swap(newData);
      Repr := {this} + data.Footprint();
    }

    /**
     * Sets the size to `newSize`, keeping the first min(size, newSize)
     * elements and value-constructing the rest. Storage grows to exactly
     * `newSize` slots when they do not fit and is otherwise kept.
     *
     * vector.h:194-196 sends growth within the capacity to the shrinking
     * branch, where `size_ - new_size` wraps around; this method
     * value-constructs the new elements instead, as the sized constructor
     * and the growing branch do (see module Defects).
     */
    method Resize(newSize: nat, def: T)
      requires Valid()
      modifies Repr
      ensures Valid() && fresh(Repr - old(Repr))
      ensures Elements() == Resized(old(Elements()), newSize, def)
      ensures Capacity() == if newSize > old(Capacity()) then newSize else old(Capacity())
    {
      if newSize > data.capacity {
        Reserve(newSize);
        UninitializedValueConstructN(data, size, newSize - size, def);
      } else if newSize > size {
        UninitializedValueConstructN(data, size, newSize - size, def);
      }
      // when shrinking, the tail [newSize, size) is destroyed: no change to any slot
      size := newSize;
      assert Elements() == Resized(old(Elements()), newSize, def);
    }

    /** Appends `v`, growing as EmplaceBack does. */
    method PushBack(v: T)
      requires Valid()
      modifies Repr
      ensures Valid() && fresh(Repr - old(Repr))
      ensures Elements() == old(Elements()) + [v]
      ensures Capacity() == if old(Size()) == old(Capacity()) then GrowthCapacity(old(Size())) else old(Capacity())
    {
      var _ := EmplaceBack(v);
    }

    /**
     * Appends `v` and returns its position, the new last one. A full vector
     * first grows to GrowthCapacity(size) slots.
     */
    method EmplaceBack(v: T) returns (last: nat)
      requires Valid()
      modifies Repr
      ensures Valid() && fresh(Repr - old(Repr))
      ensures Elements() == old(Elements()) + [v]
      ensures last == old(Size()) && last == Size() - 1 && Elements()[last] == v
      ensures Capacity() == if old(Size()) == old(Capacity()) then GrowthCapacity(old(Size())) else old(Capacity())
    {
      if size == data.capacity {
        ReserveEmplaceBack(GrowthCapacity(size), v);
      } else {
        data.Set(size, v);
      }
      size := size + 1;
      last := size - 1;
    }

    /**
     * Places `v` before position `index` and returns `index`, where `v` now is.
     * At the end this is EmplaceBack. A full vector grows to
     * GrowthCapacity(size) slots and relocates around the new element;
     * otherwise the tail shifts right by one inside the storage.
     */
    method Emplace(index: nat, v: T) returns (pos: nat)
      requires Valid() && index <= size
      modifies Repr
      ensures Valid() && fresh(Repr - old(Repr))
      ensures pos == index
      ensures Elements() == Inserted(old(Elements()), index, v)
      ensures Capacity() == if old(Size()) == old(Capacity()) then GrowthCapacity(old(Size())) else old(Capacity())
      ensures index < old(Size()) < old(Capacity()) ==>
        data.buffer == old(data.buffer) && data.Slots() == EmplaceShift(old(data.Slots()), old(Size()), index, v)
    {
      if index != size {
        if size == data.capacity {
          ReserveEmplace(GrowthCapacity(size), index, v);
        } else {
          ShiftInsert(index, v);
          EmplaceShiftInserts(old(data.Slots()), old(size), index, v);
        }
        size := size + 1;
      } else {
        var _ := EmplaceBack(v);
        InsertAtEnd(old(Elements()), v);
      }
      pos := index;
    }

    /**
     * The branch of Emplace that has a free slot: the last element is
     * constructed in the first free slot, the elements from `index` on move
     * up by one from the back, and `v` is written at `index`. The size is
     * left to the caller.
     */
    method ShiftInsert(index: nat, v: T)
      requires Valid() && index < size < Capacity()
      modifies data.buffer
      ensures Valid() && data.Slots() == EmplaceShift(old(data.Slots()), size, index, v)
    {
      // vector.h:229 constructs the new last slot from *end(), a slot with
      // no object in it; the evident intent, modelled here, is *(end() - 1).
      var last := data.Get(size - 1);
      data.Set(size, last);
      MoveBackward(data, index, size - 1, size);
      data.Set(index, v);
    }

    /** Insert by copy or by move: both are Emplace. */
    method Insert(index: nat, v: T) returns (pos: nat)
      requires Valid() && index <= size
      modifies Repr
      ensures Valid() && fresh(Repr - old(Repr))
      ensures pos == index
      ensures Elements() == Inserted(old(Elements()), index, v)
      ensures Capacity() == if old(Size()) == old(Capacity()) then GrowthCapacity(old(Size())) else old(Capacity())
    {
      pos := Emplace(index, v);
    }

    /**
     * Removes the element at `index` by shifting the tail left by one, and
     * returns `index`: the position of the element that followed, or the end
     * when the last one was removed. The storage is kept.
     */
    method Erase(index: nat) returns (pos: nat)
      requires Valid() && index < size
      modifies Repr
      ensures Valid() && Repr == old(Repr)
      ensures Elements() == Erased(old(Elements()), index)
      ensures Capacity() == old(Capacity()) && data.buffer == old(data.buffer)
      ensures pos == index && pos <= Size()
    {
      MoveForward(data, index + 1, size, index);
      // the duplicate in the last live slot is destroyed (vector.h:252): no change to any slot
      size := size - 1;
      pos := index;
    }

    /** Drops the last element; an empty vector is left as it is. */
    method PopBack()
      requires Valid()
      modifies this
      ensures Valid() && Repr == old(Repr)
      ensures old(Size()) == 0 ==> Elements() == old(Elements())
      ensures old(Size()) > 0 ==> Elements() == old(Elements())[..old(Size()) - 1]
      ensures Capacity() == old(Capacity())
    {
      if size > 0 {
        size := size - 1;
      }
    }

    /** `operator[]` read through: only live positions may be named. */
    method Get(index: nat) returns (x: T)
      requires Valid() && index < Size()
      ensures x == Elements()[index]
    {
      x := data.Get(index);
    }

    /** `operator[]` written through: only the element at `index` changes. */
    method Set(index: nat, x: T)
      requires Valid() && index < Size()
      modifies data.buffer
      ensures Valid() && Elements() == old(Elements())[index := x]
    {
      data.Set(index, x);
    }

    /**
     * The growing path of EmplaceBack: new storage of `newCapacity` slots gets
     * `v` at slot `size` first, then the elements before it. The caller counts
     * the new element into the size.
     */
    method ReserveEmplaceBack(newCapacity: nat, v: T)
      requires Valid() && size < newCapacity
      modifies Repr
      ensures Valid() && fresh(Repr - old(Repr)) && fresh(data.buffer)
      ensures size == old(size) && Capacity() == newCapacity
      ensures data.Slots()[..size + 1] == old(Elements()) + [v]
    {
      ghost var elems := Elements();
      var newData := new RawMemory<T>.Sized(newCapacity);
      newData.Set(newData.Plus(size), v);
      UninitializedCopyN(data, 0, size, newData, 0);
      ghost var moved := newData.Slots();
      assert moved[..size] == elems && moved[size] == v;
      assert moved[..size + 1] == elems + [v];
      data.Swap(newData);
      Repr := {this} + data.Footprint();
    }

    /**
     * The growing path of Emplace: new storage of `newCapacity` slots gets `v`
     * at slot `index` first, then the `index` elements before it and the
     * `size - index` elements after it. The caller counts the new element
     * into the size.
     */
    method ReserveEmplace(newCapacity: nat, index: nat, v: T)
      requires Valid() && index <= size < newCapacity
      modifies Repr
      ensures Valid() && fresh(Repr - old(Repr)) && fresh(data.buffer)
      ensures size == old(size) && Capacity() == newCapacity
      ensures data.Slots()[..size + 1] == Inserted(old(Elements()), index, v)
    {
      ghost var elems := Elements();
      var newData := new RawMemory<T>.Sized(newCapacity);
      newData.Set(newData.Plus(index), v);
      UninitializedCopyN(data, 0, index, newData, 0);
      ghost var placed := newData.Slots();
      assert placed[..index] == elems[..index] && placed[index] == v;
      UninitializedCopyN(data, index, size - index, newData, index + 1);
      ghost var moved := newData.Slots();
      assert moved[..index + 1] == placed[..index + 1];
      assert moved[index + 1..size + 1] == elems[index..];
      InsertedFromParts(moved[..size + 1], elems, index, v);
      data.Swap(newData);
      Repr := {this} + data.Footprint();
    }
  }
}
