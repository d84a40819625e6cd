/**
 * Two steps of vector.h as they are written, next to what they evidently
 * mean to do. The Vector class follows the intended behaviour; the members
 * here show the written code going wrong on a concrete input.
 */
module Defects {
  import opened VectorSpec

  /**
   * All slots after an Emplace at `i < size` that does not reallocate, as
   * vector.h:229-231 is written: line 229 constructs the first free slot from
   * itself (`*end()`, a slot holding no object) instead of from the last
   * element, and move_backward then overwrites the last element.
   */
  function EmplaceShiftAsWritten<T>(slots: seq<T>, size: nat, i: nat, v: T): (r: seq<T>)
    requires i < size < |slots|
    ensures |r| == |slots| && r[i] == v && r[size] == slots[size]
  {
    var constructed := slots[size := slots[size]];
    var shifted := constructed[..i + 1] + constructed[i..size - 1] + constructed[size..];
    shifted[i := v]
  }

  /**
   * As written, every live element but the last is where Inserted puts it;
   * the last live slot keeps whatever the free slot held, so the element
   * that used to be last is gone.
   */
  lemma EmplaceAsWrittenLosesLast<T>(slots: seq<T>, size: nat, i: nat, v: T)
    requires i < size < |slots|
    ensures |EmplaceShiftAsWritten(slots, size, i, v)| == |slots|
    ensures EmplaceShiftAsWritten(slots, size, i, v)[..size] == Inserted(slots[..size], i, v)[..size]
    ensures EmplaceShiftAsWritten(slots, size, i, v)[size] == slots[size]
  {
    var r := EmplaceShiftAsWritten(slots, size, i, v);
    var e := Inserted(slots[..size], i, v);
    assert forall k :: 0 <= k < size ==> r[k] == e[k];
  }

  /**
   * The vector [1] with one free slot that happens to hold 0: inserting 5
   * at position 0 as written gives [5, 0], where [5, 1] was meant.
   */
  lemma EmplaceAsWrittenCounterexample()
    ensures EmplaceShiftAsWritten([1, 0], 1, 0, 5)[..2] == [5, 0]
    ensures EmplaceShift([1, 0], 1, 0, 5)[..2] == Inserted([1], 0, 5) == [5, 1]
  {
  }

  /** One more than the largest size_t, on a platform where size_t has 64 bits. */
  const SizeTRange: nat := 0x1_0000_0000_0000_0000

  /**
   * The count `size_ - new_size` that vector.h:195 hands to destroy_n,
   * computed in size_t: it wraps around when the vector grows.
   */
  function DestroyCountAsWritten(size: nat, newSize: nat): (count: nat)
    requires size < SizeTRange && newSize < SizeTRange
    ensures count < SizeTRange
    ensures newSize <= size ==> count == size - newSize
    ensures size < newSize ==> count == SizeTRange - (newSize - size)
  {
    (size - newSize) % SizeTRange
  }

  /**
   * Growing within the capacity as written: destroy_n is asked to destroy
   * slots from `newSize` on, further than the last slot of the storage.
   */
  lemma ResizeAsWrittenDestroysPastEnd(size: nat, newSize: nat, capacity: nat)
    requires size < newSize <= capacity < SizeTRange
    ensures newSize + DestroyCountAsWritten(size, newSize) > capacity
  {
  }

  /**
   * The live elements after growing within the capacity as written: the
   * slots [size, newSize) become live with whatever they held, since the
   * branch taken constructs nothing.
   */
  function ResizeWithinCapacityAsWritten<T>(slots: seq<T>, size: nat, newSize: nat): (r: seq<T>)
    requires size < newSize <= |slots|
    ensures |r| == newSize && r[..size] == slots[..size]
    ensures forall k :: size <= k < newSize ==> r[k] == slots[k]
  {
    slots[..newSize]
  }

  /**
   * As written, growing within the capacity gives the intended elements
   * exactly when the slots that become live already held the value that
   * value construction would have put there.
   */
  lemma ResizeAsWrittenMatchesOnlyByChance<T>(slots: seq<T>, size: nat, newSize: nat, def: T)
    requires size < newSize <= |slots|
    ensures ResizeWithinCapacityAsWritten(slots, size, newSize) == Resized(slots[..size], newSize, def)
        <==> slots[size..newSize] == Defaults(newSize - size, def)
  {
  }

  /**
   * The vector [7] with one free slot that holds 9, resized to 2 with T()
   * being 0: as written it holds [7, 9], where [7, 0] was meant.
   */
  lemma ResizeAsWrittenCounterexample()
    ensures ResizeWithinCapacityAsWritten([7, 9], 1, 2) == [7, 9]
    ensures Resized([7], 2, 0) == [7, 0]
  {
  }
}
