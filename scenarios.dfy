/**
 * Client code of the Vector class: what its callers can conclude from the
 * contracts alone, for the usage patterns the vector is documented by.
 */
module Scenarios {
  import opened AdvancedVector
  import opened VectorSpec

  /**
   * Appending each element of `xs` to an empty vector: the vector holds
   * `xs`, and its capacity follows the growth rule, which makes it the least
   * power of two that is at least |xs| (lemma CapacityAfterAppendsIsPow2).
   */
  method AppendAll<T(0)>(xs: seq<T>) returns (v: Vector<T>)
    ensures v.Valid() && fresh(v.Repr)
    ensures v.Elements() == xs && v.Capacity() == CapacityAfterAppends(|xs|)
  {
    v := new Vector<T>();
    var i := 0;
    while i < |xs|
      invariant i <= |xs|
      invariant v.Valid() && fresh(v.Repr)
      invariant v.Elements() == xs[..i] && v.Capacity() == CapacityAfterAppends(i)
    {
      CapacityAfterAppendsBounds(i);
      v.PushBack(xs[i]);
      i := i + 1;
    }
    assert xs[..i] == xs;
  }

  /** Appending 1, 2, 3, 4, 5 one at a time: size 5, capacity 8, the values in order. */
  method AppendOneToFive() returns (v: Vector<int>)
    ensures v.Valid() && v.Elements() == [1, 2, 3, 4, 5] && v.Size() == 5 && v.Capacity() == 8
  {
    v := AppendAll([1, 2, 3, 4, 5]);
    CapacityAfterAppendsIsPow2(5, 3);
  }

  /**
   * ["a", "b"] in two slots, "x" inserted at position 1: the vector grows
   * and relocates one element on each side of the new one.
   */
  method InsertIntoFull() returns (v: Vector<string>)
    ensures v.Valid() && v.Elements() == ["a", "x", "b"] && v.Capacity() == 4
  {
    v := new Vector<string>();
    v.PushBack("a");
    v.PushBack("b");
    assert v.Capacity() == 2;
    var pos := v.Insert(1, "x");
    InsertBeforeLast(["a", "b"], "x");
    assert v.Elements() == ["a", "x", "b"];
  }

  /** [1, 2, 3, 4] with position 1 erased: [1, 3, 4]. */
  method EraseSecond() returns (v: Vector<int>)
    ensures v.Valid() && v.Elements() == [1, 3, 4] && v.Size() == 3
  {
    v := AppendAll([1, 2, 3, 4]);
    var pos := v.Erase(1);
    assert v.Elements() == [1, 3, 4];
  }

  /** Inserting at `index` and then erasing at `index` restores the vector's elements. */
  method InsertThenErase<T(0)>(v: Vector<T>, index: nat, x: T)
    requires v.Valid() && index <= v.Size()
    modifies v.Repr
    ensures v.Valid() && v.Elements() == old(v.Elements())
  {
    var pos := v.Insert(index, x);
    pos := v.Erase(pos);
    EraseAfterInsert(old(v.Elements()), index, x);
  }

  /** A copy has its own storage: writing to the copy leaves the original as it was. */
  method CopyIsIndependent(v: Vector<int>) returns (c: Vector<int>)
    requires v.Valid() && v.Size() > 0
    ensures v.Valid() && c.Valid() && v.Elements() == old(v.Elements())
    ensures c.Elements() == old(v.Elements())[0 := 42]
  {
    c := new Vector<int>.Copy(v);
    c.Set(0, 42);
  }

  /** Moving out of a vector leaves it empty with no storage, and the target holds what it held. */
  method MoveLeavesSourceEmpty(v: Vector<int>) returns (m: Vector<int>)
    requires v.Valid()
    modifies v, v.data
    ensures v.Valid() && m.Valid() && v.Size() == 0 && v.Capacity() == 0
    ensures m.Elements() == old(v.Elements())
  {
    m := new Vector<int>.Move(v);
  }

  /** Growing to `n` and then shrinking to `m <= n` keeps the first `m` elements. */
  method ResizeUpThenDown<T(0)>(v: Vector<T>, n: nat, m: nat, def: T)
    requires v.Valid() && m <= n
    modifies v.Repr
    ensures v.Valid() && v.Elements() == Resized(old(v.Elements()), m, def)
  {
    v.Resize(n, def);
    v.Resize(m, def);
    ResizeTwice(old(v.Elements()), n, m, def);
  }
}
