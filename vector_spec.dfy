/**
 * The vector's observable value as a sequence of live elements, and what each
 * operation does to it. The class in module AdvancedVector is specified by
 * these functions; the lemmas here are the laws the vector's users rely on.
 */
module VectorSpec {

  /** `n` value-constructed elements, each equal to `def` (T() in the source). */
  function Defaults<T>(n: nat, def: T): (r: seq<T>)
    ensures |r| == n && forall k :: 0 <= k < n ==> r[k] == def
  {
    seq(n, _ => def)
  }

  /** The sequence after placing `v` before position `i`. */
  function Inserted<T>(s: seq<T>, i: nat, v: T): (r: seq<T>)
    requires i <= |s|
    ensures |r| == |s| + 1 && r[i] == v
    ensures forall k :: 0 <= k < i ==> r[k] == s[k]
    ensures forall k :: i <= k < |s| ==> r[k + 1] == s[k]
  {
    s[..i] + [v] + s[i..]
  }

  /** The sequence after removing the element at position `i`. */
  function Erased<T>(s: seq<T>, i: nat): (r: seq<T>)
    requires i < |s|
    ensures |r| == |s| - 1
    ensures forall k :: 0 <= k < i ==> r[k] == s[k]
    ensures forall k :: i <= k < |r| ==> r[k] == s[k + 1]
  {
    s[..i] + s[i + 1..]
  }

  /** The sequence after resizing to `n`: cut back, or padded with value-constructed elements. */
  function Resized<T>(s: seq<T>, n: nat, def: T): (r: seq<T>)
    ensures |r| == n
    ensures forall k :: 0 <= k < n && k < |s| ==> r[k] == s[k]
    ensures forall k :: |s| <= k < n ==> r[k] == def
  {
    if n <= |s| then s[..n] else s + Defaults(n - |s|, def)
  }

  /**
   * The capacity a full vector of `size` elements grows to before it takes
   * one more element (vector.h:211 and 226): 1 for an empty vector, double
   * the size otherwise.
   */
  function GrowthCapacity(size: nat): (c: nat)
    ensures c > size && c >= 1
    ensures size == 0 ==> c == 1
    ensures size > 0 ==> c == 2 * size
  {
    if size == 0 then 1 else size * 2
  }

  /**
   * All slots of the storage after an Emplace at `i < size` that does not
   * reallocate (vector.h:228-232): the last live element is constructed in
   * the first free slot, slots [i, size - 1) move up by one from the back, and
   * `v` is assigned at `i`. The first step follows the evident intent, moving
   * from slot `size - 1`; module Defects has the step as written.
   */
  function EmplaceShift<T>(slots: seq<T>, size: nat, i: nat, v: T): (r: seq<T>)
    requires i < size < |slots|
    ensures |r| == |slots| && r[i] == v && r[size] == slots[size - 1]
    ensures forall k :: 0 <= k < i ==> r[k] == slots[k]
    ensures forall k :: size < k < |slots| ==> r[k] == slots[k]
  {
    var constructed := slots[size := slots[size - 1]];
    var shifted := constructed[..i + 1] + constructed[i..size - 1] + constructed[size..];
    shifted[i := v]
  }

  /** The in-place Emplace leaves the live elements as Inserted says and no other slot changed. */
  lemma EmplaceShiftInserts<T>(slots: seq<T>, size: nat, i: nat, v: T)
    requires i < size < |slots|
    ensures |EmplaceShift(slots, size, i, v)| == |slots|
    ensures EmplaceShift(slots, size, i, v)[..size + 1] == Inserted(slots[..size], i, v)
    ensures EmplaceShift(slots, size, i, v)[size + 1..] == slots[size + 1..]
  {
  }

  /** The capacity of a vector built by `n` appends to an empty one. */
  function CapacityAfterAppends(n: nat): (c: nat)
    ensures c == 0 <==> n == 0
  {
    if n == 0 then 0
    else
      var before := CapacityAfterAppends(n - 1);
      if n - 1 == before then GrowthCapacity(n - 1) else before
  }

  function Pow2(k: nat): (p: nat)
    ensures p >= 1
  {
    if k == 0 then 1 else 2 * Pow2(k - 1)
  }

  /** A sequence that agrees with Inserted(s, i, v) before, at and after `i` is Inserted(s, i, v). */
  lemma InsertedFromParts<T>(r: seq<T>, s: seq<T>, i: nat, v: T)
    requires i <= |s| && |r| == |s| + 1
    requires r[..i] == s[..i] && r[i] == v && r[i + 1..] == s[i..]
    ensures r == Inserted(s, i, v)
  {
    assert r == r[..i] + [r[i]] + r[i + 1..];
  }

  /** Erasing the element just inserted gives back the original sequence. */
  lemma EraseAfterInsert<T>(s: seq<T>, i: nat, v: T)
    requires i <= |s|
    ensures Erased(Inserted(s, i, v), i) == s
  {
  }

  /** Putting back the element just erased gives back the original sequence. */
  lemma InsertAfterErase<T>(s: seq<T>, i: nat)
    requires i < |s|
    ensures Inserted(Erased(s, i), i, s[i]) == s
  {
  }

  /**
   * Inserting before the last element puts the new value second to last and
   * keeps exactly one element after it.
   */
  lemma InsertBeforeLast<T>(s: seq<T>, v: T)
    requires |s| > 0
    ensures Inserted(s, |s| - 1, v) == s[..|s| - 1] + [v, s[|s| - 1]]
  {
  }

  /** Inserting at the end is appending. */
  lemma InsertAtEnd<T>(s: seq<T>, v: T)
    ensures Inserted(s, |s|, v) == s + [v]
  {
  }

  /** Growing then shrinking keeps the first `m` elements: resize(n) then resize(m) is resize(m). */
  lemma ResizeTwice<T>(s: seq<T>, n: nat, m: nat, def: T)
    requires m <= n
    ensures Resized(Resized(s, n, def), m, def) == Resized(s, m, def)
  {
  }

  /**
   * The capacities of a vector after 1, 2, 3, ... appends to an empty one
   * are 1, 2, 4, 4, 8, ...: after `n` appends the capacity is the least power
   * of two that is at least `n`, here `Pow2(k)` with Pow2(k - 1) < n <= Pow2(k).
   */
  lemma {:induction false} CapacityAfterAppendsIsPow2(n: nat, k: nat)
    requires 1 <= n <= Pow2(k)
    requires k == 0 || Pow2(k - 1) < n
    ensures CapacityAfterAppends(n) == Pow2(k)
  {
    var m := n - 1;
    if m == 0 {
      assert k == 0;
    } else if k > 0 && m == Pow2(k - 1) {
      if k - 1 > 0 {
        assert Pow2(k - 2) < m by {
          assert Pow2(k - 1) == 2 * Pow2(k - 2);
        }
      }
      CapacityAfterAppendsIsPow2(m, k - 1);
    } else {
      assert k > 0;
      CapacityAfterAppendsIsPow2(m, k);
    }
  }

  /** A vector built by appends always has room for what it holds. */
  lemma {:induction false} CapacityAfterAppendsBounds(n: nat)
    ensures n <= CapacityAfterAppends(n) <= 2 * n
  {
    if n > 0 {
      CapacityAfterAppendsBounds(n - 1);
    }
  }
}
