/**
 * Raw storage: an exclusively owned block of `capacity` element slots that
 * knows nothing about which slots hold live objects (vector.h, RawMemory<T>).
 *
 * The block is an `array?<T>` that is null exactly when the capacity is 0,
 * because Allocate hands out no memory for a zero-slot request. Slots that no
 * one has constructed hold arbitrary values, which is what `new T[n]` gives
 * for a type with a default. The std algorithms that the vector runs on raw
 * storage (uninitialized copy/move, value construction, move_backward and
 * forward std::move) are in-place loops over a block, below the class.
 * Destroying objects and freeing memory are not observable in this value
 * model and have no counterpart here.
 */
module Memory {

  class RawMemory<T(0)> {
    var buffer: array?<T>
    var capacity: nat

    /** The block exists exactly when there is at least one slot, and has `capacity` slots. */
    ghost predicate Valid()
      reads this
    {
      (buffer == null <==> capacity == 0) &&
      (buffer != null ==> buffer.Length == capacity)
    }

    /** The objects this storage owns. */
    ghost function Footprint(): set<object>
      reads this
    {
      if buffer == null then {this} else {this, buffer}
    }

    /** The current value of every slot, live or not. */
    ghost function Slots(): (s: seq<T>)
      reads this, buffer
      requires Valid()
      ensures |s| == capacity
    {
      if buffer == null then [] else buffer[..]
    }

    /** `RawMemory() = default`: no slots and no block. */
    constructor ()
      ensures Valid() && capacity == 0 && buffer == null
    {
      buffer := null;
      capacity := 0;
    }

    /** `explicit RawMemory(size_t capacity)`: allocates at once, nothing for 0 slots. */
    constructor Sized(n: nat)
      ensures Valid() && capacity == n
      ensures n == 0 ==> buffer == null
      ensures buffer != null ==> fresh(buffer)
    {
      var block := Allocate(n);
      buffer := block;
      capacity := n;
    }

    /** Move construction: starts empty and swaps, so the source ends up empty. */
    constructor Move(other: RawMemory<T>)
      requires other.Valid()
      modifies other
      ensures Valid() && other.Valid()
      ensures buffer == old(other.buffer) && capacity == old(other.capacity)
      ensures other.buffer == null && other.capacity == 0
    {
      buffer := null;
      capacity := 0;
      new;
      Swap(other);
    }

    /** Raw memory for `n` slots, or no block at all when `n` is 0. */
    static method Allocate(n: nat) returns (block: array?<T>)
      ensures block == null <==> n == 0
      ensures block != null ==> fresh(block) && block.Length == n
    {
      if n != 0 {
        block := new T[n];
      } else {
        block := null;
      }
    }

    /** Move assignment: a swap, except that assigning to itself changes nothing. */
    method MoveAssign(rhs: RawMemory<T>)
      requires Valid() && rhs.Valid()
      modifies this, rhs
      ensures Valid() && rhs.Valid()
      ensures rhs == this ==> buffer == old(buffer) && capacity == old(capacity)
      ensures rhs != this ==> buffer == old(rhs.buffer) && capacity == old(rhs.capacity)
      ensures rhs != this ==> rhs.buffer == old(buffer) && rhs.capacity == old(capacity)
    {
      if this != rhs {
        Swap(rhs);
      }
    }

    /** Exchanges blocks and capacities; swapping with itself is harmless. */
    method Swap(other: RawMemory<T>)
      requires Valid() && other.Valid()
      modifies this, other
      ensures Valid() && other.Valid()
      ensures buffer == old(other.buffer) && capacity == old(other.capacity)
      ensures other.buffer == old(buffer) && other.capacity == old(capacity)
    {
      var block, count := buffer, capacity;
      buffer, capacity := other.buffer, other.capacity;
      other.buffer, other.capacity := block, count;
    }

    /**
     * `operator+`: the address of slot `offset`. Offsets run up to and
     * including the capacity, one past the last slot, and no further.
     */
    function Plus(offset: nat): (address: nat)
      reads this
      requires Valid() && offset <= capacity
      ensures address <= capacity && address == offset
    {
      offset
    }

    /** `operator[]` read through: the index must name a slot. */
    method Get(index: nat) returns (x: T)
      requires Valid() && index < capacity
      ensures x == Slots()[index]
    {
      x := buffer[index];
    }

    /** `operator[]` written through: only slot `index` changes. */
    method Set(index: nat, x: T)
      requires Valid() && index < capacity
      modifies buffer
      ensures Valid() && Slots() == old(Slots())[index := x]
    {
      buffer[index] := x;
    }

    /** The number of slots, whether or not they hold objects. */
    function Capacity(): (c: nat)
      reads this, buffer
      requires Valid()
      ensures c == |Slots()| && (c == 0 <==> buffer == null)
    {
      capacity
    }
  }

  /**
   * std::uninitialized_copy_n and std::uninitialized_move_n: slots
   * [to, to + n) of `dst` receive slots [from, from + n) of `src`; moving and
   * copying give equal values here. The two blocks are different ones.
   */
  method UninitializedCopyN<T(0)>(src: RawMemory<T>, from: nat, n: nat, dst: RawMemory<T>, to: nat)
    requires src.Valid() && dst.Valid()
    requires from + n <= src.capacity && to + n <= dst.capacity
    requires n > 0 ==> src.buffer != dst.buffer
    modifies dst.buffer
    ensures dst.Valid()
    ensures dst.Slots() == old(dst.Slots()[..to]) + src.Slots()[from..from + n] + old(dst.Slots()[to + n..])
  {
    if src.buffer == null || dst.buffer == null {
      return;
    }
    var s, d := src.buffer, dst.buffer;
    ghost var o, t := d[..], s[from..from + n];
    var k := 0;
    while k < n
      invariant 0 <= k <= n
      invariant forall j :: 0 <= j < to ==> d[j] == o[j]
      invariant forall j :: to <= j < to + k ==> d[j] == t[j - to]
      invariant forall j :: to + k <= j < d.Length ==> d[j] == o[j]
    {
      d[to + k] := s[from + k];
      k := k + 1;
    }
    Spliced(o, to, t, d[..]);
  }

  /** std::uninitialized_value_construct_n: slots [from, from + n) receive the value-constructed `def`. */
  method UninitializedValueConstructN<T(0)>(m: RawMemory<T>, from: nat, n: nat, def: T)
    requires m.Valid() && from + n <= m.capacity
    modifies m.buffer
    ensures m.Valid()
    ensures m.Slots() == old(m.Slots()[..from]) + seq(n, _ => def) + old(m.Slots()[from + n..])
  {
    if m.buffer == null {
      return;
    }
    var d := m.buffer;
    ghost var o, t := d[..], seq(n, _ => def);
    var k := 0;
    while k < n
      invariant 0 <= k <= n
      invariant forall j :: 0 <= j < from ==> d[j] == o[j]
      invariant forall j :: from <= j < from + k ==> d[j] == t[j - from]
      invariant forall j :: from + k <= j < d.Length ==> d[j] == o[j]
    {
      d[from + k] := def;
      k := k + 1;
    }
    Spliced(o, from, t, d[..]);
  }

  /**
   * std::move_backward(first, last, dLast) inside one block: the range
   * [first, last) ends up at [dLast - (last - first), dLast). It runs from the
   * back, so a destination to the right never overwrites a slot not yet read.
   */
  method MoveBackward<T(0)>(m: RawMemory<T>, first: nat, last: nat, dLast: nat)
    requires m.Valid() && first <= last <= dLast <= m.capacity
    modifies m.buffer
    ensures m.Valid()
    ensures m.Slots() == old(m.Slots()[..dLast - (last - first)] + m.Slots()[first..last] + m.Slots()[dLast..])
  {
    if m.buffer == null {
      return;
    }
    var d := m.buffer;
    ghost var o := d[..];
    var count := last - first;
    ShiftBackward(d, first, dLast - count, count);
    Spliced(o, dLast - count, o[first..last], d[..]);
  }

  /**
   * The loop of MoveBackward on the block itself: slots [dFirst, dFirst +
   * count) receive what slots [first, first + count) held, copied from the
   * last one down; no other slot changes.
   */
  method ShiftBackward<T>(d: array<T>, first: nat, dFirst: nat, count: nat)
    requires first <= dFirst && dFirst + count <= d.Length
    modifies d
    ensures forall j :: 0 <= j < dFirst ==> d[j] == old(d[j])
    ensures forall j :: dFirst <= j < dFirst + count ==> d[j] == old(d[j - dFirst + first])
    ensures forall j :: dFirst + count <= j < d.Length ==> d[j] == old(d[j])
  {
    var k := count;
    while k > 0
      invariant 0 <= k <= count
      invariant forall j :: 0 <= j < dFirst + k ==> d[j] == old(d[j])
      invariant forall j :: dFirst + k <= j < dFirst + count ==> d[j] == old(d[j - dFirst + first])
      invariant forall j :: dFirst + count <= j < d.Length ==> d[j] == old(d[j])
    {
      k := k - 1;
      d[dFirst + k] := d[first + k];
    }
  }

  /**
   * std::move(first, last, dFirst) inside one block with dFirst <= first:
   * the range [first, last) ends up at [dFirst, dFirst + (last - first)). It
   * runs from the front, so a destination to the left never overwrites a slot
   * not yet read.
   */
  method MoveForward<T(0)>(m: RawMemory<T>, first: nat, last: nat, dFirst: nat)
    requires m.Valid() && dFirst <= first <= last <= m.capacity
    modifies m.buffer
    ensures m.Valid()
    ensures m.Slots() == old(m.Slots()[..dFirst] + m.Slots()[first..last] + m.Slots()[dFirst + (last - first)..])
  {
    if m.buffer == null {
      return;
    }
    var d := m.buffer;
    ghost var o := m.Slots();
    ghost var t := o[first..last];
    var count := last - first;
    var k := 0;
    while k < count
      invariant 0 <= k <= count
      invariant forall j :: 0 <= j < dFirst ==> d[j] == o[j]
      invariant forall j :: dFirst <= j < dFirst + k ==> d[j] == t[j - dFirst]
      invariant forall j :: dFirst + k <= j < d.Length ==> d[j] == o[j]
    {
      d[dFirst + k] := d[first + k];
      k := k + 1;
    }
    Spliced(o, dFirst, t, d[..]);
    assert m.Slots() == d[..];
  }

  /**
   * A block that agrees with `o` outside [at, at + |t|) and with `t` inside
   * it is `o` with that range replaced by `t`.
   */
  lemma Spliced<T>(o: seq<T>, at: nat, t: seq<T>, r: seq<T>)
    requires at + |t| <= |o| == |r|
    requires forall j :: 0 <= j < at ==> r[j] == o[j]
    requires forall j :: at <= j < at + |t| ==> r[j] == t[j - at]
    requires forall j :: at + |t| <= j < |o| ==> r[j] == o[j]
    ensures r == o[..at] + t + o[at + |t|..]
  {
    var e := o[..at] + t + o[at + |t|..];
    forall j | 0 <= j < |r|
      ensures r[j] == e[j]
    {
      if j < at {
      } else if j < at + |t| {
      } else {
      }
    }
  }
}
