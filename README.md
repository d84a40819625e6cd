# advanced-vector, modelled in Dafny

This project models `advanced-vector/vector.h`, a hand-rolled dynamic array.
The header has two classes:

- `RawMemory<T>` owns a block of `capacity` slots. It does not track which slots hold live objects. It is modelled by the class `Memory.RawMemory`. Its block is an `array?<T>` that is null exactly when the capacity is 0, because `Allocate` requests no memory for zero slots.
- `Vector<T>` owns one `RawMemory` plus `size`, the number of live elements at the front of the block. It is modelled by the class `AdvancedVector.Vector`. Its value is `Elements()`, the first `size` slots. Its invariant `Valid()` keeps `size <= capacity` and fixes the footprint `Repr` as the vector, its storage object and the storage's block. That no two vectors share storage is not part of `Valid()`: the constructors return a fresh `Repr`, and `Swap`, `CopyAssign` and `MoveAssign` require the two footprints to be disjoint unless both are the same vector.

The model has five modules:

- **Memory** (`raw_memory.dfy`): the raw storage class, and the std algorithms that the vector runs on raw storage, written as in-place loops with invariants. These are uninitialized copy/move, value construction, `move_backward`, and the forward `std::move`.
- **VectorSpec** (`vector_spec.dfy`): the vector's operations as functions on the sequence of live elements (`Inserted`, `Erased`, `Resized`, `GrowthCapacity`), plus the laws about them. These laws cover the insert/erase round trip, resizing twice, and the capacities that repeated appends produce.
- **AdvancedVector** (`vector.dfy`): the `Vector` class. Each method states the new elements and capacity as a function of the old ones.
- **Defects** (`defects.dfy`): two steps of the header as written, next to what they evidently intend (see Findings).
- **Scenarios** (`scenarios.dfy`): client code that derives the documented usage examples from the contracts alone.

Three points of the model depend on reading the code closely:

- Growth when full: the code computes `size_ * 2`. This equals doubling the capacity, because size and capacity are equal on that path.
- `Emplace` without reallocation: the evident intent is to move the last element into the free slot. The code moves the free slot into itself (line 229).
- `Resize` growing within capacity: the evident intent is to value-construct the new elements. The code reaches the shrinking branch instead (lines 194-196).

For the last two, the class models the intended behaviour, and module Defects models the written behaviour.

The reallocating insert relocates `index` elements before the new one and `size - index` elements after it. `ReserveEmplace` proves this for every `index <= size`. At `index == size - 1` exactly one trailing element moves (`InsertBeforeLast`, and the scenario `InsertIntoFull`).

## Model

| member | source | states |
|---|---|---|
| `Memory.RawMemory.constructor` | advanced-vector/vector.h:14 | a default raw storage has capacity 0 and no block |
| `Memory.RawMemory.Sized` | advanced-vector/vector.h:16-20 | storage for n slots has capacity n; the block is new, and there is no block at all when n is 0 |
| `Memory.RawMemory.Allocate` | advanced-vector/vector.h:80-82 | allocation returns no block for 0 slots and a new block of exactly n slots otherwise |
| `Memory.RawMemory.Move` | advanced-vector/vector.h:25-29 | move construction takes over the source's block and capacity and leaves the source with capacity 0 and no block |
| `Memory.RawMemory.MoveAssign` | advanced-vector/vector.h:31-36 | move assignment exchanges block and capacity with the source; assigning to itself changes nothing |
| `Memory.RawMemory.Swap` | advanced-vector/vector.h:61-64 | swap exchanges block and capacity between the two storages |
| `Memory.RawMemory.Plus` | advanced-vector/vector.h:42-46 | an address can be formed for every offset up to and including the capacity (one past the last slot), and for no larger offset |
| `Memory.RawMemory.Capacity` | advanced-vector/vector.h:74-76 | the capacity is the number of slots of the block, and it is 0 exactly when there is no block |
| `Memory.RawMemory.Get` | advanced-vector/vector.h:52-59 | indexed read requires index < capacity and yields that slot's value |
| `Memory.RawMemory.Set` | advanced-vector/vector.h:56-59 | indexed write requires index < capacity and changes that slot and no other |
| `Memory.UninitializedCopyN` | advanced-vector/vector.h:177-182 | uninitialized copy/move of n slots: the destination range receives the source range and every other destination slot keeps its value |
| `Memory.UninitializedValueConstructN` | advanced-vector/vector.h:105 | value construction of n slots: the range holds the value-constructed value and every other slot keeps its value |
| `Memory.MoveBackward` | advanced-vector/vector.h:230 | move_backward inside one block: [first, last) ends up just before dLast, and the slots outside the destination keep their values |
| `Memory.ShiftBackward` | advanced-vector/vector.h:230 | the element-by-element loop of move_backward, from the last slot down: each destination slot receives the value its source slot held before the loop, and every other slot keeps its value |
| `Memory.MoveForward` | advanced-vector/vector.h:251 | std::move to the left inside one block: [first, last) ends up from dFirst on, and the slots outside the destination keep their values |
| `AdvancedVector.Vector.Size` | advanced-vector/vector.h:157-159 | the size is the number of live elements and never exceeds the capacity |
| `AdvancedVector.Vector.Capacity` | advanced-vector/vector.h:161-163 | the vector's capacity is its storage's slot count, and it is never below the number of elements |
| `AdvancedVector.Vector.constructor` | advanced-vector/vector.h:99 | a default vector is empty, has capacity 0 and allocates nothing |
| `AdvancedVector.Vector.Sized` | advanced-vector/vector.h:101-106 | Vector(n) holds n value-constructed elements in exactly n slots |
| `AdvancedVector.Vector.Copy` | advanced-vector/vector.h:108-113 | a copy holds equal elements, in new storage of exactly other.Size() slots that shares nothing with the source |
| `AdvancedVector.Vector.Move` | advanced-vector/vector.h:115-120 | move construction takes over the source's storage, elements and capacity, and leaves the source empty with capacity 0 |
| `AdvancedVector.Vector.Swap` | advanced-vector/vector.h:165-168 | swap exchanges storage, capacity and elements between the two vectors |
| `AdvancedVector.Vector.CopyAssign` | advanced-vector/vector.h:122-144 | after copy assignment the elements equal rhs's and rhs is unchanged; the capacity becomes rhs.Size() in new storage if rhs did not fit, and otherwise the storage and capacity are kept; self-assignment changes nothing |
| `AdvancedVector.Vector.AssignWithinCapacity` | advanced-vector/vector.h:128-140 | when rhs fits in the current storage, the storage is kept and afterwards the elements equal rhs's, whether this vector was shorter or longer |
| `AdvancedVector.Vector.MoveAssign` | advanced-vector/vector.h:146-151 | move assignment takes rhs's elements and capacity and leaves rhs holding this vector's previous ones; self-assignment changes nothing |
| `AdvancedVector.Vector.Reserve` | advanced-vector/vector.h:170-187 | Reserve(n) with n <= capacity changes nothing; otherwise the capacity becomes exactly n, in new storage, with the elements unchanged |
| `AdvancedVector.Vector.Resize` | advanced-vector/vector.h:189-198 | Resize(n) leaves exactly Resized(old, n): the first min(size, n) elements are kept and the rest are value-constructed; the capacity becomes n if n did not fit and is kept otherwise |
| `AdvancedVector.Vector.PushBack` | advanced-vector/vector.h:200-206 | PushBack appends the value after the unchanged earlier elements, and grows a full vector to GrowthCapacity(size) |
| `AdvancedVector.Vector.EmplaceBack` | advanced-vector/vector.h:208-218 | EmplaceBack appends the value, returns the position of the new last element, and grows a full vector to GrowthCapacity(size) |
| `AdvancedVector.Vector.Emplace` | advanced-vector/vector.h:220-239 | Emplace at index <= size leaves Inserted(old, index, v), returns index, and grows a full vector to GrowthCapacity(size); without reallocation the slots are as EmplaceShift says |
| `AdvancedVector.Vector.ShiftInsert` | advanced-vector/vector.h:228-231 | with a free slot, the storage afterwards is exactly EmplaceShift of the old slots: the last element moved into the free slot, the tail from index moved up by one, v at index |
| `AdvancedVector.Vector.Insert` | advanced-vector/vector.h:241-247 | Insert is Emplace: Inserted(old, index, v), returns index |
| `AdvancedVector.Vector.Erase` | advanced-vector/vector.h:249-255 | Erase at index < size leaves Erased(old, index), keeps storage and capacity, and returns index (the end when the last element was removed) |
| `AdvancedVector.Vector.PopBack` | advanced-vector/vector.h:257-262 | PopBack drops the last element of a non-empty vector and changes nothing on an empty one; the capacity is kept |
| `AdvancedVector.Vector.Get` | advanced-vector/vector.h:264-271 | indexed read requires index < size and yields that element |
| `AdvancedVector.Vector.Set` | advanced-vector/vector.h:268-271 | indexed write requires index < size and changes that element only |
| `AdvancedVector.Vector.ReserveEmplaceBack` | advanced-vector/vector.h:301-316 | the growing append fills new storage of the given capacity with the old elements followed by the new value |
| `AdvancedVector.Vector.ReserveEmplace` | advanced-vector/vector.h:318-336 | the growing insert fills new storage with the index elements before, the new value, and the size - index elements after: Inserted(old, index, v) |
| `VectorSpec.Defaults` | advanced-vector/vector.h:105 | n value-constructed elements are n copies of T() |
| `VectorSpec.Inserted` | advanced-vector/vector.h:220-239 | inserting before i gives one more element: v at i, the elements before i unchanged, and those from i shifted right by one |
| `VectorSpec.Erased` | advanced-vector/vector.h:249-255 | erasing at i gives one fewer element: those before i unchanged, and those after i shifted left by one |
| `VectorSpec.Resized` | advanced-vector/vector.h:189-198 | resizing to n gives n elements: the old ones up to n, then T() |
| `VectorSpec.GrowthCapacity` | advanced-vector/vector.h:210-211 | a full vector grows to a capacity with room for one more: 1 when empty, twice the size otherwise |
| `VectorSpec.EmplaceShift` | advanced-vector/vector.h:228-232 | the slots after an insert with a free slot: v at the index, the earlier slots kept, the old last element in the first free slot, the slots past it kept |
| `VectorSpec.EmplaceShiftInserts` | advanced-vector/vector.h:228-232 | the in-place insert (moving the last element first, as intended) leaves the live slots equal to Inserted and no slot past them changed |
| `VectorSpec.EraseAfterInsert` | advanced-vector/vector.h:220-255 | Erase at i after Insert at i restores the original sequence |
| `VectorSpec.InsertAfterErase` | advanced-vector/vector.h:220-255 | Insert of the erased element at i after Erase at i restores the original sequence |
| `VectorSpec.InsertBeforeLast` | advanced-vector/vector.h:325-330 | inserting before the last element leaves exactly one element after the new one, which is what the reallocating insert relocates behind it; `Scenarios.InsertIntoFull` uses it |
| `VectorSpec.InsertAtEnd` | advanced-vector/vector.h:235-236 | inserting at the end is appending |
| `VectorSpec.ResizeTwice` | advanced-vector/vector.h:189-198 | Resize(n) then Resize(m) with m <= n is Resize(m): the first m elements are kept |
| `VectorSpec.CapacityAfterAppendsIsPow2` | advanced-vector/vector.h:208-218 | after n appends to an empty vector the capacity is the least power of two >= n (1, 2, 4, 4, 8, ...) |
| `VectorSpec.CapacityAfterAppends` | advanced-vector/vector.h:208-212 | the capacity after n appends to an empty vector, applying the growth rule whenever the vector is full; it is 0 exactly when nothing was appended |
| `VectorSpec.CapacityAfterAppendsBounds` | advanced-vector/vector.h:208-218 | after n appends to an empty vector the capacity is between n and 2n |
| `Defects.EmplaceAsWrittenLosesLast` | advanced-vector/vector.h:229-231 | as written, the in-place insert gets every live slot right but the last one, which keeps the old contents of the free slot |
| `Defects.EmplaceShiftAsWritten` | advanced-vector/vector.h:229-231 | the slots after an insert with a free slot as written: v at the index, and the first free slot constructed from itself, so it keeps what it held |
| `Defects.EmplaceAsWrittenCounterexample` | advanced-vector/vector.h:229-231 | as written, inserting 5 at 0 into [1] with a free slot holding 0 gives [5, 0] instead of [5, 1] |
| `Defects.DestroyCountAsWritten` | advanced-vector/vector.h:195 | the count size_ - new_size is computed in size_t and wraps around to 2^64 - (new_size - size_) when the vector grows |
| `Defects.ResizeWithinCapacityAsWritten` | advanced-vector/vector.h:194-197 | growing within the capacity as written: the new size is taken and the new live slots keep whatever they held, with nothing constructed |
| `Defects.ResizeAsWrittenDestroysPastEnd` | advanced-vector/vector.h:194-196 | as written, growing within the capacity asks destroy_n to run past the last slot |
| `Defects.ResizeAsWrittenMatchesOnlyByChance` | advanced-vector/vector.h:194-197 | as written, growing within the capacity gives the intended elements exactly when the new slots already held T() |
| `Defects.ResizeAsWrittenCounterexample` | advanced-vector/vector.h:194-197 | as written, resizing [7] with a free slot holding 9 to 2 gives [7, 9] instead of [7, 0] |
| `Scenarios.AppendAll` | advanced-vector/vector.h:200-218 | appending xs to an empty vector holds xs with capacity CapacityAfterAppends of the length of xs |
| `Scenarios.AppendOneToFive` | advanced-vector/vector.h:200-218 | appending 1..5 gives size 5, capacity 8 and the elements in order |
| `Scenarios.InsertIntoFull` | advanced-vector/vector.h:319-336 | inserting "x" at 1 into a full ["a", "b"] gives ["a", "x", "b"] with capacity 4 |
| `Scenarios.EraseSecond` | advanced-vector/vector.h:249-255 | erasing position 1 of [1, 2, 3, 4] gives [1, 3, 4] |
| `Scenarios.InsertThenErase` | advanced-vector/vector.h:220-255 | Insert then Erase at the same position restores the vector's elements |
| `Scenarios.CopyIsIndependent` | advanced-vector/vector.h:108-113 | writing to a copy leaves the original unchanged |
| `Scenarios.MoveLeavesSourceEmpty` | advanced-vector/vector.h:115-120 | after move construction the source has size 0 and capacity 0 and the target holds its elements |
| `Scenarios.ResizeUpThenDown` | advanced-vector/vector.h:189-198 | growing to n and then shrinking to m <= n keeps the first m elements |

## Left out

- Allocation failure and exception safety: `operator new` never fails here, no element constructor or assignment throws, and there is no unwinding of partial construction.
- The choice between moving and copying at lines 177, 306 and 324: moving and copying give equal values in this model, so each relocation is a single copy loop.
- Object lifetimes: placement `new`, `destroy_n`/`destroy`, the destructors and `Deallocate`/`operator delete` have no counterpart. Which slots are live is told by `size` alone. The number of constructor calls made by `Emplace` is not modelled.
- Iterators: `begin`/`end`/`cbegin`/`cend`, the `const` overloads that `const_cast` to the mutable ones, `GetAddress`, and iterator invalidation. Positions are indices into the live range.
- Value construction `T()` is the parameter `def` of `Vector.Sized` and `Vector.Resize`, because Dafny has no canonical default value. Arguments forwarded to a constructor (`Emplace`, `EmplaceBack`) are a single value `v`.
- The copy and move overloads of `PushBack` and `Insert` are one method each.
- RawMemory's deleted copy operations (lines 22-23) have no counterpart: the model offers no copy. Exclusive ownership is expressed by the vector's footprint `Repr`: each constructor returns a fresh one, and the operations on two vectors require their footprints to be disjoint.
- Integer widths: sizes and capacities are unbounded naturals, so an overflow of `size_ * 2` in size_t is not modelled. Only `Defects.DestroyCountAsWritten` models size_t, as 64 bits.
- The debug assertions at lines 44, 57 and 269 are preconditions. Their release-build behaviour (undefined) is not modelled.
- `AdvancedVector.Vector.Emplace`: the branch without reallocation follows the evident intent of line 229 rather than the code as written (see Findings).
- `AdvancedVector.Vector.Emplace`, `AdvancedVector.Vector.ShiftInsert` and `AdvancedVector.Vector.Insert`: an argument that refers to one of the vector's own elements is not modelled. The model takes `v` by value, read before any slot moves. In the source, `Insert` passes a reference through to `Emplace` (lines 241-243). On the path without reallocation, line 231 reads that reference only after `move_backward` on line 230 has shifted the tail. An argument naming element j >= index therefore sees the value of element j - 1, or a moved-from object for the element at index. For example, with line 229 as intended, [1, 2, 3] with capacity 4 and `Insert(begin(), v[2])` gives [2, 1, 2, 3], where the model gives [3, 1, 2, 3]. The reallocating paths construct the new element first (lines 304 and 322), so they are not affected.
- `AdvancedVector.Vector.Resize`: growth within the capacity value-constructs the new elements rather than following lines 194-196 as written (see Findings).

## Findings

| source | as written | input that shows it | evidently intended | confidence | as-written member | corrected member |
|---|---|---|---|---|---|---|
| advanced-vector/vector.h:229 | `new (end()) T(move(*end()))` constructs the first free slot from itself, a slot holding no object. `move_backward` on line 230 then overwrites the last element, so it is lost and the new last slot holds whatever the free slot held | a vector [1] with capacity 2, whose free slot holds 0; `Emplace(begin(), 5)` gives [5, 0] | construct the free slot from `*(end() - 1)`, giving [5, 1] | high; not executed | `Defects.EmplaceAsWrittenCounterexample` | `VectorSpec.EmplaceShiftInserts` |
| advanced-vector/vector.h:194-196 | growth with `size_ < new_size <= Capacity()` takes the `else` branch. There `size_ - new_size` wraps around in size_t, `destroy_n` runs past the end of the storage, and no new element is value-constructed | a vector [7] with capacity 2, whose free slot holds 9; `Resize(2)` with T() = 0 holds [7, 9] and calls `destroy_n` on 2^64 - 1 slots | value-construct the slots [size_, new_size), giving [7, 0] | high; not executed | `Defects.ResizeAsWrittenCounterexample` | `AdvancedVector.Vector.Resize` |
