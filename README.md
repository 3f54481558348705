# advanced-vector in Dafny

This project models `advanced-vector/vector.h`, a hand-written growable array
in C++ built from two layers, and proves its contracts with Dafny.

- `RawMemory<T>` owns a block of uninitialised element slots and its capacity.
  Asking for zero slots allocates nothing and leaves a null buffer. A block can be
  moved and swapped but never copied. Slot addresses are defined up to one past
  the end, and indexing is defined below the capacity.
- `Vector<T>` is a `RawMemory<T>` together with a size. Slots `[0, size)` hold
  live elements and the rest is raw storage. On top of that it provides
  construction (default, sized, copy, move), copy and move assignment, `Swap`,
  `Reserve`, `Resize`, `PushBack`/`EmplaceBack`, `PopBack`,
  `Emplace`/`Insert`, `Erase`, indexing, `Size`, `Capacity`, `begin` and `end`.

How the model is laid out:

- `raw_memory.dfy` (module `RawMemories`): a slot is either `Uninit` (raw
  storage) or `Live(value)`. `RawMemory` is a class with a nullable
  `array?<Slot<T>>` buffer and a capacity.
- `slot_algorithms.dfy` (module `SlotAlgorithms`): the standard-library memory
  algorithms the vector calls (`uninitialized_value_construct_n`,
  `uninitialized_copy_n`/`uninitialized_move_n`, `copy_n`, `destroy_n`,
  `destroy_at`, placement construction, `move_backward`, `move`). The bulk
  algorithms are loops over slots, and `ConstructAt`/`DestroyAt` are single
  writes. Each states which slots must be raw or live beforehand and what every
  slot holds afterwards. Two of them, `uninitialized_value_construct_n` and
  `uninitialized_copy_n`, also have a variant with fault injection
  (`TryUninitializedValueConstructN`, `TryUninitializedCopyN`) that rolls back
  in reverse order. The others have none.
- `sequences.dfy` (module `Sequences`): what the live sequence becomes after an
  insertion, an erasure or a resize, and the growth policy for capacity. It
  also holds the lemmas that relate these functions (round trips, bounds on
  the capacity reached by repeated appends).
- `vector.dfy` (module `Vectors`): the `Vector` class. `Valid()` is the
  class invariant. It says that size never exceeds capacity, that slots
  `[0, size)` hold `Live(Elems[i])`, and that every later slot is `Uninit`.
  The ghost field `Elems` holds the live contents. Every mutating method states the
  new `Elems` and capacity in terms of the old ones. Destructors are `Dispose`
  methods. `RawMemory.Dispose` requires that the block holds no live element.
  `Vector.Dispose` requires only `Valid()`: it destroys its live elements
  first and then disposes of its block. The model disposes of each of the
  source's temporaries (`new_data`, the copy in copy-and-swap) where it goes
  out of scope, so the verifier checks that every discarded block has had its
  elements destroyed. The exception is the two as-written methods,
  `EmplaceBackByCopyAsWritten` and `ReallocateInsertByCopyAsWritten`. On
  purpose, they return the block as `released` instead of disposing of it, to
  exhibit the leaks listed under Findings.
- `scenarios.dfy` (module `Scenarios`): client code that derives the
  repository's own test situations from the contracts alone.

Modelling conventions:

- An element-constructing argument is an `Arg<T>`. It is either an independent
  `Value(x)` or `ElementAt(i)`, a reference to the vector's own element `i`.
  The argument is read from the buffer at the moment the element is built, and
  reading requires that slot to be live. So the verifier checks that the
  argument is read while its slot is still live: before the old elements are
  destroyed, and in `Emplace`'s in-place branch before the shift. Because a
  move is modelled as a copy, it does not check that the argument is read
  before the old elements are transferred (see "Left out").
- `T()` (value initialisation) is a parameter `zero: T`, since elements are
  opaque.
- Iterators passed to `Emplace`, `Insert` and `Erase` are their offsets from
  `begin()`, and those methods return offsets. `begin()`/`end()` return an
  `Address(block, offset)`.
- Moving an element copies its value. A moved-from slot stays live with its old
  value. In the container's own transfers (reallocation, shifting, erasing)
  such a slot is always overwritten or destroyed afterwards.
- The choice between move and copy depends on `is_nothrow_move_constructible`.
  It decides nothing about contents. The main methods model the non-throwing
  path. The copying paths that can fail are modelled separately, with a
  `Fault` parameter: `ReserveByCopy`, `EmplaceBackByCopy`,
  `ReallocateInsertByCopy`, `TryNewSized`, `TryNewCopy`.

## Model

| member | source | states |
|---|---|---|
| `RawMemories.RawMemory.Allocate` | advanced-vector/vector.h:79-81 | a request for 0 slots gives a null buffer; otherwise a fresh block of exactly n slots, none of them live |
| `RawMemories.RawMemory.Empty` | advanced-vector/vector.h:13 | the default block has a null buffer and capacity 0 |
| `RawMemories.RawMemory.constructor` | advanced-vector/vector.h:15-17 | a block of capacity n whose slots are all raw |
| `RawMemories.RawMemory.Move` | advanced-vector/vector.h:23-25 | move construction takes over the other block's buffer and capacity and leaves it null with capacity 0 |
| `RawMemories.RawMemory.MoveAssign` | advanced-vector/vector.h:27-35 | self-move changes nothing; otherwise this block takes rhs's buffer and capacity and rhs ends null with capacity 0, after its old storage (which must hold no live element) is released |
| `RawMemories.RawMemory.Dispose` | advanced-vector/vector.h:37-39 | storage is released only when no slot is live; afterwards the block is null with capacity 0 |
| `RawMemories.RawMemory.Swap` | advanced-vector/vector.h:60-63 | buffer and capacity are exchanged; no slot is written |
| `RawMemories.RawMemory.AddressOf` | advanced-vector/vector.h:41-49 | defined for offsets up to the capacity (one past the end), giving an address within or just past the block |
| `RawMemories.RawMemory.At` | advanced-vector/vector.h:51-58 | defined for indices below the capacity; gives that slot of the buffer, which is then non-null |
| `RawMemories.RawMemory.Capacity` | advanced-vector/vector.h:73-75 | the capacity is the number of slots of the owned buffer (0 for null) |
| `SlotAlgorithms.UninitializedValueConstructN` | advanced-vector/vector.h:103 | n raw slots become `T()`; every other slot is unchanged |
| `SlotAlgorithms.UninitializedCopyN` | advanced-vector/vector.h:109 | n live source elements are constructed into n raw destination slots in order; all other destination slots are unchanged |
| `SlotAlgorithms.CopyN` | advanced-vector/vector.h:124 | n live source elements are assigned over n live destination elements in order; all other slots are unchanged |
| `SlotAlgorithms.DestroyN` | advanced-vector/vector.h:153 | n live slots become raw; all other slots are unchanged |
| `SlotAlgorithms.ConstructAt` | advanced-vector/vector.h:204 | placement construction into one raw slot; all other slots are unchanged |
| `SlotAlgorithms.DestroyAt` | advanced-vector/vector.h:240 | one live slot becomes raw; all other slots are unchanged |
| `SlotAlgorithms.MoveBackward` | advanced-vector/vector.h:286 | the live range [first, last) lands, in order, in the range ending at dEnd, even when the ranges overlap; all other slots are unchanged |
| `SlotAlgorithms.MoveForward` | advanced-vector/vector.h:328 | the live range [first, last) lands, in order, in the range starting at dFirst to its left, even when the ranges overlap; all other slots are unchanged |
| `SlotAlgorithms.DestroyBackward` | advanced-vector/vector.h:103 | n live slots are destroyed last-first (the rollback of a failed bulk construction); all other slots are unchanged |
| `SlotAlgorithms.TryUninitializedValueConstructN` | advanced-vector/vector.h:103 | succeeds exactly when the fault lies beyond the n constructions; on failure every slot is as before (reverse-order rollback) |
| `SlotAlgorithms.TryUninitializedCopyN` | advanced-vector/vector.h:164 | succeeds exactly when the fault lies beyond the n copies; on success as UninitializedCopyN, on failure every destination slot is as before |
| `Sequences.InsertAt` | advanced-vector/vector.h:269-321 | inserting at p: one longer, x at p, the elements before p unchanged, the elements from p on shifted right by one |
| `Sequences.RemoveAt` | advanced-vector/vector.h:323-335 | erasing at p: one shorter, the elements before p unchanged, the elements after p shifted left by one |
| `Sequences.Resized` | advanced-vector/vector.h:187-195 | length n; the first min(old, n) elements kept; any new tail is `T()` |
| `Sequences.GrownCapacity` | advanced-vector/vector.h:203 | the capacity a full vector grows to always has room for one more element and is at most twice the size (1 from empty) |
| `Sequences.RemoveInsertedRoundTrip` | advanced-vector/vector.h:269-335 | erasing at p right after inserting at p restores the contents |
| `Sequences.InsertRemovedRoundTrip` | advanced-vector/vector.h:269-335 | inserting an erased element back at its position restores the contents |
| `Sequences.ResizedShrinkThenGrow` | advanced-vector/vector.h:187-195 | resizing to m and then to n >= m gives the first result followed by n - m copies of `T()`; when m <= size, that is the first m elements of the original followed by `T()`s |
| `Sequences.CapacityAfterPushesBounds` | advanced-vector/vector.h:200-216 | after k >= 1 appends from empty the capacity is a power of two between k and 2k - 1 (doubling growth) |
| `Vectors.ArgValue` | advanced-vector/vector.h:200-204 | a value argument denotes itself; a reference argument denotes the referenced element |
| `Vectors.Vector.constructor` | advanced-vector/vector.h:98 | the default vector is empty with capacity 0 |
| `Vectors.Vector.Sized` | advanced-vector/vector.h:100-104 | `Vector(n)`: size and capacity n, every element `T()`, fresh storage |
| `Vectors.Vector.Copy` | advanced-vector/vector.h:106-110 | a copy has equal contents, capacity equal to the source's size and fresh (distinct) storage, and leaves the source unchanged |
| `Vectors.Vector.Move` | advanced-vector/vector.h:112-114 | the new vector takes the other's buffer and contents; the other is left empty with no storage |
| `Vectors.Vector.Assign` | advanced-vector/vector.h:116-140 | afterwards the contents equal rhs's; capacity unchanged if rhs fits, otherwise exactly rhs's size; self-assignment changes nothing; rhs is unchanged |
| `Vectors.Vector.AssignInPlace` | advanced-vector/vector.h:122-136 | when rhs fits, its contents are copied in place into the same buffer |
| `Vectors.Vector.MoveAssign` | advanced-vector/vector.h:142-145 | contents and buffers are exchanged with rhs |
| `Vectors.Vector.Swap` | advanced-vector/vector.h:147-150 | contents, buffers and capacities are exchanged; no element slot is written |
| `Vectors.Vector.Dispose` | advanced-vector/vector.h:152-154 | every live element is destroyed before the block is released |
| `Vectors.Vector.Reserve` | advanced-vector/vector.h:156-168 | contents unchanged; capacity and buffer unchanged when the request does not exceed the capacity, otherwise the capacity becomes exactly the request |
| `Vectors.Vector.ReserveByCopy` | advanced-vector/vector.h:163-167 | copying path of Reserve: succeeds exactly unless a copy throws; on failure size, capacity, buffer and contents are as before (strong guarantee) |
| `Vectors.Vector.TryNewSized` | advanced-vector/vector.h:100-104 | a throwing default construction yields no vector, and the block released holds no live element; otherwise as `Vector(n)` |
| `Vectors.Vector.TryNewCopy` | advanced-vector/vector.h:106-110 | a throwing copy yields no vector, and the block released holds no live element; the source is untouched either way |
| `Vectors.Vector.Size` | advanced-vector/vector.h:170-172 | the number of live elements |
| `Vectors.Vector.Capacity` | advanced-vector/vector.h:174-176 | the number of slots of the owned block, never below the size |
| `Vectors.Vector.At` | advanced-vector/vector.h:178-185 | defined for indices below the size; gives that element |
| `Vectors.Vector.Set` | advanced-vector/vector.h:182-185 | writing through `operator[]` replaces exactly that element |
| `Vectors.Vector.Begin` | advanced-vector/vector.h:245-247 | the address of slot 0 of the owned block |
| `Vectors.Vector.End` | advanced-vector/vector.h:249-251 | the address one past the last live element, within the block or just past it |
| `Vectors.Vector.Resize` | advanced-vector/vector.h:187-195 | contents become `Resized(old, n)`; capacity becomes n if n exceeded it, else unchanged |
| `Vectors.Vector.EmplaceBack` | advanced-vector/vector.h:218-235 | appends the argument's value (a reference argument read before reallocation) at index old size; returns the new last element; capacity unchanged with room, else 1 from empty or twice the size |
| `Vectors.Vector.PushBack` | advanced-vector/vector.h:200-216 | as EmplaceBack: earlier elements kept, the argument's value appended, capacity growth as there |
| `Vectors.Vector.EmplaceBackByCopyAsWritten` | advanced-vector/vector.h:220-229 | copying path as written: fails exactly when the vector is full and a transfer copy throws; on success the value is appended, with capacity grown per GrownCapacity when the vector was full; on failure the vector is unchanged but the block released by the exception still holds the new element live |
| `Vectors.Vector.EmplaceBackByCopy` | advanced-vector/vector.h:220-229 | copying path with the new element destroyed on failure: on failure the vector is exactly as before and the discarded block holds no live element; on success as EmplaceBack |
| `Vectors.Vector.PopBack` | advanced-vector/vector.h:238-243 | no change on an empty vector; otherwise the last element is dropped; capacity and buffer unchanged |
| `Vectors.Vector.Emplace` | advanced-vector/vector.h:269-321 | contents become `s[..p] + [x] + s[p..]`, returns p; capacity unchanged if there was room, else 1 from empty or twice the size |
| `Vectors.Vector.ShiftInsert` | advanced-vector/vector.h:281-291 | the in-place path (temporary, last element moved into the tail, `move_backward`, temporary moved in) yields the insertion in the same buffer |
| `Vectors.Vector.ReallocateInsert` | advanced-vector/vector.h:293-320 | the reallocating path builds the new element at p, transfers the prefix and suffix around it, and yields the insertion with capacity grown per GrownCapacity |
| `Vectors.Vector.ReallocateInsertByCopyAsWritten` | advanced-vector/vector.h:293-320 | copying reallocation path as written: succeeds exactly unless a prefix or suffix copy throws; when one throws, the vector is unchanged but the released block still holds the new element live, and after a suffix failure the copied prefix too |
| `Vectors.Vector.ReallocateInsertByCopy` | advanced-vector/vector.h:293-320 | copying reallocation path with the copies made so far and the new element destroyed on failure: on failure the vector is exactly as before and the discarded block holds no live element; on success as ReallocateInsert |
| `Vectors.Vector.TryTransferAround` | advanced-vector/vector.h:299-314 | the two transfers around the insertion point: on success the new block holds the insertion of x into the old contents at p, followed by raw slots; on a throwing copy it holds no live element |
| `Vectors.Vector.TransferAroundAsWritten` | advanced-vector/vector.h:299-314 | the two transfers as written: on success as TryTransferAround; on a throwing copy the new element, and after a failed suffix transfer the copied prefix, stay live in the new block |
| `Vectors.Vector.AdoptBlock` | advanced-vector/vector.h:316-317 | the end of a reallocation: the old elements are destroyed and the new block, already holding the new contents, becomes the vector's storage with its capacity |
| `Vectors.Vector.Insert` | advanced-vector/vector.h:337-341 | as Emplace |
| `Vectors.Vector.Erase` | advanced-vector/vector.h:323-335 | at p < size the contents become `s[..p] + s[p+1..]` and p is returned; on an empty vector nothing changes and end is returned; capacity and buffer unchanged |
| `Scenarios.PushBackOwnElement` | advanced-vector/test7.h:325-332 | pushing a full vector's own element i doubles the capacity and appends a value equal to the old element i |
| `Scenarios.InsertEraseScenario` | advanced-vector/vector.h:269-335 | Insert followed by Erase at the returned position restores the contents |
| `Scenarios.PushBackGrowth` | advanced-vector/vector.h:200-216 | k PushBack calls on a default-constructed vector give k copies of the value and reach capacity CapacityAfterPushes(k), hence (k >= 1) a power of two between k and 2k - 1 |

The remaining members of `Scenarios` carry assertions only and no contract,
so they have no row: `SelfPushBackScenario` (test7.h:325-332),
`SizedReserveScenario` (test.h:137-158), `ResizePopScenario`
(test7.h:270-321), `AssignSmallerScenario` and `AssignLargerScenario`
(test.h:458-481), `FailedSizedConstructionScenario` (test.h:174-188), and the
two finding witnesses `EmplaceBackLeakScenario` and `EmplaceLeakScenario`.

## Findings

| source | as written | input that shows it | evidently intended | confidence | as-written member | corrected member |
|---|---|---|---|---|---|---|
| advanced-vector/vector.h:220-229 | on a full vector the new element is built in `new_data` before the old elements are transferred; if a transfer copy throws, the exception leaves `EmplaceBack` (and likewise `PushBack`, lines 202-211) and `new_data`'s destructor frees the block without destroying the already-built new element | a vector of size 1 at capacity 1 whose element type's move may throw, so the copying path is taken, and whose single copy throws (`FailAt(0)`) | the new element is destroyed before the block is released, so no object leaks and the strong guarantee is complete | medium, not executed | `Vectors.Vector.EmplaceBackByCopyAsWritten` (witness: `Scenarios.EmplaceBackLeakScenario`) | `Vectors.Vector.EmplaceBackByCopy` |
| advanced-vector/vector.h:293-320 | the reallocating branch of `Emplace` builds the new element in `new_data` and then copies the prefix and the suffix; if a copy throws, the exception leaves `Emplace` (and `Insert`) and `new_data`'s destructor frees the block without destroying the new element, nor, when the suffix copy throws, the prefix copies already made | a vector of size 2 at capacity 2 on the copying path, inserting at position 1, where the copy of the element after the insertion point throws (`FailAt(0)` for the suffix) | the copies made so far and the new element are destroyed before the block is released, so no object leaks | medium, not executed | `Vectors.Vector.ReallocateInsertByCopyAsWritten` (witness: `Scenarios.EmplaceLeakScenario`) | `Vectors.Vector.ReallocateInsertByCopy` |

## Left out

- I/O, the test harness and the program driver are not part of this model (`advanced-vector/test.h`, `advanced-vector/test7.h`, `main.cpp`). Static lifecycle counters are not modelled. The slot states stand in for "live object" counts.
- Raw byte allocation (`operator new`, `sizeof(T)`) and allocation failure are not modelled. Each allocation is a fresh Dafny array, and distinct arrays are independent storage.
- `size_t` is unbounded here. The `2 * size_` growth and `n * sizeof(T)` cannot overflow in the model.
- The `if constexpr` choice between moving and copying is not a parameter. Moving and copying give the same contents. The main methods stand for the non-throwing path.
- Construction from variadic arguments (`Emplace`, `EmplaceBack`) takes an already-built value or a reference to an element. What T's constructor does with its arguments is T's business.
- Exceptions are modelled only through the `Fault` parameter of `TryNewSized`, `TryNewCopy`, `ReserveByCopy`, the two `EmplaceBackByCopy*` methods and the two `ReallocateInsertByCopy*` methods. A throwing default construction inside `Resize` is not modelled. Neither is a throwing construction of the single new element in `PushBack`/`EmplaceBack`/`Emplace`, nor a throwing temporary or move in `Emplace`'s in-place branch.
- `Vectors.Vector.Assign`: its shrink branch (vector.h:123-126) makes no strong exception guarantee. The model states only its successful outcome.
- `Vectors.Vector.Erase` requires `pos < Size()` on a non-empty vector. The source's assertion also lets `pos == end()` through, and that case is undefined behaviour there.
- `Vectors.Vector.EmplaceBack` returns the value of the new last element, not a reference through which it could be changed. `GetAddress`, `cbegin`/`cend` and the const overloads of `begin`/`end` and `operator[]` behave the same as the modelled versions.
- The moved-from state of an element is not modelled. A moved-from slot keeps its value. In the container's own transfers it is overwritten or destroyed before it can be observed. Since a transfer leaves the source slot live with its old value, building the new element after the transfer instead of before it (vector.h:204-206, 222-226 and 298-313 build it first) would also verify. The model does not capture that building it later would read a moved-from element.
- Arguments that refer into the vector: an `ElementAt(i)` argument models an lvalue reference to the vector's own element, as in `v.PushBack(v[0])`. An rvalue reference to one of the vector's own elements (`v.PushBack(std::move(v[0]))`, test7.h:334-340, and likewise `Emplace`/`Insert` with `std::move(v[i])`) is modelled as a copy. The source moves out of that element (vector.h:204), and the moved-from object is then transferred into the new block and stays observable as element i. The model keeps its old value there.
- `Vectors.Vector.Dispose` does not re-establish `Valid()`, since the object's lifetime ends there. Pointer differences such as `&v[100] - &v[0]` are not modelled beyond `Address` offsets.
- Distinct vectors are required to own disjoint storage (`Repr() !! other.Repr()`). This is what C++ value semantics give every pair of distinct `Vector` objects.
