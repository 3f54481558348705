/**
 * An owning block of uninitialised element slots (`RawMemory<T>`).
 *
 * Each slot is either raw storage (`Uninit`) or holds a live element
 * (`Live`).  The block itself never constructs or destroys elements: that is
 * the owner's job.  A request for zero slots allocates nothing and leaves a
 * null buffer.  Blocks are moved and swapped, never copied.
 */
module RawMemories {

  datatype Slot<T> = Uninit | Live(value: T)

  /** The address of slot `offset` of `block` (a `T*`); one past the end is allowed. */
  datatype Address<T> = Address(block: array?<Slot<T>>, offset: nat)

  /** Number of slots of a possibly null buffer. */
  function Len<T>(a: array?<T>): nat
  {
    if a == null then 0 else a.Length
  }

  /** No slot of `a` holds a live element. */
  ghost predicate AllUninit<T>(a: array?<Slot<T>>)
    reads a
  {
    forall i :: 0 <= i < Len(a) ==> a[i] == Uninit
  }

  class RawMemory<T> {
    var buffer: array?<Slot<T>>
    var capacity: nat

    ghost predicate Valid()
      reads this
    {
      (buffer == null <==> capacity == 0) &&
      (buffer != null ==> buffer.Length == capacity)
    }

    ghost function Repr(): set<object>
      reads this
    {
      if buffer == null then {this} else {this, buffer}
    }

    /** Raw storage for `n` slots, none of them live; null when `n == 0`. */
    static method Allocate(n: nat) returns (b: array?<Slot<T>>)
      ensures b == null <==> n == 0
      ensures b != null ==> fresh(b) && b.Length == n
      ensures AllUninit(b)
    {
      if n != 0 {
        b := new Slot<T>[n](_ => Uninit);
      } else {
        b := null;
      }
    }

    /** The default block: no storage at all. */
    constructor Empty()
      ensures Valid() && buffer == null && capacity == 0
    {
      buffer := null;
      capacity := 0;
    }

    /** A block of `n` fresh uninitialised slots. */
    constructor (n: nat)
      ensures Valid() && capacity == n
      ensures buffer != null ==> fresh(buffer)
      ensures AllUninit(buffer)
    {
      var b := Allocate(n);
      buffer := b;
      capacity := n;
    }

    /** Move construction: takes over `other`'s storage and leaves it empty. */
    constructor Move(other: RawMemory<T>)
      requires other.Valid()
      modifies other
      ensures Valid() && other.Valid()
      ensures buffer == old(other.buffer) && capacity == old(other.capacity)
      ensures other.buffer == null && other.capacity == 0
    {
      buffer := null;
      capacity := 0;
      new;
      Swap(other);
    }

    /**
     * Move assignment: takes over `rhs`'s storage and releases the block this
     * one owned, which must hold no live element by then.
     */
    method MoveAssign(rhs: RawMemory<T>)
      requires Valid() && rhs.Valid()
      requires rhs != this ==> AllUninit(buffer)
      modifies this, rhs
      ensures Valid() && rhs.Valid()
      ensures rhs == this ==> buffer == old(buffer) && capacity == old(capacity)
      ensures rhs != this ==> buffer == old(rhs.buffer) && capacity == old(rhs.capacity)
      ensures rhs != this ==> rhs.buffer == null && rhs.capacity == 0
    {
      if rhs != this {
        Swap(rhs);
        rhs.Dispose();
      }
    }

    /** Destruction: releases the storage, which must hold no live element. */
    method Dispose()
      requires Valid() && AllUninit(buffer)
      modifies this
      ensures Valid() && buffer == null && capacity == 0
    {
      buffer := null;
      capacity := 0;
    }

    /** Exchanges storage and capacity with `other`; no slot is touched. */
    method Swap(other: RawMemory<T>)
      requires Valid() && other.Valid()
      modifies this, other
      ensures Valid() && other.Valid()
      ensures buffer == old(other.buffer) && capacity == old(other.capacity)
      ensures other.buffer == old(buffer) && other.capacity == old(capacity)
    {
      buffer, other.buffer := other.buffer, buffer;
      capacity, other.capacity := other.capacity, capacity;
    }

    /** `operator+`: the address of slot `offset`, up to one past the end. */
    function AddressOf(offset: nat): (a: Address<T>)
      requires Valid() && offset <= capacity
      reads this
      ensures a.block == buffer && a.offset == offset
      ensures a.offset <= Len(a.block)
    {
      Address(buffer, offset)
    }

    /** `operator[]`: the slot at `index`, which must lie below the capacity. */
    function At(index: nat): (s: Slot<T>)
      requires Valid() && index < capacity
      reads this, buffer
      ensures buffer != null && s == buffer[index]
    {
      buffer[index]
    }

    /** Number of slots owned. */
    function Capacity(): (c: nat)
      requires Valid()
      reads this
      ensures c == Len(buffer)
    {
      capacity
    }
  }
}
