/**
 * `Vector<T>`: a growable array built on a `RawMemory<T>` block.
 *
 * The live elements occupy slots [0, size) of the block and every slot from
 * `size` up to the capacity is raw storage; `Valid()` states this and the
 * ghost field `Elems` is the sequence of live values.  Iterators passed to
 * Emplace, Insert and Erase are modelled by their offset from `begin()`.
 */
module Vectors {
  import opened RawMemories
  import opened SlotAlgorithms
  import opened Sequences

  /**
   * The argument an element is constructed from: an independent value, or a
   * reference to element `index` of the very vector being changed.
   */
  datatype Arg<T> = Value(value: T) | ElementAt(index: nat)

  /** A reference argument must name a live element of `s`. */
  predicate ArgValid<T>(s: seq<T>, arg: Arg<T>)
  {
    arg.ElementAt? ==> arg.index < |s|
  }

  /** The value an argument denotes when the elements are `s`. */
  function ArgValue<T>(s: seq<T>, arg: Arg<T>): (x: T)
    requires ArgValid(s, arg)
    ensures arg.Value? ==> x == arg.value
    ensures arg.ElementAt? ==> x == s[arg.index]
  {
    match arg
    case Value(v) => v
    case ElementAt(i) => s[i]
  }

  class Vector<T> {
    const data: RawMemory<T>
    var size: nat
    ghost var Elems: seq<T>

    ghost function Repr(): set<object>
      reads this, data
    {
      {this} + data.Repr()
    }

    ghost predicate Valid()
      reads this, data, data.buffer
    {
      data.Valid() && size <= data.capacity && |Elems| == size &&
      (forall i :: 0 <= i < size ==> data.buffer[i] == Live(Elems[i])) &&
      (forall i :: size <= i < data.capacity ==> data.buffer[i] == Uninit)
    }

    /** `Vector()`: empty, no storage. */
    constructor ()
      ensures Valid() && fresh(Repr())
      ensures Elems == [] && Capacity() == 0
    {
      data := new RawMemory.Empty();
      size := 0;
      Elems := [];
    }

    /** `Vector(n)`: n value-initialised elements (`zero` is `T()`), capacity n. */
    constructor Sized(n: nat, zero: T)
      ensures Valid() && fresh(Repr())
      ensures Elems == seq(n, _ => zero) && Capacity() == n
    {
      data := new RawMemory(n);
      size := n;
      Elems := seq(n, _ => zero);
      new;
      UninitializedValueConstructN(data.buffer, 0, n, zero);
    }

    /** Copy construction: equal contents in fresh storage of capacity `other.Size()`. */
    constructor Copy(other: Vector<T>)
      requires other.Valid()
      ensures Valid() && fresh(Repr())
      ensures Elems == other.Elems && Capacity() == |other.Elems|
      ensures other.Valid() && unchanged(other, other.data)
      ensures other.data.buffer != null ==> unchanged(other.data.buffer)
    {
      data := new RawMemory(other.size);
      size := other.size;
      Elems := other.Elems;
      new;
      UninitializedCopyN(other.data.buffer, 0, size, data.buffer, 0);
    }

    /** Move construction: takes `other`'s storage and size by swapping with an empty vector. */
    constructor Move(other: Vector<T>)
      requires other.Valid()
      modifies other, other.data
      ensures Valid() && other.Valid() && fresh(data)
      ensures data.buffer == old(other.data.buffer) && Elems == old(other.Elems)
      ensures other.Elems == [] && other.data.buffer == null && other.Capacity() == 0
    {
      data := new RawMemory.Empty();
      size := 0;
      Elems := [];
      new;
      Swap(other);
    }

    /**
     * Copy assignment.  When `rhs` does not fit, a copy of it is made and
     * swapped in; otherwise existing elements are assigned over and the
     * difference in size is constructed or destroyed in place.
     */
    method Assign(rhs: Vector<T>)
      requires Valid() && rhs.Valid() && (rhs == this || Repr() !! rhs.Repr())
      modifies Repr()
      ensures Valid() && fresh(Repr() - old(Repr()))
      ensures rhs.Valid() && rhs.Elems == old(rhs.Elems) && rhs.data.buffer == old(rhs.data.buffer)
      ensures Elems == old(rhs.Elems)
      ensures |old(rhs.Elems)| <= old(Capacity()) ==> Capacity() == old(Capacity()) && data.buffer == old(data.buffer)
      ensures |old(rhs.Elems)| > old(Capacity()) ==> Capacity() == |old(rhs.Elems)|
      ensures rhs == this ==> Elems == old(Elems)
    {
      if rhs != this {
        if rhs.size > data.capacity {
          var copy := new Vector.Copy(rhs);
          Swap(copy);
          copy.Dispose();
        } else {
          AssignInPlace(rhs);
        }
      }
    }

    /**
     * The branch of copy assignment where `rhs` fits: the common prefix is
     * assigned over with copy_n, then the surplus of this vector is destroyed
     * or the surplus of `rhs` is copy-constructed into raw slots.
     */
    method AssignInPlace(rhs: Vector<T>)
      requires Valid() && rhs.Valid() && Repr() !! rhs.Repr()
      requires |rhs.Elems| <= Capacity()
      modifies this, data.buffer
      ensures Valid() && Elems == rhs.Elems && data.buffer == old(data.buffer)
    {
      if rhs.size < size {
        CopyN(rhs.data.buffer, 0, rhs.size, data.buffer, 0);
        DestroyN(data.buffer, rhs.size, size - rhs.size);
        size := rhs.size;
        Elems := rhs.Elems;
      } else {
        CopyN(rhs.data.buffer, 0, size, data.buffer, 0);
        UninitializedCopyN(rhs.data.buffer, size, rhs.size - size, data.buffer, size);
        size := rhs.size;
        Elems := rhs.Elems;
      }
    }

    /** Move assignment: exchanges everything with `rhs`. */
    method MoveAssign(rhs: Vector<T>)
      requires Valid() && rhs.Valid() && (rhs == this || Repr() !! rhs.Repr())
      modifies this, data, rhs, rhs.data
      ensures Valid() && rhs.Valid()
      ensures Elems == old(rhs.Elems) && rhs.Elems == old(Elems)
      ensures data.buffer == old(rhs.data.buffer) && rhs.data.buffer == old(data.buffer)
    {
      Swap(rhs);
    }

    /** Exchanges size, storage and capacity with `other` without touching any element. */
    method Swap(other: Vector<T>)
      requires Valid() && other.Valid() && (other == this || Repr() !! other.Repr())
      modifies this, data, other, other.data
      ensures Valid() && other.Valid()
      ensures Elems == old(other.Elems) && other.Elems == old(Elems)
      ensures data.buffer == old(other.data.buffer) && other.data.buffer == old(data.buffer)
      ensures Capacity() == old(other.Capacity()) && other.Capacity() == old(Capacity())
    {
      size, other.size := other.size, size;
      Elems, other.Elems := other.Elems, Elems;
      data.Swap(other.data);
    }

    /** Destruction: destroys every live element, then releases the block. */
    method Dispose()
      requires Valid()
      modifies Repr()
      ensures AllUninit(old(data.buffer))
      ensures data.buffer == null && data.capacity == 0
    {
      DestroyN(data.buffer, 0, size);
      data.Dispose();
    }

    /**
     * Reserve(newCapacity): nothing happens unless the capacity grows; then
     * the elements are transferred into a new block of exactly that capacity.
     */
    method Reserve(newCapacity: nat)
      requires Valid()
      modifies Repr()
      ensures Valid() && fresh(Repr() - old(Repr()))
      ensures Elems == old(Elems)
      ensures newCapacity <= old(Capacity()) ==>
                Capacity() == old(Capacity()) && data.buffer == old(data.buffer)
      ensures newCapacity > old(Capacity()) ==> Capacity() == newCapacity
    {
      if newCapacity <= data.capacity {
        return;
      }
      var newData := new RawMemory(newCapacity);
      UninitializedCopyN(data.buffer, 0, size, newData.buffer, 0);
      DestroyN(data.buffer, 0, size);
      data.Swap(newData);
      newData.Dispose();
    }

    /**
     * `Vector(n)` when a default construction may throw (`fault`): the
     * elements already built are destroyed in reverse order and the block is
     * released, so no element survives and no vector results.
     */
    static method TryNewSized(n: nat, zero: T, fault: Fault) returns (v: Vector?<T>)
      ensures (v == null) == Fails(fault, n)
      ensures v != null ==> v.Valid() && fresh(v.Repr())
      ensures v != null ==> v.Elems == seq(n, _ => zero) && v.Capacity() == n
    {
      var block := new RawMemory(n);
      var ok := TryUninitializedValueConstructN(block.buffer, 0, n, zero, fault);
      if !ok {
        block.Dispose();
        return null;
      }
      v := new Vector();
      v.data.Swap(block);
      v.size := n;
      v.Elems := seq(n, _ => zero);
    }

    /**
     * Copy construction when a copy constructor may throw (`fault`): the
     * copies already built are destroyed, the new block is released and
     * `other` is left untouched.
     */
    static method TryNewCopy(other: Vector<T>, fault: Fault) returns (v: Vector?<T>)
      requires other.Valid()
      ensures other.Valid() && unchanged(other, other.data)
      ensures other.data.buffer != null ==> unchanged(other.data.buffer)
      ensures (v == null) == Fails(fault, |other.Elems|)
      ensures v != null ==> v.Valid() && fresh(v.Repr())
      ensures v != null ==> v.Elems == other.Elems && v.Capacity() == |other.Elems|
    {
      var block := new RawMemory(other.size);
      var ok := TryUninitializedCopyN(other.data.buffer, 0, other.size, block.buffer, 0, fault);
      if !ok {
        block.Dispose();
        return null;
      }
      v := new Vector();
      v.data.Swap(block);
      v.size := other.size;
      v.Elems := other.Elems;
    }

    /**
     * The copying path of Reserve, taken when T's move constructor may throw:
     * if a copy throws, the new block is emptied and released and the vector
     * is exactly as before (strong guarantee).
     */
    method ReserveByCopy(newCapacity: nat, fault: Fault) returns (ok: bool)
      requires Valid()
      modifies Repr()
      ensures Valid() && fresh(Repr() - old(Repr()))
      ensures Elems == old(Elems)
      ensures ok == (newCapacity <= old(Capacity()) || !Fails(fault, |old(Elems)|))
      ensures !ok || newCapacity <= old(Capacity()) ==>
                Capacity() == old(Capacity()) && data.buffer == old(data.buffer)
      ensures ok && newCapacity > old(Capacity()) ==> Capacity() == newCapacity
    {
      if newCapacity <= data.capacity {
        return true;
      }
      var newData := new RawMemory(newCapacity);
      ok := TryUninitializedCopyN(data.buffer, 0, size, newData.buffer, 0, fault);
      if !ok {
        newData.Dispose();
        return;
      }
      AdoptBlock(newData, size, Elems);
    }

    /**
     * The end of a reallocation: `newData` already holds `contents` in its
     * first `newSize` slots and nothing after them, so the old elements are
     * destroyed, the blocks are swapped and the old, now empty, block is
     * released.
     */
    method AdoptBlock(newData: RawMemory<T>, newSize: nat, ghost contents: seq<T>)
      requires Valid() && newData.Valid() && newData !in Repr() && newData.buffer != data.buffer
      requires newSize == |contents| <= newData.capacity
      requires forall i :: 0 <= i < Len(newData.buffer) ==>
                 newData.buffer[i] == if i < newSize then Live(contents[i]) else Uninit
      modifies this, data, data.buffer, newData
      ensures Valid() && Elems == contents
      ensures data.buffer == old(newData.buffer) && Capacity() == old(newData.capacity)
    {
      DestroyN(data.buffer, 0, size);
      data.Swap(newData);
      newData.Dispose();
      size := newSize;
      Elems := contents;
    }

    /**
     * The copying path of EmplaceBack as the source has it: when the transfer
     * of the old elements throws, the exception leaves the method and the new
     * block is released with the new element still live in it.  `released`
     * is that block.
     */
    method EmplaceBackByCopyAsWritten(arg: Arg<T>, fault: Fault) returns (ok: bool, released: array?<Slot<T>>)
      requires Valid() && ArgValid(Elems, arg)
      modifies Repr()
      ensures Valid() && fresh(Repr() - old(Repr()))
      ensures ok == !(|old(Elems)| == old(Capacity()) && Fails(fault, |old(Elems)|))
      ensures ok ==> Elems == old(Elems) + [ArgValue(old(Elems), arg)]
      ensures ok && |old(Elems)| == old(Capacity()) ==> Capacity() == GrownCapacity(|old(Elems)|)
      ensures !ok ==> Elems == old(Elems) && data.buffer == old(data.buffer)
      ensures !ok ==> released != null && |old(Elems)| < released.Length &&
                      released[|old(Elems)|] == Live(ArgValue(old(Elems), arg))
    {
      ghost var x := ArgValue(Elems, arg);
      released := null;
      if size == data.capacity {
        var newData := new RawMemory(GrownCapacity(size));
        ConstructAt(newData.buffer, size, Read(arg));
        ok := TryUninitializedCopyN(data.buffer, 0, size, newData.buffer, 0, fault);
        if !ok {
          released := newData.buffer;
          return;
        }
        DestroyN(data.buffer, 0, size);
        data.Swap(newData);
        newData.Dispose();
      } else {
        ConstructAt(data.buffer, size, Read(arg));
        ok := true;
      }
      size := size + 1;
      Elems := Elems + [x];
    }

    /**
     * The copying path of EmplaceBack with the leak closed: when the transfer
     * throws, the new element is destroyed before the new block is released,
     * so the vector is exactly as before and no element survives in the
     * discarded block.
     */
    method EmplaceBackByCopy(arg: Arg<T>, fault: Fault) returns (ok: bool)
      requires Valid() && ArgValid(Elems, arg)
      modifies Repr()
      ensures Valid() && fresh(Repr() - old(Repr()))
      ensures ok == !(|old(Elems)| == old(Capacity()) && Fails(fault, |old(Elems)|))
      ensures ok ==> Elems == old(Elems) + [ArgValue(old(Elems), arg)]
      ensures ok && |old(Elems)| == old(Capacity()) ==> Capacity() == GrownCapacity(|old(Elems)|)
      ensures !ok ==> Elems == old(Elems) && data.buffer == old(data.buffer)
    {
      ghost var x := ArgValue(Elems, arg);
      if size == data.capacity {
        var newData := new RawMemory(GrownCapacity(size));
        ConstructAt(newData.buffer, size, Read(arg));
        ok := TryUninitializedCopyN(data.buffer, 0, size, newData.buffer, 0, fault);
        if !ok {
          DestroyAt(newData.buffer, size);
          newData.Dispose();
          return;
        }
        DestroyN(data.buffer, 0, size);
        data.Swap(newData);
        newData.Dispose();
      } else {
        ConstructAt(data.buffer, size, Read(arg));
        ok := true;
      }
      size := size + 1;
      Elems := Elems + [x];
    }

    /** Number of live elements. */
    function Size(): (n: nat)
      requires Valid()
      reads this, data, data.buffer
      ensures n == |Elems|
    {
      size
    }

    /** Capacity of the owned block; never below the size. */
    function Capacity(): (c: nat)
      requires Valid()
      reads this, data, data.buffer
      ensures |Elems| <= c == Len(data.buffer)
    {
      data.Capacity()
    }

    /** `operator[]` for reading: element `index`, which must be live. */
    function At(index: nat): (x: T)
      requires Valid() && index < |Elems|
      reads this, data, data.buffer
      ensures x == Elems[index]
    {
      data.At(index).value
    }

    /** Assignment through `operator[]`: element `index` becomes `x`. */
    method Set(index: nat, x: T)
      requires Valid() && index < |Elems|
      modifies this, data.buffer
      ensures Valid() && Elems == old(Elems)[index := x]
      ensures size == old(size) && data.buffer == old(data.buffer)
    {
      data.buffer[index] := Live(x);
      Elems := Elems[index := x];
    }

    /** `begin()`: the address of the first slot. */
    function Begin(): (a: Address<T>)
      requires Valid()
      reads this, data, data.buffer
      ensures a.block == data.buffer && a.offset == 0
    {
      data.AddressOf(0)
    }

    /** `end()`: the address one past the last live element. */
    function End(): (a: Address<T>)
      requires Valid()
      reads this, data, data.buffer
      ensures a.block == data.buffer && a.offset == |Elems| <= Len(a.block)
    {
      data.AddressOf(size)
    }

    /** The value an argument denotes now; a reference must name a live slot. */
    function Read(arg: Arg<T>): (x: T)
      requires data.Valid()
      requires arg.ElementAt? ==> arg.index < data.capacity && data.buffer[arg.index].Live?
      reads this, data, data.buffer
    {
      match arg
      case Value(v) => v
      case ElementAt(i) => data.At(i).value
    }

    /** Resize(n): size becomes n; a shrink destroys the tail, a growth value-initialises it. */
    method Resize(n: nat, zero: T)
      requires Valid()
      modifies Repr()
      ensures Valid() && fresh(Repr() - old(Repr()))
      ensures Elems == Resized(old(Elems), n, zero)
      ensures n <= old(Capacity()) ==> Capacity() == old(Capacity()) && data.buffer == old(data.buffer)
      ensures n > old(Capacity()) ==> Capacity() == n
    {
      if size < n {
        Reserve(n);
        UninitializedValueConstructN(data.buffer, size, n - size, zero);
      } else if size > n {
        DestroyN(data.buffer, n, size - n);
      }
      size := n;
      Elems := Resized(Elems, n, zero);
    }

    /**
     * EmplaceBack(arg): appends the element built from `arg` and returns it.
     * A full vector first moves to a block of GrownCapacity(size); the new
     * element is built there before the old elements are transferred and
     * destroyed, so an argument referring into the vector stays valid.
     */
    method EmplaceBack(arg: Arg<T>) returns (r: T)
      requires Valid() && ArgValid(Elems, arg)
      modifies Repr()
      ensures Valid() && fresh(Repr() - old(Repr()))
      ensures Elems == old(Elems) + [ArgValue(old(Elems), arg)]
      ensures r == Elems[|Elems| - 1]
      ensures |old(Elems)| < old(Capacity()) ==>
                Capacity() == old(Capacity()) && data.buffer == old(data.buffer)
      ensures |old(Elems)| == old(Capacity()) ==> Capacity() == GrownCapacity(|old(Elems)|)
    {
      ghost var x := ArgValue(Elems, arg);
      if size == data.capacity {
        var newData := new RawMemory(GrownCapacity(size));
        ConstructAt(newData.buffer, size, Read(arg));
        UninitializedCopyN(data.buffer, 0, size, newData.buffer, 0);
        DestroyN(data.buffer, 0, size);
        data.Swap(newData);
        newData.Dispose();
      } else {
        ConstructAt(data.buffer, size, Read(arg));
      }
      size := size + 1;
      Elems := Elems + [x];
      r := data.At(size - 1).value;
    }

    /** PushBack(arg): the same as EmplaceBack without the result. */
    method PushBack(arg: Arg<T>)
      requires Valid() && ArgValid(Elems, arg)
      modifies Repr()
      ensures Valid() && fresh(Repr() - old(Repr()))
      ensures Elems == old(Elems) + [ArgValue(old(Elems), arg)]
      ensures |old(Elems)| < old(Capacity()) ==>
                Capacity() == old(Capacity()) && data.buffer == old(data.buffer)
      ensures |old(Elems)| == old(Capacity()) ==> Capacity() == GrownCapacity(|old(Elems)|)
    {
      var _ := EmplaceBack(arg);
    }

    /** PopBack(): destroys the last element, if there is one; storage is kept. */
    method PopBack()
      requires Valid()
      modifies data.buffer, this
      ensures Valid()
      ensures Elems == if old(|Elems|) == 0 then old(Elems) else old(Elems)[..old(|Elems|) - 1]
      ensures Capacity() == old(Capacity()) && data.buffer == old(data.buffer)
    {
      if size > 0 {
        DestroyAt(data.buffer, size - 1);
        size := size - 1;
        Elems := Elems[..size];
      }
    }

    /**
     * Emplace(pos, arg): inserts the element built from `arg` before position
     * `pos` and returns `pos`.  At the end of a vector with room this is
     * EmplaceBack; otherwise see ShiftInsert (room to spare) and
     * ReallocateInsert (full vector).
     */
    method Emplace(pos: nat, arg: Arg<T>) returns (r: nat)
      requires Valid() && pos <= |Elems| && ArgValid(Elems, arg)
      modifies Repr()
      ensures Valid() && fresh(Repr() - old(Repr()))
      ensures Elems == InsertAt(old(Elems), pos, ArgValue(old(Elems), arg))
      ensures r == pos
      ensures |old(Elems)| < old(Capacity()) ==>
                Capacity() == old(Capacity()) && data.buffer == old(data.buffer)
      ensures |old(Elems)| == old(Capacity()) ==> Capacity() == GrownCapacity(|old(Elems)|)
    {
      if size < data.capacity {
        if pos == size {
          var _ := EmplaceBack(arg);
          return size - 1;
        }
        ShiftInsert(pos, arg);
        return pos;
      } else {
        ReallocateInsert(pos, arg);
        return pos;
      }
    }

    /**
     * The in-place path of Emplace: the value is first built in a temporary
     * (so an argument referring into the vector is read before anything
     * moves), the last element is moved into the first raw slot, the range
     * [pos, size - 1) is shifted right by move_backward and the temporary is
     * moved into slot `pos`.
     */
    method ShiftInsert(pos: nat, arg: Arg<T>)
      requires Valid() && pos < |Elems| < Capacity() && ArgValid(Elems, arg)
      modifies this, data.buffer
      ensures Valid()
      ensures Elems == InsertAt(old(Elems), pos, ArgValue(old(Elems), arg))
      ensures data.buffer == old(data.buffer)
    {
      var tmp := Read(arg);
      ghost var s := Elems;
      ConstructAt(data.buffer, size, data.buffer[size - 1].value);
      MoveBackward(data.buffer, pos, size - 1, size);
      data.buffer[pos] := Live(tmp);
      size := size + 1;
      Elems := InsertAt(s, pos, tmp);
      forall i | 0 <= i < size ensures data.buffer[i] == Live(Elems[i]) {
        if i > pos {
          assert Elems[i] == s[i - 1];
        }
      }
    }

    /**
     * The reallocating path of Emplace: the new element is built at slot
     * `pos` of a block of GrownCapacity(size), then the elements before and
     * after it are transferred around it and the old block is emptied and
     * released.
     */
    method ReallocateInsert(pos: nat, arg: Arg<T>)
      requires Valid() && pos <= |Elems| == Capacity() && ArgValid(Elems, arg)
      modifies Repr()
      ensures Valid() && fresh(Repr() - old(Repr()))
      ensures Elems == InsertAt(old(Elems), pos, ArgValue(old(Elems), arg))
      ensures Capacity() == GrownCapacity(|old(Elems)|)
    {
      ghost var x := ArgValue(Elems, arg);
      var newData := new RawMemory(GrownCapacity(size));
      ConstructAt(newData.buffer, pos, Read(arg));
      if size > 0 {
        UninitializedCopyN(data.buffer, 0, pos, newData.buffer, 0);
        UninitializedCopyN(data.buffer, pos, size - pos, newData.buffer, pos + 1);
      }
      DestroyN(data.buffer, 0, size);
      data.Swap(newData);
      newData.Dispose();
      size := size + 1;
      Elems := InsertAt(Elems, pos, x);
    }

    /**
     * A transfer in the reallocating path of Emplace that throws: the
     * transfer of the `pos` elements before the insertion point fails under
     * `prefixFault`, the transfer of the elements after it under `suffixFault`
     * (attempted only when the first one succeeded).  An empty vector
     * transfers nothing.
     */
    static predicate InsertTransferFails(size: nat, pos: nat, prefixFault: Fault, suffixFault: Fault)
      requires pos <= size
    {
      size > 0 && (Fails(prefixFault, pos) || Fails(suffixFault, size - pos))
    }

    /**
     * The copying reallocation path of Emplace as the source has it: when a
     * transfer throws, the exception leaves the method and the new block is
     * released with the new element, and after a failed suffix transfer the
     * whole copied prefix as well, still live in it.  `released` is that block.
     */
    method ReallocateInsertByCopyAsWritten(pos: nat, arg: Arg<T>, prefixFault: Fault, suffixFault: Fault)
      returns (ok: bool, released: array?<Slot<T>>)
      requires Valid() && pos <= |Elems| == Capacity() && ArgValid(Elems, arg)
      modifies Repr()
      ensures Valid() && fresh(Repr() - old(Repr()))
      ensures ok == !InsertTransferFails(|old(Elems)|, pos, prefixFault, suffixFault)
      ensures ok ==> Elems == InsertAt(old(Elems), pos, ArgValue(old(Elems), arg)) &&
                     Capacity() == GrownCapacity(|old(Elems)|)
      ensures !ok ==> Elems == old(Elems) && data.buffer == old(data.buffer)
      ensures !ok ==> released != null && pos < released.Length &&
                      released[pos] == Live(ArgValue(old(Elems), arg))
      ensures !ok && !Fails(prefixFault, pos) ==>
                forall i :: 0 <= i < pos ==> released[i] == Live(old(Elems)[i])
    {
      ghost var x := ArgValue(Elems, arg);
      var newData := new RawMemory(GrownCapacity(size));
      ConstructAt(newData.buffer, pos, Read(arg));
      ok := TransferAroundAsWritten(data.buffer, size, pos, newData.buffer, prefixFault, suffixFault, Elems, x);
      if !ok {
        return false, newData.buffer;
      }
      released := null;
      AdoptBlock(newData, size + 1, InsertAt(Elems, pos, x));
    }

    /**
     * The two copying transfers of the reallocating path as the source has
     * them: as TryTransferAround on success, but a throwing copy leaves the
     * element at `pos`, and after a failed suffix transfer the copied prefix,
     * live in `dst`.
     */
    static method TransferAroundAsWritten(src: array?<Slot<T>>, size: nat, pos: nat, dst: array?<Slot<T>>,
                                          prefixFault: Fault, suffixFault: Fault,
                                          ghost elems: seq<T>, ghost x: T)
      returns (ok: bool)
      requires src != dst && pos <= size == |elems| <= Len(src) && size < Len(dst)
      requires forall i :: 0 <= i < size ==> src[i] == Live(elems[i])
      requires dst[pos] == Live(x)
      requires forall i :: 0 <= i < Len(dst) && i != pos ==> dst[i] == Uninit
      modifies dst
      ensures ok == !InsertTransferFails(size, pos, prefixFault, suffixFault)
      ensures ok ==> forall i :: 0 <= i < Len(dst) ==>
                dst[i] == if i <= size then Live(InsertAt(elems, pos, x)[i]) else Uninit
      ensures !ok ==> dst[pos] == Live(x)
      ensures !ok && !Fails(prefixFault, pos) ==> forall i :: 0 <= i < pos ==> dst[i] == Live(elems[i])
    {
      if size == 0 {
        return true;
      }
      ok := TryUninitializedCopyN(src, 0, pos, dst, 0, prefixFault);
      if !ok {
        return;
      }
      ok := TryUninitializedCopyN(src, pos, size - pos, dst, pos + 1, suffixFault);
      if !ok {
        return;
      }
      forall i | 0 <= i < Len(dst)
        ensures dst[i] == if i <= size then Live(InsertAt(elems, pos, x)[i]) else Uninit
      {
        if pos < i <= size {
          assert InsertAt(elems, pos, x)[i] == elems[i - 1];
        }
      }
    }

    /**
     * The copying reallocation path of Emplace with the leak closed: when a
     * transfer throws, the copies already made and the new element are
     * destroyed before the new block is released, so the vector is exactly
     * as before and no element survives in the discarded block.
     */
    method ReallocateInsertByCopy(pos: nat, arg: Arg<T>, prefixFault: Fault, suffixFault: Fault)
      returns (ok: bool)
      requires Valid() && pos <= |Elems| == Capacity() && ArgValid(Elems, arg)
      modifies Repr()
      ensures Valid() && fresh(Repr() - old(Repr()))
      ensures ok == !InsertTransferFails(|old(Elems)|, pos, prefixFault, suffixFault)
      ensures ok ==> Elems == InsertAt(old(Elems), pos, ArgValue(old(Elems), arg)) &&
                     Capacity() == GrownCapacity(|old(Elems)|)
      ensures !ok ==> Elems == old(Elems) && data.buffer == old(data.buffer)
    {
      ghost var x := ArgValue(Elems, arg);
      var newData := new RawMemory(GrownCapacity(size));
      ConstructAt(newData.buffer, pos, Read(arg));
      ok := TryTransferAround(data.buffer, size, pos, newData.buffer, prefixFault, suffixFault, Elems, x);
      if !ok {
        newData.Dispose();
        return;
      }
      AdoptBlock(newData, size + 1, InsertAt(Elems, pos, x));
    }

    /**
     * The two copying transfers of the reallocating path, from a block
     * holding `elems` into a block whose only live slot is `pos`, holding
     * `x`: the `pos` elements before the insertion point go to the front and
     * the rest to the slots after `pos`.  When either transfer throws, the
     * copies already made and the element at `pos` are destroyed, so the
     * block holds no live element.
     */
    static method TryTransferAround(src: array?<Slot<T>>, size: nat, pos: nat, dst: array?<Slot<T>>,
                                    prefixFault: Fault, suffixFault: Fault,
                                    ghost elems: seq<T>, ghost x: T)
      returns (ok: bool)
      requires src != dst && pos <= size == |elems| <= Len(src) && size < Len(dst)
      requires forall i :: 0 <= i < size ==> src[i] == Live(elems[i])
      requires dst[pos] == Live(x)
      requires forall i :: 0 <= i < Len(dst) && i != pos ==> dst[i] == Uninit
      modifies dst
      ensures ok == !InsertTransferFails(size, pos, prefixFault, suffixFault)
      ensures ok ==> forall i :: 0 <= i < Len(dst) ==>
                dst[i] == if i <= size then Live(InsertAt(elems, pos, x)[i]) else Uninit
      ensures !ok ==> AllUninit(dst)
    {
      if size == 0 {
        return true;
      }
      ok := TryUninitializedCopyN(src, 0, pos, dst, 0, prefixFault);
      if !ok {
        DestroyAt(dst, pos);
        return;
      }
      ok := TryUninitializedCopyN(src, pos, size - pos, dst, pos + 1, suffixFault);
      if !ok {
        DestroyN(dst, 0, pos + 1);
        return;
      }
      forall i | 0 <= i < Len(dst)
        ensures dst[i] == if i <= size then Live(InsertAt(elems, pos, x)[i]) else Uninit
      {
        if pos < i <= size {
          assert InsertAt(elems, pos, x)[i] == elems[i - 1];
        }
      }
    }

    /** Insert(pos, arg): Emplace with a single argument. */
    method Insert(pos: nat, arg: Arg<T>) returns (r: nat)
      requires Valid() && pos <= |Elems| && ArgValid(Elems, arg)
      modifies Repr()
      ensures Valid() && fresh(Repr() - old(Repr()))
      ensures Elems == InsertAt(old(Elems), pos, ArgValue(old(Elems), arg))
      ensures r == pos
      ensures |old(Elems)| < old(Capacity()) ==>
                Capacity() == old(Capacity()) && data.buffer == old(data.buffer)
      ensures |old(Elems)| == old(Capacity()) ==> Capacity() == GrownCapacity(|old(Elems)|)
    {
      r := Emplace(pos, arg);
    }

    /**
     * Erase(pos): removes element `pos` by shifting the tail left and
     * destroying the vacated last slot, and returns `pos`.  On an empty vector
     * it does nothing and returns the end position.
     */
    method Erase(pos: nat) returns (r: nat)
      requires Valid() && pos <= |Elems|
      requires |Elems| > 0 ==> pos < |Elems|
      modifies data.buffer, this
      ensures Valid()
      ensures |old(Elems)| == 0 ==> Elems == old(Elems) && r == |Elems|
      ensures |old(Elems)| > 0 ==> Elems == RemoveAt(old(Elems), pos) && r == pos
      ensures Capacity() == old(Capacity()) && data.buffer == old(data.buffer)
    {
      if size > 0 {
        MoveForward(data.buffer, pos + 1, size, pos);
        DestroyAt(data.buffer, size - 1);
        size := size - 1;
        Elems := RemoveAt(Elems, pos);
        return pos;
      }
      return size;
    }
  }
}
