/**
 * Client-side consequences of the Vector contracts: the situations the
 * repository's own assertions check, derived from the specifications alone.
 */
module Scenarios {
  import opened RawMemories
  import opened SlotAlgorithms
  import opened Sequences
  import opened Vectors

  /**
   * Pushing a vector's own element while it is full reallocates, and the
   * new last element still equals the element that was referred to.
   */
  method PushBackOwnElement<T>(v: Vector<T>, i: nat)
    requires v.Valid() && i < |v.Elems| == v.Capacity()
    modifies v.Repr()
    ensures v.Valid()
    ensures v.Elems == old(v.Elems) + [old(v.Elems)[i]]
    ensures v.Capacity() == 2 * old(|v.Elems|)
  {
    v.PushBack(ElementAt(i));
  }

  /**
   * k PushBack calls on a default-constructed vector: the capacity reached is
   * CapacityAfterPushes(k), so doubling growth leaves it a power of two that
   * holds all k elements and is less than twice their number.
   */
  method PushBackGrowth<T>(k: nat, x: T) returns (v: Vector<T>)
    ensures v.Valid() && fresh(v.Repr())
    ensures v.Elems == seq(k, _ => x)
    ensures v.Capacity() == CapacityAfterPushes(k)
    ensures k >= 1 ==> IsPowerOfTwo(v.Capacity()) && k <= v.Capacity() < 2 * k
  {
    v := new Vector();
    var i := 0;
    while i < k
      invariant i <= k
      invariant v.Valid() && fresh(v.Repr())
      invariant v.Elems == seq(i, _ => x)
      invariant v.Capacity() == CapacityAfterPushes(i)
    {
      v.PushBack(Value(x));
      i := i + 1;
    }
    if k >= 1 {
      CapacityAfterPushesBounds(k);
    }
  }

  /** A vector of one element at capacity one, pushed its own element. */
  method SelfPushBackScenario<T>(zero: T)
  {
    var v := new Vector.Sized(1, zero);
    PushBackOwnElement(v, 0);
    assert v.At(0) == zero && v.At(1) == zero;
    assert v.Size() == 2 && v.Capacity() == 2;
  }

  /** Sized construction, reserve and element assignment. */
  method SizedReserveScenario(size: nat, index: nat, magic: int)
    requires index < size
  {
    var v := new Vector.Sized(size, 0);
    assert v.Size() == size && v.Capacity() == size && v.At(0) == 0;
    v.Set(index, magic);
    assert v.At(index) == magic;
    v.Reserve(2 * size);
    assert v.Size() == size && v.Capacity() == 2 * size && v.At(index) == magic;
    var copy := new Vector.Copy(v);
    assert copy.At(index) == v.At(index) && copy.data.buffer != v.data.buffer;
  }

  /** Shrinking with Resize keeps the capacity; popping the only element keeps capacity 1. */
  method ResizePopScenario<T>(size: nat, newSize: nat, zero: T, x: T)
    requires newSize < size
  {
    var v := new Vector.Sized(size, zero);
    v.Resize(newSize, zero);
    assert v.Size() == newSize && v.Capacity() == size;
    var w := new Vector();
    w.PushBack(Value(x));
    w.PopBack();
    assert w.Size() == 0 && w.Capacity() == 1;
  }

  /** Inserting and then erasing at the same position restores the contents. */
  method InsertEraseScenario<T>(v: Vector<T>, pos: nat, x: T)
    requires v.Valid() && pos <= |v.Elems|
    modifies v.Repr()
    ensures v.Valid() && v.Elems == old(v.Elems)
  {
    var p := v.Insert(pos, Value(x));
    var q := v.Erase(p);
    RemoveInsertedRoundTrip(old(v.Elems), pos, x);
  }

  /** Copy assignment from a smaller vector keeps the capacity. */
  method AssignSmallerScenario(medium: nat, large: nat)
    requires medium < large
  {
    var m := new Vector.Sized(medium, 0);
    var l := new Vector.Sized(large, 0);
    l.Assign(m);
    assert l.Size() == medium && l.Capacity() == large;
  }

  /** Copy assignment from a larger vector takes its size as the capacity. */
  method AssignLargerScenario(medium: nat, large: nat)
    requires medium < large
  {
    var m := new Vector.Sized(medium, 0);
    var l := new Vector.Sized(large, 1);
    m.Assign(l);
    assert m.Size() == large && m.Capacity() == large && m.At(large - 1) == 1;
    assert l.Size() == large;
  }

  /** The 50th of 100 default constructions throws: no vector, and no element survives. */
  method FailedSizedConstructionScenario<T>(zero: T)
  {
    var v := Vector<T>.TryNewSized(100, zero, FailAt(49));
    assert v == null;
  }

  /**
   * The leak in the copying path of EmplaceBack: a full vector of one
   * element whose only copy throws releases a block in which the new element
   * is still live.
   */
  method EmplaceBackLeakScenario<T>(zero: T, x: T)
  {
    var v := new Vector.Sized(1, zero);
    var ok, released := v.EmplaceBackByCopyAsWritten(Value(x), FailAt(0));
    assert !ok && released != null && released[1] == Live(x);
    assert v.Size() == 1 && v.At(0) == zero;
  }

  /**
   * The leak in the copying reallocation path of Emplace: inserting into a
   * full vector of two elements at position 1, where the copy of the element
   * after the insertion point throws, releases a block in which both the new
   * element and the copy of the first element are still live.
   */
  method EmplaceLeakScenario<T>(zero: T, x: T)
  {
    var v := new Vector.Sized(2, zero);
    var ok, released := v.ReallocateInsertByCopyAsWritten(1, Value(x), NoFault, FailAt(0));
    assert !ok && released != null;
    assert released[0] == Live(zero) && released[1] == Live(x);
    assert v.Size() == 2 && v.At(0) == zero && v.At(1) == zero;
  }
}
