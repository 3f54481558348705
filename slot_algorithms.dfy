/**
 * The memory algorithms of the C++ standard library that the vector uses,
 * as loops over slot arrays.  Each one states which slots it requires to be
 * raw or live and exactly what every slot holds afterwards.  Moving an
 * element is modelled as copying its value; the moved-from slot stays live.
 */
module SlotAlgorithms {
  import opened RawMemories

  /** `std::uninitialized_value_construct_n`: slots [from, from+n) become `zero`. */
  method UninitializedValueConstructN<T>(a: array?<Slot<T>>, from: nat, n: nat, zero: T)
    requires from + n <= Len(a)
    requires forall i :: from <= i < from + n ==> a[i] == Uninit
    modifies a
    ensures forall i :: 0 <= i < Len(a) ==>
              a[i] == if from <= i < from + n then Live(zero) else old(a[i])
  {
    var k := 0;
    while k < n
      invariant k <= n
      invariant forall i :: 0 <= i < Len(a) ==>
                  a[i] == if from <= i < from + k then Live(zero) else old(a[i])
    {
      a[from + k] := Live(zero);
      k := k + 1;
    }
  }

  /**
   * `std::uninitialized_copy_n` and `std::uninitialized_move_n`: the n live
   * elements from `src[from..]` are constructed into raw slots `dst[to..]`.
   */
  method UninitializedCopyN<T>(src: array?<Slot<T>>, from: nat, n: nat, dst: array?<Slot<T>>, to: nat)
    requires src != dst || n == 0
    requires from + n <= Len(src) && to + n <= Len(dst)
    requires forall i :: from <= i < from + n ==> src[i].Live?
    requires forall i :: to <= i < to + n ==> dst[i] == Uninit
    modifies dst
    ensures forall i :: 0 <= i < Len(dst) ==>
              dst[i] == if to <= i < to + n then src[i - to + from] else old(dst[i])
  {
    var k := 0;
    while k < n
      invariant k <= n
      invariant forall i :: 0 <= i < Len(dst) ==>
                  dst[i] == if to <= i < to + k then src[i - to + from] else old(dst[i])
    {
      dst[to + k] := Live(src[from + k].value);
      k := k + 1;
    }
  }

  /** `std::copy_n`: the n live elements from `src[from..]` are assigned over live slots `dst[to..]`. */
  method CopyN<T>(src: array?<Slot<T>>, from: nat, n: nat, dst: array?<Slot<T>>, to: nat)
    requires src != dst || n == 0
    requires from + n <= Len(src) && to + n <= Len(dst)
    requires forall i :: from <= i < from + n ==> src[i].Live?
    requires forall i :: to <= i < to + n ==> dst[i].Live?
    modifies dst
    ensures forall i :: 0 <= i < Len(dst) ==>
              dst[i] == if to <= i < to + n then src[i - to + from] else old(dst[i])
  {
    var k := 0;
    while k < n
      invariant k <= n
      invariant forall i :: 0 <= i < Len(dst) ==>
                  dst[i] == if to <= i < to + k then src[i - to + from] else old(dst[i])
    {
      dst[to + k] := Live(src[from + k].value);
      k := k + 1;
    }
  }

  /** `std::destroy_n`: the n live elements `a[from..]` are destroyed. */
  method DestroyN<T>(a: array?<Slot<T>>, from: nat, n: nat)
    requires from + n <= Len(a)
    requires forall i :: from <= i < from + n ==> a[i].Live?
    modifies a
    ensures forall i :: 0 <= i < Len(a) ==>
              a[i] == if from <= i < from + n then Uninit else old(a[i])
  {
    var k := 0;
    while k < n
      invariant k <= n
      invariant forall i :: 0 <= i < Len(a) ==>
                  a[i] == if from <= i < from + k then Uninit else old(a[i])
    {
      a[from + k] := Uninit;
      k := k + 1;
    }
  }

  /** Placement construction of `x` into the raw slot `a[i]`. */
  method ConstructAt<T>(a: array?<Slot<T>>, i: nat, x: T)
    requires i < Len(a) && a[i] == Uninit
    modifies a
    ensures forall j :: 0 <= j < Len(a) ==> a[j] == if j == i then Live(x) else old(a[j])
  {
    a[i] := Live(x);
  }

  /** `std::destroy_at`: the live element `a[i]` is destroyed. */
  method DestroyAt<T>(a: array?<Slot<T>>, i: nat)
    requires i < Len(a) && a[i].Live?
    modifies a
    ensures forall j :: 0 <= j < Len(a) ==> a[j] == if j == i then Uninit else old(a[j])
  {
    a[i] := Uninit;
  }

  /**
   * `std::move_backward(first, last, dEnd)` within one block: the live range
   * [first, last) is move-assigned, last element first, onto the live range
   * that ends at `dEnd`, which lies at or to the right of the source.
   */
  method MoveBackward<T>(a: array?<Slot<T>>, first: nat, last: nat, dEnd: nat)
    requires first <= last <= dEnd <= Len(a)
    requires forall i :: first <= i < last ==> a[i].Live?
    requires forall i :: dEnd - (last - first) <= i < dEnd ==> a[i].Live?
    modifies a
    ensures forall i :: 0 <= i < Len(a) ==>
              a[i] == if dEnd - (last - first) <= i < dEnd then old(a[i - (dEnd - last)]) else old(a[i])
  {
    var k := 0;
    while k < last - first
      invariant k <= last - first
      invariant forall i :: 0 <= i < Len(a) ==>
                  a[i] == if dEnd - k <= i < dEnd then old(a[i - (dEnd - last)]) else old(a[i])
    {
      a[dEnd - 1 - k] := Live(a[last - 1 - k].value);
      k := k + 1;
    }
  }

  /**
   * `std::move(first, last, dFirst)` within one block: the live range
   * [first, last) is move-assigned, first element first, onto the live range
   * that starts at `dFirst`, which lies at or to the left of the source.
   */
  method MoveForward<T>(a: array?<Slot<T>>, first: nat, last: nat, dFirst: nat)
    requires dFirst <= first <= last <= Len(a)
    requires forall i :: first <= i < last ==> a[i].Live?
    requires forall i :: dFirst <= i < dFirst + (last - first) ==> a[i].Live?
    modifies a
    ensures forall i {:trigger a[i]} :: 0 <= i < Len(a) ==>
              a[i] == if dFirst <= i < dFirst + (last - first) then old(a[i + (first - dFirst)]) else old(a[i])
  {
    ghost var shift := first - dFirst;
    var k := 0;
    while k < last - first
      invariant k <= last - first
      invariant forall i {:trigger a[i]} :: 0 <= i < Len(a) ==>
                  a[i] == if dFirst <= i < dFirst + k then old(a[i + shift]) else old(a[i])
    {
      ghost var before := a[..];
      a[dFirst + k] := Live(a[first + k].value);
      forall i | 0 <= i < Len(a)
        ensures a[i] == if dFirst <= i < dFirst + k + 1 then old(a[i + shift]) else old(a[i])
      {
        if i != dFirst + k {
          assert a[i] == before[i];
        }
      }
      k := k + 1;
    }
  }

  /**
   * Where an element constructor throws during one bulk construction:
   * `FailAt(k)` makes the construction of its k-th element (counting from 0)
   * fail, after k elements have been built.
   */
  datatype Fault = NoFault | FailAt(k: nat)

  /** A bulk construction of n elements under `fault` throws. */
  predicate Fails(fault: Fault, n: nat)
  {
    fault.FailAt? && fault.k < n
  }

  /** Destroys the live slots [from, from + n), last one first. */
  method DestroyBackward<T>(a: array?<Slot<T>>, from: nat, n: nat)
    requires from + n <= Len(a)
    requires forall i :: from <= i < from + n ==> a[i].Live?
    modifies a
    ensures forall i :: 0 <= i < Len(a) ==>
              a[i] == if from <= i < from + n then Uninit else old(a[i])
  {
    var k: nat := n;
    while k > 0
      invariant k <= n
      invariant forall i :: 0 <= i < Len(a) ==>
                  a[i] == if from + k <= i < from + n then Uninit else old(a[i])
    {
      k := k - 1;
      a[from + k] := Uninit;
    }
  }

  /**
   * `std::uninitialized_value_construct_n` with a constructor that may
   * throw: on failure the elements it already built are destroyed in reverse
   * order, so every slot is as it was.
   */
  method TryUninitializedValueConstructN<T>(a: array?<Slot<T>>, from: nat, n: nat, zero: T, fault: Fault)
    returns (ok: bool)
    requires from + n <= Len(a)
    requires forall i :: from <= i < from + n ==> a[i] == Uninit
    modifies a
    ensures ok == !Fails(fault, n)
    ensures ok ==> forall i :: 0 <= i < Len(a) ==>
              a[i] == if from <= i < from + n then Live(zero) else old(a[i])
    ensures !ok ==> forall i :: 0 <= i < Len(a) ==> a[i] == old(a[i])
  {
    var k := 0;
    while k < n
      invariant k <= n
      invariant !Fails(fault, k)
      invariant forall i :: 0 <= i < Len(a) ==>
                  a[i] == if from <= i < from + k then Live(zero) else old(a[i])
    {
      if fault == FailAt(k) {
        DestroyBackward(a, from, k);
        return false;
      }
      a[from + k] := Live(zero);
      k := k + 1;
    }
    return true;
  }

  /**
   * `std::uninitialized_copy_n` with a copy constructor that may throw: on
   * failure the copies it already built are destroyed in reverse order, so
   * every slot of `dst` is as it was.
   */
  method TryUninitializedCopyN<T>(src: array?<Slot<T>>, from: nat, n: nat, dst: array?<Slot<T>>, to: nat, fault: Fault)
    returns (ok: bool)
    requires src != dst || n == 0
    requires from + n <= Len(src) && to + n <= Len(dst)
    requires forall i :: from <= i < from + n ==> src[i].Live?
    requires forall i :: to <= i < to + n ==> dst[i] == Uninit
    modifies dst
    ensures ok == !Fails(fault, n)
    ensures ok ==> forall i :: 0 <= i < Len(dst) ==>
              dst[i] == if to <= i < to + n then src[i - to + from] else old(dst[i])
    ensures !ok ==> forall i :: 0 <= i < Len(dst) ==> dst[i] == old(dst[i])
  {
    var k := 0;
    while k < n
      invariant k <= n
      invariant !Fails(fault, k)
      invariant forall i :: 0 <= i < Len(dst) ==>
                  dst[i] == if to <= i < to + k then src[i - to + from] else old(dst[i])
    {
      if fault == FailAt(k) {
        DestroyBackward(dst, to, k);
        return false;
      }
      dst[to + k] := Live(src[from + k].value);
      k := k + 1;
    }
    return true;
  }
}
