/**
 * Sequence-level meaning of the vector operations.
 *
 * A vector's live elements form a `seq<T>`; the functions below say what
 * that sequence becomes after an insertion, an erasure or a resize, and how
 * capacity grows when a full vector must reallocate.  The lemmas relate the
 * operations to one another (round trips) and describe the growth policy.
 */
module Sequences {

  /** Contents after inserting `x` before position `p` (Emplace / Insert). */
  function InsertAt<T>(s: seq<T>, p: nat, x: T): (r: seq<T>)
    requires p <= |s|
    ensures |r| == |s| + 1
    ensures r[p] == x
    ensures forall i :: 0 <= i < p ==> r[i] == s[i]
    ensures forall i :: p < i < |r| ==> r[i] == s[i - 1]
  {
    s[..p] + [x] + s[p..]
  }

  /** Contents after removing the element at position `p` (Erase). */
  function RemoveAt<T>(s: seq<T>, p: nat): (r: seq<T>)
    requires p < |s|
    ensures |r| == |s| - 1
    ensures forall i :: 0 <= i < p ==> r[i] == s[i]
    ensures forall i :: p <= i < |r| ==> r[i] == s[i + 1]
  {
    s[..p] + s[p + 1..]
  }

  /**
   * Contents after Resize(n): the first min(|s|, n) elements are kept and any
   * new tail holds the value-initialised element `zero`.
   */
  function Resized<T>(s: seq<T>, n: nat, zero: T): (r: seq<T>)
    ensures |r| == n
    ensures forall i :: 0 <= i < n && i < |s| ==> r[i] == s[i]
    ensures forall i :: |s| <= i < n ==> r[i] == zero
  {
    if n <= |s| then s[..n] else s + seq(n - |s|, _ => zero)
  }

  /**
   * Capacity of the block a full vector of `size` elements reallocates to
   * before adding one element: 1 from empty, twice the size otherwise.
   */
  function GrownCapacity(size: nat): (c: nat)
    ensures size < c
    ensures c <= 2 * size || size == 0
  {
    if size == 0 then 1 else 2 * size
  }

  /** Erasing the element just inserted gives back the original contents. */
  lemma RemoveInsertedRoundTrip<T>(s: seq<T>, p: nat, x: T)
    requires p <= |s|
    ensures RemoveAt(InsertAt(s, p, x), p) == s
  {
  }

  /** Re-inserting an erased element where it was gives back the original contents. */
  lemma InsertRemovedRoundTrip<T>(s: seq<T>, p: nat)
    requires p < |s|
    ensures InsertAt(RemoveAt(s, p), p, s[p]) == s
  {
  }

  /**
   * Resizing to m and then growing to n zero-fills past the first result;
   * when m shrank s, that result is exactly the first m elements of s.
   */
  lemma ResizedShrinkThenGrow<T>(s: seq<T>, m: nat, n: nat, zero: T)
    requires m <= n
    ensures Resized(Resized(s, m, zero), n, zero) == Resized(s, m, zero) + seq(n - m, _ => zero)
    ensures m <= |s| ==> Resized(Resized(s, m, zero), n, zero) == s[..m] + seq(n - m, _ => zero)
  {
  }

  /**
   * Capacity after `k` PushBack calls on a vector that starts empty with
   * capacity 0: each call reallocates exactly when the vector is full.
   */
  function CapacityAfterPushes(k: nat): (c: nat)
  {
    if k == 0 then 0
    else
      var before := CapacityAfterPushes(k - 1);
      if k - 1 == before then GrownCapacity(k - 1) else before
  }

  ghost predicate IsPowerOfTwo(c: nat)
    decreases c
  {
    c == 1 || (c > 1 && c % 2 == 0 && IsPowerOfTwo(c / 2))
  }

  /**
   * Doubling growth: after k >= 1 pushes from empty the capacity is a power of
   * two that holds all k elements and wastes less than half of the block,
   * which is what makes appending amortised constant time.
   */
  lemma {:induction false} CapacityAfterPushesBounds(k: nat)
    requires k >= 1
    ensures IsPowerOfTwo(CapacityAfterPushes(k))
    ensures k <= CapacityAfterPushes(k) < 2 * k
  {
    if k == 1 {
      assert CapacityAfterPushes(0) == 0;
    } else {
      CapacityAfterPushesBounds(k - 1);
      var before := CapacityAfterPushes(k - 1);
      if k - 1 == before {
        assert CapacityAfterPushes(k) == 2 * before;
        assert (2 * before) / 2 == before;
      }
    }
  }
}
