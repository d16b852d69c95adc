/** Pure specification of what a SimpleVector's operations do to its logical
    contents (the live elements `items[..size]`) and to its capacity.
    The class in simple_vector.dfy is proved against these functions. */
module VectorSpec {

  /** The value a freshly allocated buffer slot holds (`Type{}` for `int`). */
  const Default: int := 0

  /** `n` default-valued slots, as a newly allocated buffer of length `n` holds. */
  function Defaults(n: nat): (r: seq<int>)
    ensures |r| == n
    ensures forall k :: 0 <= k < n ==> r[k] == Default
  {
    seq(n, _ => Default)
  }

  /** Contents after inserting `v` so that it ends up at index `i`. */
  function Inserted(s: seq<int>, i: nat, v: int): seq<int>
    requires i <= |s|
  {
    s[..i] + [v] + s[i..]
  }

  /** Contents after removing the element at index `i`. */
  function Erased(s: seq<int>, i: nat): seq<int>
    requires i < |s|
  {
    s[..i] + s[i + 1..]
  }

  /** Contents after resizing to `n`: truncation, or extension by defaults.
      The contract says what a caller may rely on: the length is `n`, the
      first `min(n, |s|)` elements survive in order, and every new slot holds
      the default value. */
  function Resized(s: seq<int>, n: nat): (r: seq<int>)
    ensures |r| == n
    ensures forall k :: 0 <= k < n && k < |s| ==> r[k] == s[k]
    ensures forall k :: |s| <= k < n ==> r[k] == Default
  {
    if n <= |s| then s[..n] else s + Defaults(n - |s|)
  }

  /** The capacity after the growth step that precedes every size-increasing
      mutation: a full buffer doubles, an empty full buffer becomes 1, a
      buffer with room is kept. */
  function Grown(size: nat, capacity: nat): nat
  {
    if size == capacity then (if capacity != 0 then capacity * 2 else 1) else capacity
  }

  /** After the growth step there is room for one more element, capacity never
      shrinks, and it changes exactly when the buffer was full. */
  lemma GrownMakesRoom(size: nat, capacity: nat)
    requires size <= capacity
    ensures size < Grown(size, capacity)
    ensures capacity <= Grown(size, capacity)
    ensures Grown(size, capacity) == capacity <==> size < capacity
    ensures size == capacity ==> Grown(size, capacity) == if capacity == 0 then 1 else 2 * capacity
  {
  }

  /** Inserting and then erasing at the same index gives back the original. */
  lemma EraseUndoesInsert(s: seq<int>, i: nat, v: int)
    requires i <= |s|
    ensures |Inserted(s, i, v)| == |s| + 1
    ensures Inserted(s, i, v)[i] == v
    ensures Erased(Inserted(s, i, v), i) == s
  {
  }

  /** Erasing an element and inserting it again at the same index gives back
      the original. */
  lemma InsertUndoesErase(s: seq<int>, i: nat)
    requires i < |s|
    ensures Inserted(Erased(s, i), i, s[i]) == s
  {
  }

  /** Where every element lands after an insertion. */
  lemma InsertedAt(s: seq<int>, i: nat, v: int, k: nat)
    requires i <= |s| && k <= |s|
    ensures |Inserted(s, i, v)| == |s| + 1
    ensures Inserted(s, i, v)[k] == if k < i then s[k] else if k == i then v else s[k - 1]
  {
  }

  /** Where every element lands after an erasure. */
  lemma ErasedAt(s: seq<int>, i: nat, k: nat)
    requires i < |s| && k < |s| - 1
    ensures |Erased(s, i)| == |s| - 1
    ensures Erased(s, i)[k] == if k < i then s[k] else s[k + 1]
  {
  }

  /** Resizing twice to the same size is the same as resizing once, and
      growing after a truncation brings back defaults, not the old values. */
  lemma ResizedTwice(s: seq<int>, m: nat, n: nat)
    ensures Resized(Resized(s, n), n) == Resized(s, n)
    ensures m <= n <= |s| ==> Resized(Resized(s, m), n) == s[..m] + Defaults(n - m)
  {
  }

  /** Powers of two. */
  predicate IsPowerOfTwo(x: nat)
    decreases x
  {
    x == 1 || (x > 1 && x % 2 == 0 && IsPowerOfTwo(x / 2))
  }

  /** The capacity of a vector that started empty (capacity 0) after `n`
      appends: each append applies the growth step to the size before it. */
  function CapacityAfterAppends(n: nat): (c: nat)
    ensures n <= c
  {
    if n == 0 then 0 else Grown(n - 1, CapacityAfterAppends(n - 1))
  }

  /** Doubling gives amortised constant-time appends: after `n >= 1` appends
      from empty the capacity is a power of two, at least `n` and below `2n`. */
  lemma {:induction false} AppendCapacityIsPowerOfTwo(n: nat)
    requires n >= 1
    ensures IsPowerOfTwo(CapacityAfterAppends(n))
    ensures n <= CapacityAfterAppends(n) < 2 * n
  {
    if n > 1 {
      AppendCapacityIsPowerOfTwo(n - 1);
      var p := CapacityAfterAppends(n - 1);
      if p == n - 1 {
        assert CapacityAfterAppends(n) == 2 * p;
        assert (2 * p) / 2 == p;
      }
    }
  }
}
