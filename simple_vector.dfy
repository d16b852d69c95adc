/** The growable array `SimpleVector<Type>` with `int` elements: one owned
    buffer `items` whose length is the capacity, and a logical `size`. The
    live elements are `items[..size]`; slots `[size, capacity)` are allocated
    but unused and keep whatever value they last held.

    Positions (the source's raw-pointer iterators) are modelled as indices. */
module SimpleVectors {
  import opened VectorSpec

  /** Outcome of checked access: the element, or the out-of-range error. */
  datatype AccessResult = Ok(value: int) | OutOfRange(message: string)

  const OutOfRangeMessage: string := "Index out of range"

  /** Where a raw-pointer iterator points: the null pointer, or a slot of the
      buffer. */
  datatype Position = Null | Slot(index: nat)

  /** The mutable `begin()`: the null pointer for an empty vector, whatever
      its capacity, and the first slot otherwise. */
  function Begin(size: nat): (p: Position)
    ensures p.Null? <==> size == 0
    ensures p.Slot? ==> p.index == 0
  {
    if size == 0 then Null else Slot(0)
  }

  /** What the `std::fill` step of `Resize` writes to, as written: nothing,
      or the slots `[from, to)` counted from the base `begin()` gives. */
  datatype FillTarget = NoFill | Fill(base: Position, from: nat, to: nat)

  /** The fill target of `Resize(newSize)` as the code computes it: only the
      branch that grows within the capacity fills, and it counts from
      `begin()`. The fill writes through the null pointer exactly when the
      vector is empty and `newSize` is positive and fits the capacity. */
  function ResizeFillAsWritten(size: nat, capacity: nat, newSize: nat): (t: FillTarget)
    requires size <= capacity
    ensures t.Fill? <==> size < newSize <= capacity
    ensures t.Fill? ==> t.from == size && t.to == newSize
    ensures (t.Fill? && t.base.Null? && t.from < t.to) <==> size == 0 && 0 < newSize <= capacity
  {
    if newSize < size then NoFill
    else if newSize > size then
      if newSize > capacity then NoFill else Fill(Begin(size), size, newSize)
    else NoFill
  }

  /** The input that shows it: after `Clear()` (or from `WithReserved(4)`),
      `Resize(2)` on capacity 4 fills two slots starting at the null pointer. */
  lemma ResizeAfterClearFillsThroughNull()
    ensures ResizeFillAsWritten(0, 4, 2) == Fill(Null, 0, 2)
  {
  }

  class SimpleVector {
    /** The owned buffer; its length is the capacity. */
    var items: array<int>
    /** Number of live elements. */
    var size: nat

    /** The container invariant: size never exceeds capacity. */
    ghost predicate Valid()
      reads this
    {
      size <= items.Length
    }

    /** The logical contents. */
    function Elements(): seq<int>
      reads this, items
      requires Valid()
    {
      items[..size]
    }

    /** The number of live elements. */
    function GetSize(): (n: nat)
      reads this, items
      requires Valid()
      ensures n == |Elements()|
    {
      size
    }

    /** The number of allocated slots. */
    function GetCapacity(): (c: nat)
      reads this, items
      requires Valid()
      ensures |Elements()| <= c
    {
      items.Length
    }

    /** Whether there are no live elements. */
    function IsEmpty(): (b: bool)
      reads this, items
      requires Valid()
      ensures b <==> Elements() == []
    {
      GetSize() == 0
    }

    /** The default constructor: nothing allocated. */
    constructor ()
      ensures Valid() && fresh(items)
      ensures Elements() == [] && items.Length == 0
    {
      items := new int[0];
      size := 0;
    }

    /** `n` default-valued elements; size and capacity are both `n`. */
    constructor OfSize(n: nat)
      ensures Valid() && fresh(items)
      ensures size == n && items.Length == n
      ensures items[..] == Defaults(n) && Elements() == Defaults(n)
    {
      items := new int[n](_ => Default);
      size := n;
    }

    /** `n` copies of `value`; size and capacity are both `n`. */
    constructor Filled(n: nat, value: int)
      ensures Valid() && fresh(items)
      ensures items.Length == n
      ensures |Elements()| == n && forall k :: 0 <= k < n ==> Elements()[k] == value
    {
      items := new int[n](_ => Default);
      size := n;
      new;
      var i := 0;
      while i < n
        modifies items
        invariant 0 <= i <= n
        invariant forall k :: 0 <= k < i ==> items[k] == value
      {
        items[i] := value;
        i := i + 1;
      }
    }

    /** The elements of an initializer list, in order; capacity is its length. */
    constructor OfList(init: seq<int>)
      ensures Valid() && fresh(items)
      ensures Elements() == init && items.Length == |init|
    {
      items := new int[|init|](_ => Default);
      size := |init|;
      new;
      var i := 0;
      while i < |init|
        modifies items
        invariant 0 <= i <= |init|
        invariant forall k :: 0 <= k < i ==> items[k] == init[k]
      {
        items[i] := init[i];
        i := i + 1;
      }
    }

    /** The copy constructor: same elements in a fresh buffer whose capacity
        is the source's size, so spare capacity is not carried over. */
    constructor Copy(other: SimpleVector)
      requires other.Valid()
      ensures Valid() && fresh(items)
      ensures Elements() == other.Elements() && items.Length == other.size
    {
      items := new int[other.size](_ => Default);
      size := other.size;
      new;
      var i := 0;
      while i < size
        modifies items
        invariant 0 <= i <= size
        invariant forall k :: 0 <= k < i ==> items[k] == other.items[k]
      {
        items[i] := other.items[i];
        i := i + 1;
      }
    }

    /** The move constructor: takes over the source's buffer, size and
        capacity, and leaves the source empty with capacity 0. */
    constructor Move(other: SimpleVector)
      requires other.Valid()
      modifies other
      ensures Valid() && other.Valid()
      ensures items == old(other.items) && size == old(other.size)
      ensures other.size == 0 && other.items.Length == 0
    {
      items := other.items;
      size := other.size;
      new;
      other.items := new int[0];
      other.size := 0;
    }

    /** The reservation constructor: it reserves on the object under
        construction, so it has no elements and capacity `capacity`. */
    constructor WithReserved(capacity: nat)
      ensures Valid() && fresh(items)
      ensures Elements() == [] && items.Length == capacity
    {
      items := new int[0];
      size := 0;
      new;
      Reserve(capacity);
    }

    /** Copy assignment by copy-and-swap; self-assignment changes nothing.
        Afterwards the contents are `rhs`'s and the capacity is `rhs`'s size. */
    method CopyAssign(rhs: SimpleVector)
      requires Valid() && rhs.Valid()
      modifies this
      ensures Valid() && Elements() == old(rhs.Elements())
      ensures this != rhs ==> fresh(items) && items.Length == old(rhs.size)
      ensures this == rhs ==> items == old(items) && size == old(size)
    {
      if this != rhs {
        var tmp := new SimpleVector.Copy(rhs);
        Swap(tmp);
      }
    }

    /** Move assignment: takes over `rhs`'s buffer and leaves `rhs` empty with
        capacity 0; self-assignment changes nothing. */
    method MoveAssign(rhs: SimpleVector)
      requires Valid() && rhs.Valid()
      modifies this, rhs
      ensures Valid() && rhs.Valid()
      ensures this != rhs ==> items == old(rhs.items) && size == old(rhs.size)
      ensures this != rhs ==> rhs.size == 0 && rhs.items.Length == 0
      ensures this == rhs ==> items == old(items) && size == old(size)
    {
      if this != rhs {
        items := rhs.items;
        size := rhs.size;
        rhs.items := new int[0];
        rhs.size := 0;
      }
    }

    /** Exchanges buffers and sizes with `other`, without touching elements. */
    method Swap(other: SimpleVector)
      requires Valid() && other.Valid()
      modifies this, other
      ensures Valid() && other.Valid()
      ensures items == old(other.items) && size == old(other.size)
      ensures other.items == old(items) && other.size == old(size)
    {
      var buffer, count := items, size;
      items, size := other.items, other.size;
      other.items, other.size := buffer, count;
    }

    /** Unchecked read access (`operator[]`); the index must be live. */
    function Get(index: nat): (x: int)
      reads this, items
      requires Valid() && index < size
      ensures x == Elements()[index]
    {
      items[index]
    }

    /** Unchecked write access through the reference `operator[]` returns. */
    method Set(index: nat, x: int)
      requires Valid() && index < size
      modifies items
      ensures Valid()
      ensures Elements() == old(Elements())[index := x]
      ensures items[size..] == old(items[size..])
    {
      items[index] := x;
    }

    /** Checked access: the error exactly when `index >= size`, otherwise the
        element at `index`. */
    method At(index: nat) returns (r: AccessResult)
      requires Valid()
      ensures r.OutOfRange? <==> index >= |Elements()|
      ensures r.OutOfRange? ==> r.message == OutOfRangeMessage
      ensures r.Ok? ==> index < |Elements()| && r.value == Elements()[index]
    {
      if index >= GetSize() {
        return OutOfRange(OutOfRangeMessage);
      }
      r := Ok(items[index]);
    }

    /** Appends `x`, growing first when full. */
    method PushBack(x: int)
      requires Valid()
      modifies this, items
      ensures Valid()
      ensures Elements() == old(Elements()) + [x]
      ensures items.Length == Grown(old(size), old(items.Length))
      ensures old(size) < old(items.Length) ==> items == old(items) && items[size..] == old(items[..])[size..]
      ensures old(size) == old(items.Length) ==> fresh(items) && items[size..] == Defaults(items.Length - size)
    {
      DoubleIfFull();
      items[size] := x;
      size := size + 1;
    }

    /** Drops the last element; an empty vector is left as it is. The buffer
        and the capacity are untouched. */
    method PopBack()
      requires Valid()
      modifies this`size
      ensures Valid()
      ensures old(size) == 0 ==> size == 0
      ensures old(size) > 0 ==> Elements() == old(Elements())[..old(size) - 1]
    {
      if !IsEmpty() {
        size := size - 1;
      }
    }

    /** Inserts `x` at index `pos` (at most the size) and returns that index;
        the vector grows first when full, and the later elements move one
        slot towards the back, the last one first. */
    method Insert(pos: nat, x: int) returns (r: nat)
      requires Valid() && pos <= size
      modifies this, items
      ensures Valid() && r == pos
      ensures Elements() == Inserted(old(Elements()), pos, x)
      ensures items.Length == Grown(old(size), old(items.Length))
      ensures old(size) < old(items.Length) ==> items == old(items) && items[size..] == old(items[..])[size..]
      ensures old(size) == old(items.Length) ==> fresh(items) && items[size..] == Defaults(items.Length - size)
    {
      var index := pos;
      DoubleIfFull();
      ghost var grown := items[..];
      ghost var e := Elements();
      // std::move_backward(begin() + index, end(), end() + 1)
      var j := size;
      while j > index
        modifies items
        invariant index <= j <= size < items.Length
        invariant forall k :: 0 <= k < j ==> items[k] == e[k]
        invariant forall k :: j < k <= size ==> items[k] == e[k - 1]
        invariant forall k :: size < k < items.Length ==> items[k] == grown[k]
      {
        items[j] := items[j - 1];
        j := j - 1;
      }
      items[index] := x;
      size := size + 1;
      r := index;
      assert forall k :: size <= k < items.Length ==> items[k] == grown[k];
      assert items[size..] == grown[size..];
      forall k | 0 <= k < size
        ensures Elements()[k] == Inserted(e, index, x)[k]
      {
        InsertedAt(e, index, x, k);
      }
      assert Elements() == Inserted(e, index, x);
      if old(size) == old(items.Length) {
        assert forall k :: size <= k < items.Length ==> grown[k] == Default;
        assert items[size..] == Defaults(items.Length - size);
      }
    }

    /** Removes the element at index `pos` (below the size), moving the later
        elements one slot towards the front, and returns `pos`; that is the
        new end exactly when the last element was erased. The vacated slot
        keeps its old value and the capacity is unchanged. */
    method Erase(pos: nat) returns (r: nat)
      requires Valid() && pos < size
      modifies this`size, items
      ensures Valid() && r == pos
      ensures Elements() == Erased(old(Elements()), pos)
      ensures items[size..] == old(items[..])[size..]
      ensures r == size <==> pos == old(size) - 1
    {
      var index := pos;
      ghost var e := Elements();
      // std::copy of the moved range [it + 1, end()) onto it
      var j := index;
      while j + 1 < size
        modifies items
        invariant index <= j < size
        invariant forall k :: 0 <= k < index ==> items[k] == e[k]
        invariant forall k :: index <= k < j ==> items[k] == e[k + 1]
        invariant forall k :: j <= k < items.Length ==> items[k] == old(items[k])
      {
        items[j] := items[j + 1];
        j := j + 1;
      }
      size := size - 1;
      forall k | 0 <= k < size
        ensures Elements()[k] == Erased(e, index)[k]
      {
        ErasedAt(e, index, k);
      }
      if index == GetSize() {
        r := size;
      } else {
        r := index;
      }
    }

    /** Sets the size to 0; capacity and buffer are untouched. */
    method Clear()
      requires Valid()
      modifies this`size
      ensures Valid() && Elements() == []
    {
      size := 0;
    }

    /** Changes the size to `newSize`: truncates, fills the new slots with
        defaults in place, or reallocates to capacity exactly `newSize` when
        that exceeds the capacity. The fill counts from the buffer's first
        slot, so it also works on an empty vector with spare capacity; the
        code counts from `begin()`, which is null there (see
        `ResizeFillAsWritten`). */
    method Resize(newSize: nat)
      requires Valid()
      modifies this, items
      decreases if newSize > items.Length then 2 else 0
      ensures Valid() && size == newSize
      ensures Elements() == Resized(old(Elements()), newSize)
      ensures newSize <= old(size) ==> items == old(items) && items[..] == old(items[..])
      ensures old(size) < newSize <= old(items.Length) ==> items == old(items) && items[newSize..] == old(items[newSize..])
      ensures newSize > old(items.Length) ==> fresh(items) && items.Length == newSize
    {
      if newSize < GetSize() {
        size := newSize;
      } else if newSize > GetSize() {
        if newSize > GetCapacity() {
          Reserve(newSize);
        } else {
          // std::fill(begin() + size_, begin() + new_size, Type{})
          var i := size;
          while i < newSize
            modifies items
            invariant size <= i <= newSize
            invariant forall k :: 0 <= k < size ==> items[k] == old(items[k])
            invariant forall k :: size <= k < i ==> items[k] == Default
            invariant forall k :: newSize <= k < items.Length ==> items[k] == old(items[k])
          {
            items[i] := Default;
            i := i + 1;
          }
        }
        size := newSize;
      }
    }

    /** Reserves capacity `newCapacity`. A request not above the capacity
        changes nothing. Otherwise the vector moves into a fresh buffer of
        that length, and (as written) its size becomes the OLD CAPACITY:
        the old elements, then defaults up to the old capacity. */
    method Reserve(newCapacity: nat)
      requires Valid()
      modifies this
      decreases 1
      ensures Valid()
      ensures newCapacity <= old(items.Length) ==> items == old(items) && size == old(size)
      ensures newCapacity > old(items.Length) ==> fresh(items) && items.Length == newCapacity
      ensures newCapacity > old(items.Length) ==> size == old(items.Length)
      ensures newCapacity > old(items.Length) ==> items[..] == Resized(old(Elements()), newCapacity)
      ensures newCapacity > old(items.Length) ==> Elements() == Resized(old(Elements()), old(items.Length))
    {
      if newCapacity > GetCapacity() {
        var tmp := new SimpleVector.OfSize(newCapacity);
        tmp.Resize(GetCapacity());
        // std::move(begin(), end(), tmp.begin())
        var buffer := tmp.items;
        var i := 0;
        while i < size
          modifies buffer
          invariant 0 <= i <= size
          invariant tmp.items == buffer && tmp.size == items.Length && buffer.Length == newCapacity
          invariant forall k :: 0 <= k < i ==> buffer[k] == items[k]
          invariant forall k :: i <= k < newCapacity ==> buffer[k] == Default
        {
          buffer[i] := items[i];
          i := i + 1;
        }
        Swap(tmp);
      }
    }

    /** Grows before a size-increasing mutation when full: to twice the
        capacity, or to 1 from 0. Contents and size are kept. */
    method DoubleIfFull()
      requires Valid()
      modifies this
      ensures Valid() && size == old(size)
      ensures Elements() == old(Elements())
      ensures items.Length == Grown(old(size), old(items.Length))
      ensures old(size) < old(items.Length) ==> items == old(items)
      ensures old(size) == old(items.Length) ==> fresh(items) && items[size..] == Defaults(items.Length - size)
    {
      if GetSize() == GetCapacity() {
        Reserve(if GetCapacity() != 0 then GetCapacity() * 2 else 1);
      }
    }
  }
}
