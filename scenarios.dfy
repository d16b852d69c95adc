/** Client-side checks: what a caller can conclude about concrete vectors
    from the contracts of SimpleVectors and Comparison alone. */
module Scenarios {
  import opened VectorSpec
  import opened SimpleVectors
  import opened Comparison

  /** The element order `operator<` on `int`. */
  function IntLess(x: int, y: int): bool
  {
    x < y
  }

  lemma IntLessIsStrictTotalOrder()
    ensures StrictTotalOrder(IntLess)
  {
  }

  /** Appends from empty double the capacity 0, 1, 2, 4; erasing at index 1
      and inserting 9 there act on the right elements. */
  method AppendEraseInsert() returns (capacities: seq<nat>, afterErase: seq<int>, afterInsert: seq<int>)
    ensures capacities == [0, 1, 2, 4]
    ensures afterErase == [1, 3] && afterInsert == [1, 9, 3]
  {
    var v := new SimpleVector();
    capacities := [v.GetCapacity()];
    v.PushBack(1);
    capacities := capacities + [v.GetCapacity()];
    v.PushBack(2);
    capacities := capacities + [v.GetCapacity()];
    v.PushBack(3);
    capacities := capacities + [v.GetCapacity()];
    var erased := v.Erase(1);
    afterErase := v.Elements();
    var inserted := v.Insert(1, 9);
    afterInsert := v.Elements();
  }

  /** Reserving on a vector with spare room exposes the gap: the size becomes
      the old capacity and the exposed slots hold the default value. */
  method ReserveWithSpareRoom() returns (before: seq<int>, after: seq<int>, capacity: nat)
    ensures before == [7] && after == [7, Default, Default, Default] && capacity == 8
  {
    var v := new SimpleVector.WithReserved(4);
    v.PushBack(7);
    before := v.Elements();
    v.Reserve(8);
    after := v.Elements();
    capacity := v.GetCapacity();
  }

  /** Copying keeps the elements but not the spare capacity; moving hands the
      buffer over and leaves the source empty with capacity 0. */
  method CopyAndMove() returns (copyCapacity: nat, movedCapacity: nat, sourceCapacity: nat, contents: seq<int>)
    ensures copyCapacity == 1 && movedCapacity == 10 && sourceCapacity == 0 && contents == [1]
  {
    var v := new SimpleVector.WithReserved(10);
    v.PushBack(1);
    var copy := new SimpleVector.Copy(v);
    copyCapacity := copy.GetCapacity();
    var moved := new SimpleVector.Move(v);
    movedCapacity := moved.GetCapacity();
    sourceCapacity := v.GetCapacity();
    contents := moved.Elements();
  }

  /** `n` appends to an empty vector leave exactly the capacity that
      `CapacityAfterAppends` predicts, so the doubling bound applies. */
  method AppendN(n: nat) returns (c: nat)
    ensures c == CapacityAfterAppends(n)
    ensures n >= 1 ==> IsPowerOfTwo(c) && n <= c < 2 * n
  {
    var v := new SimpleVector();
    var i := 0;
    while i < n
      invariant 0 <= i <= n
      invariant fresh(v) && fresh(v.items) && v.Valid()
      invariant v.size == i && v.items.Length == CapacityAfterAppends(i)
    {
      v.PushBack(i);
      i := i + 1;
    }
    c := v.GetCapacity();
    if n >= 1 {
      AppendCapacityIsPowerOfTwo(n);
    }
  }

  /** An empty vector with spare capacity grows in place to defaults. */
  method ResizeAfterClear() returns (before: seq<int>, after: seq<int>, capacity: nat)
    ensures before == [] && after == [Default, Default] && capacity == 4
  {
    var v := new SimpleVector.OfList([1, 2, 3, 4]);
    v.Clear();
    before := v.Elements();
    v.Resize(2);
    after := v.Elements();
    capacity := v.GetCapacity();
  }

  /** Checked access one past the end fails; inside the range it succeeds. */
  method AccessAtEnd() returns (atEnd: AccessResult, inside: AccessResult)
    ensures atEnd == OutOfRange(OutOfRangeMessage) && inside == Ok(6)
  {
    var v := new SimpleVector.OfList([5, 6]);
    atEnd := v.At(2);
    inside := v.At(1);
  }

  /** Two vectors built from the same list compare equal; appending to one
      makes them unequal and the longer one greater. */
  method CompareAfterAppend() returns (equalBefore: bool, equalAfter: bool, greater: bool, lessOrEqual: bool)
    ensures equalBefore && !equalAfter && greater && lessOrEqual
  {
    var a := new SimpleVector.OfList([1, 2, 3]);
    var b := new SimpleVector.OfList([1, 2, 3]);
    equalBefore := Equal(a.Elements(), b.Elements());
    b.PushBack(4);
    AppendMakesGreater(a.Elements(), 4, IntLess);
    equalAfter := Equal(b.Elements(), a.Elements());
    greater := Greater(b.Elements(), a.Elements(), IntLess);
    IntLessIsStrictTotalOrder();
    DerivedOperatorsConsistent(a.Elements(), b.Elements(), IntLess);
    lessOrEqual := LessOrEqual(a.Elements(), b.Elements(), IntLess);
  }
}
