# SimpleVector in Dafny

A model of `SimpleVector<Type>`, a growable array in C++. A vector owns one
buffer `items_`. It keeps a logical size `size_` and an allocated capacity
`capacity_`. The model covers its constructors, its assignments, `swap`,
element access, `PushBack`, `PopBack`, `Insert`, `Erase`, `Clear`, `Resize`,
`Reserve` and the private growth step `DoubleIfFull`. It also covers the six
free comparison operators.

- `vector_spec.dfy` (module `VectorSpec`): pure functions that say what each
  operation does to the live elements. These are `Inserted`, `Erased`,
  `Resized` and `Grown`, the growth rule for capacity. The module also holds
  lemmas about them: round trips, where each element lands, and that
  doubling keeps the capacity a power of two between `n` and `2n`.
- `simple_vector.dfy` (module `SimpleVectors`): the class `SimpleVector`.
  Its field `items: array<int>` is the buffer, and the capacity is
  `items.Length`. Its field `size` is the size. `Valid()` says
  `size <= items.Length`, and `Elements()` is `items[..size]`. The
  shifting and resizing methods state the new contents against
  `VectorSpec`; `Set`, `PopBack` and `Clear` state them directly. Each
  mutating method also states the new capacity and what happens to the
  unused slots. The loops
  of the source (`std::fill`, `std::copy`, `std::move_backward`, the
  element move in `Reserve`) are `while` loops with invariants.
- `comparison.dfy` (module `Comparison`): the operators `==`, `!=`, `<`,
  `<=`, `>`, `>=` on the live elements. They are generic in the element
  order `lt`. `std::equal` and `std::lexicographical_compare` are written
  out as recursive functions. Lemmas show what `<` means lexicographically.
  They also show that the derived operators are consistent when `lt` is a
  strict total order.
- `scenarios.dfy` (module `Scenarios`): client methods that derive concrete
  outcomes from the contracts alone. Examples are the capacities 0, 1, 2, 4
  while appending, and the size reset done by `Reserve`.

Elements are `int`, and the default value `Type{}` is `0`. A position (a
raw-pointer iterator in the source) is an index.

Behaviour that is reproduced as written:

- `Reserve(n)` with `n` above the capacity moves the vector into a fresh
  buffer of length `n`. It first resizes that buffer to the OLD CAPACITY.
  So the size becomes the old capacity, and the slots from the old size up
  to the old capacity hold the default value. A vector with spare room
  therefore grows in size when it reserves (see
  `Scenarios.ReserveWithSpareRoom`). This cannot be seen through
  `DoubleIfFull`, which reserves only when size equals capacity. It cannot
  be seen through `Resize` either, which overwrites the size afterwards.
- The reservation constructor calls the member `Reserve` on the object
  under construction. It therefore yields size 0 and capacity `n`.
- The copy constructor and copy assignment give capacity equal to the
  source's size. Moving leaves the source with size 0 and capacity 0.
- `Erase` returns the erased index. It is the new end exactly when the last
  element was erased, because the code compares the pre-decrement index with
  the post-decrement size.
- `PopBack`, `Clear` and shrinking `Resize` change only the size. The buffer
  and the capacity stay as they were.

## Model

| member | source | states |
|---|---|---|
| `VectorSpec.Resized` | simple_vector.h:207-227 | the resized contents have length `n`, keep the old elements below `n` in order, and hold the default value in every new slot |
| `VectorSpec.ResizedTwice` | simple_vector.h:207-227 | resizing is idempotent; truncating and growing again brings back defaults, not the dropped values |
| `VectorSpec.GrownMakesRoom` | simple_vector.h:287-291 | after the growth step there is room for one more element; capacity never shrinks; it changes exactly when the vector was full, to `2c`, or to 1 from 0 |
| `VectorSpec.CapacityAfterAppends` | simple_vector.h:99-102 | after `n` appends from empty the capacity is at least `n` |
| `VectorSpec.AppendCapacityIsPowerOfTwo` | simple_vector.h:287-291 | after `n >= 1` appends from empty the capacity is a power of two with `n <= c < 2n` (amortised constant-time append) |
| `VectorSpec.EraseUndoesInsert` | simple_vector.h:120-163 | inserting `v` at `i` puts it at index `i`, and erasing index `i` afterwards restores the original contents |
| `VectorSpec.InsertUndoesErase` | simple_vector.h:120-163 | erasing index `i` and inserting the erased value at `i` restores the original contents |
| `VectorSpec.InsertedAt` | simple_vector.h:126-129 | after insertion, elements before `i` stay, `v` is at `i`, later elements sit one index further back |
| `VectorSpec.ErasedAt` | simple_vector.h:152-156 | after erasure, elements before `i` stay and later elements sit one index further forward |
| `SimpleVectors.Begin` | simple_vector.h:240-246 | the mutable `begin()` is the null pointer exactly when the vector is empty, whatever its capacity, and the first slot otherwise |
| `SimpleVectors.ResizeFillAsWritten` | simple_vector.h:207-227 | as written, `Resize` fills only when growing within the capacity, over `[size, newSize)` counted from `begin()`; that fill starts at the null pointer exactly when the vector is empty and `0 < newSize <= capacity` |
| `SimpleVectors.ResizeAfterClearFillsThroughNull` | simple_vector.h:218 | on an empty vector with capacity 4, `Resize(2)` fills two slots from the null pointer |
| `SimpleVectors.SimpleVector.GetSize` | simple_vector.h:83-85 | the size is the number of live elements |
| `SimpleVectors.SimpleVector.GetCapacity` | simple_vector.h:88-90 | the capacity is at least the number of live elements |
| `SimpleVectors.SimpleVector.IsEmpty` | simple_vector.h:93-95 | true exactly when there are no live elements |
| `SimpleVectors.SimpleVector.constructor` | simple_vector.h:29 | the default vector is empty with capacity 0 |
| `SimpleVectors.SimpleVector.OfSize` | simple_vector.h:32-34 | size and capacity `n`, every slot the default value |
| `SimpleVectors.SimpleVector.Filled` | simple_vector.h:37-40 | size and capacity `n`, every element `value` |
| `SimpleVectors.SimpleVector.OfList` | simple_vector.h:43-46 | the elements are the list's, in order, and the capacity is its length |
| `SimpleVectors.SimpleVector.Copy` | simple_vector.h:48-51 | same elements in a fresh buffer whose capacity is the source's size |
| `SimpleVectors.SimpleVector.Move` | simple_vector.h:53-57 | takes over the source's buffer and size; the source is left with size 0 and capacity 0 |
| `SimpleVectors.SimpleVector.WithReserved` | simple_vector.h:59-61 | no elements and capacity exactly the requested amount |
| `SimpleVectors.SimpleVector.CopyAssign` | simple_vector.h:63-70 | contents become `rhs`'s in a fresh buffer of capacity `rhs`'s size; self-assignment changes nothing |
| `SimpleVectors.SimpleVector.MoveAssign` | simple_vector.h:72-80 | takes over `rhs`'s buffer and size and leaves `rhs` empty with capacity 0; self-assignment changes nothing |
| `SimpleVectors.SimpleVector.Swap` | simple_vector.h:166-170 | buffers, sizes and capacities are exchanged, with no element copied |
| `SimpleVectors.SimpleVector.Get` | simple_vector.h:173-175 | reads the live element at the index |
| `SimpleVectors.SimpleVector.Set` | simple_vector.h:173-175 | a write through the returned reference replaces exactly that element |
| `SimpleVectors.SimpleVector.At` | simple_vector.h:184-192 | out-of-range error with its message exactly when `index >= size`, otherwise the element at `index` |
| `SimpleVectors.SimpleVector.PushBack` | simple_vector.h:99-107 | contents become old contents plus `x`; capacity follows the growth rule; without growth the buffer past the new size is untouched, with growth it holds defaults |
| `SimpleVectors.SimpleVector.PopBack` | simple_vector.h:110-114 | drops the last element of a non-empty vector; an empty one stays empty; buffer and capacity untouched |
| `SimpleVectors.SimpleVector.Insert` | simple_vector.h:120-146 | contents become `old[..i] + [x] + old[i..]`, the result is `i`, and capacity follows the growth rule |
| `SimpleVectors.SimpleVector.Erase` | simple_vector.h:149-163 | contents become `old[..i] + old[i+1..]`, the result is `i`, which equals the new size exactly when the last element was erased; buffer past the new size and capacity untouched |
| `SimpleVectors.SimpleVector.Clear` | simple_vector.h:201-203 | no live elements; buffer and capacity untouched |
| `SimpleVectors.SimpleVector.Resize` | simple_vector.h:207-227 | size becomes `n` with contents `Resized(old, n)`; the buffer is kept when `n` fits the capacity (untouched past `n`), and replaced by one of capacity exactly `n` otherwise |
| `SimpleVectors.SimpleVector.Reserve` | simple_vector.h:229-236 | no change when `n` does not exceed the capacity; otherwise a fresh buffer of length `n` holding the old elements then defaults, with size the old capacity |
| `SimpleVectors.SimpleVector.DoubleIfFull` | simple_vector.h:287-291 | contents and size kept; capacity follows the growth rule; a new buffer holds defaults past the size |
| `Comparison.RangeEqual` | simple_vector.h:298 | `std::equal` holds exactly when the first range equals the same-length prefix of the second |
| `Comparison.Equal` | simple_vector.h:294-299 | `==` holds exactly when sizes match and elements are pointwise equal, that is, when the contents are equal |
| `Comparison.NotEqual` | simple_vector.h:301-304 | `!=` holds exactly when the sizes differ or some element differs |
| `Comparison.LexicographicalCompareMeaning` | simple_vector.h:306-309 | the comparison loop is true exactly when there is a first decisive position where `lhs` is less or `lhs` ended first |
| `Comparison.Less` | simple_vector.h:306-309 | `<` is lexicographic order over the element order |
| `Comparison.Greater` | simple_vector.h:316-319 | `>` is `rhs` lexicographically less than `lhs` |
| `Comparison.LessOrEqual` | simple_vector.h:311-314 | `<=` holds exactly when `rhs` is not lexicographically less than `lhs` |
| `Comparison.GreaterOrEqual` | simple_vector.h:321-324 | `>=` holds exactly when `lhs` is not lexicographically less than `rhs` |
| `Comparison.LessIrreflexive` | simple_vector.h:306-309 | with an irreflexive element order no vector is less than itself |
| `Comparison.LessAsymmetric` | simple_vector.h:306-309 | with a strict partial element order `<` is asymmetric |
| `Comparison.LessTotal` | simple_vector.h:306-309 | with a total element order two different vectors are ordered one way |
| `Comparison.LessTransitive` | simple_vector.h:306-309 | with a strict total element order `<` is transitive |
| `Comparison.ProperPrefixIsLess` | simple_vector.h:306-309 | a proper prefix is less than the longer vector, for any element order |
| `Comparison.NotLessThanPrefix` | simple_vector.h:306-309 | with an irreflexive element order a vector is not less than its prefix |
| `Comparison.DerivedOperatorsConsistent` | simple_vector.h:294-324 | for a strict total order exactly one of `<`, `==`, `>` holds; `<=` is `<` or `==`; `>=` is `>` or `==`; `!=` negates `==` |
| `Comparison.AppendMakesGreater` | simple_vector.h:294-324 | appending to one of two equal vectors makes them unequal and the longer one greater |
| `Scenarios.AppendEraseInsert` | simple_vector.h:99-163 | from empty, appending 1, 2, 3 gives capacities 0, 1, 2, 4; erasing index 1 gives `[1, 3]`; inserting 9 at index 1 gives `[1, 9, 3]` |
| `Scenarios.ReserveWithSpareRoom` | simple_vector.h:229-236 | reserving 8 on `[7]` with capacity 4 gives `[7, 0, 0, 0]` and capacity 8 |
| `Scenarios.CopyAndMove` | simple_vector.h:48-61 | a copy of a one-element vector with capacity 10 has capacity 1; the moved-to vector has capacity 10 and the source capacity 0 |
| `Scenarios.AppendN` | simple_vector.h:99-102 | `n` appends to an empty vector leave capacity `CapacityAfterAppends(n)`, a power of two in `[n, 2n)` for `n >= 1` |
| `Scenarios.ResizeAfterClear` | simple_vector.h:206-227 | clearing a full vector of capacity 4 and resizing it to 2 gives two default elements and keeps capacity 4 |
| `Scenarios.AccessAtEnd` | simple_vector.h:184-192 | checked access at index `size` fails with the out-of-range error |
| `Scenarios.CompareAfterAppend` | simple_vector.h:294-324 | two vectors from the same list are equal; after appending to one they are unequal, it is greater, and the other is `<=` it |

## Left out

- Iterators are not modelled as pointers. `begin`/`end` return `nullptr` for an empty vector, and `cbegin`/`cend` index a possibly null buffer (simple_vector.h:240-280). Positions are indices, and the iterators that `Insert` and `Erase` return are the index they point at.
- The `const` overloads of `operator[]` and `At` (simple_vector.h:177-180, 195-198) are not modelled. Inside a `const` member `*this` is `const`, so each one calls itself and never returns.
- The rvalue overloads of `PushBack` and `Insert`, and the `std::move` calls inside `Reserve` and `Erase`, behave like copies for `int` values. A moved-from slot keeps its value in the model.
- Allocation failure and exception safety are not modelled. That includes the strong guarantee of copy-and-swap assignment.
- The buffer type `ArrayPtr` (array_ptr.h) is not part of this model. A new `ArrayPtr<Type>(n)` is a fresh array of `n` default values. A moved-from buffer is a fresh empty array rather than a null pointer.
- Machine widths are not modelled: the `int` narrowing of the index in `Insert` (simple_vector.h:123, 137) and the `size_t` overflow of `capacity * 2`. Sizes and capacities are unbounded naturals.
- The `&lhs == &rhs` short cut in `operator==` (simple_vector.h:296) is not modelled. It gives the same answer as comparing the elements.
- The `ReserveProxyObj` struct and the free `Reserve` factory (simple_vector.h:12-21) only carry a number. `WithReserved` takes that number directly.
- The element type is fixed to `int` with default `0`. Only the comparison operators are generic in their element type.
- SimpleVectors.SimpleVector.Get: requires a live index. The source does no check: an index in `[size, capacity)` reads a stale slot, and only an index at or past the capacity is out of bounds. The model admits only live indices.
- SimpleVectors.SimpleVector.Set: requires a live index, for the same reason as `Get`.
- SimpleVectors.SimpleVector.Resize: does not reproduce the write through the null pointer that the code makes on an empty vector with `0 < newSize <= capacity` (for example after `Clear()`, or from `WithReserved(4)`, then `Resize(2)`). The model fills from the buffer's first slot and gives the default elements promised by the comment at simple_vector.h:206; see "Findings".
- SimpleVectors.SimpleVector.At: returns the element's value. Writing through the reference that `At` returns is not modelled; `Set` covers writes through `operator[]`.
- SimpleVectors.SimpleVector.Insert and SimpleVectors.SimpleVector.Erase: require a position inside the vector. Any other position is undefined behaviour in the source.

## Findings

| source | as written | input that shows it | evidently intended | confidence | as-written member | corrected member |
|---|---|---|---|---|---|---|
| simple_vector.h:218 | `std::fill(begin() + size_, begin() + new_size, Type{})`, where `begin()` is `nullptr` for an empty vector (simple_vector.h:240-243) | a vector with size 0 and capacity 4 (after `Clear()`, or `WithReserved(4)`), then `Resize(2)`: the fill writes two elements through the null pointer | the new slots `[size, newSize)` of the buffer get the default value, so `Resize(2)` gives two default elements | not executed; follows from the two cited lines | `SimpleVectors.ResizeFillAsWritten` (shown by `SimpleVectors.ResizeAfterClearFillsThroughNull`) | `SimpleVectors.SimpleVector.Resize` (shown by `Scenarios.ResizeAfterClear`) |
