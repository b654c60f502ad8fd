# SparseMatrix in Dafny

A model of the `SparseMatrix` class of SparseMatrixC, with proofs about it. The class stores
the non-zero cells of an unbounded integer-indexed grid as a growable array of
`(row, col, value)` elements. The first `count` of its `capacity` slots are the stored cells,
in enumeration order.

- `sparse_spec.dfy`, module `SparseSpec`: the `Element` datatype and the stored cells as a
  `seq<Element>`. It defines what the operations do to that sequence: `SetSpec`, `Remove`,
  `Transposed` and `Cells`. It also defines the coordinate-to-value map the sequence stands
  for (`ToMap`, `Lookup`) and proves lemmas about map semantics, order, counts, the invariant
  and the transpose round trip.
- `sparse_matrix.dfy`, module `SparseMatrices`: class `SparseMatrix` with the fields
  `elements: array<Element>`, `capacity` and `count`. `Valid()` is the class invariant:
  coordinates are unique, no value is zero, `count <= capacity == elements.Length`. The class
  has the default, copy and move constructors (`constructor`, `Copy`, `Move`), copy assignment
  (`Assign`), `Set`, `Get`, `NonZeroCount`, `Resize`, `Transpose`, `Begin`/`End` and a
  range-loop client `Enumerate`. The module also holds the free function `Swap` and class
  `Iterator` (`Advance` is `operator++`, `Deref` is `operator*`, `Differs` is `operator!=`).
  Each mutating method's `ensures` ties the new `Contents()` (the live slots `elements[..count]`)
  to a `SparseSpec` function of the old contents. The `SparseSpec` lemmas then give the
  properties. `Set` is the source's inline code, except that its removal branch (the shifting
  loop) and its append branch (grow, then write) are the helper methods `RemoveAt` and `Append`.
- `demo.dfy`, module `Demo`: the driver program's calls, with its printed results stated as
  postconditions. It also has a set-then-clear scenario, a copy-independence client and a
  17-insert growth scenario.

Cell values are `real`; the model only ever compares a value with `0.0`. Coordinates are `int`,
because the class never does arithmetic on them.

A moved-from matrix has no storage and capacity 0 (SparseMatrix.h:78-80). A later `set` with a
non-zero value calls `resize(0)` and writes out of bounds, so `Set` requires
`capacity > 0 || value == 0.0`. `Move` ensures the source is empty with capacity 0, and that it
still satisfies `Valid()`.

## Model

| member | source | states |
|---|---|---|
| SparseSpec.IndexOf | SparseMatrix.h:98-99 | the search result is the first position holding (row, col), or the length when none does |
| SparseSpec.IndexOfStored | SparseMatrix.h:123-125 | with unique coordinates, searching for a stored element's coordinate finds that element and reads its value |
| SparseSpec.LookupIsMapGet | SparseMatrix.h:122-129 | reading a cell gives the mapped value, or 0 for a coordinate with no entry |
| SparseSpec.MapHasNoZeros | SparseMatrix.h:100-119 | in a well-formed matrix no coordinate maps to 0 |
| SparseSpec.CountIsMapSize | SparseMatrix.h:131-133 | with unique coordinates, the element count equals the number of mapped coordinates |
| SparseSpec.SetPreservesWellFormed | SparseMatrix.h:96-120 | set keeps coordinates pairwise distinct and stores no zero |
| SparseSpec.RemoveKeepsWellFormed | SparseMatrix.h:102-106 | stable removal keeps coordinates unique and values non-zero |
| SparseSpec.RemoveKeys | SparseMatrix.h:102-106 | removal drops exactly the removed coordinate from the stored coordinates |
| SparseSpec.RemoveMapping | SparseMatrix.h:102-106 | removal drops exactly the removed coordinate from the mapping |
| SparseSpec.OverwriteMapping | SparseMatrix.h:107-108 | overwriting a slot rebinds its coordinate to the new value and changes no other |
| SparseSpec.AppendMapping | SparseMatrix.h:114-118 | appending a cell with a new coordinate binds it and changes no other |
| SparseSpec.SetMapping | SparseMatrix.h:96-120 | after set the mapping is the old one without (row, col) when value is 0, and the old one with (row, col) bound to value otherwise |
| SparseSpec.GetAfterSet | SparseMatrix.h:96-129 | get after set returns the written value at its coordinate and the old value at every other coordinate |
| SparseSpec.SetCount | SparseMatrix.h:99-119 | setting 0 removes one element if the coordinate was stored and none otherwise; a non-zero value adds one only for a new coordinate |
| SparseSpec.RemoveIsStable | SparseMatrix.h:102-106 | earlier elements stay, later ones move down one in order, and the removed coordinate is gone |
| SparseSpec.SetOrder | SparseMatrix.h:96-120 | set removes the found slot, or overwrites only that slot's value, or appends at index count, or leaves the cells alone |
| SparseSpec.SetIdempotent | SparseMatrix.h:96-120 | two identical set calls give the same elements, in the same order, as one |
| SparseSpec.SetNewAppends | SparseMatrix.h:114-118 | setting a non-zero value at an unstored coordinate appends exactly that cell |
| SparseSpec.Transposed | SparseMatrix.h:140-148 | position i of the transpose holds element i with row and column exchanged |
| SparseSpec.TransposePreservesWellFormed | SparseMatrix.h:140-148 | the transpose has unique coordinates and no zero |
| SparseSpec.TransposeKeys | SparseMatrix.h:140-148 | the transpose stores (c, r) exactly when the original stores (r, c) |
| SparseSpec.TransposeMapping | SparseMatrix.h:140-148 | the transpose maps (c, r) to v exactly when the original maps (r, c) to v, and has as many entries |
| SparseSpec.TransposeLookup | SparseMatrix.h:140-148 | get(c, r) on the transpose equals get(r, c) on the original |
| SparseSpec.TransposeTwice | SparseMatrix.h:140-148 | transposing twice gives back the same elements in the same order |
| SparseSpec.TransposeTwiceMapping | SparseMatrix.h:140-148 | transposing twice gives back the same mapping |
| SparseSpec.Cells | SparseMatrix.h:45-48 | enumeration position i yields the coordinate and value of element i |
| SparseSpec.CellsAreTheMapping | SparseMatrix.h:131-137 | one enumeration yields exactly the mapped (coordinate, value) pairs, as many as there are entries |
| SparseMatrices.SparseMatrix.constructor | SparseMatrix.h:52-54 | a new matrix is empty, valid, with capacity 16 |
| SparseMatrices.SparseMatrix.Copy | SparseMatrix.h:62-71 | the copy has fresh storage, the source's capacity, and the source's elements in its order |
| SparseMatrices.SparseMatrix.Move | SparseMatrix.h:74-81 | the new matrix takes over the source's storage, capacity and elements; the source is left valid and empty, with capacity 0 and fresh zero-length storage |
| SparseMatrices.SparseMatrix.Assign | SparseMatrix.h:84-87 | after copy-and-swap assignment the matrix has fresh storage holding the source's elements and capacity |
| SparseMatrices.Swap | SparseMatrix.h:89-94 | storage, capacity and count of the two matrices are exchanged |
| SparseMatrices.SparseMatrix.Set | SparseMatrix.h:96-120 | the invariant is kept, the new elements are SetSpec of the old ones, the mapping is updated as a map, and storage doubles exactly when a new cell finds the array full |
| SparseMatrices.SparseMatrix.RemoveAt | SparseMatrix.h:102-106 | the shifting loop removes position i stably and decrements count, in the same array |
| SparseMatrices.SparseMatrix.Append | SparseMatrix.h:114-118 | the new cell goes at index count, after a doubling of capacity when count == capacity |
| SparseMatrices.SparseMatrix.Resize | SparseMatrix.h:158-166 | a fresh array of the requested capacity holds the same elements in the same order |
| SparseMatrices.SparseMatrix.Get | SparseMatrix.h:122-129 | the returned value is the mapped value, or 0 for a coordinate with no entry |
| SparseMatrices.SparseMatrix.NonZeroCount | SparseMatrix.h:131-133 | the count is the number of mapped coordinates and of stored elements |
| SparseMatrices.SparseMatrix.Begin | SparseMatrix.h:136 | a fresh iterator over this matrix at position 0 |
| SparseMatrices.SparseMatrix.End | SparseMatrix.h:137 | a fresh iterator over this matrix at position count |
| SparseMatrices.SparseMatrix.Enumerate | SparseMatrix.h:33-48 | a loop from begin() to end() visits positions 0 to count - 1 and yields exactly nonZeroCount() cells, in enumeration order |
| SparseMatrices.SparseMatrix.Transpose | SparseMatrix.h:140-148 | the result is a fresh valid matrix holding every element with row and column exchanged, in the same order; the receiver is not changed |
| SparseMatrices.Iterator.constructor | SparseMatrix.h:33-34 | a new iterator starts at 0, or at count for the end iterator |
| SparseMatrices.Iterator.Advance | SparseMatrix.h:36-39 | the cursor moves up by one only while below count, so it never passes count |
| SparseMatrices.Iterator.Deref | SparseMatrix.h:45-48 | the cell at the cursor: the coordinate and value of element `current` |
| SparseMatrices.Iterator.Differs | SparseMatrix.h:41-43 | two iterators differ exactly when their positions differ |
| Demo.BuildDiagonal | main.cpp:5-10 | three sets on a new matrix store the three diagonal cells, in that order |
| Demo.DriverScenario | main.cpp:12-24 | get(1,1) is 2, get(1,2) is 0, the count is 3, and iteration yields the three cells in insertion order |
| Demo.DriverTranspose | main.cpp:26-30 | on the transpose, get(1,1) is 2 and get(0,2) is 0 |
| Demo.SetThenClear | SparseMatrix.h:99-106 | storing then clearing one cell leaves count 0 and get 0 |
| Demo.CopyIsIndependent | SparseMatrix.h:62-71 | a set on a copy leaves the original's elements unchanged |
| Demo.OriginalIsIndependent | SparseMatrix.h:62-71 | a set on the original leaves a copy taken before it unchanged |
| Demo.GrowthScenario | SparseMatrix.h:114-118 | seventeen new cells double the capacity once, to 32, and keep every earlier cell's value and position |

## Left out

- Memory management is not modelled: `new`/`delete` of each `Element*`, `delete[]`, the destructor and `clear` (SparseMatrix.h:56-59, 151-156). Elements are values in a Dafny array, so leaks and double frees cannot be expressed.
- Values are `real` in the model, not IEEE `double`. NaN and signed zero are not modelled; only the test `value == 0.0` matters.
- Coordinates are unbounded `int`s, not 32-bit C++ `int`s. The class only stores and compares them, so the width makes no difference.
- `size_t` overflow of `capacity * 2`, and allocation failure during growth, are not modelled.
- SparseMatrices.SparseMatrix.Set: requires `capacity > 0 || value == 0.0`. Capacity 0 arises only from moved-from storage: the source of a move, a copy of it, or a matrix that received such storage through `Swap` or `Assign`. There `resize(0)` leaves no slot, and the write of a non-zero value goes out of bounds.
- The `nullptr` storage that a move leaves behind (SparseMatrix.h:78) is modelled as a fresh zero-length array. The model therefore does not capture a null dereference, only the absence of any slot.
- SparseMatrices.Iterator.Deref: requires `current < count`. The source dereferences without a check, which is undefined behaviour at or past the end.
- Move assignment: `operator=` takes its argument by value. `Assign` models the copy case (copy constructor, then swap); the move case is `Move` followed by `Swap`.
- `Element::operator==` (SparseMatrix.h:16-18) is never called by the class. The model compares coordinates through `Key`.
- Comparing iterators of different matrices with `operator!=` is not modelled; `Differs` compares positions only, as the source does.
- The driver's printing to standard output (main.cpp) is not modelled; its expected values are postconditions in `Demo`.
