/**
 The sparse matrix container: a growable array of elements whose first `count`
 slots are the stored cells, in enumeration order, with the copy and move
 constructors, swap, copy assignment, transpose and an index-based iterator.
 */
module SparseMatrices {
  import opened SparseSpec

  /** Capacity of a default-constructed matrix. */
  const InitialCapacity: nat := 16

  class SparseMatrix {
    var elements: array<Element>
    var capacity: nat
    var count: nat

    /** The representation invariant: the live slots fit the array, hold unique
        coordinates and no zero value. */
    ghost predicate Valid()
      reads this, elements
    {
      capacity == elements.Length && count <= capacity && WellFormed(elements[..count])
    }

    /** The stored elements in enumeration order. */
    ghost function Contents(): seq<Element>
      reads this, elements
      requires count <= elements.Length
    {
      elements[..count]
    }

    /** The coordinate-to-value mapping the matrix represents. */
    ghost function Mapping(): map<Coord, real>
      reads this, elements
      requires count <= elements.Length
    {
      ToMap(Contents())
    }

    /** An empty matrix with the initial capacity. */
    constructor ()
      ensures Valid() && fresh(elements)
      ensures Contents() == [] && capacity == InitialCapacity
    {
      elements := new Element[InitialCapacity];
      capacity := InitialCapacity;
      count := 0;
    }

    /** The copy constructor: storage of the source's capacity, filled by one
        set per source element in the source's enumeration order. */
    constructor Copy(other: SparseMatrix)
      requires other.Valid()
      ensures Valid() && fresh(elements)
      ensures Contents() == other.Contents() && capacity == other.capacity
    {
      elements := new Element[other.capacity];
      capacity := other.capacity;
      count := 0;
      new;
      var i := 0;
      while i < other.count
        invariant 0 <= i <= other.count
        invariant Valid() && fresh(elements) && capacity == other.capacity
        invariant Contents() == other.Contents()[..i]
      {
        ghost var src := other.Contents();
        PrefixLacksLaterKey(src, i);
        SetNewAppends(src[..i], src[i]);
        assert src[..i + 1] == src[..i] + [src[i]];
        Set(other.elements[i].row, other.elements[i].col, other.elements[i].value);
        i := i + 1;
      }
      assert other.Contents()[..i] == other.Contents();
    }

    /** The move constructor: takes over the source's storage and leaves the
        source with no storage and no elements. */
    constructor Move(other: SparseMatrix)
      requires other.Valid()
      modifies other
      ensures Valid()
      ensures elements == old(other.elements) && capacity == old(other.capacity)
      ensures Contents() == old(other.Contents())
      ensures other.Valid() && fresh(other.elements)
      ensures other.Contents() == [] && other.capacity == 0
    {
      elements := other.elements;
      capacity := other.capacity;
      count := other.count;
      new;
      other.elements := new Element[0];
      other.capacity := 0;
      other.count := 0;
    }

    /** Copy assignment, written as copy-then-swap: this matrix ends up with fresh
        storage holding the source's elements. */
    method Assign(source: SparseMatrix)
      requires source.Valid()
      modifies this
      ensures Valid() && fresh(elements)
      ensures Contents() == old(source.Contents()) && capacity == old(source.capacity)
    {
      var copy := new SparseMatrix.Copy(source);
      Swap(this, copy);
    }

    /** Replaces the storage by a fresh array of the given capacity holding the
        same elements in the same order. */
    method Resize(newCapacity: nat)
      requires Valid() && count <= newCapacity
      modifies this
      ensures Valid() && fresh(elements)
      ensures capacity == newCapacity && count == old(count)
      ensures Contents() == old(Contents())
    {
      var newElements := new Element[newCapacity];
      var i := 0;
      while i < count
        modifies newElements
        invariant 0 <= i <= count <= newElements.Length
        invariant newElements[..i] == elements[..i]
      {
        newElements[i] := elements[i];
        i := i + 1;
      }
      elements := newElements;
      capacity := newCapacity;
    }

    /** set(row, col, value). A matrix with capacity 0 (storage taken by a move)
        can only take the zero value: for any other value resize(0) leaves no slot
        for the new cell. */
    method Set(row: int, col: int, value: real)
      requires Valid()
      requires capacity > 0 || value == 0.0
      modifies this, elements
      ensures Valid()
      ensures Contents() == SetSpec(old(Contents()), row, col, value)
      ensures Mapping() == MapSet(old(Mapping()), row, col, value)
      ensures if IndexOf(old(Contents()), row, col) == old(count) && value != 0.0 && old(count) == old(capacity)
              then fresh(elements) && capacity == 2 * old(capacity)
              else elements == old(elements) && capacity == old(capacity)
    {
      ghost var before := Contents();
      SetPreservesWellFormed(before, row, col, value);
      SetMapping(before, row, col, value);
      var i := 0;
      while i < count
        invariant 0 <= i <= count
        invariant elements == old(elements) && capacity == old(capacity) && count == old(count)
        invariant Contents() == before
        invariant forall k :: 0 <= k < i ==> Key(before[k]) != (row, col)
      {
        if elements[i].row == row && elements[i].col == col {
          IndexOfFirst(before, i, row, col);
          if value == 0.0 {
            RemoveAt(i);
          } else {
            elements[i] := elements[i].(value := value);
            assert Contents() == before[i := Element(row, col, value)];
          }
          return;
        }
        i := i + 1;
      }
      IndexOfFirst(before, i, row, col);
      if value != 0.0 {
        Append(Element(row, col, value));
      }
    }

    /** The removal branch of set: drops position i and shifts the later
        elements down by one slot, in order. */
    method RemoveAt(i: nat)
      requires Valid() && i < count
      modifies this, elements
      ensures elements == old(elements) && capacity == old(capacity)
      ensures count == old(count) - 1
      ensures Contents() == Remove(old(Contents()), i)
    {
      ghost var before := Contents();
      var j := i;
      while j < count - 1
        modifies elements
        invariant i <= j <= count - 1
        invariant forall k :: 0 <= k < i ==> elements[k] == before[k]
        invariant forall k :: i <= k < j ==> elements[k] == before[k + 1]
        invariant forall k :: j <= k < count ==> elements[k] == before[k]
      {
        elements[j] := elements[j + 1];
        j := j + 1;
      }
      count := count - 1;
      assert Contents() == Remove(before, i);
    }

    /** The append branch of set: doubles the capacity when the array is full,
        then writes the new element into slot `count`. */
    method Append(e: Element)
      requires Valid() && capacity > 0
      modifies this, elements
      ensures if old(count) == old(capacity)
              then fresh(elements) && capacity == 2 * old(capacity)
              else elements == old(elements) && capacity == old(capacity)
      ensures capacity == elements.Length && count == old(count) + 1 <= capacity
      ensures Contents() == old(Contents()) + [e]
    {
      if count == capacity {
        Resize(capacity * 2);
      }
      elements[count] := e;
      count := count + 1;
      assert Contents() == old(Contents()) + [e];
    }

    /** get(row, col): the mapped value, or 0 for a coordinate with no entry. */
    method Get(row: int, col: int) returns (value: real)
      requires Valid()
      ensures value == if (row, col) in Mapping() then Mapping()[(row, col)] else 0.0
    {
      LookupIsMapGet(Contents(), row, col);
      var i := 0;
      while i < count
        invariant 0 <= i <= count
        invariant forall k :: 0 <= k < i ==> Key(elements[k]) != (row, col)
      {
        if elements[i].row == row && elements[i].col == col {
          assert IndexOf(Contents(), row, col) == i;
          return elements[i].value;
        }
        i := i + 1;
      }
      return 0.0;
    }

    /** The number of entries: the size of the mapping. */
    function NonZeroCount(): (n: nat)
      reads this, elements
      requires Valid()
      ensures n == |Mapping()| && n == |Contents()|
    {
      CountIsMapSize(Contents());
      count
    }

    /** An iterator at the first stored element. */
    method Begin() returns (it: Iterator)
      requires Valid()
      ensures fresh(it) && it.matrix == this && it.current == 0
    {
      it := new Iterator(this, false);
    }

    /** An iterator one past the last stored element. */
    method End() returns (it: Iterator)
      requires Valid()
      ensures fresh(it) && it.matrix == this && it.current == count
    {
      it := new Iterator(this, true);
    }

    /** A range-based loop from Begin() to End(): collects what each step yields. */
    method Enumerate() returns (cells: seq<(Coord, real)>)
      requires Valid()
      ensures cells == Cells(Contents())
      ensures |cells| == NonZeroCount()
    {
      ghost var all := Cells(Contents());
      var it := Begin();
      var stop := End();
      cells := [];
      var more := it.Differs(stop);
      while more
        invariant fresh(it) && it.matrix == this && it.current <= count
        invariant stop.current == count
        invariant more == (it.current != count)
        invariant cells == all[..it.current]
        decreases count - it.current
      {
        var cell := it.Deref();
        assert all[..it.current + 1] == cells + [cell];
        cells := cells + [cell];
        it.Advance();
        more := it.Differs(stop);
      }
      assert all[..count] == all;
    }

    /** A new matrix holding (c, r, v) for every stored (r, c, v), built by one
        set per element in enumeration order; this matrix is left unchanged. */
    method Transpose() returns (result: SparseMatrix)
      requires Valid()
      ensures fresh(result) && fresh(result.elements) && result.Valid()
      ensures result.Contents() == Transposed(Contents())
    {
      result := new SparseMatrix();
      TransposePreservesWellFormed(Contents());
      var i := 0;
      while i < count
        invariant 0 <= i <= count
        invariant fresh(result) && fresh(result.elements)
        invariant result.Valid() && result.capacity > 0
        invariant result.Contents() == Transposed(Contents()[..i])
      {
        ghost var t := Transposed(Contents());
        assert Transposed(Contents()[..i]) == t[..i];
        PrefixLacksLaterKey(t, i);
        SetNewAppends(t[..i], t[i]);
        TransposedSnoc(Contents(), i);
        result.Set(elements[i].col, elements[i].row, elements[i].value);
        i := i + 1;
      }
      assert Contents()[..count] == Contents();
    }
  }

  /** swap(first, second): exchanges the storage, capacity and count of two matrices. */
  method Swap(first: SparseMatrix, second: SparseMatrix)
    modifies first, second
    ensures first.elements == old(second.elements) && second.elements == old(first.elements)
    ensures first.capacity == old(second.capacity) && second.capacity == old(first.capacity)
    ensures first.count == old(second.count) && second.count == old(first.count)
  {
    var e, n, c := first.elements, first.capacity, first.count;
    first.elements, first.capacity, first.count := second.elements, second.capacity, second.count;
    second.elements, second.capacity, second.count := e, n, c;
  }

  /** A cursor over the stored elements of one matrix, by position. */
  class Iterator {
    const matrix: SparseMatrix
    var current: nat

    /** Starts at position 0, or at the end (position `count`) when `atEnd` holds. */
    constructor (m: SparseMatrix, atEnd: bool)
      ensures matrix == m && current == if atEnd then m.count else 0
    {
      matrix := m;
      current := if atEnd then m.count else 0;
    }

    /** operator++: one step forward, never past the end. */
    method Advance()
      modifies this
      ensures current == if old(current) < matrix.count then old(current) + 1 else old(current)
      ensures old(current) <= matrix.count ==> current <= matrix.count
    {
      if current < matrix.count {
        current := current + 1;
      }
    }

    /** operator*: the coordinate and value of the element at the cursor. */
    method Deref() returns (cell: (Coord, real))
      requires matrix.Valid() && current < matrix.count
      ensures cell == Cells(matrix.Contents())[current]
    {

      var e := matrix.elements[current];
      cell := ((e.row, e.col), e.value);
    }

    /** operator!=: compares cursor positions only. */
    method Differs(other: Iterator) returns (b: bool)
      ensures b <==> current != other.current
    {
      b := current != other.current;
    }
  }
}
