/**
 The usage scenario of the repository's driver program, with its printed
 results stated as assertions instead of output.
 */
module Demo {
  import opened SparseSpec
  import opened SparseMatrices

  /** The three diagonal cells the driver stores, in insertion order. */
  method BuildDiagonal() returns (matrix: SparseMatrix)
    ensures fresh(matrix) && matrix.Valid() && matrix.capacity > 0
    ensures matrix.Contents() == [Element(0, 0, 1.0), Element(1, 1, 2.0), Element(2, 2, 3.0)]
  {
    matrix := new SparseMatrix();
    matrix.Set(0, 0, 1.0);
    assert matrix.Contents() == [Element(0, 0, 1.0)];
    matrix.Set(1, 1, 2.0);
    assert matrix.Contents() == [Element(0, 0, 1.0), Element(1, 1, 2.0)];
    matrix.Set(2, 2, 3.0);
  }

  /** The driver's reads, count and enumeration. */
  method DriverScenario() returns (v11: real, v12: real, n: nat, cells: seq<(Coord, real)>)
    ensures v11 == 2.0 && v12 == 0.0 && n == 3
    ensures cells == [((0, 0), 1.0), ((1, 1), 2.0), ((2, 2), 3.0)]
  {
    var matrix := BuildDiagonal();
    LookupIsMapGet(matrix.Contents(), 1, 1);
    LookupIsMapGet(matrix.Contents(), 1, 2);
    v11 := matrix.Get(1, 1);
    v12 := matrix.Get(1, 2);
    n := matrix.NonZeroCount();
    cells := matrix.Enumerate();
  }

  /** The driver's reads of the transpose: (1, 1) is on the diagonal, and (0, 2)
      mirrors (2, 0), which holds nothing. */
  method DriverTranspose() returns (t11: real, t02: real)
    ensures t11 == 2.0 && t02 == 0.0
  {
    var matrix := BuildDiagonal();
    var transposed := matrix.Transpose();
    TransposeLookup(matrix.Contents(), 1, 1);
    TransposeLookup(matrix.Contents(), 2, 0);
    LookupIsMapGet(transposed.Contents(), 1, 1);
    LookupIsMapGet(transposed.Contents(), 0, 2);
    t11 := transposed.Get(1, 1);
    t02 := transposed.Get(0, 2);
  }

  /** Setting a cell and then clearing it leaves an empty matrix. */
  method SetThenClear() returns (n: nat, v: real)
    ensures n == 0 && v == 0.0
  {
    var matrix := new SparseMatrix();
    matrix.Set(0, 0, 5.0);
    matrix.Set(0, 0, 0.0);
    n := matrix.NonZeroCount();
    v := matrix.Get(0, 0);
  }

  /** Mutating a copy leaves the original untouched. */
  method CopyIsIndependent(original: SparseMatrix, row: int, col: int, value: real)
    requires original.Valid() && (original.capacity > 0 || value == 0.0)
    ensures original.Contents() == old(original.Contents())
  {
    var copy := new SparseMatrix.Copy(original);
    copy.Set(row, col, value);
  }

  /** Mutating the original leaves a copy taken before untouched. */
  method OriginalIsIndependent(original: SparseMatrix, row: int, col: int, value: real)
    returns (copy: SparseMatrix)
    requires original.Valid() && (original.capacity > 0 || value == 0.0)
    modifies original, original.elements
    ensures fresh(copy) && copy.Valid() && copy.Contents() == old(original.Contents())
    ensures original.Valid() && original.Contents() == SetSpec(old(original.Contents()), row, col, value)
  {
    copy := new SparseMatrix.Copy(original);
    original.Set(row, col, value);
  }

  /** The cells (k, k) holding k + 1, for k below n. */
  function Diagonal(n: nat): seq<Element>
  {
    seq(n, k => Element(k, k, (k + 1) as real))
  }

  /** Seventeen distinct cells: the seventeenth finds the initial array full, doubles
      it, and every earlier cell keeps its value and its position. */
  method GrowthScenario() returns (matrix: SparseMatrix)
    ensures fresh(matrix) && matrix.Valid()
    ensures matrix.Contents() == Diagonal(17) && matrix.capacity == 2 * InitialCapacity
  {
    matrix := new SparseMatrix();
    var i := 0;
    while i < 17
      invariant 0 <= i <= 17
      invariant fresh(matrix) && fresh(matrix.elements) && matrix.Valid()
      invariant matrix.Contents() == Diagonal(i)
      invariant matrix.capacity == if i <= InitialCapacity then InitialCapacity else 2 * InitialCapacity
    {
      var e := Element(i, i, (i + 1) as real);
      assert Key(e) !in Keys(Diagonal(i));
      SetNewAppends(Diagonal(i), e);
      KeysAreFound(Diagonal(i), i, i);
      assert Diagonal(i) + [e] == Diagonal(i + 1);
      matrix.Set(i, i, (i + 1) as real);
      i := i + 1;
    }
  }
}
