/** utils/matrix_utils.cpp. */
module MatrixUtils {
  import opened Sequences
  import opened Rows
  import opened RowOffsets
  import opened StableSort
  import opened Compression
  import opened Matrices
  import opened Vectors
  import G = Gather

  /** calculate_offsets.  `rowOffsets` need not be zero on entry: what the four loops make of any
      contents is stated, and RowOffsets.OffsetsNeedZeros says when that is the row offsets. */
  method CalculateOffsets<T(0)>(matrix: MatrixCOO<T>, rowOffsets: array<int>)
    requires matrix.Valid() && matrix.ncol > 0 && matrix.nrow > 0 && matrix.nnz > 0
    requires rowOffsets.Length == matrix.nrow + 1
    requires (rowOffsets as object) !in matrix.Repr()
    modifies rowOffsets
    ensures rowOffsets[..] == OffsetsFrom(old(rowOffsets[..]), RowIndices(matrix.Entries()), matrix.nrow)
    ensures rowOffsets[0] == 0
    ensures forall i :: 0 <= i < matrix.nrow ==>
              rowOffsets[i + 1] - rowOffsets[i] ==
              Count(RowIndices(matrix.Entries()), i) + (if i == 0 then 0 else old(rowOffsets[..])[i - 1])
  {
    ghost var initial := rowOffsets[..];
    ghost var es := matrix.Entries();
    assert RowIndices(es) == matrix.row[..];
    assert forall k :: 0 <= k < |es| ==> es[k].row == matrix.row[k];
    ComputeOffsets(matrix.row, rowOffsets, matrix.nrow);
    OffsetsFromSteps(initial, RowIndices(es), matrix.nrow);
    assert forall i :: 0 <= i <= matrix.nrow ==> rowOffsets[i] == rowOffsets[..][i];
  }

  /** calculate_row_lenghts. */
  method CalculateRowLengths(rowOffsets: array<int>, rowLengths: array<int>)
    requires rowLengths.Length < rowOffsets.Length && rowLengths != rowOffsets
    modifies rowLengths
    ensures forall i :: 0 <= i < rowLengths.Length ==> rowLengths[i] == rowOffsets[i + 1] - rowOffsets[i]
  {
    for i := 0 to rowLengths.Length
      invariant forall k :: 0 <= k < i ==> rowLengths[k] == rowOffsets[k + 1] - rowOffsets[k]
    {
      rowLengths[i] := rowOffsets[i + 1] - rowOffsets[i];
    }
  }

  /** From correct offsets, the lengths are the row counts. */
  lemma LengthsFromOffsets(rows: seq<int>, nrow: nat, lengths: seq<int>)
    requires |lengths| == nrow
    requires forall i :: 0 <= i < nrow ==> lengths[i] == Offsets(rows, nrow)[i + 1] - Offsets(rows, nrow)[i]
    ensures lengths == RowCounts(rows, nrow)
  {
    forall i | 0 <= i < nrow
      ensures lengths[i] == RowCounts(rows, nrow)[i]
    {
      CountBelowStep(rows, i);
      assert Offsets(rows, nrow)[i + 1] == CountBelow(rows, i + 1);
    }
  }

  /** The debug output of matrix_utils.cpp:86-87 reads the first five elements of the permutation;
      `fit` says whether there are that many, which operator[] asserts. */
  method DebugReads(permutation: array<int>) returns (fit: bool)
    ensures fit <==> permutation.Length >= 5
  {
    fit := true;
    for i := 0 to 5
      invariant fit <==> i <= permutation.Length
    {
      if i >= permutation.Length {
        fit := false;
      }
    }
  }

  /** matrix_utils.cpp:91-101: the order that sorting by column, last element excluded, produces. */
  method SortByColumn(j: array<int>, permutation: array<int>, temp: array<int>)
    requires j.Length == permutation.Length == temp.Length > 0 && temp != j && permutation !in {j, temp}
    requires forall k :: 0 <= k < permutation.Length ==> permutation[k] == k
    modifies permutation, temp
    ensures permutation[..] == SortPrefix(j[..], j.Length - 1)
  {
    Copy(j, temp);
    ThroughCounting(permutation[..], SortPrefix(j[..], j.Length - 1));
    StableSortByKey(temp, j.Length - 1, permutation);
  }

  /** Copies a vector and gathers it back through the permutation. */
  method Reorder(v: array<int>, permutation: array<int>, temp: array<int>)
    requires v.Length == permutation.Length == temp.Length && temp != v && permutation !in {v, temp}
    requires InRange(permutation[..], v.Length)
    modifies v, temp
    ensures v[..] == Through(old(v[..]), permutation[..])
  {
    Copy(v, temp);
    assert permutation[0..v.Length] == permutation[..];
    G.Gather(0, v.Length, temp, permutation, v);
  }

  /** matrix_utils.cpp:103-105: the rows in that order, sorted in their turn, last element excluded. */
  method SortByRow(i: array<int>, permutation: array<int>, temp: array<int>)
    requires i.Length == permutation.Length == temp.Length > 0 && temp != i && permutation !in {i, temp}
    requires InRange(permutation[..], i.Length)
    modifies i, permutation, temp
    ensures permutation[..] ==
            old(var rows, byCol := i[..], permutation[..];
                Through(byCol, SortPrefix(Through(rows, byCol), i.Length - 1)))
    ensures InRange(permutation[..], i.Length) && i[..] == Through(old(i[..]), permutation[..])
  {
    ghost var rows, byCol := i[..], permutation[..];
    Reorder(i, permutation, temp);
    ghost var byRow := SortPrefix(i[..], i.Length - 1);
    ThroughThrough(rows, byCol, byRow);
    StableSortByKey(i, i.Length - 1, permutation);
  }

  /** The reordering half of sort_by_row_and_column: both keys are moved by the permutation that
      sorting them, last element excluded, produces. */
  method SortKeys(i: array<int>, j: array<int>, permutation: array<int>)
    requires i.Length == j.Length == permutation.Length > 0 && i != j && permutation !in {i, j}
    requires forall k :: 0 <= k < permutation.Length ==> permutation[k] == k
    modifies i, j, permutation
    ensures permutation[..] == LexOrder(old(i[..]), old(j[..]), i.Length - 1)
    ensures i[..] == Through(old(i[..]), permutation[..])
    ensures j[..] == Through(old(j[..]), permutation[..])
  {
    var temp := new int[j.Length];
    SortByColumn(j, permutation, temp);
    SortByRow(i, permutation, temp);
    Reorder(j, permutation, temp);
  }

  /** sort_by_row_and_column.  `completes` says whether the debug output stays inside the vector, as
      its assertion demands; the sort itself is described for every length. */
  method SortByRowAndColumn(i: array<int>, j: array<int>, v: array<int>) returns (completes: bool)
    requires i.Length == j.Length == v.Length > 0 && i != j && i != v && j != v
    modifies i, j, v
    ensures completes <==> i.Length >= 5
    ensures ZipEntries(i[..], j[..], v[..]) == SortedEntries(old(ZipEntries(i[..], j[..], v[..])), i.Length - 1)
    ensures i[..] == Through(old(i[..]), LexOrder(old(i[..]), old(j[..]), i.Length - 1))
    ensures j[..] == Through(old(j[..]), LexOrder(old(i[..]), old(j[..]), i.Length - 1))
    ensures v[..] == Through(old(v[..]), LexOrder(old(i[..]), old(j[..]), i.Length - 1))
  {
    ghost var es := ZipEntries(i[..], j[..], v[..]);
    assert RowIndices(es) == i[..] && ColIndices(es) == j[..];
    var permutation := Counting(0, i.Length);
    completes := DebugReads(permutation);
    SortKeys(i, j, permutation);
    var temp := new int[v.Length];
    Reorder(v, permutation, temp);
  }

  /** calculate_NNZ: one more than the number of places where neighbouring keys differ. */
  method CalculateNnz(i: array<int>, j: array<int>, v: array<int>) returns (nnz: nat)
    requires i.Length == j.Length == v.Length > 0
    ensures nnz == |Reduce(ZipEntries(i[..], j[..], v[..]))|
  {
    ghost var es := ZipEntries(i[..], j[..], v[..]);
    var sum := 0;
    for k := 0 to i.Length - 1
      invariant sum == Changes(es[..k + 1])
    {
      assert es[..k + 2][..k + 1] == es[..k + 1];
      if i[k] != i[k + 1] || j[k] != j[k + 1] {
        sum := sum + 1;
      }
    }
    assert es[..i.Length] == es;
    ReduceLength(es);
    nnz := sum + 1;
  }
}
