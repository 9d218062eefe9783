/** The loops inside the conversions and products of the matrix classes, each on the arrays it
    reads and writes. */
module Loops {
  import opened Sequences
  import opened Rows
  import opened Formats
  import opened Spmv
  import opened Layout
  import opened RowOffsets
  import opened HybSplit

  /** The row loop of matrixcoo_cpu.cpp:488-490: each position gets the row whose offsets enclose it. */
  method LabelRows(offset: array<int>, row: array<int>, nrow: nat)
    requires offset.Length == nrow + 1 && row != offset
    requires forall i, j :: 0 <= i <= j <= nrow ==> 0 <= offset[i] <= offset[j] <= row.Length
    modifies row
    ensures forall k, i :: 0 <= i < nrow && offset[i] <= k < offset[i + 1] ==> row[k] == i
  {
    for i := 0 to nrow
      invariant forall k, r :: 0 <= r < i && offset[r] <= k < offset[r + 1] ==> row[k] == r
    {
      for j := offset[i] to offset[i + 1]
        invariant forall k, r :: 0 <= r < i && offset[r] <= k < offset[r + 1] ==> row[k] == r
        invariant forall k :: offset[i] <= k < j ==> row[k] == i
      {
        row[j] := i;
      }
    }
  }

  /** The two assignments that fill one slot. */
  method PutCell<T>(outCol: array<int>, outVal: array<T>, index: int, column: int, value: T)
    requires outCol.Length == outVal.Length && 0 <= index < outCol.Length && (outVal as object) != outCol
    modifies outCol, outVal
    ensures ZipCells(outCol[..], outVal[..]) == old(ZipCells(outCol[..], outVal[..]))[index := Cell(column, value)]
  {
    outVal[index] := value;
    outCol[index] := column;
  }

  /** The placing loop of matrixcsr_cpu.cpp:190-198; each offset serves as its row's cursor. */
  method PlaceEntries<T>(row: array<int>, col: array<int>, val: array<T>,
                         offset: array<int>, outCol: array<int>, outVal: array<T>, nrow: nat)
    requires row.Length == col.Length == val.Length == outCol.Length == outVal.Length
    requires offset != row && offset != col && outCol != row && outCol != col && outCol != offset
    requires outVal != val && (outVal as object) !in {row as object, col, offset, outCol}
    requires (val as object) !in {offset as object, outCol}
    requires InRange(row[..], nrow) && nrow <= offset.Length
    requires forall r :: 0 <= r < nrow ==> offset[r] == CountBelow(row[..], r)
    modifies offset, outCol, outVal
    ensures ZipCells(outCol[..], outVal[..]) == Flatten(CooRows(ZipEntries(row[..], col[..], val[..]), nrow))
    ensures forall r :: 0 <= r < nrow ==> offset[r] == CountBelow(row[..], r + 1)
  {
    ghost var es, rs := ZipEntries(row[..], col[..], val[..]), row[..];
    assert RowIndices(es) == rs;
    PlacedStart(ZipCells(outCol[..], outVal[..]), es, nrow);
    for i := 0 to row.Length
      invariant forall r :: 0 <= r < nrow ==> offset[r] == CountBelow(rs, r) + Count(rs[..i], r)
      invariant Placed(ZipCells(outCol[..], outVal[..]), es, nrow, i)
    {
      ghost var cells := ZipCells(outCol[..], outVal[..]);
      PlaceStep(cells, es, nrow, i);
      forall r | 0 <= r < nrow
        ensures Count(rs[..i + 1], r) == Count(rs[..i], r) + (if rs[i] == r then 1 else 0)
      {
        CountSnoc(rs, i, r);
      }
      assert es[i] == Entry(row[i], col[i], val[i]) && row[i] == rs[i];
      var r := row[i];
      var dest := offset[r];
      assert dest == Slot(rs, i);
      PutCell(outCol, outVal, dest, col[i], val[i]);
      offset[r] := offset[r] + 1;
    }
    PlacedAll(ZipCells(outCol[..], outVal[..]), es, nrow);
    assert rs[..row.Length] == rs;
    forall r | 0 <= r < nrow
      ensures offset[r] == CountBelow(rs, r + 1)
    {
      CountBelowStep(rs, r);
    }
  }

  /** matrixcsr_cpu.cpp:174-206.  The last two elements of `offset` may hold anything on entry; that
      the others must be zero is RowOffsets.OffsetsNeedZeros. */
  method CountingSort<T(0)>(row: array<int>, col: array<int>, val: array<T>, offset: array<int>, nrow: nat, ncol: nat,
                            ghost es: seq<Entry<T>>)
    returns (outCol: array<int>, outVal: array<T>)
    requires row.Length == col.Length == val.Length && offset.Length == nrow + 1
    requires offset !in {row, col} && (val as object) != offset
    requires es == ZipEntries(row[..], col[..], val[..]) && ValidCoo(es, nrow, ncol)
    requires forall r :: 0 <= r < nrow - 1 ==> offset[r] == 0
    modifies offset
    ensures fresh(outCol) && fresh(outVal) && (outVal as object) != outCol
    ensures outCol.Length == outVal.Length == row.Length
    ensures Csr(nrow, ncol, offset[..], ZipCells(outCol[..], outVal[..])) == CsrOfCoo(es, nrow, ncol)
  {
    assert RowIndices(es) == row[..];
    assert forall k :: 0 <= k < row.Length ==> es[k].row == row[k];
    outVal := new T[row.Length];
    outCol := new int[row.Length];
    StartOffsets(row, offset, nrow);
    PlaceEntries(row, col, val, offset, outCol, outVal, nrow);
    RestoreOffsets(row, offset, nrow);
    OffsetsAreLengths(es, nrow);
  }

  /** matrixell_cpu.cpp:143-149: the length of the longest row. */
  method LongestRow<T>(offset: array<int>, nrow: nat, ghost c: Csr<T>) returns (maxRow: nat)
    requires ValidCsr(c) && c.offset == offset[..] && c.nrow == nrow
    ensures maxRow == MaxLength(CsrRows(c))
  {
    ghost var rows := CsrRows(c);
    maxRow := 0;
    for i := 0 to nrow
      invariant maxRow == MaxLength(rows[..i])
    {
      MaxLengthSnoc(rows, i);
      assert c.offset[i] <= c.offset[i + 1] && |rows[i]| == c.offset[i + 1] - c.offset[i];
      var length := offset[i + 1] - offset[i];
      if length > maxRow {
        maxRow := length;
      }
    }
    assert rows[..nrow] == rows;
  }

  /** Row i of the ELL arrays: its cells lie at lo..hi of the CSR arrays, padding follows. */
  method FillEllRow<T>(lo: nat, hi: nat, col: array<int>, val: array<T>, outCol: array<int>, outVal: array<T>,
                       i: nat, nrow: nat, w: nat, zero: T, ghost rows: RowList<T>)
    requires i < nrow == |rows| && lo <= hi <= col.Length == val.Length && |rows[i]| <= w
    requires ZipCells(col[..], val[..])[lo..hi] == rows[i]
    requires outCol.Length == outVal.Length == w * nrow
    requires outCol != col && (outVal as object) !in {col as object, val, outCol} && (val as object) != outCol
    requires Filled(ZipCells(outCol[..], outVal[..]), EllCells(rows, w, Cell(ELL_PAD, zero)), nrow, i, 0)
    modifies outCol, outVal
    ensures Filled(ZipCells(outCol[..], outVal[..]), EllCells(rows, w, Cell(ELL_PAD, zero)), nrow, i + 1, 0)
  {
    ghost var pad := Cell(ELL_PAD, zero);
    ghost var goal := EllCells(rows, w, pad);
    var n := 0;
    for j := lo to hi
      invariant n == j - lo
      invariant Filled(ZipCells(outCol[..], outVal[..]), goal, nrow, i, n)
    {
      EllCellsAt(rows, w, pad, i, n);
      FillStep(ZipCells(outCol[..], outVal[..]), goal, nrow, i, n);
      assert rows[i][n] == ZipCells(col[..], val[..])[j];
      PutCell(outCol, outVal, EllInd(i, n, nrow), col[j], val[j]);
      n := n + 1;
    }
    for j := hi - lo to w
      invariant n == j
      invariant Filled(ZipCells(outCol[..], outVal[..]), goal, nrow, i, n)
    {
      EllCellsAt(rows, w, pad, i, n);
      FillStep(ZipCells(outCol[..], outVal[..]), goal, nrow, i, n);
      PutCell(outCol, outVal, EllInd(i, n, nrow), ELL_PAD, zero);
      n := n + 1;
    }
    FillRow(ZipCells(outCol[..], outVal[..]), goal, nrow, w, i);
  }

  /** matrixell_cpu.cpp:156-178: entries first, then padding, in column-major slots. */
  method FillEll<T>(offset: array<int>, col: array<int>, val: array<T>, outCol: array<int>, outVal: array<T>,
                    nrow: nat, w: nat, zero: T, ghost c: Csr<T>)
    requires ValidCsr(c) && c.offset == offset[..] && c.nrow == nrow > 0
    requires col.Length == val.Length && c.cells == ZipCells(col[..], val[..])
    requires outCol.Length == outVal.Length == w * nrow && w == MaxLength(CsrRows(c))
    requires outCol != offset && outCol != col && (outVal as object) !in {offset as object, col, val, outCol}
    requires (val as object) != outCol
    modifies outCol, outVal
    ensures ZipCells(outCol[..], outVal[..]) == EllCells(CsrRows(c), w, Cell(ELL_PAD, zero))
  {
    ghost var rows := CsrRows(c);
    ghost var goal := EllCells(rows, w, Cell(ELL_PAD, zero));
    FilledStart(ZipCells(outCol[..], outVal[..]), goal, nrow);
    MaxLengthBounds(rows);
    for i := 0 to nrow
      invariant Filled(ZipCells(outCol[..], outVal[..]), goal, nrow, i, 0)
    {
      assert c.offset[i] <= c.offset[i + 1] && rows[i] == c.cells[c.offset[i]..c.offset[i + 1]];
      FillEllRow(offset[i], offset[i + 1], col, val, outCol, outVal, i, nrow, w, zero, rows);
    }
    FilledAll(ZipCells(outCol[..], outVal[..]), goal, nrow, w);
  }

  /** The counting loop over one ELL row (matrixcsr_cpu.cpp:229-235, 325-331). */
  method CountEllRow<T>(ellCol: array<int>, offset: array<int>, i: nat, ghost e: Ell<T>, nrow: nat, ncol: nat,
                        maxRow: nat)
    requires ValidEll(e) && e.nrow == nrow && e.ncol == ncol && e.maxRow == maxRow && i < nrow
    requires ellCol.Length == |e.cells| && forall p :: 0 <= p < ellCol.Length ==> e.cells[p].col == ellCol[p]
    requires i < offset.Length && offset != ellCol
    modifies offset
    ensures offset[..] == old(offset[..])[i := old(offset[i]) + |EllRow(e, i, maxRow)|]
  {
    for n := 0 to maxRow
      invariant offset[..] == old(offset[..])[i := old(offset[i]) + |EllRow(e, i, n)|]
    {
      EllIndBound(i, n, nrow, maxRow);
      var aj := EllInd(i, n, nrow);
      if ellCol[aj] >= 0 && ellCol[aj] < ncol {
        offset[i] := offset[i] + 1;
      }
    }
  }

  /** The copying loop over one ELL row (matrixcsr_cpu.cpp:255-265, 364-374). */
  method CopyEllRow<T>(ellCol: array<int>, ellVal: array<T>, outCol: array<int>, outVal: array<T>, i: nat, start: int,
                       ghost e: Ell<T>, ghost rows: RowList<T>, nrow: nat, ncol: nat, maxRow: nat)
    returns (index: int)
    requires ValidEll(e) && e.nrow == nrow == |rows| && e.ncol == ncol && e.maxRow == maxRow && i < nrow
    requires ellCol.Length == ellVal.Length && e.cells == ZipCells(ellCol[..], ellVal[..])
    requires outCol.Length == outVal.Length == |Flatten(rows)|
    requires outCol != ellCol && (ellVal as object) != outCol
    requires (outVal as object) !in {ellCol as object, ellVal, outCol}
    requires EllRow(e, i, maxRow) <= rows[i] && start == |Flatten(rows[..i])|
    requires Appended(ZipCells(outCol[..], outVal[..]), rows, i, [])
    modifies outCol, outVal
    ensures Appended(ZipCells(outCol[..], outVal[..]), rows, i, EllRow(e, i, maxRow))
    ensures index == start + |EllRow(e, i, maxRow)|
  {
    index := start;
    for n := 0 to maxRow
      invariant index == start + |EllRow(e, i, n)|
      invariant Appended(ZipCells(outCol[..], outVal[..]), rows, i, EllRow(e, i, n))
    {
      EllIndBound(i, n, nrow, maxRow);
      var aj := EllInd(i, n, nrow);
      if ellCol[aj] >= 0 && ellCol[aj] < ncol {
        ghost var cells, part := ZipCells(outCol[..], outVal[..]), EllRow(e, i, n);
        assert e.cells[aj] == Cell(ellCol[aj], ellVal[aj]);
        EllRowMonotone(e, i, n + 1, maxRow);
        AppendRoom(rows, i, |part|);
        AppendCell(cells, rows, i, part, e.cells[aj]);
        PutCell(outCol, outVal, index, ellCol[aj], ellVal[aj]);
        index := index + 1;
      }
    }
  }

  /** The COO product loop (matrixcoo_cpu.cpp:468-469, matrixhyb_cpu.cpp:250-251): each entry adds
      its term to its row of `out`. */
  method AddEntries<T>(ops: Ops<T>, row: array<int>, col: array<int>, val: array<T>, input: array<T>, out: array<T>,
                       ghost es: seq<Entry<T>>)
    requires row.Length == col.Length == val.Length && es == ZipEntries(row[..], col[..], val[..])
    requires ValidCoo(es, out.Length, input.Length)
    requires out != input && out != val && (out as object) !in {row as object, col}
    modifies out
    ensures PartialProduct(ops, input[..], es, old(out[..]), |es|, out[..])
  {
    ghost var x, base := input[..], out[..];
    PartialStart(ops, x, es, base);
    for i := 0 to row.Length
      invariant PartialProduct(ops, x, es, base, i, out[..])
    {
      PartialStep(ops, x, es, base, i, out[..]);
      assert es[i] == Entry(row[i], col[i], val[i]);
      out[row[i]] := ops.add(out[row[i]], ops.mul(val[i], input[col[i]]));
    }
  }

  /** The product of one ELL row (matrixell_cpu.cpp:193-202, matrixhyb_cpu.cpp:235-244). */
  method EllRowSum<T>(ops: Ops<T>, ellCol: array<int>, ellVal: array<T>, input: array<T>, out: array<T>, i: nat,
                      ghost e: Ell<T>, nrow: nat, ncol: nat, maxRow: nat)
    requires ValidEll(e) && e.nrow == nrow && e.ncol == ncol && e.maxRow == maxRow && i < nrow
    requires ellCol.Length == ellVal.Length && e.cells == ZipCells(ellCol[..], ellVal[..])
    requires input.Length == ncol && i < out.Length
    requires out != input && out != ellVal && (out as object) != ellCol
    modifies out
    ensures out[..] == old(out[..])[i := Fold(ops, input[..], EllRow(e, i, maxRow), ops.zero)]
  {
    ghost var x, before := input[..], out[..];
    out[i] := ops.zero;
    for n := 0 to maxRow
      invariant out[i] == Fold(ops, x, EllRow(e, i, n), ops.zero)
      invariant forall r :: 0 <= r < out.Length && r != i ==> out[r] == before[r]
    {
      EllFoldStep(ops, x, e, i, n, ops.zero);
      var aj := EllInd(i, n, nrow);
      assert e.cells[aj] == Cell(ellCol[aj], ellVal[aj]);
      if ellCol[aj] >= 0 && ellCol[aj] < ncol {
        out[i] := ops.add(out[i], ops.mul(ellVal[aj], input[ellCol[aj]]));
      }
    }
  }

  /** matrixcsr_cpu.cpp:227-245: count the entries of each row on top of what `offset` holds, then sum. */
  method EllOffsets<T>(ellCol: array<int>, offset: array<int>, nrow: nat, ncol: nat, maxRow: nat, ghost e: Ell<T>)
    requires ValidEll(e) && e.nrow == nrow && e.ncol == ncol && e.maxRow == maxRow
    requires ellCol.Length == |e.cells| && forall p :: 0 <= p < ellCol.Length ==> e.cells[p].col == ellCol[p]
    requires offset.Length == nrow + 1 && offset != ellCol
    modifies offset
    ensures offset[..] == Prefix(Added(old(offset[..nrow]), Lengths(EllRows(e))))
  {
    ghost var initial, lens := offset[..nrow], Lengths(EllRows(e));
    for i := 0 to nrow
      invariant forall r :: 0 <= r < nrow ==> offset[r] == if r < i then initial[r] + lens[r] else initial[r]
    {
      assert lens[i] == |EllRow(e, i, maxRow)|;
      CountEllRow(ellCol, offset, i, e, nrow, ncol, maxRow);
    }
    assert offset[..nrow] == Added(initial, lens);
    SumOffsets(offset, nrow);
  }

  /** matrixcsr_cpu.cpp:247-266: copy the entries of each row to its offset. */
  method UnpackEll<T>(ellCol: array<int>, ellVal: array<T>, offset: array<int>, outCol: array<int>, outVal: array<T>,
                      nrow: nat, ncol: nat, maxRow: nat, ghost e: Ell<T>)
    requires ValidEll(e) && e.nrow == nrow && e.ncol == ncol && e.maxRow == maxRow
    requires ellCol.Length == ellVal.Length && e.cells == ZipCells(ellCol[..], ellVal[..])
    requires offset[..] == Prefix(Lengths(EllRows(e)))
    requires outCol.Length == outVal.Length == offset[nrow]
    requires outCol != ellCol && outCol != offset && (ellVal as object) != outCol
    requires (outVal as object) !in {offset as object, ellCol, ellVal, outCol}
    modifies outCol, outVal
    ensures ZipCells(outCol[..], outVal[..]) == Flatten(EllRows(e))
  {
    ghost var rows := EllRows(e);
    FlattenPrefix(rows, nrow);
    assert rows[..nrow] == rows;
    for i := 0 to nrow
      invariant Appended(ZipCells(outCol[..], outVal[..]), rows, i, [])
    {
      FlattenPrefix(rows, i);
      assert offset[i] == offset[..][i];
      var index := CopyEllRow(ellCol, ellVal, outCol, outVal, i, offset[i], e, rows, nrow, ncol, maxRow);
      AppendRow(ZipCells(outCol[..], outVal[..]), rows, i);
    }
  }

  // ---------------------------------------------------------------- HYB

  /** matrixhyb_cpu.cpp:140-147: how many cells do not fit the ELL part. */
  method CountSpills<T>(offset: array<int>, nrow: nat, w: nat, ghost c: Csr<T>) returns (spills: nat)
    requires ValidCsr(c) && c.offset == offset[..] && c.nrow == nrow
    ensures spills == |Tails(CsrRows(c), w)|
  {
    ghost var rows := CsrRows(c);
    ghost var lens := Lengths(TailParts(rows, w));
    spills := 0;
    for i := 0 to nrow
      invariant spills == Prefix(lens)[i]
    {
      assert c.offset[i] <= c.offset[i + 1] && |rows[i]| == c.offset[i + 1] - c.offset[i];
      PrefixStep(lens, i);
      var nnzPerRow := offset[i + 1] - offset[i];
      if nnzPerRow > w {
        spills := spills + (nnzPerRow - w);
      }
    }
    PrefixEnd(TailParts(rows, w));
  }

  /** Slot n of row i gets its cell. */
  method FillHybSlot<T>(outCol: array<int>, outVal: array<T>, column: int, value: T,
                        i: nat, n: nat, nrow: nat, w: nat, ghost pad: Cell<T>, ghost rows: RowList<T>)
    requires i < nrow == |rows| && n < w && n < |rows[i]| && rows[i][n] == Cell(column, value)
    requires outCol.Length == outVal.Length == w * nrow && (outVal as object) != outCol
    requires Filled(ZipCells(outCol[..], outVal[..]), EllCells(rows, w, pad), nrow, i, n)
    requires Untouched(ZipCells(outCol[..], outVal[..]), pad, nrow, i, n)
    modifies outCol, outVal
    ensures Filled(ZipCells(outCol[..], outVal[..]), EllCells(rows, w, pad), nrow, i, n + 1)
    ensures Untouched(ZipCells(outCol[..], outVal[..]), pad, nrow, i, n + 1)
  {
    EllCellsAt(rows, w, pad, i, n);
    FillStep(ZipCells(outCol[..], outVal[..]), EllCells(rows, w, pad), nrow, i, n);
    UntouchedStep(ZipCells(outCol[..], outVal[..]), pad, nrow, i, n, rows[i][n]);
    PutCell(outCol, outVal, EllInd(i, n, nrow), column, value);
  }

  /** matrixhyb_cpu.cpp:178-192: the ELL part of row i; returns what `nnzell[i]` gets.  `nnzcoo[i]` is
      not assigned when the row is empty. */
  method FillHybRow<T>(lo: nat, hi: nat, col: array<int>, val: array<T>, outCol: array<int>, outVal: array<T>,
                       nnzcoo: array<int>, i: nat, nrow: nat, w: nat, ghost pad: Cell<T>, ghost rows: RowList<T>)
    returns (n: nat)
    requires i < nrow == |rows| && lo <= hi <= col.Length == val.Length
    requires ZipCells(col[..], val[..])[lo..hi] == rows[i]
    requires outCol.Length == outVal.Length == w * nrow
    requires outCol != col && (outVal as object) !in {col as object, val, outCol} && (val as object) != outCol
    requires Filled(ZipCells(outCol[..], outVal[..]), EllCells(rows, w, pad), nrow, i, 0)
    requires Untouched(ZipCells(outCol[..], outVal[..]), pad, nrow, i, 0)
    requires nnzcoo.Length == nrow && nnzcoo !in {col, outCol} && (nnzcoo as object) !in {val as object, outVal}
    modifies outCol, outVal, nnzcoo
    ensures Filled(ZipCells(outCol[..], outVal[..]), EllCells(rows, w, pad), nrow, i + 1, 0)
    ensures Untouched(ZipCells(outCol[..], outVal[..]), pad, nrow, i + 1, 0)
    ensures n == EllCounts(rows, w)[i]
    ensures nnzcoo[..] == old(nnzcoo[..])[i := if |rows[i]| == 0 then old(nnzcoo[i]) else |Drop(rows[i], w)|]
  {
    ghost var goal := EllCells(rows, w, pad);
    n := 0;
    for j := lo to hi
      invariant n == j - lo <= w
      invariant nnzcoo[..] == old(nnzcoo[..])[i := if n == 0 then old(nnzcoo[i]) else 0]
      invariant Filled(ZipCells(outCol[..], outVal[..]), goal, nrow, i, n)
      invariant Untouched(ZipCells(outCol[..], outVal[..]), pad, nrow, i, n)
    {
      if n >= w {
        nnzcoo[i] := hi - j;
        break;
      }
      nnzcoo[i] := 0;
      assert rows[i][n] == ZipCells(col[..], val[..])[j];
      FillHybSlot(outCol, outVal, col[j], val[j], i, n, nrow, w, pad, rows);
      n := n + 1;
    }
    PaddedRow(ZipCells(outCol[..], outVal[..]), rows, w, pad, i, n);
  }

  /** matrixhyb_cpu.cpp:176-195: the ELL part, over slots that hold padding to begin with. */
  method FillHybEll<T>(offset: array<int>, col: array<int>, val: array<T>, outCol: array<int>, outVal: array<T>,
                       nnzell: array<int>, nnzcoo: array<int>, nrow: nat, w: nat, zero: T, ghost c: Csr<T>)
    requires ValidCsr(c) && c.offset == offset[..] && c.nrow == nrow > 0
    requires col.Length == val.Length && c.cells == ZipCells(col[..], val[..])
    requires outCol.Length == outVal.Length == w * nrow && nnzell.Length == nnzcoo.Length == nrow
    requires forall p :: 0 <= p < w * nrow ==> outCol[p] == HYB_PAD && outVal[p] == zero
    requires outCol !in {offset, col} && nnzell !in {offset, col, outCol} && nnzcoo !in {offset, col, outCol, nnzell}
    requires (outVal as object) !in {offset as object, col, val, outCol, nnzell, nnzcoo}
    requires (val as object) !in {outCol as object, nnzell, nnzcoo}
    modifies outCol, outVal, nnzell, nnzcoo
    ensures ZipCells(outCol[..], outVal[..]) == EllCells(CsrRows(c), w, Cell(HYB_PAD, zero))
    ensures nnzell[..] == EllCounts(CsrRows(c), w)
    ensures nnzcoo[..] == LeftCounts(CsrRows(c), w, old(nnzcoo[..]))
  {
    ghost var memory := nnzcoo[..];
    ghost var rows, pad := CsrRows(c), Cell(HYB_PAD, zero);
    ghost var goal := EllCells(rows, w, pad);
    FilledStart(ZipCells(outCol[..], outVal[..]), goal, nrow);
    for i := 0 to nrow
      invariant Filled(ZipCells(outCol[..], outVal[..]), goal, nrow, i, 0)
      invariant Untouched(ZipCells(outCol[..], outVal[..]), pad, nrow, i, 0)
      invariant forall r :: 0 <= r < i ==> nnzell[r] == EllCounts(rows, w)[r]
      invariant forall r :: 0 <= r < nrow ==> nnzcoo[r] == if r < i then LeftCounts(rows, w, memory)[r] else memory[r]
    {
      assert c.offset[i] <= c.offset[i + 1] && rows[i] == c.cells[c.offset[i]..c.offset[i + 1]];
      var n := FillHybRow(offset[i], offset[i + 1], col, val, outCol, outVal, nnzcoo, i, nrow, w, pad, rows);
      nnzell[i] := n;
    }
    FilledAll(ZipCells(outCol[..], outVal[..]), goal, nrow, w);
  }

  /** matrixhyb_cpu.cpp:197-198: inclusive prefix sums in place. */
  method SumInclusive(s: array<int>)
    modifies s
    ensures forall i :: 0 <= i < s.Length ==> s[i] == Prefix(old(s[..]))[i + 1]
  {
    ghost var z := s[..];
    if s.Length > 0 {
      PrefixStep(z, 0);
      for i := 1 to s.Length
        invariant forall k :: 0 <= k < i ==> s[k] == Prefix(z)[k + 1]
        invariant forall k :: i <= k < s.Length ==> s[k] == z[k]
      {
        PrefixStep(z, i);
        s[i] := s[i] + s[i - 1];
      }
    }
  }

  method PutEntry<T>(outRow: array<int>, outCol: array<int>, outVal: array<T>, k: int, row: int, column: int, value: T)
    requires outRow.Length == outCol.Length == outVal.Length && 0 <= k < outCol.Length
    requires outRow != outCol && (outVal as object) !in {outRow as object, outCol}
    modifies outRow, outCol, outVal
    ensures ZipEntries(outRow[..], outCol[..], outVal[..]) ==
            old(ZipEntries(outRow[..], outCol[..], outVal[..]))[k := Entry(row, column, value)]
  {
    outRow[k] := row;
    outCol[k] := column;
    outVal[k] := value;
  }

  /** The inner loop: position j of row i goes to slot j - shift. */
  method FillHybCooRow<T>(lo: int, hi: int, shift: int, col: array<int>, val: array<T>,
                          outRow: array<int>, outCol: array<int>, outVal: array<T>, i: nat, ghost cells: seq<Cell<T>>)
    requires col.Length == val.Length && cells == ZipCells(col[..], val[..])
    requires outRow.Length == outCol.Length == outVal.Length && PassFits(col.Length, outRow.Length, lo, hi, shift)
    requires outRow != col && outCol !in {col, outRow}
    requires (outVal as object) !in {col as object, val, outRow, outCol}
    requires (val as object) !in {outRow as object, outCol}
    modifies outRow, outCol, outVal
    ensures ZipEntries(outRow[..], outCol[..], outVal[..]) ==
            PassCopied(old(ZipEntries(outRow[..], outCol[..], outVal[..])), cells, i, lo, hi, shift)
  {
    ghost var before := ZipEntries(outRow[..], outCol[..], outVal[..]);
    var j := lo;
    while j < hi
      invariant lo <= j && (j <= hi || j == lo) && PassFits(col.Length, outRow.Length, lo, j, shift)
      invariant ZipEntries(outRow[..], outCol[..], outVal[..]) == PassCopied(before, cells, i, lo, j, shift)
    {
      PassStep(before, cells, i, lo, j, shift);
      assert cells[j] == Cell(col[j], val[j]);
      PutEntry(outRow, outCol, outVal, j - shift, i, col[j], val[j]);
      j := j + 1;
    }
  }

  /** matrixhyb_cpu.cpp:200-207: the last `nnzcoo[i]` positions of each row go to the slots
      `j - nnzell[i]`, whatever these counts are. */
  method FillHybCoo<T>(offset: array<int>, col: array<int>, val: array<T>, nnzell: array<int>, nnzcoo: array<int>,
                       outRow: array<int>, outCol: array<int>, outVal: array<T>, nrow: nat, ghost cells: seq<Cell<T>>)
    requires col.Length == val.Length && cells == ZipCells(col[..], val[..])
    requires nnzell.Length == nnzcoo.Length == nrow == offset.Length - 1
    requires outRow.Length == outCol.Length == outVal.Length
    requires CopiesFit(col.Length, outRow.Length, offset[..], nnzell[..], nnzcoo[..])
    requires outRow !in {offset, col, nnzell, nnzcoo} && outCol !in {offset, col, nnzell, nnzcoo, outRow}
    requires (outVal as object) !in {offset as object, col, val, nnzell, nnzcoo, outRow, outCol}
    requires (val as object) !in {outRow as object, outCol}
    modifies outRow, outCol, outVal
    ensures ZipEntries(outRow[..], outCol[..], outVal[..]) ==
            Copied(old(ZipEntries(outRow[..], outCol[..], outVal[..])), cells, offset[..], nnzell[..], nnzcoo[..], nrow)
  {
    ghost var before := ZipEntries(outRow[..], outCol[..], outVal[..]);
    ghost var o, e, s := offset[..], nnzell[..], nnzcoo[..];
    for i := 0 to nrow
      invariant ZipEntries(outRow[..], outCol[..], outVal[..]) == Copied(before, cells, o, e, s, i)
    {
      CopiedStep(before, cells, o, e, s, i);
      assert o[i + 1] == offset[i + 1] && e[i] == nnzell[i] && s[i] == nnzcoo[i];
      FillHybCooRow(offset[i + 1] - nnzcoo[i], offset[i + 1], nnzell[i], col, val, outRow, outCol, outVal, i, cells);
    }
  }

  /** The COO part of the split of c, for leftovers that keep the loop inside the arrays. */
  method FillHybCooOf<T>(offset: array<int>, col: array<int>, val: array<T>, nnzell: array<int>, nnzcoo: array<int>,
                         outRow: array<int>, outCol: array<int>, outVal: array<T>, nrow: nat,
                         ghost w: nat, ghost c: Csr<T>, ghost memory: seq<int>)
    requires ValidCsr(c) && c.offset == offset[..] && c.nrow == nrow == |memory|
    requires col.Length == val.Length && c.cells == ZipCells(col[..], val[..])
    requires nnzell[..] == EllSums(CsrRows(c), w) && nnzcoo[..] == LeftCounts(CsrRows(c), w, memory)
    requires LeftoversFit(CsrRows(c), w, memory)
    requires outRow.Length == outCol.Length == outVal.Length == |Tails(CsrRows(c), w)|
    requires outRow !in {offset, col, nnzell, nnzcoo} && outCol !in {offset, col, nnzell, nnzcoo, outRow}
    requires (outVal as object) !in {offset as object, col, val, nnzell, nnzcoo, outRow, outCol}
    requires (val as object) !in {outRow as object, outCol}
    modifies outRow, outCol, outVal
    ensures ZipEntries(outRow[..], outCol[..], outVal[..]) == SplitCoo(CsrRows(c), w, memory)
  {
    CsrOfRows(c);
    FitsExactly(CsrRows(c), w, memory);
    AnyBefore(ZipEntries(outRow[..], outCol[..], outVal[..]), CsrRows(c), w, memory);
    FillHybCoo(offset, col, val, nnzell, nnzcoo, outRow, outCol, outVal, nrow, c.cells);
  }

  /** matrixcsr_cpu.cpp:334-343: counts the COO entries of row i from the cursor on, and moves the
      cursor past them.  The cursor is always the number of COO entries in the rows already done. */
  method CountCooRow(cooRow: array<int>, offset: array<int>, i: nat, start: nat) returns (next: nat)
    requires Sorted(cooRow[..]) && start == CountBelow(cooRow[..], i)
    requires i < offset.Length && offset != cooRow
    modifies offset
    ensures next == CountBelow(cooRow[..], i + 1)
    ensures offset[..] == old(offset[..])[i := old(offset[i]) + (next - start)]
  {
    ghost var rs := cooRow[..];
    next := start;
    CountBelowMonotone(rs, i, i);
    for k := start to cooRow.Length
      invariant next == k
      invariant k == start || rs[k - 1] == i
      invariant offset[..] == old(offset[..])[i := old(offset[i]) + (k - start)]
    {
      SortedSlice(rs, k, i);
      assert cooRow[k] == rs[k] >= i;
      if cooRow[k] == i {
        offset[i] := offset[i] + 1;
        next := next + 1;
      }
      if cooRow[k] > i {
        break;
      }
    }
    if 0 < start {
      SortedSlice(rs, start - 1, i);
    }
    CutIsCountBelow(rs, next, i + 1);
  }

  /** matrixcsr_cpu.cpp:377-388: the same walk, copying the entries behind the row's ELL cells. */
  method CopyCooRow<T>(cooRow: array<int>, cooCol: array<int>, cooVal: array<T>, outCol: array<int>, outVal: array<T>,
                       i: nat, begin: int, start: nat, ghost es: seq<Entry<T>>, ghost rows: RowList<T>,
                       ghost part: seq<Cell<T>>)
    returns (next: nat, index: int)
    requires cooRow.Length == cooCol.Length == cooVal.Length && es == ZipEntries(cooRow[..], cooCol[..], cooVal[..])
    requires Sorted(RowIndices(es)) && start == CountBelow(RowIndices(es), i)
    requires i < |rows| && rows[i] == part + CooRow(es, i)
    requires outCol.Length == outVal.Length == |Flatten(rows)| && begin == |Flatten(rows[..i])| + |part|
    requires outCol !in {cooRow, cooCol} && (cooVal as object) != outCol
    requires (outVal as object) !in {cooRow as object, cooCol, cooVal, outCol}
    requires Appended(ZipCells(outCol[..], outVal[..]), rows, i, part)
    modifies outCol, outVal
    ensures next == CountBelow(RowIndices(es), i + 1)
    ensures Appended(ZipCells(outCol[..], outVal[..]), rows, i, rows[i])
    ensures index == |Flatten(rows[..i])| + |rows[i]|
  {
    ghost var stop := CountBelow(RowIndices(es), i + 1);
    ghost var own := CooRow(es, i);
    RowLength(es, i);
    next, index := start, begin;
    assert part + own[..0] == part;
    for k := start to cooRow.Length
      invariant next == k <= stop && index == begin + (k - start)
      invariant Appended(ZipCells(outCol[..], outVal[..]), rows, i, part + own[..k - start])
    {
      RowAtCursor(es, i, k);
      assert es[k] == Entry(cooRow[k], cooCol[k], cooVal[k]);
      if cooRow[k] == i {
        CopyStep(ZipCells(outCol[..], outVal[..]), rows, i, part, own, k - start);
        PutCell(outCol, outVal, index, cooCol[k], cooVal[k]);
        index := index + 1;
        next := next + 1;
      }
      if cooRow[k] > i {
        break;
      }
    }
    assert own[..|own|] == own;
  }

  /** One more cell of `own` behind `part`. */
  lemma CopyStep<T>(cells: seq<Cell<T>>, rows: RowList<T>, i: nat, part: seq<Cell<T>>, own: seq<Cell<T>>, m: nat)
    requires i < |rows| && rows[i] == part + own && m < |own| && |cells| == |Flatten(rows)|
    requires Appended(cells, rows, i, part + own[..m])
    ensures var k := |Flatten(rows[..i])| + |part| + m;
            k < |cells| && Appended(cells[k := own[m]], rows, i, part + own[..m + 1])
  {
    AppendRoom(rows, i, |part| + m);
    AppendCell(cells, rows, i, part + own[..m], own[m]);
    assert part + own[..m] + [own[m]] == part + own[..m + 1];
  }

  /** The body of the counting loop over the rows of a HYB matrix. */
  method CountHybRow<T>(ellCol: array<int>, cooRow: array<int>, offset: array<int>, i: nat, start: nat,
                        nrow: nat, ncol: nat, maxRow: nat, ghost h: Hyb<T>)
    returns (next: nat)
    requires ValidHyb(h) && h.ell.nrow == nrow && h.ell.ncol == ncol && h.ell.maxRow == maxRow && i < nrow
    requires ellCol.Length == |h.ell.cells| && forall p :: 0 <= p < ellCol.Length ==> h.ell.cells[p].col == ellCol[p]
    requires RowIndices(h.coo) == cooRow[..] && start == CountBelow(cooRow[..], i)
    requires i < offset.Length && offset != ellCol && offset != cooRow
    modifies offset
    ensures next == CountBelow(cooRow[..], i + 1)
    ensures offset[..] == old(offset[..])[i := old(offset[i]) + |HybRow(h, i)|]
  {
    CountEllRow(ellCol, offset, i, h.ell, nrow, ncol, maxRow);
    next := CountCooRow(cooRow, offset, i, start);
    RowLength(h.coo, i);
  }

  /** matrixcsr_cpu.cpp:320-353: count the ELL cells and the COO entries of each row on top of what
      `offset` holds, then sum. */
  method HybOffsets<T>(ellCol: array<int>, cooRow: array<int>, offset: array<int>, nrow: nat, ncol: nat, maxRow: nat,
                       ghost h: Hyb<T>)
    requires ValidHyb(h) && h.ell.nrow == nrow && h.ell.ncol == ncol && h.ell.maxRow == maxRow
    requires ellCol.Length == |h.ell.cells| && forall p :: 0 <= p < ellCol.Length ==> h.ell.cells[p].col == ellCol[p]
    requires RowIndices(h.coo) == cooRow[..]
    requires offset.Length == nrow + 1 && offset !in {ellCol, cooRow}
    modifies offset
    ensures offset[..] == Prefix(Added(old(offset[..nrow]), Lengths(HybRows(h))))
  {
    ghost var initial, lens := offset[..nrow], Lengths(HybRows(h));
    var start := 0;
    ghost var rs := cooRow[..];
    CountBelowEnds(rs, nrow);
    for i := 0 to nrow
      invariant start == CountBelow(rs, i)
      invariant forall r :: 0 <= r < nrow ==> offset[r] == if r < i then initial[r] + lens[r] else initial[r]
    {
      assert lens[i] == |HybRow(h, i)|;
      ghost var before := offset[..];
      start := CountHybRow(ellCol, cooRow, offset, i, start, nrow, ncol, maxRow, h);
      assert offset[..] == before[i := before[i] + lens[i]];
    }
    assert offset[..nrow] == Added(initial, lens);
    SumOffsets(offset, nrow);
  }

  /** matrixcsr_cpu.cpp:358-389: each row's ELL cells, then its COO entries. */
  method UnpackHyb<T>(ellCol: array<int>, ellVal: array<T>, cooRow: array<int>, cooCol: array<int>, cooVal: array<T>,
                      offset: array<int>, outCol: array<int>, outVal: array<T>,
                      nrow: nat, ncol: nat, maxRow: nat, ghost h: Hyb<T>)
    requires ValidHyb(h) && h.ell.nrow == nrow && h.ell.ncol == ncol && h.ell.maxRow == maxRow
    requires ellCol.Length == ellVal.Length && h.ell.cells == ZipCells(ellCol[..], ellVal[..])
    requires cooRow.Length == cooCol.Length == cooVal.Length && h.coo == ZipEntries(cooRow[..], cooCol[..], cooVal[..])
    requires offset[..] == Prefix(Lengths(HybRows(h)))
    requires outCol.Length == outVal.Length == offset[nrow]
    requires outCol !in {ellCol, cooRow, cooCol, offset} && (ellVal as object) != outCol && (cooVal as object) != outCol
    requires (outVal as object) !in {offset as object, ellCol, ellVal, cooRow, cooCol, cooVal, outCol}
    modifies outCol, outVal
    ensures ZipCells(outCol[..], outVal[..]) == Flatten(HybRows(h))
  {
    ghost var rows := HybRows(h);
    PrefixEnd(rows);
    assert RowIndices(h.coo) == cooRow[..];
    CountBelowEnds(cooRow[..], nrow);
    var start := 0;
    for i := 0 to nrow
      invariant start == CountBelow(RowIndices(h.coo), i)
      invariant Appended(ZipCells(outCol[..], outVal[..]), rows, i, [])
    {
      FlattenPrefix(rows, i);
      assert offset[i] == offset[..][i] && rows[i] == HybRow(h, i);
      ghost var part := EllRow(h.ell, i, maxRow);
      var index := CopyEllRow(ellCol, ellVal, outCol, outVal, i, offset[i], h.ell, rows, nrow, ncol, maxRow);
      start, index := CopyCooRow(cooRow, cooCol, cooVal, outCol, outVal, i, index, start, h.coo, rows, part);
      AppendRow(ZipCells(outCol[..], outVal[..]), rows, i);
    }
    assert rows[..nrow] == rows;
  }
}
