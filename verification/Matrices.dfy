/** The CPU matrix classes: their conversions and their products, loop by loop. */
module Matrices {
  import opened Sequences
  import opened Rows
  import opened Formats
  import opened Spmv
  import opened Layout
  import opened RowOffsets
  import opened Vectors
  import opened Loops
  import opened HybSplit

  /** matrix/matrixcoo_cpu.cpp. */
  class MatrixCOO<T(0)> {
    var row: array<int>
    var col: array<int>
    var val: array<T>
    var nnz: nat
    var nrow: nat
    var ncol: nat

    ghost function Repr(): set<object>
      reads this
    {
      {this, row, col, val}
    }

    /** The arrays belong to this matrix and fit its size. */
    ghost predicate Allocated()
      reads this, row, col, val
    {
      && row.Length == col.Length == val.Length == nnz
      && row != col && (val as object) != row && (val as object) != col
    }

    ghost function Entries(): (es: seq<Entry<T>>)
      requires Allocated()
      reads this, row, col, val
      ensures |es| == nnz
    {
      ZipEntries(row[..], col[..], val[..])
    }

    ghost predicate Valid()
      reads this, row, col, val
    {
      Allocated() && ValidCoo(Entries(), nrow, ncol)
    }

    constructor ()
      ensures Allocated() && fresh(row) && fresh(col) && fresh(val)
      ensures Entries() == [] && nrow == 0 && ncol == 0
    {
      row := new int[0];
      col := new int[0];
      val := new T[0];
      nnz, nrow, ncol := 0, 0, 0;
    }

    /** allocate: new arrays, with arbitrary contents. */
    method Allocate(n: nat, rows: nat, cols: nat)
      modifies this
      ensures Allocated() && fresh(row) && fresh(col) && fresh(val)
      ensures nnz == n && nrow == rows && ncol == cols
    {
      row := new int[n];
      col := new int[n];
      val := new T[n];
      nnz, nrow, ncol := n, rows, cols;
    }

    /** resize: the arrays are replaced only when the number of entries changes; the new ones begin
        with the old entries, as many as fit. */
    method Resize(rows: nat, cols: nat, n: nat)
      requires Allocated()
      modifies this
      ensures Allocated() && nnz == n && nrow == rows && ncol == cols
      ensures if n == old(nnz) then row == old(row) && col == old(col) && val == old(val)
              else fresh(row) && fresh(col) && fresh(val)
      ensures Entries()[..Min(old(nnz), n)] == old(Entries())[..Min(old(nnz), n)]
    {
      ghost var m, es := Min(nnz, n), Entries();
      nrow, ncol := rows, cols;
      if nnz != n {
        var newVal := Resized(val, n);
        var newCol := Resized(col, n);
        var newRow := Resized(row, n);
        assert ZipEntries(newRow[..], newCol[..], newVal[..])[..m] == es[..m] by {
          EntriesPrefix(newRow[..], newCol[..], newVal[..], m);
          EntriesPrefix(row[..], col[..], val[..], m);
        }
        nnz := n;
        val, col, row := newVal, newCol, newRow;
      }
    }

    /** get_data from CSR. */
    method GetData(m: MatrixCSR<T>)
      requires m.Valid() && m.nrow > 0 && m.ncol > 0 && m.nnz > 0
      modifies this
      ensures Valid() && fresh(row) && fresh(col) && fresh(val)
      ensures nrow == m.nrow && ncol == m.ncol && nnz == m.nnz
      ensures Entries() == CooOfCsr(m.Value())
    {
      Allocate(m.nnz, m.nrow, m.ncol);
      ghost var c := m.Value();
      LabelRows(m.rowOffset, row, nrow);
      Copy(m.col, col);
      Copy(m.val, val);
      CooOfCsrIs(c, Entries());
    }

    /** multiply: the terms of all rows are added in entry order. */
    method Multiply(ops: Ops<T>, input: array<T>, out: array<T>)
      requires Valid() && input.Length == ncol && out.Length == nrow
      requires out != input && (out as object) !in Repr()
      modifies out
      ensures AllColumnsIn(CooRows(Entries(), nrow), ncol)
      ensures out[..] == Product(ops, input[..], CooRows(Entries(), nrow))
    {
      ghost var es, x := Entries(), input[..];
      Fill(out, ops.zero);
      ghost var zeros := out[..];
      AddEntries(ops, row, col, val, input, out, es);
      PartialFromZero(ops, x, es, zeros, out[..]);
    }
  }

  /** matrix/matrixcsr_cpu.cpp. */
  class MatrixCSR<T(0)> {
    var rowOffset: array<int>
    var col: array<int>
    var val: array<T>
    var nnz: nat
    var nrow: nat
    var ncol: nat

    ghost function Repr(): set<object>
      reads this
    {
      {this, rowOffset, col, val}
    }

    constructor ()
      ensures nnz == 0 && nrow == 0 && ncol == 0
    {
      rowOffset, col, val := new int[0], new int[0], new T[0];
      nnz, nrow, ncol := 0, 0, 0;
    }

    ghost function Value(): Csr<T>
      requires col.Length == val.Length
      reads this, rowOffset, col, val
    {
      Csr(nrow, ncol, rowOffset[..], ZipCells(col[..], val[..]))
    }

    ghost predicate Valid()
      reads this, rowOffset, col, val
    {
      && col.Length == val.Length == nnz
      && rowOffset != col && (val as object) != rowOffset && (val as object) != col
      && ValidCsr(Value())
    }

    /** get_data from COO: a stable counting sort by row.  `memory` is what the new row_offset array
        holds before anything is assigned to it; its last two elements do not matter. */
    method GetDataFromCoo(m: MatrixCOO<T>, memory: seq<int>)
      requires m.Valid() && m.nrow > 0 && m.ncol > 0 && m.nnz > 0
      requires |memory| == m.nrow + 1 && forall r :: 0 <= r < m.nrow - 1 ==> memory[r] == 0
      modifies this
      ensures Valid() && fresh(rowOffset) && fresh(col) && fresh(val)
      ensures Value() == CsrOfCoo(m.Entries(), m.nrow, m.ncol) && nnz == m.nnz
    {
      nnz, nrow, ncol := m.nnz, m.nrow, m.ncol;
      rowOffset := new int[nrow + 1](i requires 0 <= i < |memory| => memory[i]);
      col, val := CountingSort(m.row, m.col, m.val, rowOffset, nrow, ncol, m.Entries());
      CooRowsColumns(m.Entries(), nrow, ncol);
      CsrOfIsValid(CooRows(m.Entries(), nrow), ncol);
    }

    /** get_data from ELL: padding is dropped.  `memory` is as above; its last element does not matter. */
    method GetDataFromEll(m: MatrixELL<T>, memory: seq<int>)
      requires m.Valid() && m.nrow > 0 && m.ncol > 0 && m.nnz > 0
      requires |memory| == m.nrow + 1 && forall r :: 0 <= r < m.nrow ==> memory[r] == 0
      modifies this
      ensures Valid() && fresh(rowOffset) && fresh(col) && fresh(val)
      ensures Value() == CsrOf(EllRows(m.Value()), m.ncol)
    {
      var o := OffsetsOfEll(m, memory);
      PrefixEnd(EllRows(m.Value()));
      var k := new int[o[m.nrow]];
      var v := new T[o[m.nrow]];
      UnpackEll(m.col, m.val, o, k, v, m.nrow, m.ncol, m.maxRow, m.Value());
      Install(o, k, v, m.nrow, m.ncol, EllRows(m.Value()));
    }

    /** get_data from HYB: each row's ELL cells come before its COO entries.  `memory` is as above. */
    method GetDataFromHyb(m: MatrixHYB<T>, memory: seq<int>)
      requires m.Valid() && m.nrow > 0 && m.ncol > 0 && m.nnz > 0
      requires |memory| == m.nrow + 1 && forall r :: 0 <= r < m.nrow ==> memory[r] == 0
      modifies this
      ensures Valid() && fresh(rowOffset) && fresh(col) && fresh(val)
      ensures Value() == CsrOf(HybRows(m.Value()), m.ncol)
      ensures forall i :: 0 <= i < nrow ==>
                CsrRow(Value(), i) == EllRow(m.Value().ell, i, m.ellMaxRow) + CooRow(m.Value().coo, i)
    {
      HybRowsColumns(m.Value());
      var o, k, v := ArraysOfHyb(m, memory);
      Install(o, k, v, m.nrow, m.ncol, HybRows(m.Value()));
      HybRowParts(Value(), m.Value());
    }

    /** The field assignments. */
    method Install(o: array<int>, k: array<int>, v: array<T>, rowCount: nat, colCount: nat, ghost rows: RowList<T>)
      requires k.Length == v.Length && o != k && (v as object) != o && (v as object) != k
      requires |rows| == rowCount && AllColumnsIn(rows, colCount)
      requires o[..] == Prefix(Lengths(rows)) && ZipCells(k[..], v[..]) == Flatten(rows)
      modifies this
      ensures Valid() && Value() == CsrOf(rows, colCount) && rowOffset == o && col == k && val == v
      ensures CsrRows(Value()) == rows
    {
      nrow, ncol, nnz := rowCount, colCount, k.Length;
      rowOffset, col, val := o, k, v;
      RowsOfCsrOf(rows, colCount);
    }

    static method ArraysOfHyb(m: MatrixHYB<T>, memory: seq<int>) returns (o: array<int>, k: array<int>, v: array<T>)
      requires m.Valid() && |memory| == m.nrow + 1 && forall r :: 0 <= r < m.nrow ==> memory[r] == 0
      ensures fresh(o) && fresh(k) && fresh(v) && o != k && (v as object) != o && (v as object) != k
      ensures o[..] == Prefix(Lengths(HybRows(m.Value())))
      ensures k.Length == v.Length && ZipCells(k[..], v[..]) == Flatten(HybRows(m.Value()))
    {
      o := OffsetsOfHyb(m, memory);
      PrefixEnd(HybRows(m.Value()));
      var size := o[m.nrow];
      k := new int[size];
      v := new T[size];
      UnpackHyb(m.ellCol, m.ellVal, m.cooRow, m.cooCol, m.cooVal, o, k, v, m.nrow, m.ncol, m.ellMaxRow, m.Value());
    }

    /** A new row_offset array, and the offsets computed in it. */
    static method OffsetsOfEll(m: MatrixELL<T>, memory: seq<int>) returns (o: array<int>)
      requires m.Valid() && |memory| == m.nrow + 1 && forall r :: 0 <= r < m.nrow ==> memory[r] == 0
      ensures fresh(o) && o[..] == Prefix(Lengths(EllRows(m.Value())))
    {
      o := new int[m.nrow + 1](i requires 0 <= i < |memory| => memory[i]);
      SumsNeedZeros(o[..m.nrow], Lengths(EllRows(m.Value())));
      EllOffsets(m.col, o, m.nrow, m.ncol, m.maxRow, m.Value());
    }

    static method OffsetsOfHyb(m: MatrixHYB<T>, memory: seq<int>) returns (o: array<int>)
      requires m.Valid() && |memory| == m.nrow + 1 && forall r :: 0 <= r < m.nrow ==> memory[r] == 0
      ensures fresh(o) && o[..] == Prefix(Lengths(HybRows(m.Value())))
    {
      ghost var h := m.Value();
      assert RowIndices(h.coo) == m.cooRow[..];
      o := new int[m.nrow + 1](i requires 0 <= i < |memory| => memory[i]);
      SumsNeedZeros(o[..m.nrow], Lengths(HybRows(h)));
      HybOffsets(m.ellCol, m.cooRow, o, m.nrow, m.ncol, m.ellMaxRow, h);
    }

    /** save, to entries in memory. */
    method Save() returns (m: MatrixCOO<T>)
      requires Valid() && nrow > 0 && ncol > 0 && nnz > 0
      ensures fresh(m) && m.Valid() && m.nrow == nrow && m.ncol == ncol
      ensures m.Entries() == CooOfCsr(Value())
    {
      m := new MatrixCOO<T>();
      m.GetData(this);
    }

    /** The inner loop of multiply: the terms of row i, in order. */
    method RowSum(ops: Ops<T>, input: array<T>, i: nat) returns (sum: T)
      requires Valid() && input.Length == ncol && i < nrow
      ensures ColumnsIn(CsrRow(Value(), i), ncol)
      ensures sum == Fold(ops, input[..], CsrRow(Value(), i), ops.zero)
    {
      ghost var c := Value();
      ghost var r := CsrRow(c, i);
      assert c.offset[i] <= c.offset[i + 1];
      sum := ops.zero;
      for j := rowOffset[i] to rowOffset[i + 1]
        invariant sum == Fold(ops, input[..], r[..j - c.offset[i]], ops.zero)
      {
        FoldNext(ops, input[..], r, j - c.offset[i], ops.zero);
        assert r[j - c.offset[i]] == c.cells[j] == Cell(col[j], val[j]);
        sum := ops.add(sum, ops.mul(val[j], input[col[j]]));
      }
      assert r[..|r|] == r;
    }

    /** multiply: one row at a time. */
    method Multiply(ops: Ops<T>, input: array<T>, out: array<T>)
      requires Valid() && nrow > 0 && input.Length == ncol && out.Length == nrow
      requires out != input && (out as object) !in Repr()
      modifies out
      ensures AllColumnsIn(CsrRows(Value()), ncol)
      ensures out[..] == Product(ops, input[..], CsrRows(Value()))
    {
      Fill(out, ops.zero);
      CsrRowsColumns(Value());
      ghost var y := Product(ops, input[..], CsrRows(Value()));
      for i := 0 to nrow
        invariant forall r :: 0 <= r < i ==> out[r] == y[r]
      {
        out[i] := RowSum(ops, input, i);
      }
    }
  }

  lemma SizePositive(w: nat, nrow: nat)
    requires nrow > 0
    ensures w * nrow > 0 <==> w > 0
  {
  }

  /** matrix/matrixell_cpu.cpp. */
  class MatrixELL<T(0)> {
    var col: array<int>
    var val: array<T>
    var maxRow: nat
    var nnz: nat
    var nrow: nat
    var ncol: nat

    ghost function Repr(): set<object>
      reads this
    {
      {this, col, val}
    }

    constructor ()
      ensures Valid() && maxRow == 0 && nrow == 0 && ncol == 0
    {
      col := new int[0];
      val := new T[0];
      maxRow, nnz, nrow, ncol := 0, 0, 0, 0;
    }

    ghost function Value(): Ell<T>
      requires col.Length == val.Length
      reads this, col, val
    {
      Ell(nrow, ncol, maxRow, ZipCells(col[..], val[..]))
    }

    ghost predicate Valid()
      reads this, col, val
    {
      col.Length == val.Length == nnz && (val as object) != col && ValidEll(Value())
    }

    /** get_data from CSR. */
    method GetData(m: MatrixCSR<T>, zero: T)
      requires m.Valid() && m.nrow > 0 && m.ncol > 0 && m.nnz > 0
      modifies this
      ensures Valid() && fresh(col) && fresh(val)
      ensures Value() == EllOf(CsrRows(m.Value()), m.ncol, zero)
      ensures LeastWidth(CsrRows(m.Value()), maxRow)
      ensures StoredIn(CsrRows(m.Value()), Value(), Cell(-999, zero))
    {
      ghost var rows := CsrRows(m.Value());
      EllOfIs(rows, m.ncol, zero);
      var w, k, v := Pack(m, zero);
      Install(k, v, w, m.nrow, m.ncol, EllOf(rows, m.ncol, zero));
    }

    /** The arrays of get_data. */
    static method Pack(m: MatrixCSR<T>, zero: T) returns (w: nat, k: array<int>, v: array<T>)
      requires m.Valid() && m.nrow > 0
      ensures fresh(k) && fresh(v) && k.Length == v.Length && (v as object) != k
      ensures w == MaxLength(CsrRows(m.Value()))
      ensures ZipCells(k[..], v[..]) == EllCells(CsrRows(m.Value()), w, Cell(ELL_PAD, zero))
    {
      w := LongestRow(m.rowOffset, m.nrow, m.Value());
      MulMonotone(0, w, m.nrow);
      var size := w * m.nrow;
      v := new T[size];
      k := new int[size];
      FillEll(m.rowOffset, m.col, m.val, k, v, m.nrow, w, zero, m.Value());
    }

    /** The field assignments of allocate. */
    method Install(k: array<int>, v: array<T>, w: nat, rowCount: nat, colCount: nat, ghost e: Ell<T>)
      requires k.Length == v.Length && (v as object) != k && ValidEll(e)
      requires e == Ell(rowCount, colCount, w, ZipCells(k[..], v[..]))
      modifies this
      ensures Valid() && Value() == e && col == k && val == v && nrow == rowCount && ncol == colCount
    {
      maxRow, nnz, nrow, ncol := w, k.Length, rowCount, colCount;
      val := v;
      col := k;
    }

    /** load, from entries in memory: by way of CSR. */
    method Load(m: MatrixCOO<T>, zero: T)
      requires m.Valid() && m.nrow > 0 && m.ncol > 0 && m.nnz > 0
      modifies this
      ensures Valid() && fresh(col) && fresh(val)
      ensures Value() == EllOf(CooRows(old(m.Entries()), m.nrow), m.ncol, zero)
      ensures LeastWidth(CooRows(old(m.Entries()), m.nrow), maxRow)
      ensures StoredIn(CooRows(old(m.Entries()), m.nrow), Value(), Cell(-999, zero))
    {
      ghost var es := m.Entries();
      CooRowsColumns(es, m.nrow, m.ncol);
      RowsOfCsrOf(CooRows(es, m.nrow), m.ncol);
      var csr := new MatrixCSR<T>();
      csr.GetDataFromCoo(m, Constant(m.nrow + 1, 0));
      GetData(csr, zero);
    }

    /** save, to entries in memory: by way of CSR, which must not be empty. */
    method Save() returns (m: MatrixCOO<T>)
      requires Valid() && nrow > 0 && ncol > 0 && Flatten(EllRows(Value())) != []
      ensures fresh(m) && m.Valid() && m.nrow == nrow && m.ncol == ncol
      ensures m.Entries() == Tails(EllRows(Value()), 0)
    {
      SizePositive(maxRow, nrow);
      if maxRow == 0 {
        EllEmpty(Value());
      }
      RowsOfCsrOf(EllRows(Value()), ncol);
      var csr := new MatrixCSR<T>();
      csr.GetDataFromEll(this, Constant(nrow + 1, 0));
      m := csr.Save();
    }

    /** multiply: slot by slot along each row, padding skipped. */
    method Multiply(ops: Ops<T>, input: array<T>, out: array<T>)
      requires Valid() && input.Length == ncol && out.Length == nrow
      requires out != input && (out as object) !in Repr()
      modifies out
      ensures out[..] == Product(ops, input[..], EllRows(Value()))
    {
      ghost var y := Product(ops, input[..], EllRows(Value()));
      for i := 0 to nrow
        invariant forall r :: 0 <= r < i ==> out[r] == y[r]
      {
        EllRowSum(ops, col, val, input, out, i, Value(), nrow, ncol, maxRow);
      }
    }
  }

  /** Without slots there are no entries. */
  lemma EllEmpty<T>(e: Ell<T>)
    requires ValidEll(e) && e.maxRow == 0
    ensures Flatten(EllRows(e)) == []
  {
    FlattenLength(EllRows(e));
    SumOfZeros(Lengths(EllRows(e)));
  }

  /** matrix/matrixhyb_cpu.cpp. */
  class MatrixHYB<T(0)> {
    var ellCol: array<int>
    var ellVal: array<T>
    var ellMaxRow: nat
    var cooRow: array<int>
    var cooCol: array<int>
    var cooVal: array<T>
    var nnz: nat
    var nrow: nat
    var ncol: nat
    var ellNnz: nat
    var cooNnz: nat

    ghost function Repr(): set<object>
      reads this
    {
      {this, ellCol, ellVal, cooRow, cooCol, cooVal}
    }

    constructor ()
      ensures Allocated() && ellMaxRow == 0 && nnz == 0 && nrow == 0 && ncol == 0
    {
      ellCol, ellVal, cooRow, cooCol, cooVal := new int[0], new T[0], new int[0], new int[0], new T[0];
      ellMaxRow, nnz, nrow, ncol, ellNnz, cooNnz := 0, 0, 0, 0, 0, 0;
    }

    ghost predicate Allocated()
      reads this
    {
      && ellCol.Length == ellVal.Length == ellNnz
      && cooRow.Length == cooCol.Length == cooVal.Length == cooNnz
      && nnz == ellNnz + cooNnz
    }

    ghost function Value(): Hyb<T>
      requires Allocated()
      reads this, ellCol, ellVal, cooRow, cooCol, cooVal
    {
      Hyb(Ell(nrow, ncol, ellMaxRow, ZipCells(ellCol[..], ellVal[..])), ZipEntries(cooRow[..], cooCol[..], cooVal[..]))
    }

    ghost predicate WellFormed()
      reads this, ellCol, ellVal, cooRow, cooCol, cooVal
    {
      Allocated() && WellFormedHyb(Value())
    }

    ghost predicate Valid()
      reads this, ellCol, ellVal, cooRow, cooCol, cooVal
    {
      Allocated() && ValidHyb(Value())
    }

    /** get_data from CSR.  The ELL width is the one set before, or the average row length.  The
        source asserts that both parts are non-empty; `accepted` says whether those assertions hold.
        `memory` is what the new nnzcoo array holds before anything is assigned to it; for an empty row
        it must not send the copying loop out of bounds. */
    method GetData(m: MatrixCSR<T>, zero: T, memory: seq<int>) returns (accepted: bool)
      requires m.Valid() && m.nrow > 0 && m.ncol > 0 && m.nnz > 0 && |memory| == m.nrow
      requires MemoryFits(CsrRows(m.Value()), HybWidth(ellMaxRow, m.nnz, m.nrow), memory)
      modifies this
      ensures ellMaxRow == HybWidth(old(ellMaxRow), m.nnz, m.nrow)
      ensures old(ellMaxRow) > 0 ==> ellMaxRow == old(ellMaxRow)
      ensures old(ellMaxRow) == 0 ==> ellMaxRow * m.nrow <= m.nnz < (ellMaxRow + 1) * m.nrow
      ensures accepted <==> ellMaxRow > 0 && SomeRowLonger(old(CsrRows(m.Value())), ellMaxRow)
      ensures accepted ==> ellNnz > 0 && cooNnz > 0
      ensures accepted ==> Valid() && fresh(ellCol) && fresh(ellVal)
      ensures accepted ==> fresh(cooRow) && fresh(cooCol) && fresh(cooVal)
      ensures accepted ==> Value() == HybWritten(old(CsrRows(m.Value())), m.ncol, ellMaxRow, zero, memory)
      ensures accepted ==> StoredIn(old(CsrRows(m.Value())), Value().ell, Cell(-1, zero))
      ensures accepted && NoLeftover(old(CsrRows(m.Value())), memory) ==>
                Value() == HybOf(old(CsrRows(m.Value())), m.ncol, ellMaxRow, zero)
    {
      HybWidthIs(ellMaxRow, m.nnz, m.nrow);
      ellMaxRow := HybWidth(ellMaxRow, m.nnz, m.nrow);
      EllCellsStored(CsrRows(m.Value()), m.ncol, ellMaxRow, Cell(HYB_PAD, zero));
      accepted := Convert(m, zero, memory);
      CsrRowsColumns(m.Value());
      if accepted && NoLeftover(CsrRows(m.Value()), memory) {
        HybWrittenWhenClean(CsrRows(m.Value()), m.ncol, ellMaxRow, zero, memory);
      }
    }

    /** The rest of get_data, once the width is known. */
    method Convert(m: MatrixCSR<T>, zero: T, memory: seq<int>) returns (accepted: bool)
      requires m.Valid() && m.nrow > 0 && |memory| == m.nrow
      requires MemoryFits(CsrRows(m.Value()), ellMaxRow, memory)
      modifies this
      ensures ellMaxRow == old(ellMaxRow)
      ensures accepted <==> ellMaxRow > 0 && SomeRowLonger(old(CsrRows(m.Value())), ellMaxRow)
      ensures accepted ==> ellNnz > 0 && cooNnz > 0
      ensures accepted ==> Valid() && fresh(ellCol) && fresh(ellVal)
      ensures accepted ==> fresh(cooRow) && fresh(cooCol) && fresh(cooVal)
      ensures accepted ==> Value() == HybWritten(old(CsrRows(m.Value())), m.ncol, ellMaxRow, zero, memory)
    {
      ghost var rows := CsrRows(m.Value());
      var spills, size := Sizes(m, ellMaxRow);
      accepted := spills + size > 0 && size > 0 && spills > 0;
      if accepted {
        var ec, ev, r, k, v := Split(m, ellMaxRow, size, spills, zero, memory);
        CsrRowsColumns(m.Value());
        HybWrittenValid(rows, m.ncol, ellMaxRow, zero, memory);
        Install(ec, ev, r, k, v, m.nrow, m.ncol, HybWritten(rows, m.ncol, ellMaxRow, zero, memory));
      }
    }

    /** The field assignments of get_data. */
    method Install(ec: array<int>, ev: array<T>, r: array<int>, k: array<int>, v: array<T>,
                   rowCount: nat, colCount: nat, ghost h: Hyb<T>)
      requires ec.Length == ev.Length && r.Length == k.Length == v.Length && ValidHyb(h)
      requires h.ell == Ell(rowCount, colCount, ellMaxRow, ZipCells(ec[..], ev[..]))
      requires h.coo == ZipEntries(r[..], k[..], v[..])
      modifies this
      ensures ellCol == ec && ellVal == ev && cooRow == r && cooCol == k && cooVal == v
      ensures ellNnz == ec.Length && cooNnz == r.Length && ellMaxRow == old(ellMaxRow)
      ensures Valid() && Value() == h
    {
      ncol, nrow := colCount, rowCount;
      cooNnz, ellNnz, nnz := r.Length, ec.Length, r.Length + ec.Length;
      ellCol, ellVal, cooRow, cooCol, cooVal := ec, ev, r, k, v;
      assert Allocated() && Value() == Hyb(h.ell, h.coo);
    }

    static method Sizes(m: MatrixCSR<T>, w: nat) returns (spills: nat, size: nat)
      requires m.Valid() && m.nrow > 0
      ensures spills == |Tails(CsrRows(m.Value()), w)| && size == w * m.nrow
      ensures spills > 0 <==> SomeRowLonger(CsrRows(m.Value()), w)
      ensures size > 0 <==> w > 0
    {
      spills := CountSpills(m.rowOffset, m.nrow, w, m.Value());
      SpillsWhenLonger(CsrRows(m.Value()), w);
      size := w * m.nrow;
      SizePositive(w, m.nrow);
    }

    /** The two parts, on new arrays. */
    static method Split(m: MatrixCSR<T>, w: nat, ellSize: nat, cooSize: nat, zero: T, memory: seq<int>)
      returns (ellCol: array<int>, ellVal: array<T>, cooRow: array<int>, cooCol: array<int>, cooVal: array<T>)
      requires m.Valid() && m.nrow > 0
      requires ellSize == w * m.nrow && cooSize == |Tails(CsrRows(m.Value()), w)|
      requires |memory| == m.nrow && LeftoversFit(CsrRows(m.Value()), w, memory)
      ensures fresh(ellCol) && fresh(ellVal) && fresh(cooRow) && fresh(cooCol) && fresh(cooVal)
      ensures ellCol.Length == ellVal.Length == ellSize && cooRow.Length == cooCol.Length == cooVal.Length == cooSize
      ensures ZipCells(ellCol[..], ellVal[..]) == EllCells(CsrRows(m.Value()), w, Cell(HYB_PAD, zero))
      ensures ZipEntries(cooRow[..], cooCol[..], cooVal[..]) == SplitCoo(CsrRows(m.Value()), w, memory)
    {
      var nnzell, nnzcoo;
      ellCol, ellVal, nnzell, nnzcoo := EllPart(m, w, ellSize, zero, memory);
      cooRow, cooCol, cooVal := CooArrays(m, w, cooSize, nnzell, nnzcoo, memory);
    }

    static method EllPart(m: MatrixCSR<T>, w: nat, size: nat, zero: T, memory: seq<int>)
      returns (ellCol: array<int>, ellVal: array<T>, nnzell: array<int>, nnzcoo: array<int>)
      requires m.Valid() && m.nrow > 0 && size == w * m.nrow && |memory| == m.nrow
      ensures fresh(ellCol) && fresh(ellVal) && fresh(nnzell) && fresh(nnzcoo)
      ensures ellCol.Length == ellVal.Length == size
      ensures ZipCells(ellCol[..], ellVal[..]) == EllCells(CsrRows(m.Value()), w, Cell(HYB_PAD, zero))
      ensures nnzell[..] == EllSums(CsrRows(m.Value()), w) && nnzcoo[..] == LeftCounts(CsrRows(m.Value()), w, memory)
    {
      nnzcoo := new int[m.nrow](i requires 0 <= i < |memory| => memory[i]);
      assert nnzcoo[..] == memory;
      nnzell := new int[m.nrow];
      ellCol, ellVal := EllArrays(m, w, size, nnzell, nnzcoo, zero);
      SumInclusive(nnzell);
    }

    static method EllArrays(m: MatrixCSR<T>, w: nat, size: nat, nnzell: array<int>, nnzcoo: array<int>, zero: T)
      returns (ellCol: array<int>, ellVal: array<T>)
      requires m.Valid() && m.nrow > 0 && size == w * m.nrow && nnzell.Length == nnzcoo.Length == m.nrow
      requires nnzell != nnzcoo && {nnzell as object, nnzcoo} !! m.Repr()
      modifies nnzell, nnzcoo
      ensures fresh(ellCol) && fresh(ellVal) && ellCol.Length == ellVal.Length == size
      ensures ZipCells(ellCol[..], ellVal[..]) == EllCells(CsrRows(m.Value()), w, Cell(HYB_PAD, zero))
      ensures nnzell[..] == EllCounts(CsrRows(m.Value()), w)
      ensures nnzcoo[..] == LeftCounts(CsrRows(m.Value()), w, old(nnzcoo[..]))
    {
      ellVal := new T[size];
      ellCol := new int[size];
      Fill(ellVal, zero);
      Fill(ellCol, HYB_PAD);
      FillHybEll(m.rowOffset, m.col, m.val, ellCol, ellVal, nnzell, nnzcoo, m.nrow, w, zero, m.Value());
    }

    static method CooArrays(m: MatrixCSR<T>, w: nat, size: nat, nnzell: array<int>, nnzcoo: array<int>,
                            ghost memory: seq<int>)
      returns (cooRow: array<int>, cooCol: array<int>, cooVal: array<T>)
      requires m.Valid() && size == |Tails(CsrRows(m.Value()), w)| && |memory| == m.nrow
      requires nnzell[..] == EllSums(CsrRows(m.Value()), w) && nnzcoo[..] == LeftCounts(CsrRows(m.Value()), w, memory)
      requires LeftoversFit(CsrRows(m.Value()), w, memory)
      ensures fresh(cooRow) && fresh(cooCol) && fresh(cooVal)
      ensures cooRow.Length == cooCol.Length == cooVal.Length == size
      ensures ZipEntries(cooRow[..], cooCol[..], cooVal[..]) == SplitCoo(CsrRows(m.Value()), w, memory)
    {
      cooVal := new T[size];
      cooCol := new int[size];
      cooRow := new int[size];
      FillHybCooOf(m.rowOffset, m.col, m.val, nnzell, nnzcoo, cooRow, cooCol, cooVal, m.nrow, w, m.Value(),
                   memory);
    }

    /** load, from entries in memory: by way of CSR. */
    method Load(m: MatrixCOO<T>, zero: T, memory: seq<int>) returns (accepted: bool)
      requires m.Valid() && m.nrow > 0 && m.ncol > 0 && m.nnz > 0 && |memory| == m.nrow
      requires MemoryFits(CooRows(m.Entries(), m.nrow), HybWidth(ellMaxRow, m.nnz, m.nrow), memory)
      modifies this
      ensures ellMaxRow == HybWidth(old(ellMaxRow), m.nnz, m.nrow)
      ensures old(ellMaxRow) > 0 ==> ellMaxRow == old(ellMaxRow)
      ensures old(ellMaxRow) == 0 ==> ellMaxRow * m.nrow <= m.nnz < (ellMaxRow + 1) * m.nrow
      ensures accepted <==> ellMaxRow > 0 && SomeRowLonger(CooRows(old(m.Entries()), m.nrow), ellMaxRow)
      ensures accepted ==> ellNnz > 0 && cooNnz > 0
      ensures accepted ==> Valid() && fresh(ellCol) && fresh(ellVal)
      ensures accepted ==> fresh(cooRow) && fresh(cooCol) && fresh(cooVal)
      ensures accepted ==> Value() == HybWritten(CooRows(old(m.Entries()), m.nrow), m.ncol, ellMaxRow, zero, memory)
      ensures accepted ==> StoredIn(CooRows(old(m.Entries()), m.nrow), Value().ell, Cell(-1, zero))
      ensures accepted && NoLeftover(CooRows(old(m.Entries()), m.nrow), memory) ==>
                Value() == HybOf(CooRows(old(m.Entries()), m.nrow), m.ncol, ellMaxRow, zero)
    {
      ghost var es := m.Entries();
      CooRowsColumns(es, m.nrow, m.ncol);
      RowsOfCsrOf(CooRows(es, m.nrow), m.ncol);
      var csr := new MatrixCSR<T>();
      csr.GetDataFromCoo(m, Constant(m.nrow + 1, 0));
      accepted := GetData(csr, zero, memory);
    }

    /** save, to entries in memory: by way of CSR, which must not be empty. */
    method Save() returns (m: MatrixCOO<T>)
      requires Valid() && nrow > 0 && ncol > 0 && nnz > 0 && Flatten(HybRows(Value())) != []
      ensures fresh(m) && m.Valid() && m.nrow == nrow && m.ncol == ncol
      ensures m.Entries() == Tails(HybRows(Value()), 0)
    {
      HybRowsColumns(Value());
      RowsOfCsrOf(HybRows(Value()), ncol);
      var csr := new MatrixCSR<T>();
      csr.GetDataFromHyb(this, Constant(nrow + 1, 0));
      m := csr.Save();
    }

    /** multiply: the ELL part overwrites, the COO part adds to what is there; an empty matrix leaves
        everything as it is.  The COO part may be in any order. */
    method Multiply(ops: Ops<T>, input: array<T>, out: array<T>)
      requires WellFormed() && (nnz > 0 ==> input.Length == ncol && out.Length == nrow)
      requires out != input && (out as object) !in Repr()
      modifies out
      ensures AllColumnsIn(HybRows(Value()), ncol)
      ensures ellNnz > 0 ==> out[..] == Product(ops, input[..], HybRows(Value()))
      ensures ellNnz == 0 && cooNnz > 0 ==> PartialProduct(ops, input[..], Value().coo, old(out[..]), cooNnz, out[..])
      ensures nnz == 0 ==> out[..] == old(out[..])
    {
      ghost var h, x := Value(), input[..];
      HybRowsColumns(h);
      if nnz > 0 {
        if ellNnz > 0 {
          ghost var y := Product(ops, x, EllRows(h.ell));
          for i := 0 to nrow
            invariant forall r :: 0 <= r < i ==> out[r] == y[r]
          {
            EllRowSum(ops, ellCol, ellVal, input, out, i, h.ell, nrow, ncol, ellMaxRow);
          }
        }
        PartialStart(ops, x, h.coo, out[..]);
        if cooNnz > 0 {
          AddEntries(ops, cooRow, cooCol, cooVal, input, out, h.coo);
        }
        if ellNnz > 0 {
          PartialFromEll(ops, x, h, out[..]);
        }
      }
    }
  }
}
