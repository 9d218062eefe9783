/** One matrix in memory, loaded into each format and multiplied by the same vector.  All methods
    promise the same result, whatever `add` and `mul` are. */
module Agreement {
  import opened Sequences
  import opened Rows
  import opened Formats
  import opened Spmv
  import opened Layout
  import opened HybSplit
  import opened Matrices

  method ThroughCoo<T(0)>(ops: Ops<T>, m: MatrixCOO<T>, x: array<T>) returns (y: array<T>)
    requires m.Valid() && x.Length == m.ncol
    ensures fresh(y) && AllColumnsIn(CooRows(m.Entries(), m.nrow), m.ncol)
    ensures y[..] == Product(ops, x[..], CooRows(m.Entries(), m.nrow))
  {
    y := new T[m.nrow];
    m.Multiply(ops, x, y);
  }

  method ThroughCsr<T(0)>(ops: Ops<T>, m: MatrixCOO<T>, x: array<T>) returns (y: array<T>)
    requires m.Valid() && m.nrow > 0 && m.ncol > 0 && m.nnz > 0 && x.Length == m.ncol
    ensures fresh(y) && AllColumnsIn(CooRows(m.Entries(), m.nrow), m.ncol)
    ensures y[..] == Product(ops, x[..], CooRows(m.Entries(), m.nrow))
  {
    CooRowsColumns(m.Entries(), m.nrow, m.ncol);
    RowsOfCsrOf(CooRows(m.Entries(), m.nrow), m.ncol);
    var csr := new MatrixCSR<T>();
    csr.GetDataFromCoo(m, Constant(m.nrow + 1, 0));
    y := ApplyCsr(ops, csr, x, CooRows(m.Entries(), m.nrow));
  }

  method ApplyCsr<T(0)>(ops: Ops<T>, csr: MatrixCSR<T>, x: array<T>, ghost rows: RowList<T>) returns (y: array<T>)
    requires csr.Valid() && csr.nrow > 0 && x.Length == csr.ncol && AllColumnsIn(rows, csr.ncol)
    requires CsrRows(csr.Value()) == rows
    ensures fresh(y) && y[..] == Product(ops, x[..], rows)
  {
    y := new T[csr.nrow];
    csr.Multiply(ops, x, y);
  }

  method ThroughEll<T(0)>(ops: Ops<T>, m: MatrixCOO<T>, x: array<T>) returns (y: array<T>)
    requires m.Valid() && m.nrow > 0 && m.ncol > 0 && m.nnz > 0 && x.Length == m.ncol
    ensures fresh(y) && AllColumnsIn(CooRows(m.Entries(), m.nrow), m.ncol)
    ensures y[..] == Product(ops, x[..], CooRows(m.Entries(), m.nrow))
  {
    CooRowsColumns(m.Entries(), m.nrow, m.ncol);
    EllOfKeepsRows(CooRows(m.Entries(), m.nrow), m.ncol, ops.zero);
    var ell := new MatrixELL<T>();
    ell.Load(m, ops.zero);
    y := new T[ell.nrow];
    ell.Multiply(ops, x, y);
  }

  method ApplyHyb<T(0)>(ops: Ops<T>, hyb: MatrixHYB<T>, x: array<T>) returns (y: array<T>)
    requires hyb.WellFormed() && hyb.ellNnz > 0 && x.Length == hyb.ncol
    ensures fresh(y) && AllColumnsIn(HybRows(hyb.Value()), hyb.ncol)
    ensures y[..] == Product(ops, x[..], HybRows(hyb.Value()))
  {
    y := new T[hyb.nrow];
    hyb.Multiply(ops, x, y);
  }

  /** The ELL width is set beforehand; 0 stands for the average row length.  The product is that of the
      matrix in memory when no empty row has a positive leftover, and of the rows that were written
      instead otherwise. */
  method ThroughHyb<T(0)>(ops: Ops<T>, m: MatrixCOO<T>, x: array<T>, width: nat, memory: seq<int>,
                          ghost rows: RowList<T>)
    returns (accepted: bool, y: array<T>)
    requires m.Valid() && m.nrow > 0 && m.ncol > 0 && m.nnz > 0 && x.Length == m.ncol && |memory| == m.nrow
    requires rows == CooRows(m.Entries(), m.nrow) && MemoryFits(rows, HybWidth(width, m.nnz, m.nrow), memory)
    ensures AllColumnsIn(rows, m.ncol) && fresh(y)
    ensures var w := HybWidth(width, m.nnz, m.nrow);
            && (accepted <==> w > 0 && SomeRowLonger(rows, w))
            && (accepted ==>
                  var h := HybWritten(rows, m.ncol, w, ops.zero, memory);
                  ValidHyb(h) && AllColumnsIn(HybRows(h), m.ncol) && y[..] == Product(ops, x[..], HybRows(h)))
    ensures accepted && NoLeftover(rows, memory) ==> y[..] == Product(ops, x[..], rows)
  {
    CooRowsColumns(m.Entries(), m.nrow, m.ncol);
    var hyb := new MatrixHYB<T>();
    hyb.ellMaxRow := width;
    accepted := hyb.Load(m, ops.zero, memory);
    if accepted {
      if NoLeftover(rows, memory) {
        HybWrittenWhenClean(rows, m.ncol, hyb.ellMaxRow, ops.zero, memory);
      }
      y := ApplyHyb(ops, hyb, x);
    } else {
      y := new T[0];
    }
  }
}
