/** Sparse matrix-vector products over arbitrary operations: no law of `add` or `mul` is used. */
module Spmv {
  import opened Rows
  import opened Formats

  datatype Ops<!T> = Ops(zero: T, add: (T, T) -> T, mul: (T, T) -> T)

  /** Adds the terms of a row to `start`, in the order the row lists them. */
  function Fold<T>(ops: Ops<T>, x: seq<T>, row: seq<Cell<T>>, start: T): T
    requires ColumnsIn(row, |x|)
  {
    if row == [] then start
    else
      var c := row[|row| - 1];
      ops.add(Fold(ops, x, row[..|row| - 1], start), ops.mul(c.val, x[c.col]))
  }

  lemma FoldSnoc<T>(ops: Ops<T>, x: seq<T>, row: seq<Cell<T>>, c: Cell<T>, start: T)
    requires ColumnsIn(row, |x|) && 0 <= c.col < |x|
    ensures ColumnsIn(row + [c], |x|)
    ensures Fold(ops, x, row + [c], start) == ops.add(Fold(ops, x, row, start), ops.mul(c.val, x[c.col]))
  {
    assert (row + [c])[..|row|] == row;
  }

  lemma FoldNext<T>(ops: Ops<T>, x: seq<T>, row: seq<Cell<T>>, k: nat, start: T)
    requires ColumnsIn(row, |x|) && k < |row|
    ensures Fold(ops, x, row[..k + 1], start) ==
            ops.add(Fold(ops, x, row[..k], start), ops.mul(row[k].val, x[row[k].col]))
  {
    assert row[..k + 1][..k] == row[..k];
  }

  lemma {:induction false} FoldConcat<T>(ops: Ops<T>, x: seq<T>, a: seq<Cell<T>>, b: seq<Cell<T>>, start: T)
    requires ColumnsIn(a, |x|) && ColumnsIn(b, |x|)
    ensures ColumnsIn(a + b, |x|)
    ensures Fold(ops, x, a + b, start) == Fold(ops, x, b, Fold(ops, x, a, start))
  {
    if b == [] {
      assert a + b == a;
    } else {
      FoldConcat(ops, x, a, b[..|b| - 1], start);
      assert (a + b)[..|a + b| - 1] == a + b[..|b| - 1];
    }
  }

  /** The product of the matrix with these rows and the vector x. */
  function Product<T>(ops: Ops<T>, x: seq<T>, rows: RowList<T>): (y: seq<T>)
    requires AllColumnsIn(rows, |x|)
    ensures |y| == |rows|
  {
    seq(|rows|, i requires 0 <= i < |rows| => Fold(ops, x, rows[i], ops.zero))
  }

  /** One element of the product: zero, to which the row's terms are added one after the other. */
  lemma ProductIsOrderedSum<T>(ops: Ops<T>, x: seq<T>, rows: RowList<T>, i: nat) returns (t: seq<T>)
    requires AllColumnsIn(rows, |x|) && i < |rows|
    ensures |t| == |rows[i]| + 1 && t[0] == ops.zero && t[|rows[i]|] == Product(ops, x, rows)[i]
    ensures forall k :: 0 <= k < |rows[i]| ==>
              t[k + 1] == ops.add(t[k], ops.mul(rows[i][k].val, x[rows[i][k].col]))
  {
    var row := rows[i];
    t := seq(|row| + 1, k requires 0 <= k <= |row| => Fold(ops, x, row[..k], ops.zero));
    assert row[..|row|] == row;
    forall k | 0 <= k < |row|
      ensures t[k + 1] == ops.add(t[k], ops.mul(row[k].val, x[row[k].col]))
    {
      FoldNext(ops, x, row, k, ops.zero);
    }
  }

  /** One more slot of an ELL row: an entry adds its term, padding adds nothing. */
  lemma EllFoldStep<T>(ops: Ops<T>, x: seq<T>, e: Ell<T>, i: nat, n: nat, start: T)
    requires ValidEll(e) && i < e.nrow && n < e.maxRow && e.ncol == |x|
    ensures 0 <= EllInd(i, n, e.nrow) < |e.cells|
    ensures var c := e.cells[EllInd(i, n, e.nrow)];
            Fold(ops, x, EllRow(e, i, n + 1), start) ==
            if IsEntry(c, e.ncol) then ops.add(Fold(ops, x, EllRow(e, i, n), start), ops.mul(c.val, x[c.col]))
            else Fold(ops, x, EllRow(e, i, n), start)
  {
    EllIndBound(i, n, e.nrow, e.maxRow);
    var c := e.cells[EllInd(i, n, e.nrow)];
    assert EllRow(e, i, n) + [] == EllRow(e, i, n);
    if IsEntry(c, e.ncol) {
      FoldSnoc(ops, x, EllRow(e, i, n), c, start);
    }
  }

  /** After the first i entries, each row has had its own terms added, in order. */
  ghost predicate PartialProduct<T>(ops: Ops<T>, x: seq<T>, es: seq<Entry<T>>, base: seq<T>, i: nat, out: seq<T>)
    requires i <= |es| && ValidCoo(es, |base|, |x|)
  {
    |out| == |base| && forall r :: 0 <= r < |base| ==> out[r] == PartialRow(ops, x, es, base[r], i, r)
  }

  function PartialRow<T>(ops: Ops<T>, x: seq<T>, es: seq<Entry<T>>, start: T, i: nat, r: int): T
    requires i <= |es| && forall k :: 0 <= k < |es| ==> 0 <= es[k].col < |x|
  {
    CooRowColumns(es[..i], |x|, r);
    Fold(ops, x, CooRow(es[..i], r), start)
  }

  lemma PartialStart<T>(ops: Ops<T>, x: seq<T>, es: seq<Entry<T>>, base: seq<T>)
    requires ValidCoo(es, |base|, |x|)
    ensures PartialProduct(ops, x, es, base, 0, base)
  {
  }

  /** From zeros, the whole of the entries gives the product with their rows. */
  lemma PartialFromZero<T>(ops: Ops<T>, x: seq<T>, es: seq<Entry<T>>, base: seq<T>, out: seq<T>)
    requires ValidCoo(es, |base|, |x|) && PartialProduct(ops, x, es, base, |es|, out)
    requires forall r :: 0 <= r < |base| ==> base[r] == ops.zero
    ensures AllColumnsIn(CooRows(es, |base|), |x|) && out == Product(ops, x, CooRows(es, |base|))
  {
    assert es[..|es|] == es;
    CooRowsColumns(es, |base|, |x|);
  }

  /** On top of the ELL product, the COO part completes the product with the rows of the whole. */
  lemma PartialFromEll<T>(ops: Ops<T>, x: seq<T>, h: Hyb<T>, out: seq<T>)
    requires WellFormedHyb(h) && |x| == h.ell.ncol
    requires PartialProduct(ops, x, h.coo, Product(ops, x, EllRows(h.ell)), |h.coo|, out)
    ensures AllColumnsIn(HybRows(h), |x|) && out == Product(ops, x, HybRows(h))
  {
    assert h.coo[..|h.coo|] == h.coo;
    HybRowsColumns(h);
    forall r | 0 <= r < h.ell.nrow
      ensures out[r] == Product(ops, x, HybRows(h))[r]
    {
      CooRowColumns(h.coo, |x|, r);
      FoldConcat(ops, x, EllRow(h.ell, r, h.ell.maxRow), CooRow(h.coo, r), ops.zero);
    }
  }

  /** What the next entry adds to row r: its term if it is of that row, and nothing otherwise. */
  lemma PartialRowStep<T>(ops: Ops<T>, x: seq<T>, es: seq<Entry<T>>, start: T, i: nat, r: int)
    requires i < |es| && forall k :: 0 <= k < |es| ==> 0 <= es[k].col < |x|
    ensures var e, before := es[i], PartialRow(ops, x, es, start, i, r);
            PartialRow(ops, x, es, start, i + 1, r) ==
            if e.row == r then ops.add(before, ops.mul(e.val, x[e.col])) else before
  {
    var row := CooRow(es[..i], r);
    CooRowSnoc(es, i, r);
    CooRowColumns(es[..i], |x|, r);
    if es[i].row == r {
      FoldSnoc(ops, x, row, Cell(es[i].col, es[i].val), start);
    } else {
      assert row + [] == row;
    }
  }

  /** Adding the next entry's term to its row touches no other row. */
  lemma PartialStep<T>(ops: Ops<T>, x: seq<T>, es: seq<Entry<T>>, base: seq<T>, i: nat, out: seq<T>)
    requires i < |es| && ValidCoo(es, |base|, |x|) && PartialProduct(ops, x, es, base, i, out)
    ensures var e := es[i];
            PartialProduct(ops, x, es, base, i + 1, out[e.row := ops.add(out[e.row], ops.mul(e.val, x[e.col]))])
  {
    var e := es[i];
    var next := out[e.row := ops.add(out[e.row], ops.mul(e.val, x[e.col]))];
    forall r | 0 <= r < |base|
      ensures next[r] == PartialRow(ops, x, es, base[r], i + 1, r)
    {
      PartialRowStep(ops, x, es, base[r], i, r);
      assert out[r] == PartialRow(ops, x, es, base[r], i, r);
    }
  }

  /** One COO matrix, sorted or not, and the CSR, ELL and HYB matrices converted from it: the
      products of the four `multiply` loops are the same, term for term. */
  lemma ProductsAgree<T>(ops: Ops<T>, x: seq<T>, es: seq<Entry<T>>, nrow: nat, w: nat)
    requires ValidCoo(es, nrow, |x|)
    ensures AllColumnsIn(CooRows(es, nrow), |x|)
    ensures var c := CsrOfCoo(es, nrow, |x|);
            && ValidCsr(c)
            && var e, h := EllOf(CsrRows(c), |x|, ops.zero), HybOf(CsrRows(c), |x|, w, ops.zero);
            && ValidHyb(h)
            && AllColumnsIn(CsrRows(c), |x|) && AllColumnsIn(HybRows(h), |x|)
            && Product(ops, x, CooRows(es, nrow))
            == Product(ops, x, CsrRows(c))
            == Product(ops, x, EllRows(e))
            == Product(ops, x, HybRows(h))
  {
    var rows := CooRows(es, nrow);
    CooRowsColumns(es, nrow, |x|);
    RowsOfCsrOf(rows, |x|);
    EllOfKeepsRows(rows, |x|, ops.zero);
    HybOfKeepsRows(rows, |x|, w, ops.zero);
  }
}
