/** The four storage formats as values, what each stores for a list of rows, and the theorems
    that no conversion changes a row. */
module Formats {
  import opened Sequences
  import opened Rows
  import opened StableSort

  /** matrix_types.h:59-68. */
  datatype Csr<T> = Csr(nrow: nat, ncol: nat, offset: seq<int>, cells: seq<Cell<T>>)

  /** matrix_types.h:87-96: the cell of row i in slot n is at n * nrow + i. */
  datatype Ell<T> = Ell(nrow: nat, ncol: nat, maxRow: nat, cells: seq<Cell<T>>)

  /** matrix_types.h:113-116. */
  datatype Hyb<T> = Hyb(ell: Ell<T>, coo: seq<Entry<T>>)

  predicate ColumnsIn<T>(row: seq<Cell<T>>, ncol: int)
  {
    forall k :: 0 <= k < |row| ==> 0 <= row[k].col < ncol
  }

  predicate AllColumnsIn<T>(rows: RowList<T>, ncol: int)
  {
    forall i :: 0 <= i < |rows| ==> ColumnsIn(rows[i], ncol)
  }

  predicate ValidCoo<T>(es: seq<Entry<T>>, nrow: int, ncol: int)
  {
    forall k :: 0 <= k < |es| ==> 0 <= es[k].row < nrow && 0 <= es[k].col < ncol
  }

  // ---------------------------------------------------------------- CSR

  lemma SliceElement<U>(s: seq<U>, offset: seq<int>, i: nat, part: seq<U>, k: int)
    requires i + 1 < |offset| && SliceIs(s, offset, i, part) && offset[i] <= k < offset[i + 1]
    ensures 0 <= k < |s| && 0 <= k - offset[i] < |part| && s[k] == part[k - offset[i]]
  {
  }

  ghost predicate ValidCsr<T>(c: Csr<T>)
  {
    && |c.offset| == c.nrow + 1
    && c.offset[0] == 0 && c.offset[c.nrow] == |c.cells|
    && (forall i, j :: 0 <= i <= j <= c.nrow ==> 0 <= c.offset[i] <= c.offset[j] <= |c.cells|)
    && ColumnsIn(c.cells, c.ncol)
  }

  function CsrRow<T>(c: Csr<T>, i: nat): seq<Cell<T>>
    requires ValidCsr(c) && i < c.nrow
  {
    c.cells[c.offset[i]..c.offset[i + 1]]
  }

  function CsrRows<T>(c: Csr<T>): (rows: RowList<T>)
    requires ValidCsr(c)
    ensures |rows| == c.nrow
  {
    seq(c.nrow, i requires 0 <= i < c.nrow => CsrRow(c, i))
  }

  /** The CSR matrix with the given rows. */
  function CsrOf<T>(rows: RowList<T>, ncol: nat): Csr<T>
  {
    Csr(|rows|, ncol, Prefix(Lengths(rows)), Flatten(rows))
  }

  lemma {:induction false} FlattenColumns<T>(rows: RowList<T>, ncol: int)
    requires AllColumnsIn(rows, ncol)
    ensures ColumnsIn(Flatten(rows), ncol)
  {
    if rows != [] {
      FlattenColumns(rows[..|rows| - 1], ncol);
    }
  }

  lemma CsrOfIsValid<T>(rows: RowList<T>, ncol: nat)
    requires AllColumnsIn(rows, ncol)
    ensures ValidCsr(CsrOf(rows, ncol))
  {
    var c := CsrOf(rows, ncol);
    FlattenLength(rows);
    FlattenColumns(rows, ncol);
    assert Lengths(rows)[..|rows|] == Lengths(rows);
    forall i, j | 0 <= i <= j <= c.nrow
      ensures 0 <= c.offset[i] <= c.offset[j] <= |c.cells|
    {
      PrefixMonotone(Lengths(rows), i, j);
      PrefixMonotone(Lengths(rows), j, |rows|);
    }
  }

  /** Building a CSR matrix from rows loses none of them. */
  lemma RowsOfCsrOf<T>(rows: RowList<T>, ncol: nat)
    requires AllColumnsIn(rows, ncol)
    ensures ValidCsr(CsrOf(rows, ncol)) && CsrRows(CsrOf(rows, ncol)) == rows
  {
    CsrOfIsValid(rows, ncol);
    forall i | 0 <= i < |rows|
      ensures CsrRows(CsrOf(rows, ncol))[i] == rows[i]
    {
      FlattenSlice(rows, i);
    }
  }

  /** The offsets of a valid CSR matrix are the prefix sums of its row lengths. */
  lemma {:induction false} CsrOffsets<T>(c: Csr<T>, i: nat)
    requires ValidCsr(c) && i <= c.nrow
    ensures Prefix(Lengths(CsrRows(c)))[i] == c.offset[i]
  {
    if i > 0 {
      CsrOffsets(c, i - 1);
      PrefixStep(Lengths(CsrRows(c)), i - 1);
    }
  }

  lemma CsrRowsColumns<T>(c: Csr<T>)
    requires ValidCsr(c)
    ensures AllColumnsIn(CsrRows(c), c.ncol)
  {
  }

  /** A valid CSR matrix is determined by its rows. */
  lemma CsrOfRows<T>(c: Csr<T>)
    requires ValidCsr(c)
    ensures CsrOf(CsrRows(c), c.ncol) == c
  {
    var rows := CsrRows(c);
    forall i | 0 <= i <= c.nrow
      ensures Prefix(Lengths(rows))[i] == c.offset[i]
    {
      CsrOffsets(c, i);
    }
    assert Prefix(Lengths(rows)) == c.offset;
    CellsAreFlattened(c);
  }

  lemma CellsAreFlattened<T>(c: Csr<T>)
    requires ValidCsr(c) && Prefix(Lengths(CsrRows(c))) == c.offset
    ensures Flatten(CsrRows(c)) == c.cells
  {
    var rows := CsrRows(c);
    forall i | 0 <= i < c.nrow
      ensures SliceIs(c.cells, c.offset, i, rows[i])
    {
      assert c.offset[i] <= c.offset[i + 1];
    }
    SlicesDetermine(rows, c.cells, c.nrow);
    assert rows[..c.nrow] == rows && c.cells[..|c.cells|] == c.cells;
  }

  // ---------------------------------------------------------------- COO

  lemma {:induction false} CooRowColumns<T>(es: seq<Entry<T>>, ncol: int, i: int)
    requires forall k :: 0 <= k < |es| ==> 0 <= es[k].col < ncol
    ensures ColumnsIn(CooRow(es, i), ncol)
  {
    if es != [] {
      CooRowColumns(es[..|es| - 1], ncol, i);
    }
  }

  lemma CooRowsColumns<T>(es: seq<Entry<T>>, nrow: nat, ncol: int)
    requires ValidCoo(es, nrow, ncol)
    ensures AllColumnsIn(CooRows(es, nrow), ncol)
  {
    forall i | 0 <= i < nrow
      ensures ColumnsIn(CooRows(es, nrow)[i], ncol)
    {
      CooRowColumns(es, ncol, i);
    }
  }

  /** COO -> CSR: the counting sort of matrixcsr_cpu.cpp:159-208. */
  function CsrOfCoo<T>(es: seq<Entry<T>>, nrow: nat, ncol: nat): Csr<T>
  {
    CsrOf(CooRows(es, nrow), ncol)
  }

  /** CSR -> COO: matrixcoo_cpu.cpp:476-497. */
  function CooOfCsr<T>(c: Csr<T>): seq<Entry<T>>
    requires ValidCsr(c)
  {
    Tails(CsrRows(c), 0)
  }

  lemma DropNothing<T>(rows: RowList<T>)
    ensures Lengths(TailParts(rows, 0)) == Lengths(rows)
  {
    forall i | 0 <= i < |rows|
      ensures Lengths(TailParts(rows, 0))[i] == Lengths(rows)[i]
    {
    }
  }

  /** With no cell dropped, the labelled cells are the cells. */
  lemma TailsAt<T>(rows: RowList<T>, k: nat, i: nat)
    requires i < |rows| && Prefix(Lengths(rows))[i] <= k < Prefix(Lengths(rows))[i + 1]
    ensures k < |Tails(rows, 0)| && k < |Flatten(rows)|
    ensures Tails(rows, 0)[k] == Entry(i, Flatten(rows)[k].col, Flatten(rows)[k].val)
  {
    var p := Prefix(Lengths(rows));
    DropNothing(rows);
    FlattenSlice(rows, i);
    FlattenSlice(TailParts(rows, 0), i);
    SliceElement(Flatten(rows), p, i, rows[i], k);
    SliceElement(Tails(rows, 0), p, i, TailParts(rows, 0)[i], k);
  }

  /** Entry k of the COO form is cell k, labelled with the row whose offsets enclose k. */
  lemma CooOfCsrAt<T>(c: Csr<T>, k: nat, i: nat)
    requires ValidCsr(c) && i < c.nrow && c.offset[i] <= k < c.offset[i + 1]
    ensures k < |CooOfCsr(c)| && k < |c.cells|
    ensures CooOfCsr(c)[k] == Entry(i, c.cells[k].col, c.cells[k].val)
  {
    CsrOffsets(c, i);
    CsrOffsets(c, i + 1);
    TailsAt(CsrRows(c), k, i);
    CsrOfRows(c);
  }

  /** Entries that pass cell by cell for the COO form of c are that form. */
  lemma CooOfCsrIs<T>(c: Csr<T>, es: seq<Entry<T>>)
    requires ValidCsr(c) && |es| == |c.cells|
    requires forall k :: 0 <= k < |es| ==> es[k].col == c.cells[k].col
    requires forall k :: 0 <= k < |es| ==> es[k].val == c.cells[k].val
    requires forall k, i :: 0 <= i < c.nrow && c.offset[i] <= k < c.offset[i + 1] ==> es[k].row == i
    ensures es == CooOfCsr(c) && ValidCoo(es, c.nrow, c.ncol)
  {
    var lens := Lengths(CsrRows(c));
    CsrOfRows(c);
    FlattenLength(CsrRows(c));
    FlattenLength(TailParts(CsrRows(c), 0));
    DropNothing(CsrRows(c));
    forall k | 0 <= k < |es|
      ensures es[k] == CooOfCsr(c)[k]
    {
      var i := SegmentOf(lens, k);
      SegmentOfContains(lens, k);
      CooOfCsrAt(c, k, i);
    }
    CsrRowsColumns(c);
    TailsValid(CsrRows(c), c.nrow, c.ncol, 0);
  }

  lemma CooRowsOfTails<T>(rows: RowList<T>)
    ensures CooRows(Tails(rows, 0), |rows|) == rows
  {
    forall i | 0 <= i < |rows|
      ensures CooRows(Tails(rows, 0), |rows|)[i] == rows[i]
    {
      CooRowTails(rows, 0, i);
    }
  }

  /** CSR -> COO -> CSR changes nothing. */
  lemma CsrCooCsr<T>(c: Csr<T>)
    requires ValidCsr(c)
    ensures CsrOfCoo(CooOfCsr(c), c.nrow, c.ncol) == c
  {
    CooRowsOfTails(CsrRows(c));
    CsrOfRows(c);
  }

  lemma CooRowOne<T>(e: Entry<T>, i: int)
    ensures CooRow([e], i) == if e.row == i then [Cell(e.col, e.val)] else []
  {
    assert [e][..0] == [];
  }

  /** Entries of different rows may change places. */
  lemma CooRowSwap<T>(es: seq<Entry<T>>, x: Entry<T>, z: Entry<T>, i: int)
    requires x.row != z.row
    ensures CooRow(es, i) + CooRow([x], i) + CooRow([z], i) == CooRow(es + [z], i) + CooRow([x], i)
  {
    CooRowConcat(es, [z], i);
    CooRowOne(x, i);
    CooRowOne(z, i);
  }

  lemma {:induction false} CooRowInsert<T>(es: seq<Entry<T>>, p: seq<int>, x: int, keys: seq<int>, i: int)
    requires |keys| <= |es| && InRange(p, |keys|) && 0 <= x < |keys|
    requires forall k :: 0 <= k < |keys| ==> keys[k] == es[k].row
    ensures CooRow(Through(es, Insert(p, x, keys)), i) ==
            CooRow(Through(es, p), i) + CooRow([es[x]], i)
  {
    if p == [] || keys[p[|p| - 1]] <= keys[x] {
      ThroughSnoc(es, p, x);
      CooRowConcat(Through(es, p), [es[x]], i);
    } else {
      var init, z := p[..|p| - 1], p[|p| - 1];
      var q := Insert(init, x, keys);
      CooRowInsert(es, init, x, keys, i);
      assert p == init + [z];
      ThroughSnoc(es, init, z);
      ThroughSnoc(es, q, z);
      CooRowConcat(Through(es, q), [es[z]], i);
      CooRowSwap(Through(es, init), es[x], es[z], i);
    }
  }

  /** A stable sort by row keeps every row as it is. */
  lemma {:induction false} StableSortKeepsRows<T>(es: seq<Entry<T>>, i: int)
    ensures CooRow(Through(es, SortPerm(RowIndices(es))), i) == CooRow(es, i)
  {
    if es != [] {
      var n := |es| - 1;
      var keys := RowIndices(es);
      assert keys[..n] == RowIndices(es[..n]);
      var p := SortPerm(keys[..n]);
      StableSortKeepsRows(es[..n], i);
      assert Through(es[..n], p) == Through(es, p);
      CooRowInsert(es, p, n, keys, i);
      assert SortPerm(keys) == Insert(p, n, keys);
      CooRowConcat(es[..n], [es[n]], i);
      assert es == es[..n] + [es[n]];
    }
  }

  /** COO -> CSR -> COO is the stable sort by row; on row-sorted entries it changes nothing. */
  lemma CooCsrCoo<T>(es: seq<Entry<T>>, nrow: nat, ncol: nat)
    requires ValidCoo(es, nrow, ncol)
    ensures ValidCsr(CsrOfCoo(es, nrow, ncol))
    ensures CooOfCsr(CsrOfCoo(es, nrow, ncol)) == Through(es, SortPerm(RowIndices(es)))
    ensures Sorted(RowIndices(es)) ==> CooOfCsr(CsrOfCoo(es, nrow, ncol)) == es
  {
    CooRowsColumns(es, nrow, ncol);
    RowsOfCsrOf(CooRows(es, nrow), ncol);
    var p := SortPerm(RowIndices(es));
    var sorted := Through(es, p);
    SortPermIsStable(RowIndices(es));
    forall k | 0 <= k < |es|
      ensures RowIndices(sorted)[k] == RowIndices(es)[p[k]]
    {
    }
    SortedDetermined(sorted, nrow);
    forall i | 0 <= i < nrow
      ensures CooRow(sorted, i) == CooRow(es, i)
    {
      StableSortKeepsRows(es, i);
    }
    assert CooRows(sorted, nrow) == CooRows(es, nrow);
    if Sorted(RowIndices(es)) {
      SortedDetermined(es, nrow);
    }
  }

  /** Row-sorted entries are determined by their rows. */
  lemma SortedDetermined<T>(es: seq<Entry<T>>, nrow: nat)
    requires Sorted(RowIndices(es)) && InRange(RowIndices(es), nrow)
    ensures Tails(CooRows(es, nrow), 0) == es
  {
    SortedIsTails(es, nrow, nrow);
    CountBelowEnds(RowIndices(es), nrow);
    assert es[..|es|] == es;
  }

  /** Where the counting sort puts entry k. */
  function Slot(rows: seq<int>, k: nat): int
    requires k < |rows|
  {
    CountBelow(rows, rows[k]) + Count(rows[..k], rows[k])
  }

  /** Each destination slot is written exactly once, and inside its row's offsets. */
  lemma SlotsDistinct(rows: seq<int>, j: nat, k: nat)
    requires j < k < |rows|
    ensures Slot(rows, j) != Slot(rows, k)
    ensures rows[j] == rows[k] ==> Slot(rows, j) < Slot(rows, k)
    ensures CountBelow(rows, rows[k]) <= Slot(rows, k) < CountBelow(rows, rows[k] + 1) <= |rows|
  {
    SlotInRow(rows, j);
    SlotInRow(rows, k);
    if rows[j] == rows[k] {
      CountSnoc(rows, j, rows[j]);
      CountMonotone(rows, j + 1, k, rows[j]);
    } else if rows[j] < rows[k] {
      CountBelowMonotone(rows, rows[j] + 1, rows[k]);
    } else {
      CountBelowMonotone(rows, rows[k] + 1, rows[j]);
    }
  }

  lemma SlotInRow(rows: seq<int>, k: nat)
    requires k < |rows|
    ensures CountBelow(rows, rows[k]) <= Slot(rows, k) < CountBelow(rows, rows[k] + 1) <= |rows|
  {
    var r := rows[k];
    CountBelowStep(rows, r);
    CountBelowMonotone(rows, r + 1, r + 1);
    CountSnoc(rows, k, r);
    CountMonotone(rows, k + 1, |rows|, r);
    assert rows[..|rows|] == rows;
  }

  /** Every destination slot is the slot of some entry. */
  lemma SlotsCover(rows: seq<int>, d: nat)
    requires d < |rows|
    ensures exists k :: 0 <= k < |rows| && Slot(rows, k) == d
  {
    var n := |rows|;
    var slots := seq(n, k requires 0 <= k < n => Slot(rows, k));
    var range := seq(n, k => k);
    var hit, all := set x | x in slots, set x | x in range;
    forall j, k | 0 <= j < k < n
      ensures slots[j] != slots[k]
    {
      SlotsDistinct(rows, j, k);
    }
    DistinctCount(slots);
    DistinctCount(range);
    forall x | x in hit
      ensures x in all
    {
      var k :| 0 <= k < n && slots[k] == x;
      SlotInRow(rows, k);
      assert range[x] == x;
    }
    SubsetOfSameSize(hit, all);
    assert range[d] == d;
    assert d in hit;
  }

  lemma SubsetOfSameSize<T>(a: set<T>, b: set<T>)
    requires a <= b && |a| == |b|
    ensures a == b
  {
    assert |b - a| == |b| - |a|;
  }

  // ---------------------------------------------------------------- ELL

  /** Column-major: ELL_IND, matrix_types.h:10. */
  function EllInd(row: int, el: int, nrow: int): int
  {
    el * nrow + row
  }

  lemma EllIndInverse(row: nat, el: nat, nrow: nat)
    requires row < nrow
    ensures EllInd(row, el, nrow) / nrow == el && EllInd(row, el, nrow) % nrow == row
  {
    DivModUnique(el, nrow, row);
  }

  lemma DivModUnique(q: nat, d: nat, r: nat)
    requires r < d
    ensures (q * d + r) / d == q && (q * d + r) % d == r
  {
    var x := q * d + r;
    var q', r' := x / d, x % d;
    assert (q' - q) * d == r - r' by {
      assert q' * d + r' == q * d + r;
      assert (q' - q) * d == q' * d - q * d;
    }
    if q < q' {
      MulMonotone(1, q' - q, d);
    } else if q' < q {
      MulMonotone(1, q - q', d);
    }
  }

  lemma EllIndBound(row: nat, el: nat, nrow: nat, maxRow: nat)
    requires row < nrow && el < maxRow
    ensures 0 <= EllInd(row, el, nrow) < maxRow * nrow
  {
    assert (maxRow - el - 1) * nrow >= 0;
    assert maxRow * nrow == el * nrow + (maxRow - el - 1) * nrow + nrow;
  }

  predicate IsEntry<T>(c: Cell<T>, ncol: int)
  {
    0 <= c.col < ncol
  }

  predicate ValidEll<T>(e: Ell<T>)
  {
    |e.cells| == e.maxRow * e.nrow
  }

  /** The entries among the first n slots of row i. */
  function EllRow<T>(e: Ell<T>, i: nat, n: nat): (row: seq<Cell<T>>)
    requires ValidEll(e) && i < e.nrow && n <= e.maxRow
    ensures ColumnsIn(row, e.ncol)
  {
    if n == 0 then []
    else
      EllIndBound(i, n - 1, e.nrow, e.maxRow);
      var c := e.cells[EllInd(i, n - 1, e.nrow)];
      EllRow(e, i, n - 1) + (if IsEntry(c, e.ncol) then [c] else [])
  }

  function EllRows<T>(e: Ell<T>): (rows: RowList<T>)
    requires ValidEll(e)
    ensures |rows| == e.nrow && AllColumnsIn(rows, e.ncol)
  {
    seq(e.nrow, i requires 0 <= i < e.nrow => EllRow(e, i, e.maxRow))
  }

  /** Each row's first w cells in column-major slots, padded to width w. */
  function EllCells<T>(rows: RowList<T>, w: nat, pad: Cell<T>): (cells: seq<Cell<T>>)
    ensures |cells| == w * |rows|
  {
    seq(w * |rows|, p requires 0 <= p < w * |rows| =>
      var n, row := p / |rows|, rows[p % |rows|];
      if n < |row| then row[n] else pad)
  }

  lemma EllCellsAt<T>(rows: RowList<T>, w: nat, pad: Cell<T>, i: nat, n: nat)
    requires i < |rows| && n < w
    ensures 0 <= EllInd(i, n, |rows|) < w * |rows|
    ensures EllCells(rows, w, pad)[EllInd(i, n, |rows|)] == if n < |rows[i]| then rows[i][n] else pad
  {
    EllIndBound(i, n, |rows|, w);
    EllIndInverse(i, n, |rows|);
  }

  /** Padding is never read as an entry, and no slot is shared. */
  lemma {:induction false} EllKeepsRow<T>(rows: RowList<T>, ncol: nat, w: nat, pad: Cell<T>, i: nat, n: nat)
    requires AllColumnsIn(rows, ncol) && !IsEntry(pad, ncol)
    requires i < |rows| && n <= w
    ensures EllRow(Ell(|rows|, ncol, w, EllCells(rows, w, pad)), i, n) ==
            if n < |rows[i]| then rows[i][..n] else rows[i]
  {
    if n > 0 {
      EllKeepsRow(rows, ncol, w, pad, i, n - 1);
      EllCellsAt(rows, w, pad, i, n - 1);
    }
  }

  function MaxLength<T>(rows: RowList<T>): nat
  {
    if rows == [] then 0
    else
      var m, l := MaxLength(rows[..|rows| - 1]), |rows[|rows| - 1]|;
      if l > m then l else m
  }

  lemma MaxLengthSnoc<T>(rows: RowList<T>, i: nat)
    requires i < |rows|
    ensures MaxLength(rows[..i + 1]) ==
            if |rows[i]| > MaxLength(rows[..i]) then |rows[i]| else MaxLength(rows[..i])
  {
    assert rows[..i + 1][..i] == rows[..i];
  }

  lemma {:induction false} MaxLengthBounds<T>(rows: RowList<T>)
    ensures forall i :: 0 <= i < |rows| ==> |rows[i]| <= MaxLength(rows)
  {
    if rows != [] {
      MaxLengthBounds(rows[..|rows| - 1]);
    }
  }

  /** The ELL width is the length of some row: no narrower ELL matrix could hold them all. */
  lemma {:induction false} MaxLengthIsLeast<T>(rows: RowList<T>)
    requires rows != []
    ensures exists i :: 0 <= i < |rows| && |rows[i]| == MaxLength(rows)
  {
    var n := |rows| - 1;
    if |rows[n]| < MaxLength(rows) {
      MaxLengthIsLeast(rows[..n]);
      var i :| 0 <= i < n && |rows[..n][i]| == MaxLength(rows[..n]);
      assert |rows[i]| == MaxLength(rows);
    } else {
      assert |rows[n]| == MaxLength(rows) by {
        if n > 0 {
          MaxLengthBounds(rows);
        }
      }
    }
  }

  predicate AtMost<T>(rows: RowList<T>, w: nat)
  {
    forall i :: 0 <= i < |rows| ==> |rows[i]| <= w
  }

  /** Every row has room in w slots, and in no fewer. */
  ghost predicate LeastWidth<T>(rows: RowList<T>, w: nat)
  {
    AtMost(rows, w) && forall v: nat :: AtMost(rows, v) ==> w <= v
  }

  lemma MaxLengthIsWidth<T>(rows: RowList<T>)
    ensures LeastWidth(rows, MaxLength(rows))
  {
    MaxLengthBounds(rows);
    forall v: nat | AtMost(rows, v)
      ensures MaxLength(rows) <= v
    {
      if rows != [] {
        MaxLengthIsLeast(rows);
      }
    }
  }

  /** Slot n of row i, at position n * nrow + i, holds cell n of the row, or `pad` behind the last. */
  ghost predicate StoredIn<T>(rows: RowList<T>, e: Ell<T>, pad: Cell<T>)
    requires ValidEll(e) && e.nrow == |rows|
  {
    forall i: nat, n: nat :: i < |rows| && n < e.maxRow ==> SlotOf(e, i, n) == if n < |rows[i]| then rows[i][n] else pad
  }

  function SlotOf<T>(e: Ell<T>, i: nat, n: nat): Cell<T>
    requires ValidEll(e) && i < e.nrow && n < e.maxRow
  {
    EllIndBound(i, n, e.nrow, e.maxRow);
    e.cells[n * e.nrow + i]
  }

  lemma EllCellsStored<T>(rows: RowList<T>, ncol: nat, w: nat, pad: Cell<T>)
    ensures StoredIn(rows, Ell(|rows|, ncol, w, EllCells(rows, w, pad)), pad)
  {
    forall i: nat, n: nat | i < |rows| && n < w
      ensures SlotOf(Ell(|rows|, ncol, w, EllCells(rows, w, pad)), i, n) ==
              if n < |rows[i]| then rows[i][n] else pad
    {
      EllCellsAt(rows, w, pad, i, n);
    }
  }

  /** The slots of p among the first n of row i, in order, are exactly those with a column in range. */
  ghost predicate EntrySlots<T>(e: Ell<T>, i: nat, n: nat, p: seq<int>)
    requires ValidEll(e) && i < e.nrow && n <= e.maxRow
  {
    && (forall j, k :: 0 <= j < k < |p| ==> p[j] < p[k])
    && (forall m :: m in p <==> 0 <= m < n && 0 <= SlotOf(e, i, m).col < e.ncol)
  }

  lemma EntryTaken<T>(e: Ell<T>, i: nat, n: nat, p: seq<int>)
    requires ValidEll(e) && i < e.nrow && n < e.maxRow && EntrySlots(e, i, n, p)
    requires 0 <= SlotOf(e, i, n).col < e.ncol
    ensures EntrySlots(e, i, n + 1, p + [n])
  {
    forall k | 0 <= k < |p|
      ensures p[k] < n
    {
      assert p[k] in p;
    }
  }

  lemma EntrySkipped<T>(e: Ell<T>, i: nat, n: nat, p: seq<int>)
    requires ValidEll(e) && i < e.nrow && n < e.maxRow && EntrySlots(e, i, n, p)
    requires !(0 <= SlotOf(e, i, n).col < e.ncol)
    ensures EntrySlots(e, i, n + 1, p)
  {
  }

  /** `row` lists the cells of the slots p. */
  ghost predicate ReadsSlots<T>(e: Ell<T>, i: nat, p: seq<int>, row: seq<Cell<T>>)
    requires ValidEll(e) && i < e.nrow
  {
    |row| == |p| && forall k :: 0 <= k < |p| ==> 0 <= p[k] < e.maxRow && row[k] == SlotOf(e, i, p[k])
  }

  lemma EllRowStep<T>(e: Ell<T>, i: nat, n: nat)
    requires ValidEll(e) && i < e.nrow && n < e.maxRow
    ensures var c := SlotOf(e, i, n);
            EllRow(e, i, n + 1) == if 0 <= c.col < e.ncol then EllRow(e, i, n) + [c] else EllRow(e, i, n)
  {
    EllIndBound(i, n, e.nrow, e.maxRow);
    assert EllRow(e, i, n) + [] == EllRow(e, i, n);
  }

  lemma SlotsStep<T>(e: Ell<T>, i: nat, n: nat, p: seq<int>) returns (q: seq<int>)
    requires ValidEll(e) && i < e.nrow && n < e.maxRow
    requires EntrySlots(e, i, n, p) && ReadsSlots(e, i, p, EllRow(e, i, n))
    ensures EntrySlots(e, i, n + 1, q) && ReadsSlots(e, i, q, EllRow(e, i, n + 1))
  {
    EllRowStep(e, i, n);
    if 0 <= SlotOf(e, i, n).col < e.ncol {
      EntryTaken(e, i, n, p);
      q := p + [n];
    } else {
      EntrySkipped(e, i, n, p);
      q := p;
    }
  }

  /** Whatever the padding and wherever it stands, a row is read as the cells of exactly those slots. */
  lemma {:induction false} EllRowSlots<T>(e: Ell<T>, i: nat, n: nat) returns (p: seq<int>)
    requires ValidEll(e) && i < e.nrow && n <= e.maxRow
    ensures EntrySlots(e, i, n, p) && ReadsSlots(e, i, p, EllRow(e, i, n))
  {
    if n == 0 {
      p := [];
    } else {
      p := EllRowSlots(e, i, n - 1);
      p := SlotsStep(e, i, n - 1, p);
    }
  }

  const ELL_PAD := -999
  const HYB_PAD := -1

  /** CSR -> ELL: matrixell_cpu.cpp:131-179. */
  function EllOf<T>(rows: RowList<T>, ncol: nat, zero: T): (e: Ell<T>)
    ensures ValidEll(e)
  {
    var w := MaxLength(rows);
    Ell(|rows|, ncol, w, EllCells(rows, w, Cell(ELL_PAD, zero)))
  }

  /** Its width is the least that holds every row, and it stores the rows with -999 behind each. */
  lemma EllOfIs<T>(rows: RowList<T>, ncol: nat, zero: T)
    ensures LeastWidth(rows, EllOf(rows, ncol, zero).maxRow)
    ensures EllOf(rows, ncol, zero).nrow == |rows| && EllOf(rows, ncol, zero).ncol == ncol
    ensures StoredIn(rows, EllOf(rows, ncol, zero), Cell(-999, zero))
  {
    MaxLengthIsWidth(rows);
    EllCellsStored(rows, ncol, MaxLength(rows), Cell(ELL_PAD, zero));
  }

  lemma EllOfKeepsRows<T>(rows: RowList<T>, ncol: nat, zero: T)
    requires AllColumnsIn(rows, ncol)
    ensures EllRows(EllOf(rows, ncol, zero)) == rows
  {
    MaxLengthBounds(rows);
    forall i | 0 <= i < |rows|
      ensures EllRows(EllOf(rows, ncol, zero))[i] == rows[i]
    {
      EllKeepsRow(rows, ncol, MaxLength(rows), Cell(ELL_PAD, zero), i, MaxLength(rows));
    }
  }

  /** CSR -> ELL -> CSR changes nothing. */
  lemma CsrEllCsr<T>(c: Csr<T>, zero: T)
    requires ValidCsr(c)
    ensures CsrOf(EllRows(EllOf(CsrRows(c), c.ncol, zero)), c.ncol) == c
  {
    CsrOfRows(c);
    CsrRowsColumns(c);
    EllOfKeepsRows(CsrRows(c), c.ncol, zero);
  }

  // ---------------------------------------------------------------- HYB

  /** The two parts fit the dimensions; a product asks for no more. */
  ghost predicate WellFormedHyb<T>(h: Hyb<T>)
  {
    ValidEll(h.ell) && ValidCoo(h.coo, h.ell.nrow, h.ell.ncol)
  }

  /** Besides, the COO part is sorted by row, as the conversion to CSR expects. */
  ghost predicate ValidHyb<T>(h: Hyb<T>)
  {
    WellFormedHyb(h) && Sorted(RowIndices(h.coo))
  }

  function HybRow<T>(h: Hyb<T>, i: nat): seq<Cell<T>>
    requires WellFormedHyb(h) && i < h.ell.nrow
  {
    EllRow(h.ell, i, h.ell.maxRow) + CooRow(h.coo, i)
  }

  function HybRows<T>(h: Hyb<T>): (rows: RowList<T>)
    requires WellFormedHyb(h)
    ensures |rows| == h.ell.nrow
  {
    seq(h.ell.nrow, i requires 0 <= i < h.ell.nrow => HybRow(h, i))
  }

  /** Each row of a CSR matrix with the rows of h: its ELL cells, then its COO entries. */
  lemma HybRowParts<T>(c: Csr<T>, h: Hyb<T>)
    requires ValidCsr(c) && WellFormedHyb(h) && CsrRows(c) == HybRows(h)
    ensures c.nrow == h.ell.nrow
    ensures forall i :: 0 <= i < c.nrow ==> CsrRow(c, i) == EllRow(h.ell, i, h.ell.maxRow) + CooRow(h.coo, i)
  {
    assert |CsrRows(c)| == |HybRows(h)|;
    forall i | 0 <= i < c.nrow
      ensures CsrRow(c, i) == HybRow(h, i)
    {
      assert CsrRow(c, i) == CsrRows(c)[i] == HybRows(h)[i];
    }
  }

  lemma HybRowsColumns<T>(h: Hyb<T>)
    requires WellFormedHyb(h)
    ensures AllColumnsIn(HybRows(h), h.ell.ncol)
  {
    forall i | 0 <= i < h.ell.nrow
      ensures ColumnsIn(HybRows(h)[i], h.ell.ncol)
    {
      CooRowColumns(h.coo, h.ell.ncol, i);
    }
  }

  /** The ELL width get_data uses: the one already set, or else the average row length. */
  function HybWidth(current: nat, nnz: nat, nrow: nat): nat
    requires nrow > 0
  {
    if current == 0 then nnz / nrow else current
  }

  /** A width that is set is kept; otherwise it is the greatest that nnz fills on average. */
  lemma HybWidthIs(current: nat, nnz: nat, nrow: nat)
    requires nrow > 0
    ensures current > 0 ==> HybWidth(current, nnz, nrow) == current
    ensures var w := HybWidth(current, nnz, nrow); current == 0 ==> w * nrow <= nnz < (w + 1) * nrow
  {
    QuotientBounds(nnz, nrow);
  }

  /** CSR -> HYB as it is meant: the first w cells of each row in ELL, the rest in COO.  What
      matrixhyb_cpu.cpp:124-210 writes is HybSplit.HybWritten. */
  function HybOf<T>(rows: RowList<T>, ncol: nat, w: nat, zero: T): Hyb<T>
  {
    Hyb(Ell(|rows|, ncol, w, EllCells(rows, w, Cell(HYB_PAD, zero))), Tails(rows, w))
  }

  lemma {:induction false} TailsValid<T>(rows: RowList<T>, nrow: int, ncol: int, w: nat)
    requires AllColumnsIn(rows, ncol) && |rows| <= nrow
    ensures ValidCoo(Tails(rows, w), nrow, ncol)
  {
    if rows != [] {
      var n := |rows| - 1;
      TailsValid(rows[..n], nrow, ncol, w);
      TailsSnoc(rows, w, n);
      assert rows[..n + 1] == rows;
      var last := Labelled(n, Drop(rows[n], w));
      assert ColumnsIn(rows[n], ncol);
      forall k | 0 <= k < |last|
        ensures 0 <= last[k].row < nrow && 0 <= last[k].col < ncol
      {
        assert last[k].col == rows[n][w + k].col;
      }
    }
  }

  lemma HybOfIsValid<T>(rows: RowList<T>, ncol: nat, w: nat, zero: T)
    requires AllColumnsIn(rows, ncol)
    ensures ValidHyb(HybOf(rows, ncol, w, zero))
  {
    TailsValid(rows, |rows|, ncol, w);
    TailsSorted(rows, w);
  }

  lemma TakeAndDrop<T>(row: seq<Cell<T>>, w: nat)
    ensures (if w < |row| then row[..w] else row) + Drop(row, w) == row
  {
  }

  lemma HybOfKeepsRow<T>(rows: RowList<T>, ncol: nat, w: nat, zero: T, i: nat)
    requires AllColumnsIn(rows, ncol) && ValidHyb(HybOf(rows, ncol, w, zero)) && i < |rows|
    ensures HybRow(HybOf(rows, ncol, w, zero), i) == rows[i]
  {
    EllKeepsRow(rows, ncol, w, Cell(HYB_PAD, zero), i, w);
    CooRowTails(rows, w, i);
    TakeAndDrop(rows[i], w);
  }

  /** The split keeps every row, whatever the width. */
  lemma HybOfKeepsRows<T>(rows: RowList<T>, ncol: nat, w: nat, zero: T)
    requires AllColumnsIn(rows, ncol)
    ensures ValidHyb(HybOf(rows, ncol, w, zero)) && HybRows(HybOf(rows, ncol, w, zero)) == rows
  {
    HybOfIsValid(rows, ncol, w, zero);
    forall i | 0 <= i < |rows|
      ensures HybRow(HybOf(rows, ncol, w, zero), i) == rows[i]
    {
      HybOfKeepsRow(rows, ncol, w, zero, i);
    }
  }

  /** CSR -> HYB -> CSR changes nothing, for every width. */
  lemma CsrHybCsr<T>(c: Csr<T>, w: nat, zero: T)
    requires ValidCsr(c)
    ensures ValidHyb(HybOf(CsrRows(c), c.ncol, w, zero))
    ensures CsrOf(HybRows(HybOf(CsrRows(c), c.ncol, w, zero)), c.ncol) == c
  {
    CsrOfRows(c);
    CsrRowsColumns(c);
    HybOfKeepsRows(CsrRows(c), c.ncol, w, zero);
  }

  // ---------------------------------------------------------------- the split, entry by entry

  /** How many cells of each row the ELL part takes. */
  function EllCounts<T>(rows: RowList<T>, w: nat): (l: seq<int>)
    ensures |l| == |rows| && NonNegative(l)
  {
    seq(|rows|, i requires 0 <= i < |rows| => Min(|rows[i]|, w))
  }

  /** The inclusive prefix sums `nnzell` turn a CSR position of row i into its COO slot. */
  lemma {:induction false} SpillPrefix<T>(rows: RowList<T>, w: nat, i: nat)
    requires i <= |rows|
    ensures Prefix(Lengths(TailParts(rows, w)))[i] == Prefix(Lengths(rows))[i] - Prefix(EllCounts(rows, w))[i]
  {
    if i > 0 {
      SpillPrefix(rows, w, i - 1);
      PrefixStep(Lengths(TailParts(rows, w)), i - 1);
      PrefixStep(Lengths(rows), i - 1);
      PrefixStep(EllCounts(rows, w), i - 1);
    }
  }

  /** Slot of the CSR position j of row i in the COO part: `j - nnzell[i]`. */
  function SpillSlot<T>(rows: RowList<T>, w: nat, i: nat, j: int): int
    requires i < |rows|
  {
    j - Prefix(EllCounts(rows, w))[i + 1]
  }

  /** Position j is a cell of row i beyond the ELL width. */
  ghost predicate Spilled<T>(rows: RowList<T>, w: nat, i: nat, j: int)
  {
    i < |rows| && Prefix(Lengths(rows))[i] + w <= j < Prefix(Lengths(rows))[i + 1]
  }

  lemma SpillInRange<T>(rows: RowList<T>, w: nat, i: nat, j: int)
    requires Spilled(rows, w, i, j)
    ensures var q, s := SpillSlot(rows, w, i, j), Prefix(Lengths(TailParts(rows, w)));
            && s[i] <= q < s[i + 1] && |rows[i]| == Prefix(Lengths(rows))[i + 1] - Prefix(Lengths(rows))[i]
            && q - s[i] == j - Prefix(Lengths(rows))[i] - w && w < |rows[i]|
  {
    PrefixStep(Lengths(rows), i);
    PrefixStep(EllCounts(rows, w), i);
    SpillPrefix(rows, w, i);
    SpillPrefix(rows, w, i + 1);
  }

  lemma CellAt<T>(rows: RowList<T>, i: nat, j: int)
    requires i < |rows| && Prefix(Lengths(rows))[i] <= j < Prefix(Lengths(rows))[i + 1]
    ensures 0 <= j < |Flatten(rows)| && 0 <= j - Prefix(Lengths(rows))[i] < |rows[i]|
    ensures Flatten(rows)[j] == rows[i][j - Prefix(Lengths(rows))[i]]
  {
    FlattenSlice(rows, i);
    SliceElement(Flatten(rows), Prefix(Lengths(rows)), i, rows[i], j);
  }

  lemma TailAt<T>(rows: RowList<T>, w: nat, i: nat, q: int)
    requires i < |rows|
    requires Prefix(Lengths(TailParts(rows, w)))[i] <= q < Prefix(Lengths(TailParts(rows, w)))[i + 1]
    ensures var m := w + q - Prefix(Lengths(TailParts(rows, w)))[i];
            && 0 <= q < |Tails(rows, w)| && 0 <= m < |rows[i]|
            && Tails(rows, w)[q] == Entry(i, rows[i][m].col, rows[i][m].val)
  {
    var parts := TailParts(rows, w);
    var s := Prefix(Lengths(parts));
    FlattenSlice(parts, i);
    SliceElement(Flatten(parts), s, i, parts[i], q);
    assert parts[i] == Labelled(i, Drop(rows[i], w));
  }

  /** Every spilled cell lands in its slot of the COO part, with its row, column and value. */
  lemma SpillLands<T>(rows: RowList<T>, w: nat, i: nat, j: int)
    requires Spilled(rows, w, i, j)
    ensures var q := SpillSlot(rows, w, i, j);
            && 0 <= q < |Tails(rows, w)| && 0 <= j < |Flatten(rows)|
            && Tails(rows, w)[q] == Entry(i, Flatten(rows)[j].col, Flatten(rows)[j].val)
  {
    var q := SpillSlot(rows, w, i, j);
    SpillInRange(rows, w, i, j);
    CellAt(rows, i, j);
    TailAt(rows, w, i, q);
    var m := j - Prefix(Lengths(rows))[i];
    assert Flatten(rows)[j] == rows[i][m] && Tails(rows, w)[q] == Entry(i, rows[i][m].col, rows[i][m].val);
  }

  /** The slots `j - nnzell[i]` hit every index of the COO part exactly once. */
  lemma SpillSlotsExact<T>(rows: RowList<T>, w: nat, q: int)
    requires 0 <= q < |Tails(rows, w)|
    ensures exists i: nat, j: int :: Spilled(rows, w, i, j) && SpillSlot(rows, w, i, j) == q
    ensures forall i: nat, j: int, i': nat, j': int ::
      (Spilled(rows, w, i, j) && SpillSlot(rows, w, i, j) == q
       && Spilled(rows, w, i', j') && SpillSlot(rows, w, i', j') == q)
      ==> i == i' && j == j'
  {
    var lens := Lengths(TailParts(rows, w));
    FlattenLength(TailParts(rows, w));
    var i := SegmentOf(lens, q);
    SegmentOfContains(lens, q);
    SpillPrefix(rows, w, i);
    SpillPrefix(rows, w, i + 1);
    PrefixStep(Lengths(rows), i);
    PrefixStep(EllCounts(rows, w), i);
    PrefixStep(lens, i);
    var j := q + Prefix(EllCounts(rows, w))[i + 1];
    assert Spilled(rows, w, i, j) && SpillSlot(rows, w, i, j) == q;
    forall i': nat, j': int | Spilled(rows, w, i', j') && SpillSlot(rows, w, i', j') == q
      ensures i' == i && j' == j
    {
      SpillInRange(rows, w, i', j');
      SegmentUnique(lens, q, i, i');
    }
  }

  /** The ELL part holds c in slot n of row i. */
  predicate InEllPart<T(==)>(rows: RowList<T>, w: nat, pad: Cell<T>, i: nat, n: nat, c: Cell<T>)
  {
    0 <= EllInd(i, n, |rows|) < w * |rows| && EllCells(rows, w, pad)[EllInd(i, n, |rows|)] == c
  }

  /** The COO part holds c, as an entry of row i, in slot q. */
  predicate InCooPart<T(==)>(rows: RowList<T>, w: nat, i: nat, q: int, c: Cell<T>)
  {
    0 <= q < |Tails(rows, w)| && Tails(rows, w)[q] == Entry(i, c.col, c.val)
  }

  /** Every cell lands in exactly one part: its ELL slot, or its COO slot. */
  lemma SplitPlaces<T>(rows: RowList<T>, w: nat, pad: Cell<T>, i: nat, j: int, n: nat)
    requires i < |rows| && n == j - Prefix(Lengths(rows))[i] && j < Prefix(Lengths(rows))[i + 1]
    ensures 0 <= j < |Flatten(rows)| && (Spilled(rows, w, i, j) <==> w <= n)
    ensures n < w ==> InEllPart(rows, w, pad, i, n, Flatten(rows)[j])
    ensures w <= n ==> InCooPart(rows, w, i, SpillSlot(rows, w, i, j), Flatten(rows)[j])
  {
    CellAt(rows, i, j);
    if n < w {
      EllPlace(rows, w, pad, i, n, Flatten(rows)[j]);
    } else {
      SpillLands(rows, w, i, j);
    }
  }

  lemma EllPlace<T>(rows: RowList<T>, w: nat, pad: Cell<T>, i: nat, n: nat, c: Cell<T>)
    requires i < |rows| && n < w && n < |rows[i]| && c == rows[i][n]
    ensures InEllPart(rows, w, pad, i, n, c)
  {
    EllCellsAt(rows, w, pad, i, n);
  }

  // ---------------------------------------------------------------- load, convert, save

  /** Loading row-sorted entries into ELL and saving them gives them back. */
  lemma EllSavesWhatItLoads<T>(es: seq<Entry<T>>, nrow: nat, ncol: nat, zero: T)
    requires ValidCoo(es, nrow, ncol) && Sorted(RowIndices(es))
    ensures ValidCsr(CsrOfCoo(es, nrow, ncol))
    ensures var e := EllOf(CsrRows(CsrOfCoo(es, nrow, ncol)), ncol, zero);
            ValidCsr(CsrOf(EllRows(e), ncol)) && CooOfCsr(CsrOf(EllRows(e), ncol)) == es
  {
    CooCsrCoo(es, nrow, ncol);
    CsrEllCsr(CsrOfCoo(es, nrow, ncol), zero);
  }

  /** The same for HYB, at any width. */
  lemma HybSavesWhatItLoads<T>(es: seq<Entry<T>>, nrow: nat, ncol: nat, w: nat, zero: T)
    requires ValidCoo(es, nrow, ncol) && Sorted(RowIndices(es))
    ensures ValidCsr(CsrOfCoo(es, nrow, ncol))
    ensures var h := HybOf(CsrRows(CsrOfCoo(es, nrow, ncol)), ncol, w, zero);
            && ValidHyb(h) && ValidCsr(CsrOf(HybRows(h), ncol)) && CooOfCsr(CsrOf(HybRows(h), ncol)) == es
  {
    CooCsrCoo(es, nrow, ncol);
    CsrHybCsr(CsrOfCoo(es, nrow, ncol), w, zero);
  }
}
