/** How far the conversion loops have got: predicates on the half-filled arrays and the lemmas
    that one more write keeps them. */
module Layout {
  import opened Sequences
  import opened Rows
  import opened Formats

  // ---------------------------------------------------------------- counting sort

  /** Of row r, the cells among the first i entries are in place. */
  predicate PlacedRow<T(==)>(cells: seq<Cell<T>>, es: seq<Entry<T>>, i: nat, r: int)
    requires i <= |es|
  {
    var a, n := CountBelow(RowIndices(es), r), Count(RowIndices(es)[..i], r);
    a + n <= |cells| && cells[a..a + n] == CooRow(es[..i], r)
  }

  ghost predicate Placed<T>(cells: seq<Cell<T>>, es: seq<Entry<T>>, nrow: nat, i: nat)
    requires i <= |es|
  {
    |cells| == |es| && forall r :: 0 <= r < nrow ==> PlacedRow(cells, es, i, r)
  }

  lemma PlacedStart<T>(cells: seq<Cell<T>>, es: seq<Entry<T>>, nrow: nat)
    requires |cells| == |es|
    ensures Placed(cells, es, nrow, 0)
  {
    forall r | 0 <= r < nrow
      ensures PlacedRow(cells, es, 0, r)
    {
      CountBelowMonotone(RowIndices(es), r, r);
    }
  }

  lemma PlaceStep<T>(cells: seq<Cell<T>>, es: seq<Entry<T>>, nrow: nat, i: nat)
    requires i < |es| && InRange(RowIndices(es), nrow) && Placed(cells, es, nrow, i)
    ensures var d := Slot(RowIndices(es), i);
            0 <= d < |cells| && Placed(cells[d := Cell(es[i].col, es[i].val)], es, nrow, i + 1)
  {
    var rows := RowIndices(es);
    var d := Slot(rows, i);
    SlotInRow(rows, i);
    var next := cells[d := Cell(es[i].col, es[i].val)];
    var j := i + 1;
    forall r | 0 <= r < nrow
      ensures PlacedRow(next, es, j, r)
    {
      assert PlacedRow(cells, es, i, r);
      PlaceStepRow(cells, es, i, r);
    }
  }

  lemma PlaceStepRow<T>(cells: seq<Cell<T>>, es: seq<Entry<T>>, i: nat, r: int)
    requires i < |es| == |cells| && PlacedRow(cells, es, i, r)
    requires 0 <= Slot(RowIndices(es), i) < |cells|
    ensures PlacedRow(cells[Slot(RowIndices(es), i) := Cell(es[i].col, es[i].val)], es, i + 1, r)
  {
    var rows := RowIndices(es);
    CountSnoc(rows, i, r);
    CooRowSnoc(es, i, r);
    if rows[i] != r {
      SlotElsewhere(rows, i, r);
    }
  }

  /** The slot lies in another row, and this row ends before the next one begins. */
  lemma SlotElsewhere(rows: seq<int>, i: nat, r: int)
    requires i < |rows| && rows[i] != r
    ensures Slot(rows, i) < CountBelow(rows, r) || CountBelow(rows, r) + Count(rows[..i], r) <= Slot(rows, i)
  {
    SlotInRow(rows, i);
    CountBelowStep(rows, r);
    CountMonotone(rows, i, |rows|, r);
    assert rows[..|rows|] == rows;
    if rows[i] < r {
      CountBelowMonotone(rows, rows[i] + 1, r);
    } else {
      CountBelowMonotone(rows, r + 1, rows[i]);
    }
  }

  /** The offsets of the entries are the prefix sums of their row lengths. */
  lemma {:induction false} OffsetsAreLengths<T>(es: seq<Entry<T>>, nrow: nat)
    requires InRange(RowIndices(es), nrow)
    ensures Offsets(RowIndices(es), nrow) == Prefix(Lengths(CooRows(es, nrow)))
  {
    var rows := RowIndices(es);
    forall r | 0 <= r < nrow
      ensures Lengths(CooRows(es, nrow))[r] == RowCounts(rows, nrow)[r]
    {
      CooRowLength(es, r);
    }
    assert Lengths(CooRows(es, nrow)) == RowCounts(rows, nrow);
    forall r | 0 <= r <= nrow
      ensures Prefix(RowCounts(rows, nrow))[r] == Offsets(rows, nrow)[r]
    {
      PrefixOfCounts(rows, nrow, r);
    }
  }

  /** When every entry is in place, the cells are the rows one after the other. */
  lemma PlacedAll<T>(cells: seq<Cell<T>>, es: seq<Entry<T>>, nrow: nat)
    requires InRange(RowIndices(es), nrow) && Placed(cells, es, nrow, |es|)
    ensures cells == Flatten(CooRows(es, nrow))
  {
    var rows := CooRows(es, nrow);
    OffsetsAreLengths(es, nrow);
    CountBelowEnds(RowIndices(es), nrow);
    forall r | 0 <= r < nrow
      ensures SliceIs(cells, Prefix(Lengths(rows)), r, rows[r])
    {
      assert PlacedRow(cells, es, |es|, r);
      assert es[..|es|] == es && RowIndices(es)[..|es|] == RowIndices(es);
      CountBelowStep(RowIndices(es), r);
      assert Prefix(Lengths(rows))[r] == Offsets(RowIndices(es), nrow)[r];
      assert Prefix(Lengths(rows))[r + 1] == Offsets(RowIndices(es), nrow)[r + 1];
    }
    assert Prefix(Lengths(rows))[nrow] == Offsets(RowIndices(es), nrow)[nrow];
    SlicesDetermine(rows, cells, nrow);
    assert rows[..nrow] == rows && cells[..|cells|] == cells;
  }

  // ---------------------------------------------------------------- ELL

  /** Rows before i are complete, and of row i the first n slots are. */
  predicate SlotDone(p: int, nrow: nat, i: int, n: int)
    requires nrow > 0
  {
    p % nrow < i || (p % nrow == i && p / nrow < n)
  }

  predicate Filled<T(==)>(cells: seq<Cell<T>>, goal: seq<Cell<T>>, nrow: nat, i: int, n: int)
    requires nrow > 0
  {
    |cells| == |goal| && forall p :: 0 <= p < |goal| && SlotDone(p, nrow, i, n) ==> cells[p] == goal[p]
  }

  lemma FilledStart<T>(cells: seq<Cell<T>>, goal: seq<Cell<T>>, nrow: nat)
    requires nrow > 0 && |cells| == |goal|
    ensures Filled(cells, goal, nrow, 0, 0)
  {
  }

  lemma SlotDoneStep(p: nat, nrow: nat, i: nat, n: nat)
    requires i < nrow
    ensures SlotDone(p, nrow, i, n + 1) <==> SlotDone(p, nrow, i, n) || p == EllInd(i, n, nrow)
  {
    EllIndInverse(i, n, nrow);
    assert p == p / nrow * nrow + p % nrow;
  }

  lemma FillStep<T>(cells: seq<Cell<T>>, goal: seq<Cell<T>>, nrow: nat, i: nat, n: nat)
    requires i < nrow && Filled(cells, goal, nrow, i, n) && 0 <= EllInd(i, n, nrow) < |goal|
    ensures Filled(cells[EllInd(i, n, nrow) := goal[EllInd(i, n, nrow)]], goal, nrow, i, n + 1)
  {
    var next := cells[EllInd(i, n, nrow) := goal[EllInd(i, n, nrow)]];
    forall p | 0 <= p < |goal| && SlotDone(p, nrow, i, n + 1)
      ensures next[p] == goal[p]
    {
      SlotDoneStep(p, nrow, i, n);
    }
  }

  lemma SlotBound(p: nat, nrow: nat, w: nat)
    requires nrow > 0 && p < w * nrow
    ensures p / nrow < w && p % nrow < nrow
  {
    if p / nrow >= w {
      MulMonotone(w, p / nrow, nrow);
    }
  }

  lemma FillRow<T>(cells: seq<Cell<T>>, goal: seq<Cell<T>>, nrow: nat, w: nat, i: nat)
    requires nrow > 0 && |goal| == w * nrow && Filled(cells, goal, nrow, i, w)
    ensures Filled(cells, goal, nrow, i + 1, 0)
  {
    forall p | 0 <= p < |goal| && SlotDone(p, nrow, i + 1, 0)
      ensures cells[p] == goal[p]
    {
      SlotBound(p, nrow, w);
      assert SlotDone(p, nrow, i, w);
    }
  }

  lemma FilledAll<T>(cells: seq<Cell<T>>, goal: seq<Cell<T>>, nrow: nat, w: nat)
    requires nrow > 0 && |goal| == w * nrow && Filled(cells, goal, nrow, nrow, 0)
    ensures cells == goal
  {
    forall p | 0 <= p < |goal|
      ensures cells[p] == goal[p]
    {
      SlotBound(p, nrow, w);
      assert SlotDone(p, nrow, nrow, 0);
    }
  }

  /** Slots not yet reached still hold the padding they were given at the start. */
  predicate Untouched<T(==)>(cells: seq<Cell<T>>, pad: Cell<T>, nrow: nat, i: int, n: int)
    requires nrow > 0
  {
    forall p :: 0 <= p < |cells| && !SlotDone(p, nrow, i, n) ==> cells[p] == pad
  }

  lemma UntouchedStep<T>(cells: seq<Cell<T>>, pad: Cell<T>, nrow: nat, i: nat, n: nat, c: Cell<T>)
    requires i < nrow && Untouched(cells, pad, nrow, i, n) && 0 <= EllInd(i, n, nrow) < |cells|
    ensures Untouched(cells[EllInd(i, n, nrow) := c], pad, nrow, i, n + 1)
  {
    var next := cells[EllInd(i, n, nrow) := c];
    forall p | 0 <= p < |next| && !SlotDone(p, nrow, i, n + 1)
      ensures next[p] == pad
    {
      SlotDoneStep(p, nrow, i, n);
    }
  }

  /** A row whose cells are in place needs no padding written when the slots began as padding. */
  lemma PaddedRow<T>(cells: seq<Cell<T>>, rows: RowList<T>, w: nat, pad: Cell<T>, i: nat, n: nat)
    requires i < |rows| && n == Min(|rows[i]|, w)
    requires Filled(cells, EllCells(rows, w, pad), |rows|, i, n) && Untouched(cells, pad, |rows|, i, n)
    ensures Filled(cells, EllCells(rows, w, pad), |rows|, i + 1, 0) && Untouched(cells, pad, |rows|, i + 1, 0)
  {
    var goal := EllCells(rows, w, pad);
    forall p | 0 <= p < |goal| && SlotDone(p, |rows|, i, w)
      ensures cells[p] == goal[p]
    {
      SlotBound(p, |rows|, w);
    }
    FillRow(cells, goal, |rows|, w, i);
  }

  lemma {:induction false} EllRowMonotone<T>(e: Ell<T>, i: nat, m: nat, n: nat)
    requires ValidEll(e) && i < e.nrow && m <= n <= e.maxRow
    ensures |EllRow(e, i, m)| <= |EllRow(e, i, n)|
  {
    if m < n {
      EllRowMonotone(e, i, m, n - 1);
    }
  }

  // ---------------------------------------------------------------- appending rows

  /** `cells` begins with the rows before i and then `part`, the beginning of row i. */
  ghost predicate Appended<T>(cells: seq<Cell<T>>, rows: RowList<T>, i: nat, part: seq<Cell<T>>)
    requires i <= |rows|
  {
    Flatten(rows[..i]) + part <= cells
  }

  /** Room for one more cell of row i. */
  lemma AppendRoom<T>(rows: RowList<T>, i: nat, n: nat)
    requires i < |rows| && n < |rows[i]|
    ensures |Flatten(rows[..i])| + n < |Flatten(rows)|
    ensures |Flatten(rows[..i])| == Prefix(Lengths(rows))[i]
  {
    FlattenPrefix(rows, i);
    FlattenSlice(rows, i);
  }

  lemma FlattenPrefix<T>(rows: RowList<T>, i: nat)
    requires i <= |rows|
    ensures |Flatten(rows[..i])| == Prefix(Lengths(rows))[i]
  {
    FlattenLength(rows[..i]);
    LengthsSnoc(rows, i);
  }

  lemma AppendCell<T>(cells: seq<Cell<T>>, rows: RowList<T>, i: nat, part: seq<Cell<T>>, c: Cell<T>)
    requires i <= |rows| && Appended(cells, rows, i, part)
    requires |Flatten(rows[..i])| + |part| < |cells|
    ensures Appended(cells[|Flatten(rows[..i])| + |part| := c], rows, i, part + [c])
  {
  }

  lemma AppendRow<T>(cells: seq<Cell<T>>, rows: RowList<T>, i: nat)
    requires i < |rows| && Appended(cells, rows, i, rows[i])
    ensures Appended(cells, rows, i + 1, [])
  {
    assert rows[..i + 1][..i] == rows[..i];
  }

  // ---------------------------------------------------------------- the COO part of HYB

  predicate SomeRowLonger<T>(rows: RowList<T>, w: nat)
  {
    exists i :: 0 <= i < |rows| && |rows[i]| > w
  }

  /** Rows longer than w are exactly what makes the COO part non-empty. */
  lemma SpillsWhenLonger<T>(rows: RowList<T>, w: nat)
    ensures |Tails(rows, w)| > 0 <==> SomeRowLonger(rows, w)
  {
    if i :| 0 <= i < |rows| && |rows[i]| > w {
      LongerSpills(rows, w, i);
    }
    if |Tails(rows, w)| > 0 {
      SpillIsLonger(rows, w);
    }
  }

  lemma LongerSpills<T>(rows: RowList<T>, w: nat, i: nat)
    requires i < |rows| && |rows[i]| > w
    ensures |Tails(rows, w)| > 0
  {
    var lens := Lengths(TailParts(rows, w));
    PrefixMonotone(lens, 0, i);
    PrefixStep(lens, i);
    PrefixMonotone(lens, i + 1, |rows|);
    PrefixEnd(TailParts(rows, w));
  }

  lemma SpillIsLonger<T>(rows: RowList<T>, w: nat)
    requires |Tails(rows, w)| > 0
    ensures SomeRowLonger(rows, w)
  {
    var lens := Lengths(TailParts(rows, w));
    FlattenLength(TailParts(rows, w));
    var i := SegmentOf(lens, 0);
    SegmentOfContains(lens, 0);
    PrefixStep(lens, i);
    assert |Drop(rows[i], w)| > 0;
  }

  /** The cursor at the start of row i: entry k is of row i exactly when it lies before the next row. */
  lemma RowAtCursor<T>(es: seq<Entry<T>>, i: int, k: nat)
    requires Sorted(RowIndices(es)) && CountBelow(RowIndices(es), i) <= k < |es|
    ensures CountBelow(RowIndices(es), i) <= CountBelow(RowIndices(es), i + 1)
    ensures |CooRow(es, i)| == CountBelow(RowIndices(es), i + 1) - CountBelow(RowIndices(es), i)
    ensures es[k].row >= i
    ensures es[k].row == i <==> k < CountBelow(RowIndices(es), i + 1)
    ensures es[k].row == i ==>
            CooRow(es, i)[k - CountBelow(RowIndices(es), i)] == Cell(es[k].col, es[k].val)
  {
    SortedRowIsSlice(es, i, |es|);
    CountBelowMonotone(RowIndices(es), i, i + 1);
    assert es[..|es|] == es;
    SortedSlice(RowIndices(es), k, i);
    SortedSlice(RowIndices(es), k, i + 1);
  }

  lemma RowLength<T>(es: seq<Entry<T>>, i: int)
    ensures |CooRow(es, i)| == CountBelow(RowIndices(es), i + 1) - CountBelow(RowIndices(es), i)
    ensures CountBelow(RowIndices(es), i) <= CountBelow(RowIndices(es), i + 1) <= |es|
  {
    CooRowLength(es, i);
    CountBelowStep(RowIndices(es), i);
    CountBelowMonotone(RowIndices(es), i, i + 1);
  }
}
