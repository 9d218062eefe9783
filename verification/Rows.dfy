/** What a sparse matrix means whatever its format: for each row, the ordered list of its
    (column, value) cells. */
module Rows {
  import opened Sequences

  datatype Entry<T> = Entry(row: int, col: int, val: T)

  datatype Cell<T> = Cell(col: int, val: T)

  type RowList<T> = seq<seq<Cell<T>>>

  function ZipEntries<T>(row: seq<int>, col: seq<int>, val: seq<T>): (es: seq<Entry<T>>)
    requires |row| == |col| == |val|
    ensures |es| == |row|
  {
    seq(|row|, k requires 0 <= k < |row| => Entry(row[k], col[k], val[k]))
  }

  lemma EntriesPrefix<T>(row: seq<int>, col: seq<int>, val: seq<T>, n: nat)
    requires n <= |row| == |col| == |val|
    ensures ZipEntries(row, col, val)[..n] == ZipEntries(row[..n], col[..n], val[..n])
  {
  }

  function ZipCells<T>(col: seq<int>, val: seq<T>): (cs: seq<Cell<T>>)
    requires |col| == |val|
    ensures |cs| == |col|
  {
    seq(|col|, k requires 0 <= k < |col| => Cell(col[k], val[k]))
  }

  function RowIndices<T>(es: seq<Entry<T>>): (r: seq<int>)
    ensures |r| == |es|
  {
    seq(|es|, k requires 0 <= k < |es| => es[k].row)
  }

  function ColIndices<T>(es: seq<Entry<T>>): (r: seq<int>)
    ensures |r| == |es|
  {
    seq(|es|, k requires 0 <= k < |es| => es[k].col)
  }

  /** The cells of row i, in the order the entries list them. */
  function CooRow<T>(es: seq<Entry<T>>, i: int): seq<Cell<T>>
  {
    if es == [] then []
    else
      var e := es[|es| - 1];
      CooRow(es[..|es| - 1], i) + (if e.row == i then [Cell(e.col, e.val)] else [])
  }

  function CooRows<T>(es: seq<Entry<T>>, nrow: nat): (rows: RowList<T>)
    ensures |rows| == nrow
  {
    seq(nrow, i requires 0 <= i < nrow => CooRow(es, i))
  }

  lemma CooRowSnoc<T>(es: seq<Entry<T>>, k: nat, i: int)
    requires k < |es|
    ensures CooRow(es[..k + 1], i) ==
            CooRow(es[..k], i) + (if es[k].row == i then [Cell(es[k].col, es[k].val)] else [])
  {
    assert es[..k + 1][..k] == es[..k];
  }

  lemma {:induction false} CooRowConcat<T>(a: seq<Entry<T>>, b: seq<Entry<T>>, i: int)
    ensures CooRow(a + b, i) == CooRow(a, i) + CooRow(b, i)
  {
    if b == [] {
      assert a + b == a;
    } else {
      CooRowConcat(a, b[..|b| - 1], i);
      assert (a + b)[..|a + b| - 1] == a + b[..|b| - 1];
    }
  }

  lemma {:induction false} CooRowLength<T>(es: seq<Entry<T>>, i: int)
    ensures |CooRow(es, i)| == Count(RowIndices(es), i)
  {
    if es != [] {
      CooRowLength(es[..|es| - 1], i);
      assert RowIndices(es)[..|es| - 1] == RowIndices(es[..|es| - 1]);
    }
  }

  function Lengths<U>(parts: seq<seq<U>>): (l: seq<int>)
    ensures |l| == |parts| && NonNegative(l)
  {
    seq(|parts|, i requires 0 <= i < |parts| => |parts[i]|)
  }

  function Flatten<U>(parts: seq<seq<U>>): seq<U>
  {
    if parts == [] then [] else Flatten(parts[..|parts| - 1]) + parts[|parts| - 1]
  }

  lemma LengthsSnoc<U>(rows: seq<seq<U>>, i: nat)
    requires i <= |rows|
    ensures Lengths(rows[..i]) == Lengths(rows)[..i]
  {
  }

  lemma {:induction false} FlattenLength<U>(rows: seq<seq<U>>)
    ensures |Flatten(rows)| == Sum(Lengths(rows))
  {
    if rows != [] {
      FlattenLength(rows[..|rows| - 1]);
      LengthsSnoc(rows, |rows| - 1);
    }
  }

  lemma PrefixEnd<U>(parts: seq<seq<U>>)
    ensures Prefix(Lengths(parts))[|parts|] == |Flatten(parts)|
  {
    FlattenLength(parts);
    assert Lengths(parts)[..|parts|] == Lengths(parts);
  }

  /** `part` is what lies in s between the offsets i and i + 1. */
  predicate SliceIs<T(==)>(s: seq<T>, offset: seq<int>, i: nat, part: seq<T>)
    requires i + 1 < |offset|
  {
    0 <= offset[i] <= offset[i + 1] <= |s| && s[offset[i]..offset[i + 1]] == part
  }

  /** Row i occupies the positions between its prefix sums. */
  lemma {:induction false} FlattenSlice<U>(rows: seq<seq<U>>, i: nat)
    requires i < |rows|
    ensures SliceIs(Flatten(rows), Prefix(Lengths(rows)), i, rows[i])
  {
    var n := |rows| - 1;
    FlattenLength(rows);
    FlattenLength(rows[..n]);
    LengthsSnoc(rows, n);
    PrefixMonotone(Lengths(rows), i, i + 1);
    PrefixMonotone(Lengths(rows), i + 1, n + 1);
    assert Lengths(rows)[..n + 1] == Lengths(rows);
    if i < n {
      FlattenSlice(rows[..n], i);
      assert Lengths(rows)[..n][..i] == Lengths(rows)[..i];
      assert Lengths(rows)[..n][..i + 1] == Lengths(rows)[..i + 1];
    }
  }

  /** A cell list whose slices are the rows is their concatenation. */
  lemma {:induction false} SlicesDetermine<U>(rows: seq<seq<U>>, cells: seq<U>, n: nat)
    requires n <= |rows|
    requires forall i :: 0 <= i < n ==> SliceIs(cells, Prefix(Lengths(rows)), i, rows[i])
    ensures 0 == Prefix(Lengths(rows))[0] <= Prefix(Lengths(rows))[n]
    ensures 0 < n ==> Prefix(Lengths(rows))[n] <= |cells|
    ensures 0 < n ==> cells[..Prefix(Lengths(rows))[n]] == Flatten(rows[..n])
  {
    var p := Prefix(Lengths(rows));
    if n > 0 {
      SlicesDetermine(rows, cells, n - 1);
      assert SliceIs(cells, p, n - 1, rows[n - 1]);
      assert rows[..n][..n - 1] == rows[..n - 1];
      assert cells[..p[n]] == cells[..p[n - 1]] + cells[p[n - 1]..p[n]];
    }
  }

  function Drop<T>(row: seq<Cell<T>>, w: nat): seq<Cell<T>>
  {
    if |row| <= w then [] else row[w..]
  }

  function Labelled<T>(i: int, row: seq<Cell<T>>): (es: seq<Entry<T>>)
    ensures |es| == |row|
  {
    seq(|row|, k requires 0 <= k < |row| => Entry(i, row[k].col, row[k].val))
  }

  /** For every row, its cells beyond position w, labelled with the row. */
  function TailParts<T>(rows: RowList<T>, w: nat): (parts: seq<seq<Entry<T>>>)
    ensures |parts| == |rows|
  {
    seq(|rows|, i requires 0 <= i < |rows| => Labelled(i, Drop(rows[i], w)))
  }

  /** The cells beyond position w of every row, row after row. */
  function Tails<T>(rows: RowList<T>, w: nat): seq<Entry<T>>
  {
    Flatten(TailParts(rows, w))
  }

  lemma TailsSnoc<T>(rows: RowList<T>, w: nat, n: nat)
    requires n < |rows|
    ensures Tails(rows[..n + 1], w) == Tails(rows[..n], w) + Labelled(n, Drop(rows[n], w))
  {
    assert TailParts(rows[..n + 1], w)[..n] == TailParts(rows[..n], w);
  }

  lemma {:induction false} CooRowLabelled<T>(i: int, row: seq<Cell<T>>, j: int)
    ensures CooRow(Labelled(i, row), j) == if i == j then row else []
  {
    if row != [] {
      CooRowLabelled(i, row[..|row| - 1], j);
      assert Labelled(i, row)[..|row| - 1] == Labelled(i, row[..|row| - 1]);
    }
  }

  /** Row i of the tails is what lies beyond position w in row i. */
  lemma {:induction false} CooRowTails<T>(rows: RowList<T>, w: nat, i: int)
    ensures CooRow(Tails(rows, w), i) == if 0 <= i < |rows| then Drop(rows[i], w) else []
  {
    if rows != [] {
      var n := |rows| - 1;
      CooRowTails(rows[..n], w, i);
      TailsSnoc(rows, w, n);
      assert rows[..n + 1] == rows;
      CooRowConcat(Tails(rows[..n], w), Labelled(n, Drop(rows[n], w)), i);
      CooRowLabelled(n, Drop(rows[n], w), i);
    }
  }

  lemma {:induction false} TailsSorted<T>(rows: RowList<T>, w: nat)
    ensures Sorted(RowIndices(Tails(rows, w))) && InRange(RowIndices(Tails(rows, w)), |rows|)
  {
    if rows != [] {
      TailsSorted(rows[..|rows| - 1], w);
      TailsSnoc(rows, w, |rows| - 1);
      assert rows[..|rows|] == rows;
      var init := Tails(rows[..|rows| - 1], w);
      assert forall k :: 0 <= k < |init| ==> RowIndices(Tails(rows, w))[k] == RowIndices(init)[k];
    }
  }

  function Unlabelled<T>(es: seq<Entry<T>>): (cs: seq<Cell<T>>)
    ensures |cs| == |es|
  {
    seq(|es|, k requires 0 <= k < |es| => Cell(es[k].col, es[k].val))
  }

  /** In row-sorted entries, a row is a slice between two offsets. */
  lemma {:induction false} SortedRowIsSlice<T>(es: seq<Entry<T>>, i: int, t: nat)
    requires Sorted(RowIndices(es)) && t <= |es|
    ensures CountBelow(RowIndices(es), i) <= CountBelow(RowIndices(es), i + 1)
    ensures CooRow(es[..t], i) ==
            Unlabelled(es[Min(CountBelow(RowIndices(es), i), t)..Min(CountBelow(RowIndices(es), i + 1), t)])
  {
    var lo, hi := CountBelow(RowIndices(es), i), CountBelow(RowIndices(es), i + 1);
    CountBelowMonotone(RowIndices(es), i, i + 1);
    if t > 0 {
      var k := t - 1;
      SortedRowIsSlice(es, i, k);
      CooRowSnoc(es, k, i);
      SortedSlice(RowIndices(es), k, i);
      SortedSlice(RowIndices(es), k, i + 1);
      if lo <= k < hi {
        assert es[lo..t] == es[lo..k] + [es[k]];
        assert Unlabelled(es[lo..t]) == Unlabelled(es[lo..k]) + [Cell(es[k].col, es[k].val)];
      } else {
        assert CooRow(es[..t], i) == CooRow(es[..k], i);
        assert Min(hi, t) - Min(lo, t) == Min(hi, k) - Min(lo, k);
      }
    }
  }

  /** In row-sorted entries, the slice of a row is that row, labelled. */
  lemma SortedSliceIsLabelled<T>(es: seq<Entry<T>>, i: int)
    requires Sorted(RowIndices(es))
    ensures CountBelow(RowIndices(es), i) <= CountBelow(RowIndices(es), i + 1) <= |es|
    ensures es[CountBelow(RowIndices(es), i)..CountBelow(RowIndices(es), i + 1)] == Labelled(i, CooRow(es, i))
  {
    var r := RowIndices(es);
    SortedRowIsSlice(es, i, |es|);
    CountBelowMonotone(r, i, i + 1);
    var a, b := CountBelow(r, i), CountBelow(r, i + 1);
    assert es[..|es|] == es && CooRow(es, i) == Unlabelled(es[a..b]);
    forall k | a <= k < b
      ensures es[k] == Labelled(i, CooRow(es, i))[k - a]
    {
      SortedSlice(r, k, i);
      SortedSlice(r, k, i + 1);
    }
  }

  /** Row-sorted entries are exactly their rows, labelled, one after the other. */
  lemma {:induction false} SortedIsTails<T>(es: seq<Entry<T>>, nrow: nat, n: nat)
    requires Sorted(RowIndices(es)) && InRange(RowIndices(es), nrow) && n <= nrow
    ensures CountBelow(RowIndices(es), n) <= |es|
    ensures Tails(CooRows(es, n), 0) == es[..CountBelow(RowIndices(es), n)]
  {
    var r := RowIndices(es);
    CountBelowMonotone(r, n, n);
    if n == 0 {
      CountBelowEnds(r, nrow);
    } else {
      SortedIsTails(es, nrow, n - 1);
      assert CooRows(es, n)[..n - 1] == CooRows(es, n - 1) && CooRows(es, n)[..n] == CooRows(es, n);
      TailsSnoc(CooRows(es, n), 0, n - 1);
      SortedSliceIsLabelled(es, n - 1);
      var a, b := CountBelow(r, n - 1), CountBelow(r, n);
      assert es[..b] == es[..a] + es[a..b];
    }
  }
}
