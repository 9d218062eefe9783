/** What a list of entries denotes as a matrix of integers, and the product of two such lists. */
module Denotation {
  import opened Rows
  import opened Formats
  import opened Spmv

  /** The element at (i, j): repeated entries add up. */
  function At(es: seq<Entry<int>>, i: int, j: int): int
  {
    if es == [] then 0
    else
      var e := es[|es| - 1];
      At(es[..|es| - 1], i, j) + (if e.row == i && e.col == j then e.val else 0)
  }

  /** A weight for every position of the matrix. */
  type Weight = (int, int) -> int

  /** The sum of the values, each times the weight of its position.  Two lists denote the same
      matrix when no weight tells them apart. */
  function Weigh(es: seq<Entry<int>>, w: Weight): int
  {
    if es == [] then 0
    else
      var e := es[|es| - 1];
      Weigh(es[..|es| - 1], w) + e.val * w(e.row, e.col)
  }

  function Pick(i: int, j: int): Weight
  {
    (r, c) => if r == i && c == j then 1 else 0
  }

  lemma {:induction false} AtIsWeigh(es: seq<Entry<int>>, i: int, j: int)
    ensures At(es, i, j) == Weigh(es, Pick(i, j))
  {
    if es != [] {
      AtIsWeigh(es[..|es| - 1], i, j);
    }
  }

  lemma {:induction false} WeighConcat(a: seq<Entry<int>>, b: seq<Entry<int>>, w: Weight)
    ensures Weigh(a + b, w) == Weigh(a, w) + Weigh(b, w)
  {
    if b == [] {
      assert a + b == a;
    } else {
      WeighConcat(a, b[..|b| - 1], w);
      assert (a + b)[..|a + b| - 1] == a + b[..|b| - 1];
    }
  }

  /** Some occurrence of e in s, and what stands before and behind it. */
  lemma TakeOut(s: seq<Entry<int>>, e: Entry<int>) returns (h: seq<Entry<int>>, t: seq<Entry<int>>)
    requires e in multiset(s)
    ensures s == h + [e] + t && multiset(h + t) == multiset(s) - multiset{e}
  {
    var k :| 0 <= k < |s| && s[k] == e;
    h, t := s[..k], s[k + 1..];
    assert s == h + [e] + t;
  }

  lemma WeighMiddle(h: seq<Entry<int>>, e: Entry<int>, t: seq<Entry<int>>, w: Weight)
    ensures Weigh(h + [e] + t, w) == Weigh(h + t, w) + e.val * w(e.row, e.col)
  {
    WeighConcat(h, [e], w);
    WeighConcat(h + [e], t, w);
    WeighConcat(h, t, w);
    WeighOne(e, w);
  }

  /** The order of the entries does not matter. */
  lemma {:induction false} WeighPermuted(a: seq<Entry<int>>, b: seq<Entry<int>>, w: Weight)
    requires multiset(a) == multiset(b)
    ensures Weigh(a, w) == Weigh(b, w)
    decreases |a|
  {
    if a == [] {
      assert |multiset(b)| == 0;
    } else {
      var init, e := a[..|a| - 1], a[|a| - 1];
      assert a == init + [e];
      var h, t := TakeOut(b, e);
      WeighPermuted(init, h + t, w);
      WeighMiddle(h, e, t, w);
    }
  }

  lemma WeighOne(e: Entry<int>, w: Weight)
    ensures Weigh([e], w) == e.val * w(e.row, e.col)
  {
    assert [e][..0] == [];
  }

  lemma {:induction false} WeighAlike(es: seq<Entry<int>>, v: Weight, w: Weight)
    requires forall r, c :: v(r, c) == w(r, c)
    ensures Weigh(es, v) == Weigh(es, w)
  {
    if es != [] {
      WeighAlike(es[..|es| - 1], v, w);
    }
  }

  // ---------------------------------------------------------------- the product of two matrices

  /** The term of two entries that meet. */
  function Term(e: Entry<int>, f: Entry<int>): Entry<int>
  {
    Entry(e.row, f.col, e.val * f.val)
  }

  /** The terms that entry e contributes: e times every entry of b in row e.col. */
  function Terms(e: Entry<int>, b: seq<Entry<int>>): (es: seq<Entry<int>>)
    ensures |es| == |CooRow(b, e.col)|
  {
    var row := CooRow(b, e.col);
    seq(|row|, m requires 0 <= m < |row| => Entry(e.row, row[m].col, e.val * row[m].val))
  }

  function TermParts(a: seq<Entry<int>>, b: seq<Entry<int>>): (parts: seq<seq<Entry<int>>>)
    ensures |parts| == |a|
  {
    seq(|a|, s requires 0 <= s < |a| => Terms(a[s], b))
  }

  /** The schoolbook product: all terms of all entries of a, in order. */
  function Schoolbook(a: seq<Entry<int>>, b: seq<Entry<int>>): seq<Entry<int>>
  {
    Flatten(TermParts(a, b))
  }

  lemma SchoolbookSnoc(a: seq<Entry<int>>, b: seq<Entry<int>>)
    requires a != []
    ensures Schoolbook(a, b) == Schoolbook(a[..|a| - 1], b) + Terms(a[|a| - 1], b)
  {
    assert TermParts(a, b)[..|a| - 1] == TermParts(a[..|a| - 1], b);
  }

  /** The weight an entry of b gets through entry e of a. */
  function Under(e: Entry<int>, w: Weight): Weight
  {
    (r, c) => if r == e.col then w(e.row, c) else 0
  }

  lemma Regroup(x: int, y: int, z: int)
    ensures (x * y) * z == x * (y * z)
  {
  }

  lemma Distribute(x: int, y: int, z: int)
    ensures x * (y + z) == x * y + x * z
  {
  }

  lemma TermsSnoc(e: Entry<int>, b: seq<Entry<int>>)
    requires b != []
    ensures var init, f := b[..|b| - 1], b[|b| - 1];
            Terms(e, b) == Terms(e, init) + (if f.row == e.col then [Entry(e.row, f.col, e.val * f.val)] else [])
  {
    var init, f := b[..|b| - 1], b[|b| - 1];
    if f.row != e.col {
      assert CooRow(b, e.col) == CooRow(init, e.col);
    }
  }

  lemma {:induction false} WeighTerms(e: Entry<int>, b: seq<Entry<int>>, w: Weight)
    ensures Weigh(Terms(e, b), w) == e.val * Weigh(b, Under(e, w))
  {
    if b != [] {
      var init, f := b[..|b| - 1], b[|b| - 1];
      WeighTerms(e, init, w);
      TermsSnoc(e, b);
      Distribute(e.val, Weigh(init, Under(e, w)), f.val * Under(e, w)(f.row, f.col));
      if f.row == e.col {
        var t := Entry(e.row, f.col, e.val * f.val);
        WeighConcat(Terms(e, init), [t], w);
        WeighOne(t, w);
        Regroup(e.val, f.val, w(e.row, f.col));
      } else {
        assert Terms(e, b) == Terms(e, init);
      }
    }
  }

  /** The sum over k < n of a(i, k) * b(k, j). */
  function Dot(a: seq<Entry<int>>, b: seq<Entry<int>>, i: int, j: int, n: nat): int
  {
    if n == 0 then 0 else Dot(a, b, i, j, n - 1) + At(a, i, n - 1) * At(b, n - 1, j)
  }

  lemma {:induction false} DotEmpty(b: seq<Entry<int>>, i: int, j: int, n: nat)
    ensures Dot([], b, i, j, n) == 0
  {
    if n > 0 {
      DotEmpty(b, i, j, n - 1);
    }
  }

  lemma {:induction false} DotSnoc(a: seq<Entry<int>>, b: seq<Entry<int>>, i: int, j: int, n: nat)
    requires a != []
    ensures var e := a[|a| - 1];
            Dot(a, b, i, j, n) == Dot(a[..|a| - 1], b, i, j, n)
                                  + (if e.row == i && 0 <= e.col < n then e.val * At(b, e.col, j) else 0)
  {
    if n > 0 {
      DotSnoc(a, b, i, j, n - 1);
      var e := a[|a| - 1];
      if e.row == i && e.col == n - 1 {
        Distribute(At(b, n - 1, j), At(a[..|a| - 1], i, n - 1), e.val);
      }
    }
  }

  lemma AtTerms(e: Entry<int>, b: seq<Entry<int>>, i: int, j: int)
    ensures Weigh(Terms(e, b), Pick(i, j)) == if e.row == i then e.val * At(b, e.col, j) else 0
  {
    WeighTerms(e, b, Pick(i, j));
    if e.row == i {
      WeighAlike(b, Under(e, Pick(i, j)), Pick(e.col, j));
      AtIsWeigh(b, e.col, j);
    } else {
      WeighZero(b, Under(e, Pick(i, j)));
    }
  }

  lemma {:induction false} WeighZero(es: seq<Entry<int>>, w: Weight)
    requires forall r, c :: w(r, c) == 0
    ensures Weigh(es, w) == 0
  {
    if es != [] {
      WeighZero(es[..|es| - 1], w);
    }
  }

  /** The schoolbook product denotes the matrix product, repeated entries counting as sums. */
  lemma {:induction false} SchoolbookIsProduct(a: seq<Entry<int>>, b: seq<Entry<int>>, i: int, j: int, n: nat)
    requires forall s :: 0 <= s < |a| ==> 0 <= a[s].col < n
    ensures At(Schoolbook(a, b), i, j) == Dot(a, b, i, j, n)
  {
    AtIsWeigh(Schoolbook(a, b), i, j);
    if a == [] {
      DotEmpty(b, i, j, n);
    } else {
      var init, e := a[..|a| - 1], a[|a| - 1];
      SchoolbookIsProduct(init, b, i, j, n);
      AtIsWeigh(Schoolbook(init, b), i, j);
      SchoolbookSnoc(a, b);
      WeighConcat(Schoolbook(init, b), Terms(e, b), Pick(i, j));
      AtTerms(e, b, i, j);
      DotSnoc(a, b, i, j, n);
    }
  }

  // ---------------------------------------------------------------- products with vectors

  /** The operations of MatrixCOO<int, CPU>. */
  const INT_OPS: Ops<int> := Ops(0, (x: int, y: int) => x + y, (x: int, y: int) => x * y)

  function RowWeight(i: int, x: seq<int>): Weight
  {
    (r, c) => if r == i && 0 <= c < |x| then x[c] else 0
  }

  /** One row of the COO product is a weighing of the entries. */
  lemma {:induction false} FoldIsWeigh(x: seq<int>, es: seq<Entry<int>>, i: int)
    requires ColumnsIn(CooRow(es, i), |x|)
    ensures Fold(INT_OPS, x, CooRow(es, i), 0) == Weigh(es, RowWeight(i, x))
  {
    if es != [] {
      var init, e := es[..|es| - 1], es[|es| - 1];
      var row := CooRow(init, i);
      assert forall k :: 0 <= k < |row| ==> row[k] == CooRow(es, i)[k];
      FoldIsWeigh(x, init, i);
      if e.row == i {
        assert CooRow(es, i)[|row|] == Cell(e.col, e.val);
        FoldSnoc(INT_OPS, x, row, Cell(e.col, e.val), 0);
      } else {
        assert CooRow(es, i) == row;
      }
    }
  }

  /** The sum over k < n of es(i, k) * x(k). */
  function DenseRow(es: seq<Entry<int>>, x: seq<int>, i: int, n: nat): int
    requires n <= |x|
  {
    if n == 0 then 0 else DenseRow(es, x, i, n - 1) + At(es, i, n - 1) * x[n - 1]
  }

  lemma {:induction false} DenseEmpty(x: seq<int>, i: int, n: nat)
    requires n <= |x|
    ensures DenseRow([], x, i, n) == 0
  {
    if n > 0 {
      DenseEmpty(x, i, n - 1);
    }
  }

  lemma {:induction false} DenseSnoc(es: seq<Entry<int>>, x: seq<int>, i: int, n: nat)
    requires es != [] && n <= |x|
    ensures var e := es[|es| - 1];
            DenseRow(es, x, i, n) == DenseRow(es[..|es| - 1], x, i, n)
                                     + (if e.row == i && 0 <= e.col < n then e.val * x[e.col] else 0)
  {
    if n > 0 {
      DenseSnoc(es, x, i, n - 1);
      var e := es[|es| - 1];
      if e.row == i && e.col == n - 1 {
        Distribute(x[n - 1], At(es[..|es| - 1], i, n - 1), e.val);
      }
    }
  }

  lemma {:induction false} WeighIsDense(es: seq<Entry<int>>, x: seq<int>, i: int)
    ensures Weigh(es, RowWeight(i, x)) == DenseRow(es, x, i, |x|)
  {
    if es == [] {
      DenseEmpty(x, i, |x|);
    } else {
      WeighIsDense(es[..|es| - 1], x, i);
      DenseSnoc(es, x, i, |x|);
    }
  }

  /** The COO product is the matrix-vector product of what the entries denote. */
  lemma CooProductIsDense(es: seq<Entry<int>>, x: seq<int>, nrow: nat, i: nat)
    requires ValidCoo(es, nrow, |x|) && i < nrow
    ensures AllColumnsIn(CooRows(es, nrow), |x|)
    ensures Product(INT_OPS, x, CooRows(es, nrow))[i] == DenseRow(es, x, i, |x|)
  {
    CooRowsColumns(es, nrow, |x|);
    CooRowColumns(es, |x|, i);
    FoldIsWeigh(x, es, i);
    WeighIsDense(es, x, i);
  }

  /** Multiplying by the schoolbook product is multiplying by b and then by a. */
  lemma {:induction false} SchoolbookAssociates(a: seq<Entry<int>>, b: seq<Entry<int>>, x: seq<int>, y: seq<int>,
                                                i: int)
    requires forall s :: 0 <= s < |a| ==> 0 <= a[s].col < |y|
    requires forall k :: 0 <= k < |y| ==> y[k] == Weigh(b, RowWeight(k, x))
    ensures Weigh(Schoolbook(a, b), RowWeight(i, x)) == Weigh(a, RowWeight(i, y))
  {
    if a != [] {
      var init, e := a[..|a| - 1], a[|a| - 1];
      SchoolbookAssociates(init, b, x, y, i);
      SchoolbookSnoc(a, b);
      WeighConcat(Schoolbook(init, b), Terms(e, b), RowWeight(i, x));
      WeighTerms(e, b, RowWeight(i, x));
      if e.row == i {
        WeighAlike(b, Under(e, RowWeight(i, x)), RowWeight(e.col, x));
      } else {
        WeighZero(b, Under(e, RowWeight(i, x)));
      }
    }
  }
}
