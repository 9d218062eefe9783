/** What the sparse matrix product of main.cpp computes, and what it denotes. */
module SpmmTheorems {
  import opened Sequences
  import opened Rows
  import opened Formats
  import opened Spmv
  import opened Denotation
  import opened Compression
  import opened Expansion

  /** The entries of C: all terms, sorted except for the last, neighbours with equal keys merged. */
  function Spmm(a: seq<Entry<int>>, b: seq<Entry<int>>): seq<Entry<int>>
  {
    var es := Schoolbook(a, b);
    if es == [] then [] else Compressed(es, |es| - 1)
  }

  lemma SpmmConserves(a: seq<Entry<int>>, b: seq<Entry<int>>, w: Weight)
    ensures Weigh(Spmm(a, b), w) == Weigh(Schoolbook(a, b), w)
  {
    var es := Schoolbook(a, b);
    if es != [] {
      CompressedConserves(es, |es| - 1, w);
    }
  }

  /** C denotes the matrix product: C(i, j) is the sum over k of A(i, k) * B(k, j). */
  lemma SpmmIsProduct(a: seq<Entry<int>>, b: seq<Entry<int>>, i: int, j: int, n: nat)
    requires forall s :: 0 <= s < |a| ==> 0 <= a[s].col < n
    ensures At(Spmm(a, b), i, j) == Dot(a, b, i, j, n)
  {
    AtIsWeigh(Spmm(a, b), i, j);
    AtIsWeigh(Schoolbook(a, b), i, j);
    SpmmConserves(a, b, Pick(i, j));
    SchoolbookIsProduct(a, b, i, j, n);
  }

  lemma TermKeys(e: Entry<int>, b: seq<Entry<int>>, n: int, ncol: int)
    requires ValidCoo(b, n, ncol)
    ensures forall m :: 0 <= m < |Terms(e, b)| ==> Terms(e, b)[m].row == e.row && 0 <= Terms(e, b)[m].col < ncol
  {
    CooRowColumns(b, ncol, e.col);
  }

  lemma {:induction false} SchoolbookValid(a: seq<Entry<int>>, b: seq<Entry<int>>, nrow: int, n: int, ncol: int)
    requires ValidCoo(a, nrow, n) && ValidCoo(b, n, ncol)
    ensures ValidCoo(Schoolbook(a, b), nrow, ncol)
  {
    if a != [] {
      SchoolbookValid(a[..|a| - 1], b, nrow, n, ncol);
      SchoolbookSnoc(a, b);
      TermKeys(a[|a| - 1], b, n, ncol);
    }
  }

  ghost predicate KeysWithin(es: seq<Entry<int>>, nrow: int, ncol: int)
  {
    forall k :: k in Keys(es) ==> 0 <= k.0 < nrow && 0 <= k.1 < ncol
  }

  lemma ValidIsKeysWithin(es: seq<Entry<int>>, nrow: int, ncol: int)
    ensures ValidCoo(es, nrow, ncol) <==> KeysWithin(es, nrow, ncol)
  {
    if KeysWithin(es, nrow, ncol) {
      forall k | 0 <= k < |es|
        ensures 0 <= es[k].row < nrow && 0 <= es[k].col < ncol
      {
        assert es[k] in es && KeyOf(es[k]) in Keys(es);
      }
    }
  }

  /** C's entries lie inside C. */
  lemma SpmmValid(a: seq<Entry<int>>, b: seq<Entry<int>>, nrow: int, n: int, ncol: int)
    requires ValidCoo(a, nrow, n) && ValidCoo(b, n, ncol)
    ensures ValidCoo(Spmm(a, b), nrow, ncol)
  {
    var es := Schoolbook(a, b);
    SchoolbookValid(a, b, nrow, n, ncol);
    if es != [] {
      CompressedKeys(es, |es| - 1);
      ValidIsKeysWithin(es, nrow, ncol);
      ValidIsKeysWithin(Spmm(a, b), nrow, ncol);
    }
  }

  /** Multiplying a vector by C is multiplying it by B and then by A. */
  lemma SpmmAssociates(a: seq<Entry<int>>, b: seq<Entry<int>>, x: seq<int>, nrow: nat, n: nat)
    requires ValidCoo(a, nrow, n) && ValidCoo(b, n, |x|)
    ensures AllColumnsIn(CooRows(b, n), |x|) && AllColumnsIn(CooRows(a, nrow), n)
    ensures AllColumnsIn(CooRows(Spmm(a, b), nrow), |x|)
    ensures Product(INT_OPS, x, CooRows(Spmm(a, b), nrow)) ==
            Product(INT_OPS, Product(INT_OPS, x, CooRows(b, n)), CooRows(a, nrow))
  {
    var c := Spmm(a, b);
    SpmmValid(a, b, nrow, n, |x|);
    CooRowsColumns(b, n, |x|);
    CooRowsColumns(a, nrow, n);
    CooRowsColumns(c, nrow, |x|);
    var y := Product(INT_OPS, x, CooRows(b, n));
    forall k | 0 <= k < n
      ensures y[k] == Weigh(b, RowWeight(k, x))
    {
      CooRowColumns(b, |x|, k);
      FoldIsWeigh(x, b, k);
    }
    forall i | 0 <= i < nrow
      ensures Product(INT_OPS, x, CooRows(c, nrow))[i] == Product(INT_OPS, y, CooRows(a, nrow))[i]
    {
      CooRowColumns(c, |x|, i);
      CooRowColumns(a, n, i);
      FoldIsWeigh(x, c, i);
      FoldIsWeigh(y, a, i);
      SpmmConserves(a, b, RowWeight(i, x));
      SchoolbookAssociates(a, b, x, y, i);
    }
  }

  /** The key a matching pair of entries contributes to. */
  function PairKey(a: seq<Entry<int>>, b: seq<Entry<int>>, s: nat, t: nat): (int, int)
    requires s < |a| && t < |b|
  {
    (a[s].row, b[t].col)
  }

  predicate Less(p: (int, int), q: (int, int))
  {
    p.0 < q.0 || (p.0 == q.0 && p.1 < q.1)
  }

  /** (s, t) is the last matching pair: no later entry of A has a match, and no later one of B. */
  ghost predicate LastMatch(a: seq<Entry<int>>, b: seq<Entry<int>>, s: nat, t: nat)
  {
    && Match(a, b, s, t)
    && forall s': nat, t': nat :: Match(a, b, s', t') ==> s' < s || (s' == s && t' <= t)
  }

  /** The last expanded term is the one of the last matching pair. */
  lemma LastTerm(a: seq<Entry<int>>, b: seq<Entry<int>>, s: nat, t: nat)
    requires Sorted(RowIndices(b)) && LastMatch(a, b, s, t)
    ensures var es := Schoolbook(a, b);
            && es != [] && PairPosition(a, b, s, t) == |es| - 1
            && es[|es| - 1] == Entry(a[s].row, b[t].col, a[s].val * b[t].val)
            && KeyOf(es[|es| - 1]) == PairKey(a, b, s, t)
  {
    var k := TermOf(a, b, s, t);
    var last := |Schoolbook(a, b)| - 1;
    var s', t' := PairOf(a, b, last);
    SchoolbookLength(a, b);
    InOrder(a, b, k, last);
  }

  /** Later terms belong to later pairs. */
  lemma InOrder(a: seq<Entry<int>>, b: seq<Entry<int>>, j: nat, k: nat)
    requires j <= k < Total(Segments(a, b))
    ensures AIndex(a, b)[j] < AIndex(a, b)[k]
            || (AIndex(a, b)[j] == AIndex(a, b)[k] && BIndex(a, b)[k] - BIndex(a, b)[j] == k - j)
  {
    SegmentOrder(Segments(a, b), j, k);
    BIndexInRow(a, b, j);
    BIndexInRow(a, b, k);
  }

  /** Each expanded term is that of a matching pair, and each matching pair has a term. */
  lemma PairOf(a: seq<Entry<int>>, b: seq<Entry<int>>, k: nat) returns (s: nat, t: nat)
    requires Sorted(RowIndices(b)) && k < |Schoolbook(a, b)|
    ensures Match(a, b, s, t) && PairKey(a, b, s, t) == KeyOf(Schoolbook(a, b)[k])
    ensures k < Total(Segments(a, b)) && s == AIndex(a, b)[k] && t == BIndex(a, b)[k]
    ensures PairPosition(a, b, s, t) == k
  {
    ExpandedIsSchoolbook(a, b);
    PairMatches(a, b, k);
    s, t := AIndex(a, b)[k], BIndex(a, b)[k];
  }

  lemma TermOf(a: seq<Entry<int>>, b: seq<Entry<int>>, s: nat, t: nat) returns (k: nat)
    requires Sorted(RowIndices(b)) && Match(a, b, s, t)
    ensures k < |Schoolbook(a, b)| && Schoolbook(a, b)[k] == Entry(a[s].row, b[t].col, a[s].val * b[t].val)
    ensures KeyOf(Schoolbook(a, b)[k]) == PairKey(a, b, s, t)
    ensures k == PairPosition(a, b, s, t) < Total(Segments(a, b)) && s == AIndex(a, b)[k] && t == BIndex(a, b)[k]
  {
    ExpandedIsSchoolbook(a, b);
    PairEnumerated(a, b, s, t);
    k := PairPosition(a, b, s, t);
  }

  /** When any pair matches, one is the last. */
  lemma LastMatchExists(a: seq<Entry<int>>, b: seq<Entry<int>>) returns (s: nat, t: nat)
    requires Sorted(RowIndices(b)) && exists s: nat, t: nat :: Match(a, b, s, t)
    ensures LastMatch(a, b, s, t)
  {
    var s0: nat, t0: nat :| Match(a, b, s0, t0);
    var k0 := TermOf(a, b, s0, t0);
    var last := |Schoolbook(a, b)| - 1;
    s, t := PairOf(a, b, last);
    SchoolbookLength(a, b);
    forall s': nat, t': nat | Match(a, b, s', t')
      ensures s' < s || (s' == s && t' <= t)
    {
      var k := TermOf(a, b, s', t');
      InOrder(a, b, k, last);
    }
  }

  /** No matching pair has a greater key than the pair (s, t). */
  ghost predicate NoneGreater(a: seq<Entry<int>>, b: seq<Entry<int>>, s: nat, t: nat)
    requires s < |a| && t < |b|
  {
    forall s': nat, t': nat :: Match(a, b, s', t') ==> !Less(PairKey(a, b, s, t), PairKey(a, b, s', t'))
  }

  /** No other matching pair has the key of the pair (s, t). */
  ghost predicate OnlyOnce(a: seq<Entry<int>>, b: seq<Entry<int>>, s: nat, t: nat)
    requires s < |a| && t < |b|
  {
    forall s': nat, t': nat :: Match(a, b, s', t') && (s', t') != (s, t) ==>
      PairKey(a, b, s', t') != PairKey(a, b, s, t)
  }

  lemma GreaterTerm(a: seq<Entry<int>>, b: seq<Entry<int>>, s: nat, t: nat, s': nat, t': nat)
    requires Sorted(RowIndices(b)) && LastMatch(a, b, s, t)
    requires Match(a, b, s', t') && Less(PairKey(a, b, s, t), PairKey(a, b, s', t'))
    ensures Schoolbook(a, b) != [] && !LastIsGreatest(Schoolbook(a, b))
  {
    LastTerm(a, b, s, t);
    var es := Schoolbook(a, b);
    var k := TermOf(a, b, s', t');
    assert KeyLess(es[|es| - 1], es[k]);
  }

  lemma NoneGreaterIff(a: seq<Entry<int>>, b: seq<Entry<int>>, s: nat, t: nat)
    requires Sorted(RowIndices(b)) && LastMatch(a, b, s, t)
    ensures Schoolbook(a, b) != []
    ensures LastIsGreatest(Schoolbook(a, b)) <==> NoneGreater(a, b, s, t)
  {
    var es := Schoolbook(a, b);
    LastTerm(a, b, s, t);
    if !NoneGreater(a, b, s, t) {
      var s': nat, t': nat :| Match(a, b, s', t') && Less(PairKey(a, b, s, t), PairKey(a, b, s', t'));
      GreaterTerm(a, b, s, t, s', t');
    }
    if !LastIsGreatest(es) {
      var k :| 0 <= k < |es| && KeyLess(es[|es| - 1], es[k]);
      var s', t' := PairOf(a, b, k);
      assert Less(PairKey(a, b, s, t), PairKey(a, b, s', t'));
    }
  }

  lemma OnlyOnceIff(a: seq<Entry<int>>, b: seq<Entry<int>>, s: nat, t: nat)
    requires Sorted(RowIndices(b)) && LastMatch(a, b, s, t)
    ensures var es := Schoolbook(a, b);
            es != [] && (KeyOf(es[|es| - 1]) !in Keys(es[..|es| - 1]) <==> OnlyOnce(a, b, s, t))
  {
    var es, key := Schoolbook(a, b), PairKey(a, b, s, t);
    LastTerm(a, b, s, t);
    HasKeyIff(es[..|es| - 1], key.0, key.1);
    FrontHasOther(a, b, s, t, es[..|es| - 1], key.0, key.1);
    OnlyOnceIsNoOther(a, b, s, t);
  }

  lemma OnlyOnceIsNoOther(a: seq<Entry<int>>, b: seq<Entry<int>>, s: nat, t: nat)
    requires s < |a| && t < |b|
    ensures OnlyOnce(a, b, s, t) <==> !SomeOtherPair(a, b, s, t, PairKey(a, b, s, t).0, PairKey(a, b, s, t).1)
  {
  }

  /** As written, C is in canonical form exactly when no matching pair has a greater key than the
      last matching pair. */
  lemma SpmmCanonicalIff(a: seq<Entry<int>>, b: seq<Entry<int>>, s: nat, t: nat)
    requires Sorted(RowIndices(b)) && LastMatch(a, b, s, t)
    ensures Canonical(Spmm(a, b)) <==> NoneGreater(a, b, s, t)
  {
    NoneGreaterIff(a, b, s, t);
    CanonicalIffLastGreatest(Schoolbook(a, b));
  }

  /** It has no duplicate exactly when, besides, the last matching pair may be alone with its key. */
  lemma SpmmNoDuplicatesIff(a: seq<Entry<int>>, b: seq<Entry<int>>, s: nat, t: nat)
    requires Sorted(RowIndices(b)) && LastMatch(a, b, s, t)
    ensures NoDuplicates(Spmm(a, b)) <==> NoneGreater(a, b, s, t) || OnlyOnce(a, b, s, t)
  {
    NoneGreaterIff(a, b, s, t);
    OnlyOnceIff(a, b, s, t);
    NoDuplicatesIff(Schoolbook(a, b));
  }

  /** The same for every A and every row-sorted B, whether or not any pair matches. */
  lemma SpmmForm(a: seq<Entry<int>>, b: seq<Entry<int>>)
    requires Sorted(RowIndices(b))
    ensures Canonical(Spmm(a, b)) <==>
            forall s: nat, t: nat :: LastMatch(a, b, s, t) ==> NoneGreater(a, b, s, t)
    ensures NoDuplicates(Spmm(a, b)) <==>
            forall s: nat, t: nat :: LastMatch(a, b, s, t) ==> NoneGreater(a, b, s, t) || OnlyOnce(a, b, s, t)
  {
    if exists s: nat, t: nat :: Match(a, b, s, t) {
      var s, t := LastMatchExists(a, b);
      SpmmCanonicalIff(a, b, s, t);
      SpmmNoDuplicatesIff(a, b, s, t);
      forall s': nat, t': nat | LastMatch(a, b, s', t')
        ensures s' == s && t' == t
      {
      }
    } else {
      EmptyProduct(a, b);
    }
  }

  /** A pair with a greater key than the last one, and another with the same key. */
  lemma DuplicateWhen(a: seq<Entry<int>>, b: seq<Entry<int>>, s: nat, t: nat, greater: (nat, nat), same: (nat, nat))
    requires Sorted(RowIndices(b)) && LastMatch(a, b, s, t) && same != (s, t)
    requires Match(a, b, greater.0, greater.1)
    requires Less(PairKey(a, b, s, t), PairKey(a, b, greater.0, greater.1))
    requires Match(a, b, same.0, same.1) && PairKey(a, b, same.0, same.1) == PairKey(a, b, s, t)
    ensures !Canonical(Spmm(a, b)) && !NoDuplicates(Spmm(a, b))
  {
    SpmmCanonicalIff(a, b, s, t);
    SpmmNoDuplicatesIff(a, b, s, t);
  }

  predicate IsExample(a: seq<Entry<int>>, b: seq<Entry<int>>)
  {
    && a == [Entry(0, 0, 1), Entry(0, 1, 1)]
    && b == [Entry(0, 0, 1), Entry(0, 1, 1), Entry(0, 2, 1), Entry(0, 3, 1), Entry(1, 0, 1)]
  }

  lemma ExampleIsCanonical(a: seq<Entry<int>>, b: seq<Entry<int>>)
    requires IsExample(a, b)
    ensures Canonical(a) && Canonical(b) && ValidCoo(a, 1, 2) && ValidCoo(b, 2, 4) && Sorted(RowIndices(b))
  {
  }

  lemma ExampleMatches(a: seq<Entry<int>>, b: seq<Entry<int>>)
    requires IsExample(a, b)
    ensures forall s: nat, t: nat :: Match(a, b, s, t) <==> (s == 0 && t < 4) || (s == 1 && t == 4)
    ensures |Matches(a, b)| == 5
  {
    assert Matches(a, b) == {(0, 0), (0, 1), (0, 2), (0, 3), (1, 4)};
  }

  lemma ExampleKeys(a: seq<Entry<int>>, b: seq<Entry<int>>)
    requires IsExample(a, b)
    ensures PairKey(a, b, 0, 0) == PairKey(a, b, 1, 4) && Less(PairKey(a, b, 1, 4), PairKey(a, b, 0, 1))
  {
  }

  /** Two matrices in canonical form whose product, as written, is not, and has a key twice.  The
      product has five terms, enough for the debug output of the sort. */
  lemma NotAlwaysCanonical(a: seq<Entry<int>>, b: seq<Entry<int>>)
    requires IsExample(a, b)
    ensures Canonical(a) && Canonical(b) && ValidCoo(a, 1, 2) && ValidCoo(b, 2, 4) && |Matches(a, b)| == 5
    ensures !Canonical(Spmm(a, b)) && !NoDuplicates(Spmm(a, b))
  {
    ExampleIsCanonical(a, b);
    ExampleMatches(a, b);
    ExampleKeys(a, b);
    DuplicateWhen(a, b, 1, 4, (0, 1), (0, 0));
  }

  /** Some matching pair contributes to (i, j). */
  ghost predicate SomePair(a: seq<Entry<int>>, b: seq<Entry<int>>, i: int, j: int)
  {
    exists s: nat, t: nat :: Match(a, b, s, t) && PairKey(a, b, s, t) == (i, j)
  }

  /** Some matching pair other than (s, t) does. */
  ghost predicate SomeOtherPair(a: seq<Entry<int>>, b: seq<Entry<int>>, s: nat, t: nat, i: int, j: int)
  {
    exists s': nat, t': nat :: Match(a, b, s', t') && (s', t') != (s, t) && PairKey(a, b, s', t') == (i, j)
  }

  /** The keys of the terms are those of the matching pairs. */
  lemma TermHasPair(a: seq<Entry<int>>, b: seq<Entry<int>>, i: int, j: int)
    requires Sorted(RowIndices(b))
    ensures HasKey(Schoolbook(a, b), i, j) <==> SomePair(a, b, i, j)
  {
    var es := Schoolbook(a, b);
    if HasKey(es, i, j) {
      var k :| 0 <= k < |es| && es[k].row == i && es[k].col == j;
      var s, t := PairOf(a, b, k);
    }
    if SomePair(a, b, i, j) {
      var s: nat, t: nat :| Match(a, b, s, t) && PairKey(a, b, s, t) == (i, j);
      var k := TermOf(a, b, s, t);
      assert es[k].row == i && es[k].col == j;
    }
  }

  /** The same for all terms but the last, `front`, and all pairs but the last. */
  lemma FrontHasOther(a: seq<Entry<int>>, b: seq<Entry<int>>, s: nat, t: nat, front: seq<Entry<int>>, i: int, j: int)
    requires Sorted(RowIndices(b)) && LastMatch(a, b, s, t)
    requires |front| == |Schoolbook(a, b)| - 1 && front <= Schoolbook(a, b)
    ensures HasKey(front, i, j) <==> SomeOtherPair(a, b, s, t, i, j)
  {
    LastTerm(a, b, s, t);
    if HasKey(front, i, j) {
      var k :| 0 <= k < |front| && front[k].row == i && front[k].col == j;
      var s', t' := PairOf(a, b, k);
      assert (s', t') != (s, t);
    }
    if SomeOtherPair(a, b, s, t, i, j) {
      var s': nat, t': nat :| Match(a, b, s', t') && (s', t') != (s, t) && PairKey(a, b, s', t') == (i, j);
      var k := OtherTerm(a, b, s, t, s', t');
      assert front[k].row == i && front[k].col == j;
    }
  }

  /** The term of another pair is not the last. */
  lemma OtherTerm(a: seq<Entry<int>>, b: seq<Entry<int>>, s: nat, t: nat, s': nat, t': nat) returns (k: nat)
    requires Sorted(RowIndices(b)) && LastMatch(a, b, s, t) && Match(a, b, s', t') && (s', t') != (s, t)
    ensures k < |Schoolbook(a, b)| - 1 && KeyOf(Schoolbook(a, b)[k]) == PairKey(a, b, s', t')
  {
    LastTerm(a, b, s, t);
    k := TermOf(a, b, s', t');
    PairsApart(a, b, s, t, s', t');
  }

  lemma PairsApart(a: seq<Entry<int>>, b: seq<Entry<int>>, s: nat, t: nat, s': nat, t': nat)
    requires Sorted(RowIndices(b)) && Match(a, b, s, t) && Match(a, b, s', t') && (s', t') != (s, t)
    ensures PairPosition(a, b, s, t) != PairPosition(a, b, s', t')
  {
    PairFound(a, b, s, t);
    PairFound(a, b, s', t');
  }

  /** C has an entry at (i, j) exactly when some matching pair contributes to (i, j), even if the sum
      is 0. */
  lemma SpmmKeys(a: seq<Entry<int>>, b: seq<Entry<int>>, i: int, j: int)
    requires Sorted(RowIndices(b))
    ensures HasKey(Spmm(a, b), i, j) <==> SomePair(a, b, i, j)
  {
    var es := Schoolbook(a, b);
    TermHasPair(a, b, i, j);
    if es != [] {
      CompressedKeys(es, |es| - 1);
      HasKeyIff(es, i, j);
      HasKeyIff(Spmm(a, b), i, j);
    }
  }

  /** C has the pattern of the product: an entry for every key of a matching pair and no other, in
      strictly increasing order of keys except perhaps for the last. */
  ghost predicate HasPattern(a: seq<Entry<int>>, b: seq<Entry<int>>, c: seq<Entry<int>>)
  {
    && FrontCanonical(c)
    && forall i, j :: HasKey(c, i, j) <==> SomePair(a, b, i, j)
  }

  lemma SpmmFront(a: seq<Entry<int>>, b: seq<Entry<int>>)
    ensures FrontCanonical(Spmm(a, b))
  {
    if Schoolbook(a, b) != [] {
      HeadIncreases(Schoolbook(a, b));
    }
  }

  lemma SpmmHasPattern(a: seq<Entry<int>>, b: seq<Entry<int>>)
    requires Sorted(RowIndices(b))
    ensures HasPattern(a, b, Spmm(a, b))
  {
    SpmmFront(a, b);
    forall i, j
      ensures HasKey(Spmm(a, b), i, j) <==> SomePair(a, b, i, j)
    {
      SpmmKeys(a, b, i, j);
    }
  }

  ghost predicate DenotesProduct(a: seq<Entry<int>>, b: seq<Entry<int>>, n: nat, c: seq<Entry<int>>)
  {
    forall i, j :: At(c, i, j) == Dot(a, b, i, j, n)
  }

  /** What C is when a matching pair has a greater key than the last one, (s, t): the product of that
      pair by itself, behind canonical entries for all other pairs. */
  ghost predicate LastApart(a: seq<Entry<int>>, b: seq<Entry<int>>, s: nat, t: nat, c: seq<Entry<int>>)
    requires s < |a| && t < |b|
  {
    && c != [] && c[|c| - 1] == Entry(a[s].row, b[t].col, a[s].val * b[t].val)
    && var front := c[..|c| - 1];
    Canonical(front) && forall i, j :: HasKey(front, i, j) <==> SomeOtherPair(a, b, s, t, i, j)
  }

  /** A description of C that leaves nothing open. */
  ghost predicate Describes(a: seq<Entry<int>>, b: seq<Entry<int>>, n: nat, s: nat, t: nat, c: seq<Entry<int>>)
    requires s < |a| && t < |b|
  {
    && DenotesProduct(a, b, n, c)
    && (NoneGreater(a, b, s, t) ==> Canonical(c) && HasPattern(a, b, c))
    && (!NoneGreater(a, b, s, t) ==> LastApart(a, b, s, t, c))
  }

  lemma SpmmDenotes(a: seq<Entry<int>>, b: seq<Entry<int>>, n: nat)
    requires forall s :: 0 <= s < |a| ==> 0 <= a[s].col < n
    ensures DenotesProduct(a, b, n, Spmm(a, b))
  {
    forall i, j
      ensures At(Spmm(a, b), i, j) == Dot(a, b, i, j, n)
    {
      SpmmIsProduct(a, b, i, j, n);
    }
  }

  lemma SpmmLastApart(a: seq<Entry<int>>, b: seq<Entry<int>>, s: nat, t: nat)
    requires Sorted(RowIndices(b)) && LastMatch(a, b, s, t) && !NoneGreater(a, b, s, t)
    ensures LastApart(a, b, s, t, Spmm(a, b))
  {
    NoneGreaterIff(a, b, s, t);
    var es := Schoolbook(a, b);
    var head := LastAlone(es);
    LastTerm(a, b, s, t);
    FrontKeys(a, b, s, t, es[..|es| - 1], head);
    ApartWhen(a, b, s, t, head, es[|es| - 1]);
  }

  lemma ApartWhen(a: seq<Entry<int>>, b: seq<Entry<int>>, s: nat, t: nat, head: seq<Entry<int>>, e: Entry<int>)
    requires s < |a| && t < |b| && Canonical(head) && e == Entry(a[s].row, b[t].col, a[s].val * b[t].val)
    requires forall i, j :: HasKey(head, i, j) <==> SomeOtherPair(a, b, s, t, i, j)
    ensures LastApart(a, b, s, t, head + [e])
  {
    assert (head + [e])[..|head|] == head;
  }

  lemma FrontKeys(a: seq<Entry<int>>, b: seq<Entry<int>>, s: nat, t: nat, front: seq<Entry<int>>, c: seq<Entry<int>>)
    requires Sorted(RowIndices(b)) && LastMatch(a, b, s, t)
    requires |front| == |Schoolbook(a, b)| - 1 && front <= Schoolbook(a, b) && Keys(c) == Keys(front)
    ensures forall i, j :: HasKey(c, i, j) <==> SomeOtherPair(a, b, s, t, i, j)
  {
    forall i, j
      ensures HasKey(c, i, j) <==> SomeOtherPair(a, b, s, t, i, j)
    {
      HasKeyIff(c, i, j);
      HasKeyIff(front, i, j);
      FrontHasOther(a, b, s, t, front, i, j);
    }
  }

  /** C is the one list of entries that fits the description. */
  lemma SpmmDetermined(a: seq<Entry<int>>, b: seq<Entry<int>>, n: nat, s: nat, t: nat, c: seq<Entry<int>>)
    requires Sorted(RowIndices(b)) && LastMatch(a, b, s, t)
    requires forall k :: 0 <= k < |a| ==> 0 <= a[k].col < n
    ensures Describes(a, b, n, s, t, c) <==> c == Spmm(a, b)
  {
    var d := Spmm(a, b);
    SpmmDenotes(a, b, n);
    if NoneGreater(a, b, s, t) {
      SpmmHasPattern(a, b);
      SpmmCanonicalIff(a, b, s, t);
      if Describes(a, b, n, s, t, c) {
        CanonicalDetermined(c, d);
      }
    } else {
      SpmmLastApart(a, b, s, t);
      if Describes(a, b, n, s, t, c) {
        ApartDetermined(a, b, s, t, c, d);
      }
    }
  }

  lemma ApartDetermined(a: seq<Entry<int>>, b: seq<Entry<int>>, s: nat, t: nat, c: seq<Entry<int>>, d: seq<Entry<int>>)
    requires s < |a| && t < |b| && LastApart(a, b, s, t, c) && LastApart(a, b, s, t, d)
    requires forall i, j :: At(c, i, j) == At(d, i, j)
    ensures c == d
  {
    var e, c', d' := c[|c| - 1], c[..|c| - 1], d[..|d| - 1];
    forall i, j
      ensures At(c', i, j) == At(d', i, j)
      ensures HasKey(c', i, j) <==> HasKey(d', i, j)
    {
      assert At(c, i, j) == At(d, i, j);
      assert HasKey(c', i, j) <==> SomeOtherPair(a, b, s, t, i, j);
      assert HasKey(d', i, j) <==> SomeOtherPair(a, b, s, t, i, j);
    }
    CanonicalDetermined(c', d');
    assert c == c' + [e] && d == d' + [e];
  }

  /** Without any matching pair, C is empty. */
  lemma EmptyProduct(a: seq<Entry<int>>, b: seq<Entry<int>>)
    requires Sorted(RowIndices(b)) && forall s: nat, t: nat :: !Match(a, b, s, t)
    ensures Spmm(a, b) == []
  {
    ExpandedIsSchoolbook(a, b);
    if Total(Segments(a, b)) > 0 {
      PairMatches(a, b, 0);
      assert Match(a, b, AIndex(a, b)[0], BIndex(a, b)[0]);
    }
  }
}
