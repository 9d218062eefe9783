/** Sorting expanded terms by (row, column) and merging neighbours with equal keys. */
module Compression {
  import opened Sequences
  import opened Rows
  import opened StableSort
  import opened Denotation

  predicate SameKey(a: Entry<int>, b: Entry<int>)
  {
    a.row == b.row && a.col == b.col
  }

  predicate KeyLess(a: Entry<int>, b: Entry<int>)
  {
    a.row < b.row || (a.row == b.row && a.col < b.col)
  }

  function KeyOf(e: Entry<int>): (int, int)
  {
    (e.row, e.col)
  }

  ghost function Keys(es: seq<Entry<int>>): set<(int, int)>
  {
    set e | e in es :: KeyOf(e)
  }

  lemma KeysSnoc(es: seq<Entry<int>>, e: Entry<int>)
    ensures Keys(es + [e]) == Keys(es) + {KeyOf(e)}
  {
    assert forall x :: x in es + [e] <==> x in es || x == e;
    assert e in es + [e];
  }

  lemma KeysPermuted(a: seq<Entry<int>>, b: seq<Entry<int>>)
    requires multiset(a) == multiset(b)
    ensures Keys(a) == Keys(b)
  {
    assert forall x :: x in a <==> x in multiset(a);
    assert forall x :: x in b <==> x in multiset(b);
  }

  /** Keys never descend. */
  ghost predicate KeysAscend(es: seq<Entry<int>>)
  {
    forall a, b :: 0 <= a < b < |es| ==> !KeyLess(es[b], es[a])
  }

  /** Canonical form: keys strictly increase, so none occurs twice. */
  ghost predicate Canonical(es: seq<Entry<int>>)
  {
    forall a, b :: 0 <= a < b < |es| ==> KeyLess(es[a], es[b])
  }

  // ---------------------------------------------------------------- the two-pass sort

  /** The permutation that sorting the first n positions by column, then by row, applies. */
  function LexOrder(rows: seq<int>, cols: seq<int>, n: nat): (p: seq<int>)
    requires n <= |rows| == |cols|
    ensures |p| == |rows| && InRange(p, |rows|)
  {
    var byCol := SortPrefix(cols, n);
    var byRow := SortPrefix(Through(rows, byCol), n);
    Through(byCol, byRow)
  }

  function SortedEntries(es: seq<Entry<int>>, n: nat): (r: seq<Entry<int>>)
    requires n <= |es|
    ensures |r| == |es|
  {
    Through(es, LexOrder(RowIndices(es), ColIndices(es), n))
  }

  /** On the first n positions, SortPrefix is a stable sort; behind them it changes nothing. */
  lemma SortPrefixIsStable(keys: seq<int>, n: nat)
    requires n <= |keys|
    ensures var p := SortPrefix(keys, n);
            && (forall k :: 0 <= k < n ==> p[k] < n)
            && (forall k :: n <= k < |keys| ==> p[k] == k)
            && (forall a, b :: 0 <= a < b < n ==>
                  keys[p[a]] < keys[p[b]] || (keys[p[a]] == keys[p[b]] && p[a] < p[b]))
  {
    SortPermIsStable(keys[..n]);
  }

  /** The two passes sort by row, then column, then original position: a stable lexicographic sort
      of the first n entries by one permutation. */
  lemma LexOrderIsStable(rows: seq<int>, cols: seq<int>, n: nat)
    requires n <= |rows| == |cols|
    ensures var p := LexOrder(rows, cols, n);
            && (forall k :: 0 <= k < n ==> p[k] < n)
            && (forall k :: n <= k < |rows| ==> p[k] == k)
            && (forall a, b :: 0 <= a < b < n ==>
                  rows[p[a]] < rows[p[b]]
                  || (rows[p[a]] == rows[p[b]] && (cols[p[a]] < cols[p[b]]
                                                   || (cols[p[a]] == cols[p[b]] && p[a] < p[b]))))
  {
    var byCol := SortPrefix(cols, n);
    var moved := Through(rows, byCol);
    var byRow := SortPrefix(moved, n);
    SortPrefixIsStable(cols, n);
    SortPrefixIsStable(moved, n);
    var p := LexOrder(rows, cols, n);
    forall a, b | 0 <= a < b < n
      ensures rows[p[a]] < rows[p[b]]
              || (rows[p[a]] == rows[p[b]] && (cols[p[a]] < cols[p[b]]
                                               || (cols[p[a]] == cols[p[b]] && p[a] < p[b])))
    {
      assert moved[byRow[a]] == rows[p[a]] && moved[byRow[b]] == rows[p[b]];
    }
  }

  /** The order is a permutation, whatever it is applied to. */
  lemma LexOrderPermutes<T>(s: seq<T>, rows: seq<int>, cols: seq<int>, n: nat)
    requires n <= |rows| == |cols| == |s|
    ensures multiset(Through(s, LexOrder(rows, cols, n))) == multiset(s)
  {
    var byCol := SortPrefix(cols, n);
    var byRow := SortPrefix(Through(rows, byCol), n);
    SortPrefixPermutes(s, cols, n);
    SortPrefixPermutes(Through(s, byCol), Through(rows, byCol), n);
    assert Through(s, Through(byCol, byRow)) == Through(Through(s, byCol), byRow);
  }

  /** Entries before n come out in ascending order; the others keep their places. */
  lemma SortedEntriesAscend(es: seq<Entry<int>>, n: nat)
    requires n <= |es|
    ensures KeysAscend(SortedEntries(es, n)[..n])
    ensures SortedEntries(es, n)[n..] == es[n..]
    ensures multiset(SortedEntries(es, n)) == multiset(es)
    ensures multiset(SortedEntries(es, n)[..n]) == multiset(es[..n])
  {
    LexOrderPermutes(es, RowIndices(es), ColIndices(es), n);
    SortedPartAscends(es, n);
    SameBehind(SortedEntries(es, n), es, n);
  }

  /** Sequences with the same elements that agree from n on have the same elements before n. */
  lemma SameBehind<T>(s: seq<T>, t: seq<T>, n: nat)
    requires n <= |s| == |t| && multiset(s) == multiset(t) && s[n..] == t[n..]
    ensures multiset(s[..n]) == multiset(t[..n])
  {
    assert s == s[..n] + s[n..] && t == t[..n] + t[n..];
    assert multiset(s[..n]) == multiset(s) - multiset(s[n..]);
    assert multiset(t[..n]) == multiset(t) - multiset(t[n..]);
  }

  lemma SortedPartAscends(es: seq<Entry<int>>, n: nat)
    requires n <= |es|
    ensures KeysAscend(SortedEntries(es, n)[..n])
    ensures SortedEntries(es, n)[n..] == es[n..]
  {
    LexOrderIsStable(RowIndices(es), ColIndices(es), n);
  }

  // ---------------------------------------------------------------- reduce by key

  /** Runs of equal keys become one entry holding the sum of their values. */
  function Reduce(es: seq<Entry<int>>): (r: seq<Entry<int>>)
    ensures es != [] ==> r != [] && SameKey(r[|r| - 1], es[|es| - 1])
    ensures |r| <= |es|
  {
    if es == [] then []
    else
      var r, e := Reduce(es[..|es| - 1]), es[|es| - 1];
      if r != [] && SameKey(r[|r| - 1], e)
      then r[..|r| - 1] + [Entry(e.row, e.col, e.val + r[|r| - 1].val)]
      else r + [e]
  }

  /** How often neighbouring keys differ. */
  function Changes(es: seq<Entry<int>>): nat
  {
    if |es| < 2 then 0
    else Changes(es[..|es| - 1]) + (if SameKey(es[|es| - 2], es[|es| - 1]) then 0 else 1)
  }

  /** calculate_NNZ counts exactly the entries that reduce_by_key writes. */
  lemma {:induction false} ReduceLength(es: seq<Entry<int>>)
    requires es != []
    ensures |Reduce(es)| == Changes(es) + 1
  {
    if |es| > 1 {
      ReduceLength(es[..|es| - 1]);
    }
  }

  lemma WeighSnoc(es: seq<Entry<int>>, e: Entry<int>, w: Weight)
    ensures Weigh(es + [e], w) == Weigh(es, w) + e.val * w(e.row, e.col)
  {
    assert (es + [e])[..|es|] == es;
  }

  lemma WeighMerged(head: seq<Entry<int>>, f: Entry<int>, e: Entry<int>, w: Weight)
    requires SameKey(f, e)
    ensures Weigh(head + [Entry(e.row, e.col, e.val + f.val)], w) ==
            Weigh(head + [f], w) + e.val * w(e.row, e.col)
  {
    WeighSnoc(head, Entry(e.row, e.col, e.val + f.val), w);
    WeighSnoc(head, f, w);
    Distribute(w(e.row, e.col), e.val, f.val);
  }

  /** No weighted total changes, on any input: neither an element of the matrix nor a product. */
  lemma {:induction false} ReduceConserves(es: seq<Entry<int>>, w: Weight)
    ensures Weigh(Reduce(es), w) == Weigh(es, w)
  {
    if es != [] {
      var init, e := es[..|es| - 1], es[|es| - 1];
      ReduceConserves(init, w);
      var r := Reduce(init);
      if r != [] && SameKey(r[|r| - 1], e) {
        var head, f := r[..|r| - 1], r[|r| - 1];
        WeighMerged(head, f, e, w);
        assert head + [f] == r;
      } else {
        WeighSnoc(r, e, w);
      }
    }
  }

  lemma KeysReplaceLast(r: seq<Entry<int>>, e: Entry<int>)
    requires r != [] && SameKey(r[|r| - 1], e)
    ensures Keys(r[..|r| - 1] + [e]) == Keys(r) == Keys(r) + {KeyOf(e)}
  {
    var head, f := r[..|r| - 1], r[|r| - 1];
    KeysSnoc(head, f);
    KeysSnoc(head, e);
    assert r == head + [f];
  }

  /** One more entry adds its key, whether it is merged or appended. */
  lemma PushKeys(r: seq<Entry<int>>, e: Entry<int>, next: seq<Entry<int>>)
    requires next == if r != [] && SameKey(r[|r| - 1], e)
                     then r[..|r| - 1] + [Entry(e.row, e.col, e.val + r[|r| - 1].val)]
                     else r + [e]
    ensures Keys(next) == Keys(r) + {KeyOf(e)}
  {
    if r != [] && SameKey(r[|r| - 1], e) {
      KeysReplaceLast(r, Entry(e.row, e.col, e.val + r[|r| - 1].val));
    } else {
      KeysSnoc(r, e);
    }
  }

  /** Reduction neither loses nor invents a key. */
  lemma {:induction false} ReduceKeys(es: seq<Entry<int>>)
    ensures Keys(Reduce(es)) == Keys(es)
  {
    if es != [] {
      var init, e := es[..|es| - 1], es[|es| - 1];
      ReduceKeys(init);
      PushKeys(Reduce(init), e, Reduce(es));
      KeysSnoc(init, e);
      assert es == init + [e];
    }
  }

  /** One more entry keeps the canonical form when its key is not below the last one. */
  lemma PushCanonical(r: seq<Entry<int>>, e: Entry<int>)
    requires Canonical(r) && r != [] && KeyLess(r[|r| - 1], e)
    ensures Canonical(r + [e])
  {
    forall m | 0 <= m < |r|
      ensures KeyLess(r[m], e)
    {
      if m < |r| - 1 {
        assert KeyLess(r[m], r[|r| - 1]);
      }
    }
  }

  /** On ascending keys, the result is in canonical form. */
  lemma {:induction false} ReduceCanonical(es: seq<Entry<int>>)
    requires KeysAscend(es)
    ensures Canonical(Reduce(es))
  {
    if es != [] {
      var init, e := es[..|es| - 1], es[|es| - 1];
      ReduceCanonical(init);
      var r := Reduce(init);
      if r != [] && !SameKey(r[|r| - 1], e) {
        assert !KeyLess(es[|es| - 1], es[|es| - 2]);
        PushCanonical(r, e);
      }
    }
  }

  /** Sorted and merged: what the last two steps of the pipeline make of the expanded terms when
      the first n of them are sorted. */
  function Compressed(es: seq<Entry<int>>, n: nat): seq<Entry<int>>
    requires n <= |es|
  {
    Reduce(SortedEntries(es, n))
  }

  lemma CompressedConserves(es: seq<Entry<int>>, n: nat, w: Weight)
    requires n <= |es|
    ensures Weigh(Compressed(es, n), w) == Weigh(es, w)
  {
    SortedEntriesAscend(es, n);
    WeighPermuted(SortedEntries(es, n), es, w);
    ReduceConserves(SortedEntries(es, n), w);
  }

  lemma CompressedKeys(es: seq<Entry<int>>, n: nat)
    requires n <= |es|
    ensures Keys(Compressed(es, n)) == Keys(es)
  {
    SortedEntriesAscend(es, n);
    KeysPermuted(SortedEntries(es, n), es);
    ReduceKeys(SortedEntries(es, n));
  }

  /** With the whole range sorted, the result would always be canonical. */
  lemma FullSortCanonical(es: seq<Entry<int>>)
    ensures Canonical(Compressed(es, |es|))
  {
    SortedEntriesAscend(es, |es|);
    assert SortedEntries(es, |es|)[..|es|] == SortedEntries(es, |es|);
    ReduceCanonical(SortedEntries(es, |es|));
  }

  /** No other entry has a greater key than the last. */
  ghost predicate LastIsGreatest(es: seq<Entry<int>>)
    requires es != []
  {
    forall k :: 0 <= k < |es| ==> !KeyLess(es[|es| - 1], es[k])
  }

  /** The sort calls of matrix_utils.cpp:101 and :105 leave the last entry where it is.  The result
      is canonical exactly when that entry's key is the greatest. */
  lemma CanonicalIffLastGreatest(es: seq<Entry<int>>)
    requires es != []
    ensures Canonical(Compressed(es, |es| - 1)) <==> LastIsGreatest(es)
  {
    var s := SortedEntries(es, |es| - 1);
    LastStays(es);
    if LastIsGreatest(es) {
      GreatestLastAscends(es);
      ReduceCanonical(s);
    } else {
      var k :| 0 <= k < |es| && KeyLess(es[|es| - 1], es[k]);
      assert es[k] in multiset(es);
      DescentSurvives(s, es[k]);
    }
  }

  lemma LastStays(es: seq<Entry<int>>)
    requires es != []
    ensures var s := SortedEntries(es, |es| - 1);
            s[|es| - 1] == es[|es| - 1] && multiset(s) == multiset(es) && KeysAscend(s[..|es| - 1])
  {
    var n := |es| - 1;
    SortedEntriesAscend(es, n);
    assert SortedEntries(es, n)[n..][0] == es[n..][0];
  }

  lemma GreatestLastAscends(es: seq<Entry<int>>)
    requires es != [] && LastIsGreatest(es)
    ensures KeysAscend(SortedEntries(es, |es| - 1))
  {
    var n, s := |es| - 1, SortedEntries(es, |es| - 1);
    LastStays(es);
    forall a, b | 0 <= a < b < |s|
      ensures !KeyLess(s[b], s[a])
    {
      if b < n {
        assert s[..n][a] == s[a] && s[..n][b] == s[b];
      } else {
        assert s[a] in multiset(s);
      }
    }
  }

  /** A key greater than the last one, somewhere before it, still stands before it after merging. */
  lemma DescentSurvives(s: seq<Entry<int>>, g: Entry<int>)
    requires g in s && KeyLess(s[|s| - 1], g)
    ensures !Canonical(Reduce(s))
  {
    ReduceKeys(s);
    var r := Reduce(s);
    assert KeyOf(g) in Keys(r);
    var x :| x in r && KeyOf(x) == KeyOf(g);
    var m :| 0 <= m < |r| && r[m] == x;
    assert KeyLess(r[|r| - 1], r[m]);
  }

  ghost predicate NoDuplicates(es: seq<Entry<int>>)
  {
    forall a, b :: 0 <= a < b < |es| ==> !SameKey(es[a], es[b])
  }

  /** Appending an entry to canonical ones: a duplicate appears when its key is there already, but
      not last. */
  lemma AppendToCanonical(head: seq<Entry<int>>, e: Entry<int>)
    requires Canonical(head)
    ensures KeyOf(e) !in Keys(head) ==> NoDuplicates(head + [e])
    ensures KeyOf(e) in Keys(head) ==> !NoDuplicates(head + [e])
  {
    var r := head + [e];
    if KeyOf(e) in Keys(head) {
      var x :| x in head && KeyOf(x) == KeyOf(e);
      var m :| 0 <= m < |head| && head[m] == x;
      assert SameKey(r[m], r[|head|]);
    } else {
      forall a, b | 0 <= a < b < |r|
        ensures !SameKey(r[a], r[b])
      {
        assert head[a] in head;
        if b < |head| {
          assert KeyLess(head[a], head[b]);
        }
      }
    }
  }

  /** In canonical entries, a key below another is not the last. */
  lemma NotLast(head: seq<Entry<int>>, e: Entry<int>, g: Entry<int>)
    requires Canonical(head) && KeyOf(g) in Keys(head) && KeyLess(e, g)
    ensures head != [] && !SameKey(head[|head| - 1], e)
  {
    var x :| x in head && KeyOf(x) == KeyOf(g);
    var m :| 0 <= m < |head| && head[m] == x;
    if m < |head| - 1 {
      assert KeyLess(head[m], head[|head| - 1]);
    }
  }

  /** What the sort and the merge make of all entries but the last. */
  function Head(es: seq<Entry<int>>): seq<Entry<int>>
    requires es != []
  {
    Reduce(SortedEntries(es, |es| - 1)[..|es| - 1])
  }

  lemma HeadIsCanonical(es: seq<Entry<int>>)
    requires es != []
    ensures Canonical(Head(es)) && Keys(Head(es)) == Keys(es[..|es| - 1])
    ensures var r, e := Head(es), es[|es| - 1];
            r == [] || !SameKey(r[|r| - 1], e) ==> Compressed(es, |es| - 1) == r + [e]
  {
    var n := |es| - 1;
    var s := SortedEntries(es, n);
    SortedEntriesAscend(es, n);
    assert s[n] == s[n..][0] == es[n..][0];
    assert s[..|s| - 1] == s[..n];
    ReduceCanonical(s[..n]);
    ReduceKeys(s[..n]);
    KeysPermuted(s[..n], es[..n]);
  }

  /** As written, the result has a duplicate exactly when the last key occurs earlier and is not the
      greatest. */
  lemma NoDuplicatesIff(es: seq<Entry<int>>)
    requires es != []
    ensures NoDuplicates(Compressed(es, |es| - 1)) <==>
            LastIsGreatest(es) || KeyOf(es[|es| - 1]) !in Keys(es[..|es| - 1])
  {
    var n := |es| - 1;
    var head, e := Head(es), es[n];
    HeadIsCanonical(es);
    AppendToCanonical(head, e);
    if LastIsGreatest(es) {
      CanonicalIffLastGreatest(es);
      CanonicalHasNoDuplicates(Compressed(es, n));
    } else if KeyOf(e) !in Keys(es[..n]) {
      assert head != [] ==> head[|head| - 1] in head;
    } else {
      var k :| 0 <= k < |es| && KeyLess(e, es[k]);
      assert es[..n][k] in es[..n];
      NotLast(head, e, es[k]);
    }
  }

  ghost predicate FrontCanonical(c: seq<Entry<int>>)
  {
    c != [] ==> Canonical(c[..|c| - 1])
  }

  lemma FrontOf(head: seq<Entry<int>>, e: Entry<int>)
    requires Canonical(head)
    ensures FrontCanonical(head + [e])
  {
    assert (head + [e])[..|head|] == head;
  }

  lemma PushFront(r: seq<Entry<int>>, e: Entry<int>, next: seq<Entry<int>>)
    requires Canonical(r)
    requires next == if r != [] && SameKey(r[|r| - 1], e)
                     then r[..|r| - 1] + [Entry(e.row, e.col, e.val + r[|r| - 1].val)]
                     else r + [e]
    ensures FrontCanonical(next)
  {
    if r != [] && SameKey(r[|r| - 1], e) {
      FrontOf(r[..|r| - 1], Entry(e.row, e.col, e.val + r[|r| - 1].val));
    } else {
      FrontOf(r, e);
    }
  }

  lemma {:induction false} ReduceFront(s: seq<Entry<int>>)
    requires s != [] && Canonical(Reduce(s[..|s| - 1]))
    ensures FrontCanonical(Reduce(s))
  {
    PushFront(Reduce(s[..|s| - 1]), s[|s| - 1], Reduce(s));
  }

  /** All entries but the last strictly increase in key. */
  lemma HeadIncreases(es: seq<Entry<int>>)
    requires es != []
    ensures FrontCanonical(Compressed(es, |es| - 1))
  {
    var s := SortedEntries(es, |es| - 1);
    HeadIsCanonical(es);
    assert s[..|s| - 1] == s[..|es| - 1];
    ReduceFront(s);
  }

  /** When some key exceeds the last one, the last entry stays by itself behind all the others. */
  lemma LastAlone(es: seq<Entry<int>>) returns (head: seq<Entry<int>>)
    requires es != [] && !LastIsGreatest(es)
    ensures Compressed(es, |es| - 1) == head + [es[|es| - 1]]
    ensures Canonical(head) && Keys(head) == Keys(es[..|es| - 1])
  {
    var n := |es| - 1;
    head := Head(es);
    HeadIsCanonical(es);
    var k :| 0 <= k < |es| && KeyLess(es[n], es[k]);
    assert es[..n][k] in es[..n];
    NotLast(head, es[n], es[k]);
  }

  ghost predicate HasKey(es: seq<Entry<int>>, i: int, j: int)
  {
    exists k :: 0 <= k < |es| && es[k].row == i && es[k].col == j
  }

  lemma HasKeyIff(es: seq<Entry<int>>, i: int, j: int)
    ensures HasKey(es, i, j) <==> (i, j) in Keys(es)
  {
    if HasKey(es, i, j) {
      var k :| 0 <= k < |es| && es[k].row == i && es[k].col == j;
      assert es[k] in es && KeyOf(es[k]) == (i, j);
    }
    if (i, j) in Keys(es) {
      var e :| e in es && KeyOf(e) == (i, j);
      var k :| 0 <= k < |es| && es[k] == e;
    }
  }

  lemma InitKey(es: seq<Entry<int>>, i: int, j: int)
    requires es != []
    ensures HasKey(es, i, j) <==> HasKey(es[..|es| - 1], i, j) || KeyOf(es[|es| - 1]) == (i, j)
  {
    var init := es[..|es| - 1];
    if HasKey(init, i, j) {
      var k :| 0 <= k < |init| && init[k].row == i && init[k].col == j;
      assert es[k] == init[k];
    }
    if HasKey(es, i, j) {
      var k :| 0 <= k < |es| && es[k].row == i && es[k].col == j;
      assert k < |init| ==> init[k] == es[k];
    }
  }

  lemma {:induction false} AtAbsent(es: seq<Entry<int>>, i: int, j: int)
    requires !HasKey(es, i, j)
    ensures At(es, i, j) == 0
  {
    if es != [] {
      InitKey(es, i, j);
      AtAbsent(es[..|es| - 1], i, j);
    }
  }

  lemma FirstKey(es: seq<Entry<int>>)
    ensures es != [] ==> HasKey(es, es[0].row, es[0].col)
  {
  }

  /** In canonical form the last entry has the greatest key, and alone has it. */
  lemma CanonicalLast(c: seq<Entry<int>>, i: int, j: int)
    requires Canonical(c) && c != []
    ensures var init, e := c[..|c| - 1], c[|c| - 1];
            && Canonical(init)
            && (HasKey(init, i, j) <==> HasKey(c, i, j) && (i, j) != KeyOf(e))
            && At(c, i, j) == (if (i, j) == KeyOf(e) then e.val else At(init, i, j))
            && (HasKey(c, i, j) ==> i < e.row || (i == e.row && j <= e.col))
  {
    var init, e := c[..|c| - 1], c[|c| - 1];
    InitKey(c, i, j);
    if HasKey(init, i, j) {
      var k :| 0 <= k < |init| && init[k].row == i && init[k].col == j;
      assert c[k] == init[k] && KeyLess(c[k], e);
    } else {
      AtAbsent(init, i, j);
    }
  }

  /** Entries in canonical form are determined by their keys and by the matrix they denote. */
  lemma {:induction false} CanonicalDetermined(c: seq<Entry<int>>, d: seq<Entry<int>>)
    requires Canonical(c) && Canonical(d)
    requires forall i, j :: HasKey(c, i, j) <==> HasKey(d, i, j)
    requires forall i, j :: At(c, i, j) == At(d, i, j)
    ensures c == d
  {
    FirstKey(c);
    FirstKey(d);
    if c != [] && d != [] {
      var e, f, c', d' := c[|c| - 1], d[|d| - 1], c[..|c| - 1], d[..|d| - 1];
      SameLast(c, d);
      forall i, j
        ensures HasKey(c', i, j) <==> HasKey(d', i, j)
        ensures At(c', i, j) == At(d', i, j)
      {
        SameBefore(c, d, i, j);
      }
      CanonicalLast(c, 0, 0);
      CanonicalLast(d, 0, 0);
      CanonicalDetermined(c', d');
      assert c == c' + [e] && d == d' + [f];
    }
  }

  lemma SameBefore(c: seq<Entry<int>>, d: seq<Entry<int>>, i: int, j: int)
    requires Canonical(c) && Canonical(d) && c != [] && d != [] && c[|c| - 1] == d[|d| - 1]
    requires HasKey(c, i, j) <==> HasKey(d, i, j)
    requires At(c, i, j) == At(d, i, j)
    ensures HasKey(c[..|c| - 1], i, j) <==> HasKey(d[..|d| - 1], i, j)
    ensures At(c[..|c| - 1], i, j) == At(d[..|d| - 1], i, j)
  {
    CanonicalLast(c, i, j);
    CanonicalLast(d, i, j);
    if (i, j) == KeyOf(c[|c| - 1]) {
      AtAbsent(c[..|c| - 1], i, j);
      AtAbsent(d[..|d| - 1], i, j);
    }
  }

  lemma SameLast(c: seq<Entry<int>>, d: seq<Entry<int>>)
    requires Canonical(c) && Canonical(d) && c != [] && d != []
    requires forall i, j :: HasKey(c, i, j) <==> HasKey(d, i, j)
    requires forall i, j :: At(c, i, j) == At(d, i, j)
    ensures c[|c| - 1] == d[|d| - 1]
  {
    var e, f := c[|c| - 1], d[|d| - 1];
    assert HasKey(c, e.row, e.col) && HasKey(d, f.row, f.col);
    CanonicalLast(c, f.row, f.col);
    CanonicalLast(d, e.row, e.col);
    CanonicalLast(c, e.row, e.col);
  }

  lemma CanonicalHasNoDuplicates(es: seq<Entry<int>>)
    requires Canonical(es)
    ensures NoDuplicates(es)
  {
    forall a, b | 0 <= a < b < |es|
      ensures !SameKey(es[a], es[b])
    {
      assert KeyLess(es[a], es[b]);
    }
  }
}
