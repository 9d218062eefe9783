/** The expansion phase of coo_spmm_helper (main.cpp:79-161): array primitives that between them
    enumerate every pair of matching entries. */
module Expansion {
  import opened Sequences
  import opened Rows
  import opened Formats
  import opened Scan
  import opened Scatter
  import opened Denotation

  // ---------------------------------------------------------------- gather locations

  function Identity(n: nat): (s: seq<int>)
    ensures |s| == n
  {
    seq(n, k => k)
  }

  /** Sum(lengths), as the length of the workspace. */
  function Total(lengths: seq<int>): nat
    requires NonNegative(lengths)
  {
    PrefixMonotone(lengths, 0, |lengths|);
    assert lengths[..|lengths|] == lengths;
    Sum(lengths)
  }

  lemma PrefixTotal(lengths: seq<int>)
    requires NonNegative(lengths)
    ensures Prefix(lengths)[|lengths|] == Total(lengths)
  {
    assert lengths[..|lengths|] == lengths;
  }

  /** Where each segment starts: output_ptr without its last element. */
  function Starts(lengths: seq<int>): (p: seq<int>)
    ensures |p| == |lengths|
  {
    Prefix(lengths)[..|lengths|]
  }

  /** A_gather_locations after scatter_if, and after the running maximum. */
  function Marks(lengths: seq<int>): (m: seq<int>)
    requires NonNegative(lengths)
    ensures |m| == Total(lengths)
  {
    Scattered(Constant(Total(lengths), 0), Identity(|lengths|), Starts(lengths), lengths, 0)
  }

  function AGather(lengths: seq<int>): (g: seq<int>)
    requires NonNegative(lengths)
    ensures |g| == Total(lengths)
  {
    RunningMax(Marks(lengths))
  }

  /** B_gather_locations after scatter_if_permuted, and after the scan by key. */
  function Seeds(lengths: seq<int>, firsts: seq<int>): (m: seq<int>)
    requires NonNegative(lengths) && |firsts| == |lengths|
    ensures |m| == Total(lengths)
  {
    Scattered(Constant(Total(lengths), 1), firsts, Starts(lengths), lengths, 0)
  }

  function BGather(lengths: seq<int>, firsts: seq<int>): (g: seq<int>)
    requires NonNegative(lengths) && |firsts| == |lengths|
    ensures |g| == Total(lengths)
  {
    SumsByKey(Seeds(lengths, firsts), AGather(lengths))
  }

  lemma SegmentInside(lengths: seq<int>, s: nat)
    requires NonNegative(lengths) && s < |lengths|
    ensures 0 <= Prefix(lengths)[s] <= Prefix(lengths)[s + 1] <= Total(lengths)
    ensures Prefix(lengths)[s + 1] == Prefix(lengths)[s] + lengths[s]
  {
    PrefixMonotone(lengths, s, s + 1);
    PrefixMonotone(lengths, s + 1, |lengths|);
    PrefixStep(lengths, s);
    assert lengths[..|lengths|] == lengths;
  }

  lemma StartsFit(lengths: seq<int>)
    requires NonNegative(lengths)
    ensures TargetsFit(Starts(lengths), lengths, 0, Total(lengths))
  {
    forall i | 0 <= i < |lengths| && lengths[i] != 0
      ensures 0 <= Starts(lengths)[i] - 0 < Total(lengths)
    {
      SegmentInside(lengths, i);
    }
  }

  /** Only the non-empty segment that starts at p, if any, writes to p. */
  lemma WriterIs(lengths: seq<int>, p: int)
    requires NonNegative(lengths) && 0 <= p < Total(lengths)
    ensures var w, s := LastWriter(Starts(lengths), lengths, 0, p), SegmentOf(lengths, p);
            if p == Prefix(lengths)[s] then w == s else w == -1
  {
    var w, s := LastWriter(Starts(lengths), lengths, 0, p), SegmentOf(lengths, p);
    SegmentOfContains(lengths, p);
    SegmentInside(lengths, s);
    if 0 <= w {
      SegmentInside(lengths, w);
      SegmentUnique(lengths, p, w, s);
    }
  }

  /** No mark up to k exceeds the number of the segment that contains k. */
  lemma MarkBelow(lengths: seq<int>, p: int, k: int)
    requires NonNegative(lengths) && 0 <= p <= k < Total(lengths)
    ensures Marks(lengths)[p] <= SegmentOf(lengths, k)
  {
    WriterIs(lengths, p);
    SegmentOrder(lengths, p, k);
  }

  /** Scattering the segment numbers and taking the running maximum inverts the prefix sum: each
      position gets the one segment that contains it, empty segments notwithstanding. */
  lemma AGatherIs(lengths: seq<int>, k: int)
    requires NonNegative(lengths) && 0 <= k < Total(lengths)
    ensures AGather(lengths)[k] == SegmentOf(lengths, k)
    ensures Prefix(lengths)[AGather(lengths)[k]] <= k < Prefix(lengths)[AGather(lengths)[k] + 1]
  {
    SegmentOfContains(lengths, k);
    GreatestMark(lengths, k);
    MaxIsGreatest(Marks(lengths)[..k + 1], SegmentOf(lengths, k));
  }

  /** Among the marks up to k, the number of the segment that contains k is the greatest. */
  lemma GreatestMark(lengths: seq<int>, k: int)
    requires NonNegative(lengths) && 0 <= k < Total(lengths)
    ensures var m, s := Marks(lengths)[..k + 1], SegmentOf(lengths, k);
            s in m && forall p :: 0 <= p < |m| ==> m[p] <= s
  {
    var m, s := Marks(lengths)[..k + 1], SegmentOf(lengths, k);
    SegmentOfContains(lengths, k);
    SegmentInside(lengths, s);
    WriterAt(lengths, s);
    assert m[Prefix(lengths)[s]] == s;
    forall p | 0 <= p < |m|
      ensures m[p] <= s
    {
      MarkBelow(lengths, p, k);
    }
  }

  lemma InOwnSegment(lengths: seq<int>, s: nat, p: int)
    requires NonNegative(lengths) && s < |lengths| && Prefix(lengths)[s] <= p < Prefix(lengths)[s] + lengths[s]
    ensures 0 <= p < Total(lengths) && p < Prefix(lengths)[s + 1] && SegmentOf(lengths, p) == s
  {
    SegmentInside(lengths, s);
    SegmentOfContains(lengths, p);
    SegmentUnique(lengths, p, s, SegmentOf(lengths, p));
  }

  /** The start of a non-empty segment is written by that segment. */
  lemma WriterAt(lengths: seq<int>, s: nat)
    requires NonNegative(lengths) && s < |lengths| && lengths[s] > 0
    ensures 0 <= Prefix(lengths)[s] < Total(lengths)
    ensures LastWriter(Starts(lengths), lengths, 0, Prefix(lengths)[s]) == s
  {
    var p := Prefix(lengths)[s];
    InOwnSegment(lengths, s, p);
    WriterIs(lengths, p);
  }

  lemma SegmentOrder(lengths: seq<int>, p: int, k: int)
    requires NonNegative(lengths) && 0 <= p <= k < Total(lengths)
    ensures SegmentOf(lengths, p) <= SegmentOf(lengths, k)
  {
    var s, t := SegmentOf(lengths, p), SegmentOf(lengths, k);
    SegmentOfContains(lengths, p);
    SegmentOfContains(lengths, k);
    if t < s {
      PrefixMonotone(lengths, t + 1, s);
    }
  }

  lemma InSegment(lengths: seq<int>, s: nat, p: int)
    requires NonNegative(lengths) && s < |lengths| && Prefix(lengths)[s] <= p < Prefix(lengths)[s + 1]
    ensures 0 <= p < Total(lengths) && SegmentOf(lengths, p) == s && AGather(lengths)[p] == s
  {
    PrefixStep(lengths, s);
    InOwnSegment(lengths, s, p);
    AGatherIs(lengths, p);
  }

  /** The keys of a segment form one run. */
  lemma RunOfSegment(lengths: seq<int>, s: nat, k: int)
    requires NonNegative(lengths) && s < |lengths| && Prefix(lengths)[s] <= k < Prefix(lengths)[s + 1]
    ensures 0 <= k < Total(lengths) && RunStart(AGather(lengths), k) == Prefix(lengths)[s]
  {
    var g, a := AGather(lengths), Prefix(lengths)[s];
    SegmentInside(lengths, s);
    InSegment(lengths, s, k);
    forall p | a <= p <= k
      ensures g[p] == g[k]
    {
      InSegment(lengths, s, p);
    }
    if a > 0 {
      AGatherIs(lengths, a - 1);
    }
    RunStartIsMaximal(g, k, a);
  }

  /** What the second scatter leaves in a segment: its first row position, then ones. */
  lemma SeedAt(lengths: seq<int>, firsts: seq<int>, s: nat, p: int)
    requires NonNegative(lengths) && |firsts| == |lengths| && s < |lengths|
    requires Prefix(lengths)[s] <= p < Prefix(lengths)[s + 1]
    ensures 0 <= p < Total(lengths)
    ensures Seeds(lengths, firsts)[p] == if p == Prefix(lengths)[s] then firsts[s] else 1
  {
    InSegment(lengths, s, p);
    WriterIs(lengths, p);
  }

  lemma {:induction false} SumOfSeed(s: seq<int>, first: int)
    requires s != [] && s[0] == first && forall k :: 1 <= k < |s| ==> s[k] == 1
    ensures Sum(s) == first + |s| - 1
  {
    if |s| > 1 {
      SumOfSeed(s[..|s| - 1], first);
    } else {
      assert s == [first] && s[..0] == [];
    }
  }

  /** The segmented scan counts up from where the segment's row of B begins. */
  lemma BGatherIs(lengths: seq<int>, firsts: seq<int>, k: int)
    requires NonNegative(lengths) && |firsts| == |lengths| && 0 <= k < Total(lengths)
    ensures var s := SegmentOf(lengths, k);
            BGather(lengths, firsts)[k] == firsts[s] + (k - Prefix(lengths)[s])
  {
    var s := SegmentOf(lengths, k);
    SegmentOfContains(lengths, k);
    RunOfSegment(lengths, s, k);
    SegmentInside(lengths, s);
    SumOfRun(lengths, firsts, s, k);
  }

  /** The seeds of a segment, up to position k, add up to the row position for k. */
  lemma SumOfRun(lengths: seq<int>, firsts: seq<int>, s: nat, k: int)
    requires NonNegative(lengths) && |firsts| == |lengths| && s < |lengths|
    requires 0 <= Prefix(lengths)[s] <= k < Prefix(lengths)[s + 1] && k < Total(lengths)
    ensures Sum(Seeds(lengths, firsts)[Prefix(lengths)[s]..k + 1]) == firsts[s] + (k - Prefix(lengths)[s])
  {
    var a := Prefix(lengths)[s];
    var run := Seeds(lengths, firsts)[a..k + 1];
    forall m | 0 <= m < |run|
      ensures run[m] == if m == 0 then firsts[s] else 1
    {
      SeedAt(lengths, firsts, s, a + m);
    }
    SumOfSeed(run, firsts[s]);
  }

  // ---------------------------------------------------------------- matching entries

  predicate Match(a: seq<Entry<int>>, b: seq<Entry<int>>, s: nat, t: nat)
  {
    s < |a| && t < |b| && a[s].col == b[t].row
  }

  /** The number of entries of b in the row that each entry of a meets: segment_lengths. */
  function Segments(a: seq<Entry<int>>, b: seq<Entry<int>>): (l: seq<int>)
    ensures |l| == |a| && NonNegative(l)
  {
    seq(|a|, s requires 0 <= s < |a| => Count(RowIndices(b), a[s].col))
  }

  /** Where that row begins among b's entries: B_row_offsets through A's columns. */
  function Firsts(a: seq<Entry<int>>, b: seq<Entry<int>>): (l: seq<int>)
    ensures |l| == |a|
  {
    seq(|a|, s requires 0 <= s < |a| => CountBelow(RowIndices(b), a[s].col))
  }

  /** Which entry of a position k combines: the one whose segment contains k. */
  function AIndex(a: seq<Entry<int>>, b: seq<Entry<int>>): (g: seq<int>)
    ensures |g| == Total(Segments(a, b)) && InRange(g, |a|)
  {
    seq(Total(Segments(a, b)), k requires 0 <= k < Total(Segments(a, b)) => SegmentOf(Segments(a, b), k))
  }

  /** Which entry of b it combines: counting from the row that a's entry meets. */
  function BIndex(a: seq<Entry<int>>, b: seq<Entry<int>>): (g: seq<int>)
    ensures |g| == Total(Segments(a, b))
  {
    seq(Total(Segments(a, b)), k requires 0 <= k < Total(Segments(a, b)) =>
      var s := AIndex(a, b)[k];
      CountBelow(RowIndices(b), a[s].col) + (k - Prefix(Segments(a, b))[s]))
  }

  /** The scatters and scans compute these two indices. */
  lemma GathersAreIndexes(a: seq<Entry<int>>, b: seq<Entry<int>>)
    ensures AGather(Segments(a, b)) == AIndex(a, b)
    ensures BGather(Segments(a, b), Firsts(a, b)) == BIndex(a, b)
  {
    var lens, firsts := Segments(a, b), Firsts(a, b);
    forall k | 0 <= k < Total(lens)
      ensures AGather(lens)[k] == AIndex(a, b)[k] && BGather(lens, firsts)[k] == BIndex(a, b)[k]
    {
      AGatherIs(lens, k);
      BGatherIs(lens, firsts, k);
    }
  }

  /** Whatever the order of b: position k's index into b counts up between the two offsets of the
      row that its entry of a meets. */
  lemma BIndexInRow(a: seq<Entry<int>>, b: seq<Entry<int>>, k: int)
    requires 0 <= k < Total(Segments(a, b))
    ensures 0 <= AIndex(a, b)[k] < |a|
    ensures var s, t := AIndex(a, b)[k], BIndex(a, b)[k];
            && t == CountBelow(RowIndices(b), a[s].col) + (k - Prefix(Segments(a, b))[s])
            && CountBelow(RowIndices(b), a[s].col) <= t < CountBelow(RowIndices(b), a[s].col + 1) <= |b|
  {
    var s := AIndex(a, b)[k];
    var r := a[s].col;
    IndexInSegment(a, b, k);
    CountBelowStep(RowIndices(b), r);
    CountBelowMonotone(RowIndices(b), r + 1, r + 1);
    assert BIndex(a, b)[k] == CountBelow(RowIndices(b), r) + (k - Prefix(Segments(a, b))[s]);
  }

  /** Position k lies in the segment of its entry of a. */
  lemma IndexInSegment(a: seq<Entry<int>>, b: seq<Entry<int>>, k: int)
    requires 0 <= k < Total(Segments(a, b))
    ensures var s := AIndex(a, b)[k];
            0 <= s < |a| && 0 <= k - Prefix(Segments(a, b))[s] < Count(RowIndices(b), a[s].col)
  {
    SegmentOfContains(Segments(a, b), k);
    PrefixStep(Segments(a, b), AIndex(a, b)[k]);
  }

  /** Position k holds a pair of entries that match, inside the row of B that A's entry meets. */
  lemma PairMatches(a: seq<Entry<int>>, b: seq<Entry<int>>, k: int)
    requires Sorted(RowIndices(b)) && 0 <= k < Total(Segments(a, b))
    ensures 0 <= AIndex(a, b)[k] < |a| && 0 <= BIndex(a, b)[k] < |b|
    ensures a[AIndex(a, b)[k]].col == b[BIndex(a, b)[k]].row
    ensures BIndex(a, b)[k] == CountBelow(RowIndices(b), a[AIndex(a, b)[k]].col)
                               + (k - Prefix(Segments(a, b))[AIndex(a, b)[k]])
  {
    BIndexInRow(a, b, k);
    var r, t := a[AIndex(a, b)[k]].col, BIndex(a, b)[k];
    SortedSlice(RowIndices(b), t, r);
    SortedSlice(RowIndices(b), t, r + 1);
  }

  /** Where the pair (s, t) of matching entries is found. */
  function PairPosition(a: seq<Entry<int>>, b: seq<Entry<int>>, s: nat, t: nat): int
    requires s < |a| && t < |b|
  {
    Prefix(Segments(a, b))[s] + (t - CountBelow(RowIndices(b), a[s].col))
  }

  /** The pair's position lies in the segment of its entry of a. */
  lemma PairInSegment(a: seq<Entry<int>>, b: seq<Entry<int>>, s: nat, t: nat)
    requires Sorted(RowIndices(b)) && Match(a, b, s, t)
    ensures Prefix(Segments(a, b))[s] <= PairPosition(a, b, s, t) < Prefix(Segments(a, b))[s + 1]
    ensures 0 <= PairPosition(a, b, s, t) < Total(Segments(a, b))
  {
    var rows := RowIndices(b);
    var r := a[s].col;
    SortedSlice(rows, t, r);
    SortedSlice(rows, t, r + 1);
    CountBelowStep(rows, r);
    SegmentInside(Segments(a, b), s);
  }

  /** Every pair of matching entries is enumerated, and only once. */
  lemma PairEnumerated(a: seq<Entry<int>>, b: seq<Entry<int>>, s: nat, t: nat)
    requires Sorted(RowIndices(b)) && Match(a, b, s, t)
    ensures var k := PairPosition(a, b, s, t);
            0 <= k < Total(Segments(a, b)) && AIndex(a, b)[k] == s && BIndex(a, b)[k] == t
    ensures forall k :: 0 <= k < Total(Segments(a, b)) && AIndex(a, b)[k] == s && BIndex(a, b)[k] == t
              ==> k == PairPosition(a, b, s, t)
  {
    PairFound(a, b, s, t);
    forall k' | 0 <= k' < Total(Segments(a, b)) && AIndex(a, b)[k'] == s && BIndex(a, b)[k'] == t
      ensures k' == PairPosition(a, b, s, t)
    {
      BIndexInRow(a, b, k');
    }
  }

  lemma PairFound(a: seq<Entry<int>>, b: seq<Entry<int>>, s: nat, t: nat)
    requires Sorted(RowIndices(b)) && Match(a, b, s, t)
    ensures var k := PairPosition(a, b, s, t);
            0 <= k < Total(Segments(a, b)) && AIndex(a, b)[k] == s && BIndex(a, b)[k] == t
  {
    var k := PairPosition(a, b, s, t);
    PairInSegment(a, b, s, t);
    SegmentOfContains(Segments(a, b), k);
    SegmentUnique(Segments(a, b), k, s, AIndex(a, b)[k]);
  }

  /** Some workspace position combines entry s of a with entry t of b. */
  ghost predicate Enumerated(a: seq<Entry<int>>, b: seq<Entry<int>>, s: nat, t: nat)
  {
    exists k :: 0 <= k < Total(Segments(a, b)) && AIndex(a, b)[k] == s && BIndex(a, b)[k] == t
  }

  /** Whatever A is, no matching pair is missed. */
  ghost predicate Complete(b: seq<Entry<int>>)
  {
    forall a, s: nat, t: nat :: Match(a, b, s, t) ==> Enumerated(a, b, s, t)
  }

  lemma EnumeratedInRow(a: seq<Entry<int>>, b: seq<Entry<int>>, s: nat, t: nat)
    requires s < |a| && Enumerated(a, b, s, t)
    ensures CountBelow(RowIndices(b), a[s].col) <= t < CountBelow(RowIndices(b), a[s].col + 1)
  {
    var k :| 0 <= k < Total(Segments(a, b)) && AIndex(a, b)[k] == s && BIndex(a, b)[k] == t;
    BIndexInRow(a, b, k);
  }

  /** The enumeration is complete exactly when b is sorted by row. */
  lemma CompleteIffSorted(b: seq<Entry<int>>)
    ensures Complete(b) <==> Sorted(RowIndices(b))
  {
    var rows := RowIndices(b);
    if Sorted(rows) {
      forall a, s: nat, t: nat | Match(a, b, s, t)
        ensures Enumerated(a, b, s, t)
      {
        PairEnumerated(a, b, s, t);
      }
    }
    if Complete(b) {
      forall t | 0 <= t < |rows|
        ensures CountBelow(rows, rows[t]) <= t < CountBelow(rows, rows[t] + 1)
      {
        var a := [Entry(0, rows[t], 0)];
        assert Match(a, b, 0, t);
        EnumeratedInRow(a, b, 0, t);
      }
      OffsetsDelimitIffSorted(rows);
    }
  }

  /** The offsets delimit the rows of b for every entry exactly when b is sorted by row. */
  lemma OffsetsDelimitIffSorted(rows: seq<int>)
    ensures Sorted(rows) <==>
            forall t :: 0 <= t < |rows| ==> CountBelow(rows, rows[t]) <= t < CountBelow(rows, rows[t] + 1)
  {
    if Sorted(rows) {
      forall t | 0 <= t < |rows|
        ensures CountBelow(rows, rows[t]) <= t < CountBelow(rows, rows[t] + 1)
      {
        SortedSlice(rows, t, rows[t]);
        SortedSlice(rows, t, rows[t] + 1);
      }
    }
    if forall t :: 0 <= t < |rows| ==> CountBelow(rows, rows[t]) <= t < CountBelow(rows, rows[t] + 1) {
      forall t, u | 0 <= t < u < |rows|
        ensures rows[t] <= rows[u]
      {
        if rows[u] < rows[t] {
          CountBelowMonotone(rows, rows[u] + 1, rows[t]);
        }
      }
    }
  }

  // ---------------------------------------------------------------- the expanded terms

  /** What gathering rows and columns and transforming values yields: I, J and V. */
  function Expanded(a: seq<Entry<int>>, b: seq<Entry<int>>): (es: seq<Entry<int>>)
    requires InRange(AIndex(a, b), |a|) && InRange(BIndex(a, b), |b|)
    ensures |es| == Total(Segments(a, b))
  {
    seq(Total(Segments(a, b)), k requires 0 <= k < Total(Segments(a, b)) =>
      Term(a[AIndex(a, b)[k]], b[BIndex(a, b)[k]]))
  }

  lemma SegmentsAreTerms(a: seq<Entry<int>>, b: seq<Entry<int>>)
    ensures Lengths(TermParts(a, b)) == Segments(a, b)
  {
    forall s | 0 <= s < |a|
      ensures Lengths(TermParts(a, b))[s] == Segments(a, b)[s]
    {
      CooRowLength(b, a[s].col);
    }
  }

  /** Term m of entry e comes from position m of the row it meets. */
  lemma TermAt(e: Entry<int>, b: seq<Entry<int>>, m: nat)
    requires Sorted(RowIndices(b)) && m < |Terms(e, b)|
    ensures var t := CountBelow(RowIndices(b), e.col) + m;
            t < |b| && Terms(e, b)[m] == Term(e, b[t])
  {
    SortedSliceIsLabelled(b, e.col);
    var lo, hi := CountBelow(RowIndices(b), e.col), CountBelow(RowIndices(b), e.col + 1);
    assert b[lo..hi][m] == Labelled(e.col, CooRow(b, e.col))[m];
  }

  lemma IndexesInRange(a: seq<Entry<int>>, b: seq<Entry<int>>)
    requires Sorted(RowIndices(b))
    ensures InRange(AIndex(a, b), |a|) && InRange(BIndex(a, b), |b|)
  {
    forall k | 0 <= k < Total(Segments(a, b))
      ensures 0 <= BIndex(a, b)[k] < |b|
    {
      PairMatches(a, b, k);
    }
  }

  /** Position k of the schoolbook product is a term of the entry whose segment contains k. */
  lemma SchoolbookAt(a: seq<Entry<int>>, b: seq<Entry<int>>, k: int)
    requires 0 <= k < Total(Segments(a, b))
    ensures var s := AIndex(a, b)[k];
            var m := k - Prefix(Segments(a, b))[s];
            && 0 <= m < |Terms(a[s], b)| && k < |Schoolbook(a, b)|
            && Schoolbook(a, b)[k] == Terms(a[s], b)[m]
  {
    var lens, parts := Segments(a, b), TermParts(a, b);
    SegmentsAreTerms(a, b);
    SegmentOfContains(lens, k);
    var s := SegmentOf(lens, k);
    FlattenSlice(parts, s);
    SliceElement(Flatten(parts), Prefix(lens), s, parts[s], k);
  }

  /** The entries that position k combines, and how far into its segment it lies. */
  lemma Located(a: seq<Entry<int>>, b: seq<Entry<int>>, k: int) returns (s: nat, t: nat, m: nat)
    requires 0 <= k < Total(Segments(a, b))
    ensures s == AIndex(a, b)[k] && s < |a| && t == BIndex(a, b)[k] && m == k - Prefix(Segments(a, b))[s]
    ensures t == CountBelow(RowIndices(b), a[s].col) + m
  {
    BIndexInRow(a, b, k);
    s, t := AIndex(a, b)[k], BIndex(a, b)[k];
    m := t - CountBelow(RowIndices(b), a[s].col);
  }

  lemma ExpandedAt(a: seq<Entry<int>>, b: seq<Entry<int>>, k: int)
    requires Sorted(RowIndices(b)) && 0 <= k < Total(Segments(a, b))
    ensures k < |Schoolbook(a, b)| && 0 <= BIndex(a, b)[k] < |b|
    ensures Schoolbook(a, b)[k] == Term(a[AIndex(a, b)[k]], b[BIndex(a, b)[k]])
  {
    var s, t, m := Located(a, b, k);
    SchoolbookAt(a, b, k);
    TermAt(a[s], b, m);
  }

  lemma SchoolbookLength(a: seq<Entry<int>>, b: seq<Entry<int>>)
    ensures |Schoolbook(a, b)| == Total(Segments(a, b))
  {
    SegmentsAreTerms(a, b);
    FlattenLength(TermParts(a, b));
  }

  /** The fast enumeration yields the schoolbook product, term for term and in the same order. */
  lemma ExpandedIsSchoolbook(a: seq<Entry<int>>, b: seq<Entry<int>>)
    requires Sorted(RowIndices(b))
    ensures InRange(AIndex(a, b), |a|) && InRange(BIndex(a, b), |b|)
    ensures Expanded(a, b) == Schoolbook(a, b) && |Schoolbook(a, b)| == Total(Segments(a, b))
    ensures forall k :: 0 <= k < |Schoolbook(a, b)| ==>
              var e, f := a[AIndex(a, b)[k]], b[BIndex(a, b)[k]];
              Schoolbook(a, b)[k] == Entry(e.row, f.col, e.val * f.val)
  {
    IndexesInRange(a, b);
    SchoolbookLength(a, b);
    forall k | 0 <= k < Total(Segments(a, b))
      ensures Expanded(a, b)[k] == Schoolbook(a, b)[k]
    {
      ExpandedAt(a, b, k);
    }
  }

  // ---------------------------------------------------------------- sizes

  /** The row lengths add up to the number of entries. */
  lemma RowCountsTotal(rows: seq<int>, nrow: nat)
    requires InRange(rows, nrow)
    ensures Sum(RowCounts(rows, nrow)) == |rows|
  {
    PrefixOfCounts(rows, nrow, nrow);
    CountBelowEnds(rows, nrow);
    assert RowCounts(rows, nrow)[..nrow] == RowCounts(rows, nrow);
  }

  /** The pairs of positions whose entries match. */
  ghost function Matches(a: seq<Entry<int>>, b: seq<Entry<int>>): set<(int, int)>
  {
    set s, t | 0 <= s < |a| && 0 <= t < |b| && a[s].col == b[t].row :: (s, t)
  }

  function Pairs(a: seq<Entry<int>>, b: seq<Entry<int>>): (p: seq<(int, int)>)
    ensures |p| == Total(Segments(a, b))
  {
    seq(Total(Segments(a, b)), k requires 0 <= k < Total(Segments(a, b)) => (AIndex(a, b)[k], BIndex(a, b)[k]))
  }

  /** The workspace has exactly one position for every matching pair. */
  lemma WorkspaceIsMatches(a: seq<Entry<int>>, b: seq<Entry<int>>)
    requires Sorted(RowIndices(b))
    ensures |Matches(a, b)| == Total(Segments(a, b))
  {
    var pairs := Pairs(a, b);
    forall p | p in Matches(a, b)
      ensures p in pairs
    {
      PairEnumerated(a, b, p.0, p.1);
      assert pairs[PairPosition(a, b, p.0, p.1)] == p;
    }
    forall p | p in pairs
      ensures p in Matches(a, b)
    {
      var k :| 0 <= k < |pairs| && p == pairs[k];
      PairMatches(a, b, k);
    }
    assert Matches(a, b) == set p | p in pairs;
    forall j, k | 0 <= j < k < |pairs|
      ensures pairs[j] != pairs[k]
    {
      PairMatches(a, b, j);
      PairMatches(a, b, k);
    }
    DistinctCount(pairs);
  }
}
