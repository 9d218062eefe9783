/** main.cpp: the one-pass sparse matrix product. */
module Spmm {
  import opened Sequences
  import opened Rows
  import opened RowOffsets
  import opened Vectors
  import opened Scan
  import opened Scatter
  import opened Denotation
  import opened Compression
  import opened Expansion
  import opened Matrices
  import opened MatrixUtils
  import opened Reduction
  import G = Gather
  import T = Transform
  import SpmmTheorems

  /** The arguments that both location steps take: the segments and where each one goes. */
  ghost predicate Arranged(workspaceSize: nat, segments: nat, segmentLengths: array<int>, outputPtr: array<int>,
                           lens: seq<int>)
    reads segmentLengths, outputPtr
  {
    && segmentLengths.Length == segments && outputPtr.Length == segments + 1
    && lens == segmentLengths[..] && NonNegative(lens) && outputPtr[..] == Prefix(lens)
    && workspaceSize == Total(lens)
  }

  lemma ArrangedSlices(workspaceSize: nat, segments: nat, segmentLengths: array<int>, outputPtr: array<int>,
                       lens: seq<int>)
    requires Arranged(workspaceSize, segments, segmentLengths, outputPtr, lens)
    ensures outputPtr[..segments] == Starts(lens) && segmentLengths[0..segments] == lens && outputPtr[0] == 0
    ensures TargetsFit(Starts(lens), lens, 0, workspaceSize)
  {
    StartsFit(lens);
  }

  /** main.cpp:79-100: scatter the segment numbers, then take the running maximum in place. */
  method LocateA(workspaceSize: nat, beginSegment: nat, endSegment: nat, segmentLengths: array<int>,
                 outputPtr: array<int>, ghost lens: seq<int>)
    returns (aGather: array<int>)
    requires beginSegment == 0 && Arranged(workspaceSize, endSegment, segmentLengths, outputPtr, lens)
    ensures fresh(aGather) && aGather[..] == AGather(lens)
  {
    aGather := new int[workspaceSize];
    Fill(aGather, 0);
    var inSegment := Counting(beginSegment, endSegment - beginSegment);
    ArrangedSlices(workspaceSize, endSegment, segmentLengths, outputPtr, lens);
    assert inSegment[0..endSegment] == Identity(endSegment) && aGather[..] == Constant(workspaceSize, 0);
    ScatterIf(beginSegment, endSegment, inSegment, outputPtr, segmentLengths, aGather, outputPtr[beginSegment]);
    assert aGather[0..workspaceSize] == aGather[..] == Marks(lens);
    InclusiveScanMax(0, workspaceSize, aGather, aGather);
  }

  /** main.cpp:105-121: scatter where the rows of B begin, then scan by key in place. */
  method LocateB(workspaceSize: nat, beginSegment: nat, endSegment: nat, aCol: array<int>, bRowOffsets: array<int>,
                 segmentLengths: array<int>, outputPtr: array<int>, aGather: array<int>, ghost lens: seq<int>)
    returns (bGather: array<int>)
    requires beginSegment == 0 && Arranged(workspaceSize, endSegment, segmentLengths, outputPtr, lens)
    requires aCol.Length == endSegment && InRange(aCol[..], bRowOffsets.Length)
    requires aGather[..] == AGather(lens)
    ensures fresh(bGather) && bGather[..] == BGather(lens, Through(bRowOffsets[..], aCol[..]))
  {
    bGather := new int[workspaceSize];
    Fill(bGather, 1);
    ArrangedSlices(workspaceSize, endSegment, segmentLengths, outputPtr, lens);
    assert bGather[..] == Constant(workspaceSize, 1) && aCol[0..endSegment] == aCol[..];
    ScatterIfPermuted(beginSegment, endSegment, bRowOffsets, aCol, outputPtr, segmentLengths, bGather,
                      outputPtr[beginSegment]);
    assert bGather[0..workspaceSize] == bGather[..] == Seeds(lens, Through(bRowOffsets[..], aCol[..]));
    assert aGather[0..workspaceSize] == aGather[..];
    InclusiveScanByKey(0, workspaceSize, bGather, aGather, bGather);
  }

  /** main.cpp:130-161 on the arrays: rows and columns gathered, values multiplied. */
  method GatherTerms(aRow: array<int>, aVal: array<int>, bCol: array<int>, bVal: array<int>,
                     aGather: array<int>, bGather: array<int>)
    returns (i: array<int>, j: array<int>, v: array<int>)
    requires aRow.Length == aVal.Length && bCol.Length == bVal.Length && aGather.Length == bGather.Length
    requires InRange(aGather[..], aRow.Length) && InRange(bGather[..], bCol.Length)
    ensures fresh(i) && fresh(j) && fresh(v) && i != j && i != v && j != v
    ensures i[..] == Through(aRow[..], aGather[..]) && j[..] == Through(bCol[..], bGather[..])
    ensures v[..] == T.Products(Through(aVal[..], aGather[..]), Through(bVal[..], bGather[..]))
  {
    var n := aGather.Length;
    i := new int[n];
    j := new int[n];
    v := new int[n];
    assert aGather[0..n] == aGather[..] && bGather[0..n] == bGather[..];
    G.Gather(0, n, aRow, aGather, i);
    G.Gather(0, n, bCol, bGather, j);
    T.Transform(0, n, aVal, aGather, bVal, bGather, v);
  }

  /** Row, column and value of every term. */
  method Expand(a: MatrixCOO<int>, b: MatrixCOO<int>, aGather: array<int>, bGather: array<int>)
    returns (i: array<int>, j: array<int>, v: array<int>)
    requires a.Valid() && b.Valid() && Sorted(RowIndices(b.Entries()))
    requires aGather[..] == AIndex(a.Entries(), b.Entries()) && bGather[..] == BIndex(a.Entries(), b.Entries())
    ensures fresh(i) && fresh(j) && fresh(v) && i != j && i != v && j != v
    ensures i.Length == j.Length == v.Length == aGather.Length
    ensures ZipEntries(i[..], j[..], v[..]) == Schoolbook(a.Entries(), b.Entries())
  {
    ghost var es, fs := a.Entries(), b.Entries();
    ExpandedIsSchoolbook(es, fs);
    TermsGathered(es, fs, a.row[..], a.col[..], a.val[..], b.row[..], b.col[..], b.val[..]);
    assert |aGather[..]| == |bGather[..]|;
    i, j, v := GatherTerms(a.row, a.val, b.col, b.val, aGather, bGather);
    assert |i[..]| == |j[..]| == |v[..]| == aGather.Length;
  }

  /** Rows, columns and values gathered one by one make up the expanded terms. */
  lemma TermsGathered(es: seq<Entry<int>>, fs: seq<Entry<int>>, aRow: seq<int>, aCol: seq<int>, aVal: seq<int>,
                      bRow: seq<int>, bCol: seq<int>, bVal: seq<int>)
    requires |aRow| == |aCol| == |aVal| && es == ZipEntries(aRow, aCol, aVal)
    requires |bRow| == |bCol| == |bVal| && fs == ZipEntries(bRow, bCol, bVal)
    requires InRange(AIndex(es, fs), |es|) && InRange(BIndex(es, fs), |fs|)
    ensures ZipEntries(Through(aRow, AIndex(es, fs)), Through(bCol, BIndex(es, fs)),
                       T.Products(Through(aVal, AIndex(es, fs)), Through(bVal, BIndex(es, fs)))) == Expanded(es, fs)
  {
  }

  /** main.cpp:171-185: sort, count, make room, merge. */
  method CompressInto(i: array<int>, j: array<int>, v: array<int>, c: MatrixCOO<int>, nrow: nat, ncol: nat)
    returns (completes: bool)
    requires i.Length == j.Length == v.Length > 0 && i != j && i != v && j != v
    requires c.Allocated() && {c.row, c.col, c.val} !! {i, j, v}
    modifies i, j, v, c, c.row, c.col, c.val
    ensures completes <==> i.Length >= 5
    ensures c.Allocated() && c.nrow == nrow && c.ncol == ncol
    ensures c.Entries() == Compressed(old(ZipEntries(i[..], j[..], v[..])), i.Length - 1)
  {
    completes := SortByRowAndColumn(i, j, v);
    MergeInto(i, j, v, c, nrow, ncol);
  }

  /** main.cpp:176-185. */
  method MergeInto(i: array<int>, j: array<int>, v: array<int>, c: MatrixCOO<int>, nrow: nat, ncol: nat)
    requires i.Length == j.Length == v.Length > 0
    requires c.Allocated() && {c.row, c.col, c.val} !! {i, j, v}
    modifies c, c.row, c.col, c.val
    ensures c.Allocated() && c.nrow == nrow && c.ncol == ncol
    ensures c.Entries() == Reduce(old(ZipEntries(i[..], j[..], v[..])))
  {
    ghost var es := ZipEntries(i[..], j[..], v[..]);
    var nnz := CalculateNnz(i, j, v);
    c.Resize(nrow, ncol, nnz);
    assert es == ZipEntries(i[..], j[..], v[..]);
    assert {c.row, c.col, c.val} !! {i, j, v};
    ReduceByKey(i, j, v, c);
  }

  /** main.cpp:79-161: all terms of the product, in order. */
  method ExpandAll(workspaceSize: nat, beginSegment: nat, endSegment: nat, a: MatrixCOO<int>, b: MatrixCOO<int>,
                   bRowOffsets: array<int>, segmentLengths: array<int>, outputPtr: array<int>)
    returns (i: array<int>, j: array<int>, v: array<int>)
    requires a.Valid() && b.Valid() && a.ncol == b.nrow && Sorted(RowIndices(b.Entries()))
    requires beginSegment == 0 && endSegment == a.nnz
    requires bRowOffsets[..] == Offsets(RowIndices(b.Entries()), b.nrow)
    requires segmentLengths[..] == Segments(a.Entries(), b.Entries())
    requires outputPtr[..] == Prefix(Segments(a.Entries(), b.Entries()))
    requires workspaceSize == Total(Segments(a.Entries(), b.Entries()))
    ensures fresh(i) && fresh(j) && fresh(v) && i != j && i != v && j != v
    ensures i.Length == j.Length == v.Length == workspaceSize
    ensures ZipEntries(i[..], j[..], v[..]) == Schoolbook(a.Entries(), b.Entries())
  {
    ghost var es, fs := a.Entries(), b.Entries();
    ghost var lens := Segments(es, fs);
    FirstsAre(es, fs, a.col[..], b.nrow);
    GathersAreIndexes(es, fs);
    var aGather := LocateA(workspaceSize, beginSegment, endSegment, segmentLengths, outputPtr, lens);
    var bGather := LocateB(workspaceSize, beginSegment, endSegment, a.col, bRowOffsets, segmentLengths, outputPtr,
                           aGather, lens);
    i, j, v := Expand(a, b, aGather, bGather);
  }

  lemma FirstsAre(es: seq<Entry<int>>, fs: seq<Entry<int>>, cols: seq<int>, nrow: nat)
    requires |cols| == |es| && forall s :: 0 <= s < |es| ==> 0 <= es[s].col == cols[s] < nrow
    ensures InRange(cols, nrow + 1) && Through(Offsets(RowIndices(fs), nrow), cols) == Firsts(es, fs)
  {
  }

  /** coo_spmm_helper for the whole of A in one pass.  `completes` says whether the debug output of the
      sort lets it get to its end; C is described as if that output were not there. */
  method CooSpmmHelper(workspaceSize: nat, beginSegment: nat, endSegment: nat,
                       a: MatrixCOO<int>, b: MatrixCOO<int>, c: MatrixCOO<int>,
                       bRowOffsets: array<int>, segmentLengths: array<int>, outputPtr: array<int>)
    returns (completes: bool)
    requires a.Valid() && b.Valid() && a.ncol == b.nrow && Sorted(RowIndices(b.Entries()))
    requires c.Allocated() && c.Repr() !! a.Repr() && c.Repr() !! b.Repr()
    requires beginSegment == 0 && endSegment == a.nnz
    requires bRowOffsets[..] == Offsets(RowIndices(b.Entries()), b.nrow)
    requires segmentLengths[..] == Segments(a.Entries(), b.Entries())
    requires outputPtr[..] == Prefix(Segments(a.Entries(), b.Entries()))
    requires workspaceSize == Total(Segments(a.Entries(), b.Entries()))
    modifies c, c.row, c.col, c.val
    ensures completes <==> workspaceSize == 0 || workspaceSize >= 5
    ensures c.Valid() && c.nrow == old(a.nrow) && c.ncol == old(b.ncol)
    ensures c.Entries() == SpmmTheorems.Spmm(old(a.Entries()), old(b.Entries()))
  {
    ghost var es, fs := a.Entries(), b.Entries();
    var nrow, ncol := a.nrow, b.ncol;
    SpmmTheorems.SpmmValid(es, fs, nrow, a.ncol, ncol);
    SchoolbookLength(es, fs);
    if workspaceSize == 0 {
      completes := true;
      c.Resize(nrow, ncol, 0);
    } else {
      var i, j, v := ExpandAll(workspaceSize, beginSegment, endSegment, a, b, bRowOffsets, segmentLengths, outputPtr);
      completes := CompressInto(i, j, v, c, nrow, ncol);
    }
  }

  /** main.cpp:214-225: the offsets of B's rows and their lengths. */
  method RowSetUp(b: MatrixCOO<int>) returns (bRowOffsets: array<int>, bRowLengths: array<int>)
    requires b.Valid() && b.nrow > 0 && b.nnz > 0 && b.ncol > 0
    ensures fresh(bRowOffsets) && fresh(bRowLengths) && bRowOffsets != bRowLengths
    ensures bRowOffsets[..] == Offsets(RowIndices(b.Entries()), b.nrow)
    ensures bRowLengths[..] == RowCounts(RowIndices(b.Entries()), b.nrow)
  {
    ghost var rows := RowIndices(b.Entries());
    bRowOffsets := new int[b.nrow + 1](_ => 0);
    ghost var zeros := bRowOffsets[..];
    CalculateOffsets(b, bRowOffsets);
    OffsetsNeedZeros(zeros, rows, b.nrow);
    assert bRowOffsets[..] == Offsets(rows, b.nrow);
    bRowLengths := new int[b.nrow];
    CalculateRowLengths(bRowOffsets, bRowLengths);
    assert forall i :: 0 <= i < b.nrow ==> bRowLengths[..][i] == bRowOffsets[..][i + 1] - bRowOffsets[..][i];
    LengthsFromOffsets(rows, b.nrow, bRowLengths[..]);
  }

  /** main.cpp:214-244: the above, the length of each segment, and where each segment goes. */
  method SetUp(a: MatrixCOO<int>, b: MatrixCOO<int>)
    returns (bRowOffsets: array<int>, segmentLengths: array<int>, outputPtr: array<int>)
    requires a.Valid() && b.Valid() && a.ncol == b.nrow && a.nnz > 0 && b.nnz > 0 && b.ncol > 0
    ensures fresh(bRowOffsets) && fresh(segmentLengths) && fresh(outputPtr)
    ensures bRowOffsets[..] == Offsets(RowIndices(b.Entries()), b.nrow)
    ensures segmentLengths[..] == Segments(a.Entries(), b.Entries())
    ensures outputPtr[..] == Prefix(Segments(a.Entries(), b.Entries()))
  {
    ghost var es, fs := a.Entries(), b.Entries();
    assert es[0].col == a.col[0];
    var bRowLengths;
    bRowOffsets, bRowLengths := RowSetUp(b);
    segmentLengths := new int[a.nnz];
    SegmentsAre(es, fs, a.col[..], b.nrow);
    assert a.col[0..a.nnz] == a.col[..];
    G.Gather(0, a.nnz, bRowLengths, a.col, segmentLengths);
    outputPtr := OutputPtr(segmentLengths);
  }

  lemma SegmentsAre(es: seq<Entry<int>>, fs: seq<Entry<int>>, cols: seq<int>, nrow: nat)
    requires |cols| == |es| && forall s :: 0 <= s < |es| ==> 0 <= es[s].col == cols[s] < nrow
    ensures InRange(cols, nrow) && Through(RowCounts(RowIndices(fs), nrow), cols) == Segments(es, fs)
  {
  }

  /** main.cpp:241-244: the exclusive scan and the last element it leaves out. */
  method OutputPtr(segmentLengths: array<int>) returns (outputPtr: array<int>)
    requires segmentLengths.Length > 0
    ensures fresh(outputPtr) && outputPtr[..] == Prefix(segmentLengths[..])
  {
    var n := segmentLengths.Length;
    ghost var lens := segmentLengths[..];
    outputPtr := new int[n + 1];
    assert segmentLengths[0..n] == lens;
    ExclusiveScan(0, n, segmentLengths, outputPtr);
    PrefixStep(lens, n - 1);
    assert outputPtr[n - 1] == Prefix(lens)[n - 1];
    outputPtr[n] := outputPtr[n - 1] + segmentLengths[n - 1];
  }

  /** The whole product.  B must be sorted by row, as loading a matrix leaves it; A may be in any order.
      As written, the debug output stops the run for one to four terms: `completes` says so. */
  method Multiply(a: MatrixCOO<int>, b: MatrixCOO<int>, c: MatrixCOO<int>) returns (completes: bool)
    requires a.Valid() && b.Valid() && a.ncol == b.nrow && a.nnz > 0 && b.nnz > 0 && b.ncol > 0
    requires Sorted(RowIndices(b.Entries()))
    requires c.Allocated() && c.Repr() !! a.Repr() && c.Repr() !! b.Repr()
    modifies c, c.row, c.col, c.val
    ensures completes <==> var n := |Matches(old(a.Entries()), old(b.Entries()))|; n == 0 || n >= 5
    ensures c.Valid() && c.nrow == a.nrow && c.ncol == b.ncol
    ensures c.Entries() == SpmmTheorems.Spmm(old(a.Entries()), old(b.Entries()))
    ensures SpmmTheorems.HasPattern(old(a.Entries()), old(b.Entries()), c.Entries())
    ensures forall i, j :: At(c.Entries(), i, j) == Dot(old(a.Entries()), old(b.Entries()), i, j, a.ncol)
  {
    ghost var es, fs := a.Entries(), b.Entries();
    var bRowOffsets, segmentLengths, outputPtr := SetUp(a, b);
    PrefixTotal(Segments(es, fs));
    completes := OnePass(a, b, c, outputPtr[a.nnz], bRowOffsets, segmentLengths, outputPtr);
    SpmmTheorems.SpmmHasPattern(es, fs);
    forall i, j
      ensures At(c.Entries(), i, j) == Dot(es, fs, i, j, a.ncol)
    {
      SpmmTheorems.SpmmIsProduct(es, fs, i, j, a.ncol);
    }
  }

  /** The call of the helper, after the set-up. */
  method OnePass(a: MatrixCOO<int>, b: MatrixCOO<int>, c: MatrixCOO<int>, cooNumNonzeros: nat,
                 bRowOffsets: array<int>, segmentLengths: array<int>, outputPtr: array<int>)
    returns (completes: bool)
    requires a.Valid() && b.Valid() && a.ncol == b.nrow && Sorted(RowIndices(b.Entries()))
    requires c.Allocated() && c.Repr() !! a.Repr() && c.Repr() !! b.Repr()
    requires bRowOffsets[..] == Offsets(RowIndices(b.Entries()), b.nrow)
    requires segmentLengths[..] == Segments(a.Entries(), b.Entries())
    requires outputPtr[..] == Prefix(Segments(a.Entries(), b.Entries()))
    requires cooNumNonzeros == Total(Segments(a.Entries(), b.Entries()))
    modifies c, c.row, c.col, c.val
    ensures completes <==> var n := |Matches(old(a.Entries()), old(b.Entries()))|; n == 0 || n >= 5
    ensures c.Valid() && c.nrow == a.nrow && c.ncol == b.ncol
    ensures c.Entries() == SpmmTheorems.Spmm(old(a.Entries()), old(b.Entries()))
  {
    WorkspaceIsMatches(a.Entries(), b.Entries());
    completes := CooSpmmHelper(cooNumNonzeros, 0, a.nnz, a, b, c, bRowOffsets, segmentLengths, outputPtr);
  }

  /** workspace_capacity (main.cpp:250-265): the number of terms, 128, and a third of what 6144 bytes
      hold of four indexes and a float, whichever is least. */
  function WorkspaceCapacity(cooNumNonzeros: nat): nat
  {
    var maxWorkspaceCapacity := 256 * 8 * 3 / (4 * 4 + 4);
    Min(maxWorkspaceCapacity / 3, Min(cooNumNonzeros, 128))
  }

  lemma OnePassIff(cooNumNonzeros: nat)
    ensures cooNumNonzeros <= WorkspaceCapacity(cooNumNonzeros) <==> cooNumNonzeros <= 102
  {
  }

  /** main.cpp:214-298 with the test that selects the one-pass branch.  The other branch does not
      touch C. */
  method Run(a: MatrixCOO<int>, b: MatrixCOO<int>, c: MatrixCOO<int>) returns (onePass: bool, completes: bool)
    requires a.Valid() && b.Valid() && a.ncol == b.nrow && a.nnz > 0 && b.nnz > 0 && b.ncol > 0
    requires Sorted(RowIndices(b.Entries()))
    requires c.Allocated() && c.Repr() !! a.Repr() && c.Repr() !! b.Repr()
    modifies c, c.row, c.col, c.val
    ensures var n := |Matches(old(a.Entries()), old(b.Entries()))|;
            (onePass <==> n <= 102) && (onePass ==> (completes <==> n == 0 || n >= 5))
    ensures onePass ==> c.Valid() && c.nrow == a.nrow && c.ncol == b.ncol
    ensures onePass ==> c.Entries() == SpmmTheorems.Spmm(old(a.Entries()), old(b.Entries()))
    ensures onePass ==> SpmmTheorems.HasPattern(old(a.Entries()), old(b.Entries()), c.Entries())
    ensures onePass ==> SpmmTheorems.DenotesProduct(old(a.Entries()), old(b.Entries()), a.ncol, c.Entries())
    ensures !onePass ==> unchanged(c) && unchanged(c.row) && unchanged(c.col) && unchanged(c.val)
  {
    var bRowOffsets, segmentLengths, outputPtr := SetUp(a, b);
    PrefixTotal(Segments(a.Entries(), b.Entries()));
    WorkspaceIsMatches(a.Entries(), b.Entries());
    var cooNumNonzeros := outputPtr[a.nnz];
    OnePassIff(cooNumNonzeros);
    onePass, completes := cooNumNonzeros <= WorkspaceCapacity(cooNumNonzeros), true;
    SpmmTheorems.SpmmHasPattern(a.Entries(), b.Entries());
    SpmmTheorems.SpmmDenotes(a.Entries(), b.Entries(), a.ncol);
    if onePass {
      completes := OnePass(a, b, c, cooNumNonzeros, bRowOffsets, segmentLengths, outputPtr);
    }
  }
}
