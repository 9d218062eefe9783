/** The COO part that the conversion from CSR to HYB writes (matrixhyb_cpu.cpp:169-207).  The source
    never assigns `nnzcoo` of an empty row, so what is written depends on `memory`, the contents of the
    newly allocated array; this module says how, and when it is the part that is meant. */
module HybSplit {
  import opened Sequences
  import opened Rows
  import opened Formats
  import opened Layout

  // ---------------------------------------------------------------- the copying loop

  /** A pass from lo to hi stays inside both arrays; one that begins at or behind its end does nothing. */
  predicate PassFits(cellCount: nat, slots: nat, lo: int, hi: int, shift: int)
  {
    lo < hi ==> 0 <= lo && hi <= cellCount && 0 <= lo - shift && hi - shift <= slots
  }

  /** One pass: positions lo..hi go to the slots lo - shift..hi - shift, labelled i. */
  function PassCopied<T>(before: seq<Entry<T>>, cells: seq<Cell<T>>, i: int, lo: int, hi: int, shift: int)
    : (r: seq<Entry<T>>)
    requires PassFits(|cells|, |before|, lo, hi, shift)
    ensures |r| == |before|
  {
    seq(|before|, q requires 0 <= q < |before| =>
      if lo <= q + shift < hi then Entry(i, cells[q + shift].col, cells[q + shift].val) else before[q])
  }

  lemma PassStep<T>(before: seq<Entry<T>>, cells: seq<Cell<T>>, i: int, lo: int, j: int, shift: int)
    requires lo <= j && PassFits(|cells|, |before|, lo, j + 1, shift)
    ensures PassFits(|cells|, |before|, lo, j, shift) && 0 <= j - shift < |before| && 0 <= j < |cells|
    ensures PassCopied(before, cells, i, lo, j, shift)[j - shift := Entry(i, cells[j].col, cells[j].val)] ==
            PassCopied(before, cells, i, lo, j + 1, shift)
  {
  }

  /** The pass of row i writes slot q. */
  predicate Copies(offset: seq<int>, nnzell: seq<int>, nnzcoo: seq<int>, i: nat, q: int)
    requires i < |nnzell| == |nnzcoo| == |offset| - 1
  {
    offset[i + 1] - nnzcoo[i] <= q + nnzell[i] < offset[i + 1]
  }

  /** The last of the first n rows whose pass writes slot q, or -1 if there is none. */
  function LastCopier(offset: seq<int>, nnzell: seq<int>, nnzcoo: seq<int>, n: nat, q: int): (i: int)
    requires n <= |nnzell| == |nnzcoo| == |offset| - 1
    ensures -1 <= i < n
    ensures 0 <= i ==> Copies(offset, nnzell, nnzcoo, i, q)
    ensures forall k :: i < k < n ==> !Copies(offset, nnzell, nnzcoo, k, q)
  {
    if n == 0 then -1
    else if Copies(offset, nnzell, nnzcoo, n - 1, q) then n - 1
    else LastCopier(offset, nnzell, nnzcoo, n - 1, q)
  }

  predicate RowPassFits(cellCount: nat, slots: nat, offset: seq<int>, nnzell: seq<int>, nnzcoo: seq<int>, i: nat)
    requires i < |nnzell| == |nnzcoo| == |offset| - 1
  {
    PassFits(cellCount, slots, offset[i + 1] - nnzcoo[i], offset[i + 1], nnzell[i])
  }

  predicate CopiesFit(cellCount: nat, slots: nat, offset: seq<int>, nnzell: seq<int>, nnzcoo: seq<int>)
    requires |nnzell| == |nnzcoo| == |offset| - 1
  {
    forall i :: 0 <= i < |nnzell| ==> RowPassFits(cellCount, slots, offset, nnzell, nnzcoo, i)
  }

  /** The COO part after the passes of the first n rows: each slot holds what was last written to it. */
  function Copied<T>(before: seq<Entry<T>>, cells: seq<Cell<T>>, offset: seq<int>, nnzell: seq<int>, nnzcoo: seq<int>,
                     n: nat): (r: seq<Entry<T>>)
    requires n <= |nnzell| == |nnzcoo| == |offset| - 1
    requires CopiesFit(|cells|, |before|, offset, nnzell, nnzcoo)
    ensures |r| == |before|
  {
    seq(|before|, q requires 0 <= q < |before| =>
      var i := LastCopier(offset, nnzell, nnzcoo, n, q);
      if i < 0 then before[q]
      else
        assert RowPassFits(|cells|, |before|, offset, nnzell, nnzcoo, i);
        Entry(i, cells[q + nnzell[i]].col, cells[q + nnzell[i]].val))
  }

  lemma CopiedIs<T>(before: seq<Entry<T>>, cells: seq<Cell<T>>, offset: seq<int>, nnzell: seq<int>, nnzcoo: seq<int>,
                    q: nat)
    requires |nnzell| == |nnzcoo| == |offset| - 1 && q < |before|
    requires CopiesFit(|cells|, |before|, offset, nnzell, nnzcoo)
    requires 0 <= LastCopier(offset, nnzell, nnzcoo, |nnzell|, q)
    ensures var i := LastCopier(offset, nnzell, nnzcoo, |nnzell|, q);
            && 0 <= q + nnzell[i] < |cells|
            && Copied(before, cells, offset, nnzell, nnzcoo, |nnzell|)[q] ==
               Entry(i, cells[q + nnzell[i]].col, cells[q + nnzell[i]].val)
  {
    var i := LastCopier(offset, nnzell, nnzcoo, |nnzell|, q);
    assert RowPassFits(|cells|, |before|, offset, nnzell, nnzcoo, i);
  }

  lemma CopiedStep<T>(before: seq<Entry<T>>, cells: seq<Cell<T>>, offset: seq<int>, nnzell: seq<int>, nnzcoo: seq<int>,
                      n: nat)
    requires n < |nnzell| == |nnzcoo| == |offset| - 1
    requires CopiesFit(|cells|, |before|, offset, nnzell, nnzcoo)
    ensures RowPassFits(|cells|, |before|, offset, nnzell, nnzcoo, n)
    ensures PassCopied(Copied(before, cells, offset, nnzell, nnzcoo, n), cells, n,
                       offset[n + 1] - nnzcoo[n], offset[n + 1], nnzell[n]) ==
            Copied(before, cells, offset, nnzell, nnzcoo, n + 1)
  {
    assert RowPassFits(|cells|, |before|, offset, nnzell, nnzcoo, n);
  }

  // ---------------------------------------------------------------- the part that is written

  /** `nnzcoo` after the ELL part: an empty row's element is what the memory held. */
  function LeftCounts<T>(rows: RowList<T>, w: nat, memory: seq<int>): (l: seq<int>)
    requires |memory| == |rows|
    ensures |l| == |rows|
  {
    seq(|rows|, i requires 0 <= i < |rows| => if |rows[i]| == 0 then memory[i] else |Drop(rows[i], w)|)
  }

  /** `nnzell` after its prefix sums. */
  function EllSums<T>(rows: RowList<T>, w: nat): (l: seq<int>)
    ensures |l| == |rows|
  {
    seq(|rows|, i requires 0 <= i < |rows| => Prefix(EllCounts(rows, w))[i + 1])
  }

  /** How many cells spill from the rows before each row. */
  function SpillStarts<T>(rows: RowList<T>, w: nat): (s: seq<int>)
    ensures |s| == |rows| + 1
  {
    Prefix(Lengths(TailParts(rows, w)))
  }

  /** No empty row has a leftover that the copying loop would take for a count. */
  predicate NoLeftover<T>(rows: RowList<T>, memory: seq<int>)
    requires |memory| == |rows|
  {
    forall i :: 0 <= i < |rows| && |rows[i]| == 0 ==> memory[i] <= 0
  }

  /** The leftovers keep the copying loop inside the arrays. */
  predicate LeftoversFit<T>(rows: RowList<T>, w: nat, memory: seq<int>)
    requires |memory| == |rows|
  {
    forall i :: 0 <= i < |rows| && |rows[i]| == 0 ==> memory[i] <= SpillStarts(rows, w)[i]
  }

  /** The same, asked only where the conversion gets as far as the copying loop. */
  predicate MemoryFits<T>(rows: RowList<T>, w: nat, memory: seq<int>)
    requires |memory| == |rows|
  {
    w > 0 && SomeRowLonger(rows, w) ==> LeftoversFit(rows, w, memory)
  }

  lemma StartsNonNegative<T>(rows: RowList<T>, w: nat, i: nat)
    requires i <= |rows|
    ensures 0 <= SpillStarts(rows, w)[i]
  {
    PrefixMonotone(Lengths(TailParts(rows, w)), 0, i);
  }

  lemma CleanFits<T>(rows: RowList<T>, w: nat, memory: seq<int>)
    requires |memory| == |rows| && NoLeftover(rows, memory)
    ensures LeftoversFit(rows, w, memory)
  {
    forall i | 0 <= i < |rows| && |rows[i]| == 0
      ensures memory[i] <= SpillStarts(rows, w)[i]
    {
      StartsNonNegative(rows, w, i);
    }
  }

  /** The pass of row i ends behind the slots of its own spilled cells, and begins as many slots
      before as `nnzcoo[i]` says. */
  lemma RowPass<T>(rows: RowList<T>, w: nat, i: nat)
    requires i < |rows|
    ensures var starts, hi, shift := SpillStarts(rows, w), Prefix(Lengths(rows))[i + 1], EllSums(rows, w)[i];
            && hi - shift == starts[i + 1] && starts[i + 1] == starts[i] + |Drop(rows[i], w)|
            && 0 <= starts[i] && starts[i + 1] <= |Tails(rows, w)| && hi <= |Flatten(rows)| && 0 <= shift
  {
    SpillPrefix(rows, w, i + 1);
    PrefixStep(Lengths(TailParts(rows, w)), i);
    StartsNonNegative(rows, w, i);
    PrefixMonotone(Lengths(TailParts(rows, w)), i + 1, |rows|);
    PrefixEnd(TailParts(rows, w));
    PrefixMonotone(Lengths(rows), i + 1, |rows|);
    PrefixEnd(rows);
    PrefixMonotone(EllCounts(rows, w), 0, i + 1);
  }

  /** The leftovers that keep the copying loop inside the arrays are exactly those. */
  lemma FitsExactly<T>(rows: RowList<T>, w: nat, memory: seq<int>)
    requires |memory| == |rows|
    ensures LeftoversFit(rows, w, memory) <==>
            CopiesFit(|Flatten(rows)|, |Tails(rows, w)|, Prefix(Lengths(rows)), EllSums(rows, w),
                      LeftCounts(rows, w, memory))
  {
    var offset, ells, lefts := Prefix(Lengths(rows)), EllSums(rows, w), LeftCounts(rows, w, memory);
    forall i | 0 <= i < |rows|
      ensures RowPassFits(|Flatten(rows)|, |Tails(rows, w)|, offset, ells, lefts, i) <==>
              (|rows[i]| == 0 ==> memory[i] <= SpillStarts(rows, w)[i])
    {
      RowPass(rows, w, i);
    }
  }

  /** What the copying loop makes of `before`. */
  function Written<T>(before: seq<Entry<T>>, rows: RowList<T>, w: nat, memory: seq<int>): (es: seq<Entry<T>>)
    requires |memory| == |rows| && LeftoversFit(rows, w, memory) && |before| == |Tails(rows, w)|
    ensures |es| == |before|
  {
    FitsExactly(rows, w, memory);
    Copied(before, Flatten(rows), Prefix(Lengths(rows)), EllSums(rows, w), LeftCounts(rows, w, memory), |rows|)
  }

  /** What the copying loop leaves in the COO part. */
  function SplitCoo<T>(rows: RowList<T>, w: nat, memory: seq<int>): (es: seq<Entry<T>>)
    requires |memory| == |rows| && LeftoversFit(rows, w, memory)
    ensures |es| == |Tails(rows, w)|
  {
    Written(Tails(rows, w), rows, w, memory)
  }

  /** The row whose pass is the last to write slot q. */
  function Copier<T>(rows: RowList<T>, w: nat, memory: seq<int>, q: int): int
    requires |memory| == |rows|
  {
    LastCopier(Prefix(Lengths(rows)), EllSums(rows, w), LeftCounts(rows, w, memory), |rows|, q)
  }

  /** The row that slot q is meant for. */
  function Owner<T>(rows: RowList<T>, w: nat, q: int): (s: nat)
    requires 0 <= q < |Tails(rows, w)|
    ensures s < |rows|
  {
    FlattenLength(TailParts(rows, w));
    SegmentOf(Lengths(TailParts(rows, w)), q)
  }

  lemma OwnerIs<T>(rows: RowList<T>, w: nat, q: int)
    requires 0 <= q < |Tails(rows, w)|
    ensures var s := Owner(rows, w, q); SpillStarts(rows, w)[s] <= q < SpillStarts(rows, w)[s + 1]
  {
    FlattenLength(TailParts(rows, w));
    SegmentOfContains(Lengths(TailParts(rows, w)), q);
  }

  /** In terms of the COO part: the pass of row i writes the `nnzcoo[i]` slots before the next row's. */
  predicate Reaches<T>(rows: RowList<T>, w: nat, memory: seq<int>, i: nat, q: int)
    requires |memory| == |rows| && i < |rows|
  {
    SpillStarts(rows, w)[i + 1] - LeftCounts(rows, w, memory)[i] <= q < SpillStarts(rows, w)[i + 1]
  }

  lemma ReachesIff<T>(rows: RowList<T>, w: nat, memory: seq<int>, i: nat, q: int)
    requires |memory| == |rows| && i < |rows|
    ensures Reaches(rows, w, memory, i, q) <==>
            Copies(Prefix(Lengths(rows)), EllSums(rows, w), LeftCounts(rows, w, memory), i, q)
  {
    RowPass(rows, w, i);
  }

  /** The last writer of a slot reaches it, and comes behind every other row that does. */
  lemma CopierReaches<T>(rows: RowList<T>, w: nat, memory: seq<int>, i: nat, q: int)
    requires |memory| == |rows| && i < |rows| && Reaches(rows, w, memory, i, q)
    ensures i <= Copier(rows, w, memory, q) < |rows| && Reaches(rows, w, memory, Copier(rows, w, memory, q), q)
  {
    ReachesIff(rows, w, memory, i, q);
    ReachesIff(rows, w, memory, Copier(rows, w, memory, q), q);
  }

  /** A row with cells reaches the slots meant for it; an empty one reaches others, if its leftover
      is positive. */
  lemma ReachesOwn<T>(rows: RowList<T>, w: nat, memory: seq<int>, i: nat, q: int)
    requires |memory| == |rows| && i < |rows|
    ensures |rows[i]| > 0 ==>
              (Reaches(rows, w, memory, i, q) <==> SpillStarts(rows, w)[i] <= q < SpillStarts(rows, w)[i + 1])
    ensures |rows[i]| == 0 ==>
              (Reaches(rows, w, memory, i, q) <==> SpillStarts(rows, w)[i] - memory[i] <= q < SpillStarts(rows, w)[i])
    ensures |rows[i]| == 0 ==> SpillStarts(rows, w)[i + 1] == SpillStarts(rows, w)[i]
  {
    RowPass(rows, w, i);
  }

  /** The last writer of a slot is the row it is meant for, or an empty row behind it with a leftover. */
  lemma CopierIs<T>(rows: RowList<T>, w: nat, memory: seq<int>, q: int)
    requires |memory| == |rows| && 0 <= q < |Tails(rows, w)|
    ensures var i, s := Copier(rows, w, memory, q), Owner(rows, w, q);
            s <= i < |rows| && (i == s || (|rows[i]| == 0 && memory[i] > 0))
  {
    var s := Owner(rows, w, q);
    OwnerIs(rows, w, q);
    ReachesOwn(rows, w, memory, s, q);
    CopierReaches(rows, w, memory, s, q);
    var i := Copier(rows, w, memory, q);
    ReachesOwn(rows, w, memory, i, q);
    if |rows[i]| > 0 {
      SegmentUnique(Lengths(TailParts(rows, w)), q, i, s);
    }
  }

  lemma OwnSpill<T>(rows: RowList<T>, w: nat, s: nat, q: int, j: int)
    requires s < |rows| && SpillStarts(rows, w)[s] <= q < SpillStarts(rows, w)[s + 1] && j == q + EllSums(rows, w)[s]
    ensures Spilled(rows, w, s, j) && SpillSlot(rows, w, s, j) == q
  {
    RowPass(rows, w, s);
    PrefixStep(Lengths(rows), s);
  }

  /** Slot q of what is meant, in terms of the CSR cells. */
  lemma OwnCell<T>(rows: RowList<T>, w: nat, q: int) returns (s: nat, j: int)
    requires 0 <= q < |Tails(rows, w)|
    ensures s == Owner(rows, w, q) && j == q + EllSums(rows, w)[s] && 0 <= j < |Flatten(rows)|
    ensures Tails(rows, w)[q] == Entry(s, Flatten(rows)[j].col, Flatten(rows)[j].val)
  {
    s := Owner(rows, w, q);
    j := q + EllSums(rows, w)[s];
    OwnerIs(rows, w, q);
    OwnSpill(rows, w, s, q, j);
    SpillAt(rows, w, s, j, q);
  }

  lemma SpillAt<T>(rows: RowList<T>, w: nat, s: nat, j: int, q: int)
    requires Spilled(rows, w, s, j) && q == SpillSlot(rows, w, s, j)
    ensures 0 <= q < |Tails(rows, w)| && 0 <= j < |Flatten(rows)|
    ensures Tails(rows, w)[q] == Entry(s, Flatten(rows)[j].col, Flatten(rows)[j].val)
  {
    SpillLands(rows, w, s, j);
  }

  /** Slot q of what is written: the cell of its last writer, whatever the array held before. */
  lemma WrittenAt<T>(before: seq<Entry<T>>, rows: RowList<T>, w: nat, memory: seq<int>, q: int)
    requires |memory| == |rows| && LeftoversFit(rows, w, memory) && 0 <= q < |Tails(rows, w)| == |before|
    ensures var i := Copier(rows, w, memory, q);
            && 0 <= i < |rows| && 0 <= q + EllSums(rows, w)[i] < |Flatten(rows)|
            && var c := Flatten(rows)[q + EllSums(rows, w)[i]];
            Written(before, rows, w, memory)[q] == Entry(i, c.col, c.val)
  {
    FitsExactly(rows, w, memory);
    CopierIs(rows, w, memory, q);
    CopiedIs(before, Flatten(rows), Prefix(Lengths(rows)), EllSums(rows, w), LeftCounts(rows, w, memory), q);
  }

  /** Every slot is written, so what the new arrays held does not matter. */
  lemma AnyBefore<T>(before: seq<Entry<T>>, rows: RowList<T>, w: nat, memory: seq<int>)
    requires |memory| == |rows| && LeftoversFit(rows, w, memory) && |before| == |Tails(rows, w)|
    ensures Written(before, rows, w, memory) == SplitCoo(rows, w, memory)
  {
    forall q | 0 <= q < |before|
      ensures Written(before, rows, w, memory)[q] == SplitCoo(rows, w, memory)[q]
    {
      WrittenAt(before, rows, w, memory, q);
      WrittenAt(Tails(rows, w), rows, w, memory, q);
    }
  }

  // ---------------------------------------------------------------- when it is the part that is meant

  /** Each slot goes to its own row, or to an empty row behind it. */
  lemma SplitAt<T>(rows: RowList<T>, w: nat, memory: seq<int>, q: int)
    requires |memory| == |rows| && LeftoversFit(rows, w, memory) && 0 <= q < |Tails(rows, w)|
    ensures var e, i := SplitCoo(rows, w, memory)[q], Copier(rows, w, memory, q);
            && Tails(rows, w)[q].row == Owner(rows, w, q) <= i == e.row < |rows|
            && (i == Owner(rows, w, q) ==> e == Tails(rows, w)[q])
  {
    WrittenAt(Tails(rows, w), rows, w, memory, q);
    CopierIs(rows, w, memory, q);
    var s, j := OwnCell(rows, w, q);
  }

  lemma SplitWhenClean<T>(rows: RowList<T>, w: nat, memory: seq<int>)
    requires |memory| == |rows| && NoLeftover(rows, memory)
    ensures LeftoversFit(rows, w, memory) && SplitCoo(rows, w, memory) == Tails(rows, w)
  {
    CleanFits(rows, w, memory);
    forall q | 0 <= q < |Tails(rows, w)|
      ensures SplitCoo(rows, w, memory)[q] == Tails(rows, w)[q]
    {
      CopierIs(rows, w, memory, q);
      SplitAt(rows, w, memory, q);
    }
  }

  /** The last slot of a positive leftover is one that rows before it have spilled into. */
  lemma LeftoverSlot<T>(rows: RowList<T>, w: nat, memory: seq<int>, i: nat) returns (q: nat)
    requires |memory| == |rows| && LeftoversFit(rows, w, memory)
    requires i < |rows| && |rows[i]| == 0 && memory[i] > 0
    ensures q < |Tails(rows, w)| && q < SpillStarts(rows, w)[i] && Reaches(rows, w, memory, i, q)
  {
    RowPass(rows, w, i);
    ReachesOwn(rows, w, memory, i, SpillStarts(rows, w)[i] - 1);
    q := SpillStarts(rows, w)[i] - 1;
  }

  /** A leftover takes that slot away from the row that spilled into it. */
  lemma Displaced<T>(rows: RowList<T>, w: nat, memory: seq<int>, i: nat) returns (q: nat)
    requires |memory| == |rows| && LeftoversFit(rows, w, memory)
    requires i < |rows| && |rows[i]| == 0 && memory[i] > 0
    ensures q < |Tails(rows, w)| && Tails(rows, w)[q].row < i <= SplitCoo(rows, w, memory)[q].row
  {
    q := LeftoverSlot(rows, w, memory, i);
    CopierReaches(rows, w, memory, i, q);
    OwnerBefore(rows, w, i, q);
    SplitAt(rows, w, memory, q);
  }

  lemma OwnerBefore<T>(rows: RowList<T>, w: nat, i: nat, q: int)
    requires i < |rows| && 0 <= q < |Tails(rows, w)| && q < SpillStarts(rows, w)[i]
    ensures Owner(rows, w, q) < i
  {
    OwnerIs(rows, w, q);
    if i <= Owner(rows, w, q) {
      PrefixMonotone(Lengths(TailParts(rows, w)), i, Owner(rows, w, q));
    }
  }

  lemma OwnerNotBefore<T>(rows: RowList<T>, w: nat, i: nat, q: int)
    requires i < |rows| && 0 <= q < |Tails(rows, w)| && SpillStarts(rows, w)[i] <= q
    ensures i <= Owner(rows, w, q)
  {
    OwnerIs(rows, w, q);
    if Owner(rows, w, q) < i {
      PrefixMonotone(Lengths(TailParts(rows, w)), Owner(rows, w, q) + 1, i);
    }
  }

  /** Later slots have later writers, leftovers or not. */
  lemma CopierRises<T>(rows: RowList<T>, w: nat, memory: seq<int>, q: int, p: int)
    requires |memory| == |rows| && 0 <= q < p < |Tails(rows, w)|
    ensures Copier(rows, w, memory, q) <= Copier(rows, w, memory, p)
  {
    CopierIs(rows, w, memory, q);
    CopierIs(rows, w, memory, p);
    var s, i := Owner(rows, w, q), Copier(rows, w, memory, q);
    OwnerIs(rows, w, q);
    ReachesOwn(rows, w, memory, s, q);
    CopierReaches(rows, w, memory, s, q);
    if SpillStarts(rows, w)[i] <= p {
      OwnerNotBefore(rows, w, i, p);
    } else {
      ReachesOwn(rows, w, memory, i, q);
      ReachesOwn(rows, w, memory, i, p);
      CopierReaches(rows, w, memory, i, p);
    }
  }

  /** So the COO part is sorted by row, right or wrong. */
  lemma SplitSorted<T>(rows: RowList<T>, w: nat, memory: seq<int>)
    requires |memory| == |rows| && LeftoversFit(rows, w, memory)
    ensures Sorted(RowIndices(SplitCoo(rows, w, memory)))
  {
    var es := SplitCoo(rows, w, memory);
    forall q, p | 0 <= q < p < |es|
      ensures es[q].row <= es[p].row
    {
      CopierRises(rows, w, memory, q, p);
      SplitAt(rows, w, memory, q);
      SplitAt(rows, w, memory, p);
    }
  }

  /** The COO part is the one that is meant exactly when no empty row has a positive leftover. */
  lemma SplitIff<T>(rows: RowList<T>, w: nat, memory: seq<int>)
    requires |memory| == |rows|
    ensures LeftoversFit(rows, w, memory) && SplitCoo(rows, w, memory) == Tails(rows, w) <==> NoLeftover(rows, memory)
  {
    if NoLeftover(rows, memory) {
      SplitWhenClean(rows, w, memory);
    } else if LeftoversFit(rows, w, memory) {
      var i :| 0 <= i < |rows| && |rows[i]| == 0 && memory[i] > 0;
      var q := Displaced(rows, w, memory, i);
    }
  }

  /** It is so whatever the memory holds exactly when no row is empty. */
  lemma SplitForAnyMemory<T>(rows: RowList<T>, w: nat)
    ensures (forall memory: seq<int> :: |memory| == |rows| ==>
               LeftoversFit(rows, w, memory) && SplitCoo(rows, w, memory) == Tails(rows, w))
            <==> forall i :: 0 <= i < |rows| ==> |rows[i]| > 0
  {
    forall memory: seq<int> | |memory| == |rows|
      ensures LeftoversFit(rows, w, memory) && SplitCoo(rows, w, memory) == Tails(rows, w)
              <==> NoLeftover(rows, memory)
    {
      SplitIff(rows, w, memory);
    }
    if i :| 0 <= i < |rows| && |rows[i]| == 0 {
      assert !NoLeftover(rows, Constant(|rows|, 1));
    }
  }

  // ---------------------------------------------------------------- the HYB matrix

  /** CSR -> HYB as the loops do it. */
  function HybWritten<T>(rows: RowList<T>, ncol: nat, w: nat, zero: T, memory: seq<int>): Hyb<T>
    requires |memory| == |rows| && LeftoversFit(rows, w, memory)
  {
    Hyb(HybOf(rows, ncol, w, zero).ell, SplitCoo(rows, w, memory))
  }

  /** It is a valid HYB matrix, right or wrong. */
  lemma HybWrittenValid<T>(rows: RowList<T>, ncol: nat, w: nat, zero: T, memory: seq<int>)
    requires AllColumnsIn(rows, ncol) && |memory| == |rows| && LeftoversFit(rows, w, memory)
    ensures ValidHyb(HybWritten(rows, ncol, w, zero, memory))
  {
    var es := SplitCoo(rows, w, memory);
    SplitSorted(rows, w, memory);
    FlattenColumns(rows, ncol);
    forall q | 0 <= q < |es|
      ensures 0 <= es[q].row < |rows| && 0 <= es[q].col < ncol
    {
      WrittenAt(Tails(rows, w), rows, w, memory, q);
    }
  }

  /** Without leftovers the loops write what is meant. */
  lemma HybWrittenWhenClean<T>(rows: RowList<T>, ncol: nat, w: nat, zero: T, memory: seq<int>)
    requires AllColumnsIn(rows, ncol) && |memory| == |rows| && NoLeftover(rows, memory)
    ensures LeftoversFit(rows, w, memory)
    ensures HybWritten(rows, ncol, w, zero, memory) == HybOf(rows, ncol, w, zero)
    ensures ValidHyb(HybOf(rows, ncol, w, zero)) && HybRows(HybOf(rows, ncol, w, zero)) == rows
  {
    SplitWhenClean(rows, w, memory);
    HybOfKeepsRows(rows, ncol, w, zero);
  }

  /** Raising elements, one of them past x, leaves fewer below x. */
  lemma {:induction false} FewerBelow(a: seq<int>, b: seq<int>, x: int, q: nat)
    requires |a| == |b| && forall k :: 0 <= k < |a| ==> a[k] <= b[k]
    ensures CountBelow(b, x) <= CountBelow(a, x)
    ensures q < |a| && a[q] < x <= b[q] ==> CountBelow(b, x) < CountBelow(a, x)
  {
    if a != [] {
      FewerBelow(a[..|a| - 1], b[..|b| - 1], x, q);
    }
  }

  /** Entries with the same rows have as many entries below each row. */
  lemma {:induction false} SameRowsSameCounts<T>(es: seq<Entry<T>>, fs: seq<Entry<T>>, nrow: nat, n: nat)
    requires InRange(RowIndices(es), nrow) && InRange(RowIndices(fs), nrow) && n <= nrow
    requires forall r :: 0 <= r < n ==> CooRow(es, r) == CooRow(fs, r)
    ensures CountBelow(RowIndices(es), n) == CountBelow(RowIndices(fs), n)
  {
    if n == 0 {
      CountBelowEnds(RowIndices(es), nrow);
      CountBelowEnds(RowIndices(fs), nrow);
    } else {
      SameRowsSameCounts(es, fs, nrow, n - 1);
      CountBelowStep(RowIndices(es), n - 1);
      CountBelowStep(RowIndices(fs), n - 1);
      assert CooRow(es, n - 1) == CooRow(fs, n - 1);
      CooRowLength(es, n - 1);
      CooRowLength(fs, n - 1);
    }
  }

  lemma RowsRise<T>(rows: RowList<T>, w: nat, memory: seq<int>)
    requires |memory| == |rows| && LeftoversFit(rows, w, memory)
    ensures forall k :: 0 <= k < |Tails(rows, w)| ==>
              0 <= Tails(rows, w)[k].row <= SplitCoo(rows, w, memory)[k].row < |rows|
  {
    forall k | 0 <= k < |Tails(rows, w)|
      ensures 0 <= Tails(rows, w)[k].row <= SplitCoo(rows, w, memory)[k].row < |rows|
    {
      SplitAt(rows, w, memory, k);
    }
  }

  lemma FewerRowsBelow<T>(es: seq<Entry<T>>, fs: seq<Entry<T>>, i: int, q: nat)
    requires |es| == |fs| && forall k :: 0 <= k < |es| ==> es[k].row <= fs[k].row
    requires q < |es| && es[q].row < i <= fs[q].row
    ensures CountBelow(RowIndices(fs), i) < CountBelow(RowIndices(es), i)
  {
    FewerBelow(RowIndices(es), RowIndices(fs), i, q);
  }

  /** With a leftover at row i, the COO part has fewer entries in the rows before i than it should. */
  lemma LeftoverLosesEntry<T>(rows: RowList<T>, w: nat, memory: seq<int>, i: nat)
    requires |memory| == |rows| && LeftoversFit(rows, w, memory)
    requires i < |rows| && |rows[i]| == 0 && memory[i] > 0
    ensures CountBelow(RowIndices(SplitCoo(rows, w, memory)), i) < CountBelow(RowIndices(Tails(rows, w)), i)
  {
    RowsRise(rows, w, memory);
    var q := Displaced(rows, w, memory, i);
    FewerRowsBelow(Tails(rows, w), SplitCoo(rows, w, memory), i, q);
  }

  /** The rows of the HYB matrix are those of the CSR matrix exactly when no empty row has a positive
      leftover. */
  lemma RowsKeptIff<T>(rows: RowList<T>, ncol: nat, w: nat, zero: T, memory: seq<int>)
    requires AllColumnsIn(rows, ncol) && |memory| == |rows| && LeftoversFit(rows, w, memory)
    ensures var h := HybWritten(rows, ncol, w, zero, memory);
            ValidHyb(h) && (HybRows(h) == rows <==> NoLeftover(rows, memory))
  {
    HybWrittenValid(rows, ncol, w, zero, memory);
    if NoLeftover(rows, memory) {
      HybWrittenWhenClean(rows, ncol, w, zero, memory);
    } else {
      var i :| 0 <= i < |rows| && |rows[i]| == 0 && memory[i] > 0;
      if HybRows(HybWritten(rows, ncol, w, zero, memory)) == rows {
        CooRowsAreTails(rows, ncol, w, zero, memory);
        LeftoverLosesEntry(rows, w, memory, i);
        RowsRise(rows, w, memory);
        SameRowsSameCounts(SplitCoo(rows, w, memory), Tails(rows, w), |rows|, i);
      }
    }
  }

  /** If the rows are kept, the COO part has the right cells in every row. */
  lemma CooRowsAreTails<T>(rows: RowList<T>, ncol: nat, w: nat, zero: T, memory: seq<int>)
    requires AllColumnsIn(rows, ncol) && |memory| == |rows| && LeftoversFit(rows, w, memory)
    requires ValidHyb(HybWritten(rows, ncol, w, zero, memory))
    requires HybRows(HybWritten(rows, ncol, w, zero, memory)) == rows
    ensures forall r :: 0 <= r < |rows| ==> CooRow(SplitCoo(rows, w, memory), r) == CooRow(Tails(rows, w), r)
  {
    var h, g := HybWritten(rows, ncol, w, zero, memory), HybOf(rows, ncol, w, zero);
    HybOfKeepsRows(rows, ncol, w, zero);
    forall r | 0 <= r < |rows|
      ensures CooRow(h.coo, r) == CooRow(g.coo, r)
    {
      assert HybRow(h, r) == HybRows(h)[r] == HybRows(g)[r] == HybRow(g, r);
      SameEnd(EllRow(h.ell, r, w), CooRow(h.coo, r), CooRow(g.coo, r));
    }
  }

  lemma SameEnd<U>(a: seq<U>, b: seq<U>, c: seq<U>)
    requires a + b == a + c
    ensures b == c
  {
    assert b == (a + b)[|a|..] && c == (a + c)[|a|..];
  }

  /** CSR -> HYB -> CSR, as the loops do it, changes nothing exactly when no empty row has a positive
      leftover. */
  lemma RoundTripIff<T>(c: Csr<T>, w: nat, zero: T, memory: seq<int>)
    requires ValidCsr(c) && |memory| == c.nrow && LeftoversFit(CsrRows(c), w, memory)
    ensures var h := HybWritten(CsrRows(c), c.ncol, w, zero, memory);
            ValidHyb(h) && (CsrOf(HybRows(h), c.ncol) == c <==> NoLeftover(CsrRows(c), memory))
  {
    var rows := CsrRows(c);
    var h := HybWritten(rows, c.ncol, w, zero, memory);
    CsrRowsColumns(c);
    CsrOfRows(c);
    RowsKeptIff(rows, c.ncol, w, zero, memory);
    HybRowsColumns(h);
    RowsOfCsrOf(HybRows(h), c.ncol);
  }

  /** Row-sorted entries, loaded and saved, come back unchanged exactly when no empty row has a
      positive leftover. */
  lemma SavesWhatItLoadsIff<T>(es: seq<Entry<T>>, nrow: nat, ncol: nat, w: nat, zero: T, memory: seq<int>)
    requires ValidCoo(es, nrow, ncol) && Sorted(RowIndices(es)) && |memory| == nrow
    requires LeftoversFit(CooRows(es, nrow), w, memory)
    ensures var h := HybWritten(CooRows(es, nrow), ncol, w, zero, memory);
            ValidHyb(h) && (Tails(HybRows(h), 0) == es <==> NoLeftover(CooRows(es, nrow), memory))
  {
    var rows := CooRows(es, nrow);
    CooRowsColumns(es, nrow, ncol);
    RowsKeptIff(rows, ncol, w, zero, memory);
    SortedDetermined(es, nrow);
    CooRowsOfTails(HybRows(HybWritten(rows, ncol, w, zero, memory)));
  }

  /** Two rows, the second empty. */
  predicate IsExample<T(==)>(rows: RowList<T>, x: T, y: T)
  {
    rows == [[Cell(0, x), Cell(1, y)], []]
  }

  lemma ExampleStarts<T>(rows: RowList<T>, x: T, y: T)
    requires IsExample(rows, x, y)
    ensures Tails(rows, 1) == [Entry(0, 1, y)] && SpillStarts(rows, 1) == [0, 1, 1]
  {
    var parts := TailParts(rows, 1);
    assert parts[0] == [Entry(0, 1, y)] && parts[1] == [];
    assert parts == [parts[0]] + [parts[1]] && parts[..1] == [parts[0]] && parts[..1][..0] == [];
    assert Flatten(parts[..1]) == [Entry(0, 1, y)];
    PrefixStep(Lengths(parts), 0);
    PrefixStep(Lengths(parts), 1);
  }

  lemma ExampleCells<T>(rows: RowList<T>, x: T, y: T)
    requires IsExample(rows, x, y)
    ensures Flatten(rows) == [Cell(0, x), Cell(1, y)] && EllSums(rows, 1) == [1, 1]
  {
    assert rows[..1] == [rows[0]] && rows[..1][..0] == [];
    assert Flatten(rows[..1]) == rows[0];
    PrefixStep(EllCounts(rows, 1), 0);
    PrefixStep(EllCounts(rows, 1), 1);
  }

  /** At the default width, with 1 left over for the empty row, the one spilled cell of row 0 is
      stored in row 1. */
  lemma LeftoverExample<T>(rows: RowList<T>, x: T, y: T, memory: seq<int>)
    requires IsExample(rows, x, y) && |memory| == 2 && memory[1] == 1
    ensures HybWidth(0, 2, 2) == 1 && SomeRowLonger(rows, 1) && LeftoversFit(rows, 1, memory)
    ensures Tails(rows, 1) == [Entry(0, 1, y)] && SplitCoo(rows, 1, memory) == [Entry(1, 1, y)]
  {
    ExampleStarts(rows, x, y);
    ExampleCells(rows, x, y);
    assert |rows[0]| == 2;
    var q := Displaced(rows, 1, memory, 1);
    SplitAt(rows, 1, memory, 0);
    WrittenAt(Tails(rows, 1), rows, 1, memory, 0);
  }
}
