/** The offset loops that calculate_offsets (utils/matrix_utils.cpp:43-72) and the conversion from
    COO (matrix/matrixcsr_cpu.cpp:174-206) have in common. */
module RowOffsets {
  import opened Sequences

  method CountRows(rows: array<int>, offset: array<int>)
    requires rows != offset && InRange(rows[..], offset.Length)
    modifies offset
    ensures forall r :: 0 <= r < offset.Length ==> offset[r] == old(offset[r]) + Count(rows[..], r)
  {
    ghost var rs := rows[..];
    for i := 0 to rows.Length
      invariant forall r :: 0 <= r < offset.Length ==> offset[r] == old(offset[r]) + Count(rs[..i], r)
    {
      assert rows[i] == rs[i];
      forall r | 0 <= r < offset.Length
        ensures Count(rs[..i + 1], r) == Count(rs[..i], r) + (if rs[i] == r then 1 else 0)
      {
        CountSnoc(rs, i, r);
      }
      offset[rows[i]] := offset[rows[i]] + 1;
    }
    assert rs[..rows.Length] == rs;
  }

  method SumOffsets(offset: array<int>, nrow: nat)
    requires offset.Length == nrow + 1
    modifies offset
    ensures offset[..] == Prefix(old(offset[..nrow]))
  {
    ghost var z := offset[..nrow];
    var sum := 0;
    for i := 0 to nrow
      invariant sum == Sum(z[..i])
      invariant forall r :: 0 <= r < i ==> offset[r] == Sum(z[..r])
      invariant forall r :: i <= r < nrow ==> offset[r] == z[r]
    {
      var temp := offset[i];
      offset[i] := sum;
      SumSnoc(z, i);
      sum := sum + temp;
    }
    offset[nrow] := sum;
  }

  method ShiftOffsets(offset: array<int>, nrow: nat)
    requires offset.Length == nrow + 1
    modifies offset
    ensures offset[..] == [0] + old(offset[..nrow])
  {
    var last := 0;
    for i := 0 to nrow + 1
      invariant last == if i == 0 then 0 else old(offset[..])[i - 1]
      invariant forall r :: 0 <= r < i ==> offset[r] == if r == 0 then 0 else old(offset[..])[r - 1]
      invariant forall r :: i <= r <= nrow ==> offset[r] == old(offset[..])[r]
    {
      var temp := offset[i];
      offset[i] := last;
      last := temp;
    }
  }

  /** What the four loops leave behind when row_offsets starts as `initial`. */
  function OffsetsFrom(initial: seq<int>, rows: seq<int>, nrow: nat): (o: seq<int>)
    requires |initial| == nrow + 1
    ensures |o| == nrow + 1
  {
    seq(nrow + 1, i requires 0 <= i <= nrow =>
      CountBelow(rows, i) + (if i == 0 then 0 else Sum(initial[..i - 1])))
  }

  /** From one row to the next: the row's count, and what the element before held. */
  lemma OffsetsFromSteps(initial: seq<int>, rows: seq<int>, nrow: nat)
    requires |initial| == nrow + 1 && InRange(rows, nrow)
    ensures var o := OffsetsFrom(initial, rows, nrow);
            o[0] == 0 && forall i :: 0 <= i < nrow ==>
                           o[i + 1] - o[i] == Count(rows, i) + (if i == 0 then 0 else initial[i - 1])
  {
    var o := OffsetsFrom(initial, rows, nrow);
    CountBelowEnds(rows, nrow);
    forall i | 0 <= i < nrow
      ensures o[i + 1] - o[i] == Count(rows, i) + (if i == 0 then 0 else initial[i - 1])
    {
      CountBelowStep(rows, i);
      if i > 0 {
        SumSnoc(initial, i - 1);
      }
    }
  }

  /** The loops compute the row offsets exactly when row_offsets is zero before its last two
      elements; whatever those two hold is overwritten. */
  lemma OffsetsNeedZeros(initial: seq<int>, rows: seq<int>, nrow: nat)
    requires |initial| == nrow + 1
    ensures OffsetsFrom(initial, rows, nrow) == Offsets(rows, nrow) <==>
            forall k :: 0 <= k < nrow - 1 ==> initial[k] == 0
  {
    if forall k :: 0 <= k < nrow - 1 ==> initial[k] == 0 {
      forall j | 0 <= j < nrow
        ensures Sum(initial[..j]) == 0
      {
        SumOfZeros(initial[..j]);
      }
    }
    if OffsetsFrom(initial, rows, nrow) == Offsets(rows, nrow) {
      forall k | 0 <= k < nrow - 1
        ensures initial[k] == 0
      {
        var o := OffsetsFrom(initial, rows, nrow);
        assert o[k + 1] == Offsets(rows, nrow)[k + 1] && o[k + 2] == Offsets(rows, nrow)[k + 2];
        SumSnoc(initial, k);
      }
    }
  }

  /** Row lengths counted on top of what the memory held. */
  function Added(initial: seq<int>, lengths: seq<int>): (s: seq<int>)
    requires |initial| == |lengths|
    ensures |s| == |initial|
  {
    seq(|initial|, k requires 0 <= k < |initial| => initial[k] + lengths[k])
  }

  /** Counting on top of `initial` and then summing gives the offsets of the rows exactly when
      `initial` was all zero. */
  lemma SumsNeedZeros(initial: seq<int>, lengths: seq<int>)
    requires |initial| == |lengths|
    ensures Prefix(Added(initial, lengths)) == Prefix(lengths) <==>
            forall k :: 0 <= k < |initial| ==> initial[k] == 0
  {
    var counted := Added(initial, lengths);
    if forall k :: 0 <= k < |initial| ==> initial[k] == 0 {
      assert counted == lengths;
    }
    if Prefix(counted) == Prefix(lengths) {
      forall k | 0 <= k < |initial|
        ensures initial[k] == 0
      {
        PrefixStep(counted, k);
        PrefixStep(lengths, k);
      }
    }
  }

  /** Prefix sums of counts added to `initial`. */
  lemma {:induction false} PrefixOfSum(initial: seq<int>, counted: seq<int>, rows: seq<int>, r: nat)
    requires r <= |initial| == |counted|
    requires forall k :: 0 <= k < |counted| ==> counted[k] == initial[k] + Count(rows, k)
    requires CountBelow(rows, 0) == 0
    ensures Sum(counted[..r]) == Sum(initial[..r]) + CountBelow(rows, r)
  {
    if r > 0 {
      PrefixOfSum(initial, counted, rows, r - 1);
      SumSnoc(counted, r - 1);
      SumSnoc(initial, r - 1);
      CountBelowStep(rows, r - 1);
    }
  }

  /** The last two loops turn prefix sums into the offsets the caller sees. */
  lemma FromShifted(initial: seq<int>, counted: seq<int>, bumped: seq<int>, rows: seq<int>, nrow: nat)
    requires |initial| == |bumped| == nrow + 1 && |counted| == nrow && InRange(rows, nrow)
    requires forall k :: 0 <= k < nrow ==> counted[k] == initial[k] + Count(rows, k)
    requires forall k :: 0 <= k < nrow ==> bumped[k] == Prefix(counted)[k] + Count(rows, k)
    ensures [0] + bumped[..nrow] == OffsetsFrom(initial, rows, nrow)
  {
    CountBelowEnds(rows, nrow);
    forall k | 0 <= k < nrow
      ensures bumped[k] == OffsetsFrom(initial, rows, nrow)[k + 1]
    {
      PrefixOfSum(initial[..nrow], counted, rows, k);
      CountBelowStep(rows, k);
      assert initial[..nrow][..k] == initial[..k];
    }
  }

  /** The four loops in sequence, for any initial contents. */
  method ComputeOffsets(rows: array<int>, offset: array<int>, nrow: nat)
    requires rows != offset && offset.Length == nrow + 1 && InRange(rows[..], nrow)
    modifies offset
    ensures offset[..] == OffsetsFrom(old(offset[..]), rows[..], nrow)
  {
    ghost var initial, rs := offset[..], rows[..];
    CountRows(rows, offset);
    ghost var counted := offset[..nrow];
    SumOffsets(offset, nrow);
    CountRows(rows, offset);
    ghost var bumped := offset[..];
    ShiftOffsets(offset, nrow);
    FromShifted(initial, counted, bumped, rs, nrow);
  }

  /** The first two loops give the row offsets for every row, from an array that is zero before its
      last two elements: the last is overwritten, and the one before it is added to the last only. */
  method StartOffsets(rows: array<int>, offset: array<int>, nrow: nat)
    requires rows != offset && offset.Length == nrow + 1 && InRange(rows[..], nrow)
    requires forall r :: 0 <= r < nrow - 1 ==> offset[r] == 0
    modifies offset
    ensures forall r :: 0 <= r < nrow ==> offset[r] == CountBelow(rows[..], r)
  {
    ghost var initial, rs := offset[..nrow], rows[..];
    CountRows(rows, offset);
    ghost var counted := offset[..nrow];
    SumOffsets(offset, nrow);
    CountBelowEnds(rs, nrow);
    forall r | 0 <= r < nrow
      ensures offset[r] == CountBelow(rs, r)
    {
      PrefixOfSum(initial, counted, rs, r);
      SumOfZeros(initial[..r]);
    }
  }

  /** The last loop restores the offsets that the cursors have moved past. */
  method RestoreOffsets(rows: array<int>, offset: array<int>, nrow: nat)
    requires rows != offset && offset.Length == nrow + 1 && InRange(rows[..], nrow)
    requires forall r :: 0 <= r < nrow ==> offset[r] == CountBelow(rows[..], r + 1)
    modifies offset
    ensures offset[..] == Offsets(rows[..], nrow)
  {
    ShiftOffsets(offset, nrow);
    CountBelowEnds(rows[..], nrow);
  }
}
