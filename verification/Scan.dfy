/** The three scans of utils/scan.cpp.  No scan requires its arrays to be distinct: the result
    is a function of the old contents, whichever of the arrays are the same object. */
module Scan {
  import opened Sequences

  /** Element k is the sum of the k elements before position k. */
  function ExclusiveSums(s: seq<int>): (r: seq<int>)
    ensures |r| == |s|
  {
    seq(|s|, k requires 0 <= k < |s| => Sum(s[..k]))
  }

  function Max(s: seq<int>): int
    requires s != []
  {
    var x := s[|s| - 1];
    if |s| == 1 then x
    else var m := Max(s[..|s| - 1]); if m > x then m else x
  }

  /** Max is the least upper bound of the elements, and one of them. */
  lemma {:induction false} MaxIsGreatest(s: seq<int>, m: int)
    requires s != []
    requires m in s && forall k :: 0 <= k < |s| ==> s[k] <= m
    ensures Max(s) == m
  {
    MaxBounds(s);
  }

  lemma {:induction false} MaxBounds(s: seq<int>)
    requires s != []
    ensures Max(s) in s
    ensures forall k :: 0 <= k < |s| ==> s[k] <= Max(s)
  {
    if |s| > 1 {
      MaxBounds(s[..|s| - 1]);
    }
  }

  /** Element k is the greatest of the elements up to and including k. */
  function RunningMax(s: seq<int>): (r: seq<int>)
    ensures |r| == |s|
  {
    seq(|s|, k requires 0 <= k < |s| => Max(s[..k + 1]))
  }

  /** Where the run of equal keys that contains position k begins. */
  function RunStart(keys: seq<int>, k: nat): (r: nat)
    requires k < |keys|
    ensures r <= k
  {
    if k == 0 || keys[k - 1] != keys[k] then k else RunStart(keys, k - 1)
  }

  /** The run is a maximal stretch of equal keys. */
  lemma {:induction false} RunStartIsMaximal(keys: seq<int>, k: nat, a: nat)
    requires a <= k < |keys|
    requires forall p :: a <= p <= k ==> keys[p] == keys[k]
    requires a == 0 || keys[a - 1] != keys[k]
    ensures RunStart(keys, k) == a
  {
    if a < k {
      RunStartIsMaximal(keys, k - 1, a);
    }
  }

  /** Element k is the sum of the values of its own run up to and including k. */
  function SumsByKey(s: seq<int>, keys: seq<int>): (r: seq<int>)
    requires |s| == |keys|
    ensures |r| == |s|
  {
    seq(|s|, k requires 0 <= k < |s| => Sum(s[RunStart(keys, k)..k + 1]))
  }

  /** The step of the segmented sum: a run either continues or starts afresh. */
  lemma SumsByKeyStep(s: seq<int>, keys: seq<int>, k: nat)
    requires k < |s| == |keys|
    ensures var r := SumsByKey(s, keys);
            r[k] == if 0 < k && keys[k - 1] == keys[k] then r[k - 1] + s[k] else s[k]
  {
    var a := RunStart(keys, k);
    assert s[a..k + 1][..k - a] == s[a..k];
    assert Sum(s[a..k + 1]) == Sum(s[a..k]) + s[k];
  }

  method ExclusiveScan(first: nat, last: nat, input: array<int>, out: array<int>)
    requires first <= last <= input.Length && last <= out.Length
    modifies out
    ensures out[..] == old(out[..])[..first] + ExclusiveSums(old(input[first..last])) + old(out[..])[last..]
  {
    ghost var s, before := input[first..last], out[..];
    ghost var r := ExclusiveSums(s);
    if first != last {
      var tmp := input[first];
      var accumulator := 0;
      out[first] := accumulator;
      accumulator := accumulator + tmp;
      SumSnoc(s, 0);
      for i := first + 1 to last
        invariant accumulator == Sum(s[..i - first])
        invariant forall k :: first <= k < i ==> out[k] == r[k - first]
        invariant forall k :: 0 <= k < out.Length && !(first <= k < i) ==> out[k] == before[k]
        invariant forall k :: i <= k < last ==> input[k] == s[k - first]
      {
        tmp := input[i];
        out[i] := accumulator;
        SumSnoc(s, i - first);
        accumulator := accumulator + tmp;
      }
    }
    Spliced(out[..], before, first, last, r);
  }

  lemma RunningMaxStep(s: seq<int>, k: nat)
    requires k < |s|
    ensures var r := RunningMax(s);
            r[k] == if k > 0 && r[k - 1] > s[k] then r[k - 1] else s[k]
  {
    assert s[..k + 1][..k] == s[..k];
  }

  method InclusiveScanMax(first: nat, last: nat, input: array<int>, out: array<int>)
    requires first <= last <= input.Length && last <= out.Length
    modifies out
    ensures out[..] == old(out[..])[..first] + RunningMax(old(input[first..last])) + old(out[..])[last..]
  {
    ghost var s, before := input[first..last], out[..];
    ghost var r := RunningMax(s);
    if first != last {
      var accumulator := input[first];
      RunningMaxStep(s, 0);
      out[first] := accumulator;
      for i := first + 1 to last
        invariant accumulator == r[i - first - 1]
        invariant forall k :: first <= k < i ==> out[k] == r[k - first]
        invariant forall k :: 0 <= k < out.Length && !(first <= k < i) ==> out[k] == before[k]
        invariant forall k :: i <= k < last ==> input[k] == s[k - first]
      {
        RunningMaxStep(s, i - first);
        accumulator := if accumulator > input[i] then accumulator else input[i];
        out[i] := accumulator;
      }
    }
    Spliced(out[..], before, first, last, r);
  }

  /** What the loop computes, stated without runs: each value continues its predecessor's or starts afresh. */
  predicate ContinuesAt(s: seq<int>, keys: seq<int>, r: seq<int>, k: nat)
    requires k < |s| == |keys| == |r|
  {
    r[k] == if 0 < k && keys[k - 1] == keys[k] then r[k - 1] + s[k] else s[k]
  }

  lemma SumsContinue(s: seq<int>, keys: seq<int>)
    requires |s| == |keys|
    ensures forall k :: 0 <= k < |s| ==> ContinuesAt(s, keys, SumsByKey(s, keys), k)
  {
    forall k | 0 <= k < |s|
      ensures ContinuesAt(s, keys, SumsByKey(s, keys), k)
    {
      SumsByKeyStep(s, keys, k);
    }
  }

  method InclusiveScanByKey(first: nat, last: nat, input: array<int>, keys: array<int>, out: array<int>)
    requires first <= last <= input.Length && last <= keys.Length && last <= out.Length
    modifies out
    ensures out[..] == old(out[..])[..first] + SumsByKey(old(input[first..last]), old(keys[first..last]))
                       + old(out[..])[last..]
  {
    SumsContinue(input[first..last], keys[first..last]);
    ScanByKey(first, last, input, keys, out, SumsByKey(input[first..last], keys[first..last]));
  }

  method ScanByKey(first: nat, last: nat, input: array<int>, keys: array<int>, out: array<int>, ghost r: seq<int>)
    requires first <= last <= input.Length && last <= keys.Length && last <= out.Length
    requires |r| == last - first
    requires forall k :: 0 <= k < |r| ==> ContinuesAt(input[first..last], keys[first..last], r, k)
    modifies out
    ensures out[..] == old(out[..])[..first] + r + old(out[..])[last..]
  {
    ghost var s, q, before := input[first..last], keys[first..last], out[..];
    if first != last {
      var prevKey := keys[first];
      var prevValue := input[first];
      assert ContinuesAt(s, q, r, 0);
      out[first] := prevValue;
      for i := first + 1 to last
        invariant prevKey == q[i - first - 1] && prevValue == r[i - first - 1]
        invariant forall k :: first <= k < i ==> out[k] == r[k - first]
        invariant forall k :: 0 <= k < out.Length && !(first <= k < i) ==> out[k] == before[k]
        invariant forall k :: i <= k < last ==> input[k] == s[k - first]
        invariant forall k :: i <= k < last ==> keys[k] == q[k - first]
      {
        var key := keys[i];
        assert ContinuesAt(s, q, r, i - first);
        if prevKey == key {
          prevValue := prevValue + input[i];
        } else {
          prevValue := input[i];
        }
        out[i] := prevValue;
        prevKey := key;
      }
    }
    Spliced(out[..], before, first, last, r);
  }
}
