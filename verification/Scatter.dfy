/** utils/scatter.cpp: conditional writes to mapped positions. */
module Scatter {
  import opened Sequences

  /** The last i whose flag is set and whose target is position p, or -1 if there is none. */
  function LastWriter(targets: seq<int>, flags: seq<int>, shift: int, p: int): (w: int)
    requires |targets| == |flags|
    ensures -1 <= w < |targets|
    ensures 0 <= w ==> flags[w] != 0 && targets[w] - shift == p
    ensures forall i :: w < i < |targets| && flags[i] != 0 ==> targets[i] - shift != p
  {
    if targets == [] then -1
    else
      var n := |targets| - 1;
      if flags[n] != 0 && targets[n] - shift == p then n
      else LastWriter(targets[..n], flags[..n], shift, p)
  }

  /** `out` after the writes: each position holds what its last writer wrote, or its old value. */
  function Scattered(out: seq<int>, values: seq<int>, targets: seq<int>, flags: seq<int>, shift: int): (r: seq<int>)
    requires |values| == |targets| == |flags|
    ensures |r| == |out|
  {
    seq(|out|, p requires 0 <= p < |out| =>
      var w := LastWriter(targets, flags, shift, p);
      if w < 0 then out[p] else values[w])
  }

  /** A flagged write that no later one overwrites is what its position holds. */
  lemma ScatteredWrite(out: seq<int>, values: seq<int>, targets: seq<int>, flags: seq<int>, shift: int, i: nat)
    requires i < |values| == |targets| == |flags| && flags[i] != 0 && 0 <= targets[i] - shift < |out|
    requires forall k :: i < k < |targets| && flags[k] != 0 ==> targets[k] != targets[i]
    ensures Scattered(out, values, targets, flags, shift)[targets[i] - shift] == values[i]
  {
    var w := LastWriter(targets, flags, shift, targets[i] - shift);
    assert i <= w;
  }

  /** A position that no flagged write goes to is left alone. */
  lemma ScatteredKept(out: seq<int>, values: seq<int>, targets: seq<int>, flags: seq<int>, shift: int, p: nat)
    requires |values| == |targets| == |flags| && p < |out|
    requires forall k :: 0 <= k < |targets| && flags[k] != 0 ==> targets[k] - shift != p
    ensures Scattered(out, values, targets, flags, shift)[p] == out[p]
  {
    var w := LastWriter(targets, flags, shift, p);
  }

  /** The flagged targets lie inside the output. */
  predicate TargetsFit(targets: seq<int>, flags: seq<int>, shift: int, n: int)
    requires |targets| == |flags|
  {
    forall i :: 0 <= i < |targets| && flags[i] != 0 ==> 0 <= targets[i] - shift < n
  }

  /** The first n writes have been made. */
  ghost predicate Written(out: seq<int>, before: seq<int>, values: seq<int>, targets: seq<int>, flags: seq<int>,
                          shift: int, n: nat)
    requires n <= |values| == |targets| == |flags|
  {
    out == Scattered(before, values[..n], targets[..n], flags[..n], shift)
  }

  /** One more write. */
  lemma WrittenStep(out: seq<int>, before: seq<int>, values: seq<int>, targets: seq<int>, flags: seq<int>,
                    shift: int, n: nat)
    requires n < |values| == |targets| == |flags|
    requires TargetsFit(targets, flags, shift, |before|) && Written(out, before, values, targets, flags, shift, n)
    ensures flags[n] == 0 ==> Written(out, before, values, targets, flags, shift, n + 1)
    ensures flags[n] != 0 ==>
              0 <= targets[n] - shift < |out|
              && Written(out[targets[n] - shift := values[n]], before, values, targets, flags, shift, n + 1)
  {
    assert targets[..n + 1][..n] == targets[..n] && flags[..n + 1][..n] == flags[..n];
  }

  lemma WrittenAll(out: seq<int>, before: seq<int>, values: seq<int>, targets: seq<int>, flags: seq<int>, shift: int)
    requires |values| == |targets| == |flags| && Written(out, before, values, targets, flags, shift, |values|)
    ensures out == Scattered(before, values, targets, flags, shift)
  {
    assert values[..|values|] == values && targets[..|values|] == targets && flags[..|values|] == flags;
  }

  lemma WrittenNone(out: seq<int>, values: seq<int>, targets: seq<int>, flags: seq<int>, shift: int)
    requires |values| == |targets| == |flags|
    ensures Written(out, out, values, targets, flags, shift, 0)
  {
  }

  /** The conditional assignment: write number n of `values` to `targets`. */
  method WriteIf(out: array<int>, flag: int, index: int, value: int, ghost before: seq<int>, ghost values: seq<int>,
                 ghost targets: seq<int>, ghost flags: seq<int>, ghost shift: int, ghost n: nat)
    requires n < |values| == |targets| == |flags| && TargetsFit(targets, flags, shift, out.Length)
    requires flag == flags[n] && index == targets[n] - shift && value == values[n] && |before| == out.Length
    requires Written(out[..], before, values, targets, flags, shift, n)
    modifies out
    ensures Written(out[..], before, values, targets, flags, shift, n + 1)
  {
    WrittenStep(out[..], before, values, targets, flags, shift, n);
    if flag != 0 {
      out[index] := value;
    }
  }

  method ScatterIf(first: nat, last: nat, input: array<int>, mapping: array<int>, stencil: array<int>,
                   out: array<int>, shift: int)
    requires first <= last <= input.Length && last <= stencil.Length && last - first <= mapping.Length
    requires out != input && out != mapping && out != stencil
    requires TargetsFit(mapping[..last - first], stencil[first..last], shift, out.Length)
    modifies out
    ensures out[..] == Scattered(old(out[..]), input[first..last], mapping[..last - first], stencil[first..last], shift)
  {
    ghost var before := out[..];
    ghost var vs, ts, fs := input[first..last], mapping[..last - first], stencil[first..last];
    WrittenNone(before, vs, ts, fs, shift);
    for i := first to last
      invariant Written(out[..], before, vs, ts, fs, shift, i - first)
    {
      assert fs[i - first] == stencil[i] && vs[i - first] == input[i];
      WriteIf(out, stencil[i], mapping[i - first] - shift, input[i], before, vs, ts, fs, shift, i - first);
    }
    WrittenAll(out[..], before, vs, ts, fs, shift);
  }

  method ScatterIfPermuted(first: nat, last: nat, input: array<int>, p: array<int>, mapping: array<int>,
                           stencil: array<int>, out: array<int>, shift: int)
    requires first <= last <= p.Length && last <= stencil.Length && last - first <= mapping.Length
    requires InRange(p[first..last], input.Length)
    requires out != input && out != p && out != mapping && out != stencil
    requires TargetsFit(mapping[..last - first], stencil[first..last], shift, out.Length)
    modifies out
    ensures out[..] == Scattered(old(out[..]), Through(input[..], p[first..last]), mapping[..last - first],
                                 stencil[first..last], shift)
  {
    ghost var before := out[..];
    ghost var ps := p[first..last];
    ghost var vs, ts, fs := Through(input[..], ps), mapping[..last - first], stencil[first..last];
    WrittenNone(before, vs, ts, fs, shift);
    for i := first to last
      invariant Written(out[..], before, vs, ts, fs, shift, i - first)
    {
      assert ps[i - first] == p[i];
      assert vs[i - first] == input[p[i]];
      assert fs[i - first] == stencil[i];
      WriteIf(out, stencil[i], mapping[i - first] - shift, input[p[i]], before, vs, ts, fs, shift, i - first);
    }
    WrittenAll(out[..], before, vs, ts, fs, shift);
  }
}
