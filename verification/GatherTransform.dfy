/** utils/gather.cpp: reading through a map. */
module Gather {
  import opened Sequences

  method Gather<T>(mapFirst: nat, mapLast: nat, input: array<T>, mapping: array<int>, out: array<T>)
    requires mapFirst <= mapLast <= mapping.Length && mapLast - mapFirst <= out.Length
    requires InRange(mapping[mapFirst..mapLast], input.Length)
    requires out != input && out as object != mapping as object
    modifies out
    ensures out[..] == Through(input[..], mapping[mapFirst..mapLast]) + old(out[mapLast - mapFirst..])
    ensures forall k :: 0 <= k < mapLast - mapFirst ==> out[k] == input[mapping[mapFirst..mapLast][k]]
  {
    var numElements := mapLast - mapFirst;
    ghost var ps := mapping[mapFirst..mapLast];
    for i := 0 to numElements
      invariant forall k :: 0 <= k < i ==> out[k] == input[ps[k]]
      invariant forall k :: i <= k < out.Length ==> out[k] == old(out[k])
    {
      assert ps[i] == mapping[i + mapFirst];
      out[i] := input[mapping[i + mapFirst]];
    }
  }
}

/** utils/transform.cpp: products of values read through two maps. */
module Transform {
  import opened Sequences

  function Products(x: seq<int>, y: seq<int>): (r: seq<int>)
    requires |x| == |y|
    ensures |r| == |x|
  {
    seq(|x|, k requires 0 <= k < |x| => x[k] * y[k])
  }

  method Transform(first: nat, last: nat, a: array<int>, ap: array<int>, b: array<int>, bp: array<int>, v: array<int>)
    requires first <= last <= ap.Length && last <= bp.Length && last <= v.Length
    requires InRange(ap[first..last], a.Length) && InRange(bp[first..last], b.Length)
    requires v != a && v != ap && v != b && v != bp
    modifies v
    ensures v[..] == old(v[..])[..first]
                     + Products(Through(a[..], ap[first..last]), Through(b[..], bp[first..last]))
                     + old(v[..])[last..]
    ensures forall i :: first <= i < last ==> v[i] == a[ap[i]] * b[bp[i]]
  {
    ghost var before, r := v[..], Products(Through(a[..], ap[first..last]), Through(b[..], bp[first..last]));
    ghost var ps, qs := ap[first..last], bp[first..last];
    for i := first to last
      invariant forall k :: first <= k < i ==> v[k] == r[k - first] == a[ap[k]] * b[bp[k]]
      invariant forall k :: 0 <= k < v.Length && !(first <= k < i) ==> v[k] == before[k]
    {
      assert ps[i - first] == ap[i] && qs[i - first] == bp[i];
      v[i] := a[ap[i]] * b[bp[i]];
    }
    Spliced(v[..], before, first, last, r);
  }
}
