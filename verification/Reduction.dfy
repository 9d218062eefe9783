/** utils/reduce.cpp. */
module Reduction {
  import opened Rows
  import opened Loops
  import opened Compression
  import opened Matrices

  /** Reducing one more entry rewrites the last result or appends one. */
  lemma ReduceStep(es: seq<Entry<int>>, k: nat)
    requires 0 < k < |es|
    ensures var r, next, e := Reduce(es[..k]), Reduce(es[..k + 1]), es[k];
            && r != []
            && next == if SameKey(e, es[k - 1])
                       then r[..|r| - 1] + [Entry(e.row, e.col, e.val + r[|r| - 1].val)]
                       else r + [e]
  {
    assert es[..k + 1][..k] == es[..k];
  }

  lemma {:induction false} ReduceGrows(es: seq<Entry<int>>, k: nat)
    requires k <= |es|
    ensures |Reduce(es[..k])| <= |Reduce(es)|
    decreases |es| - k
  {
    if k == |es| {
      assert es[..k] == es;
    } else {
      assert es[..k + 1][..k] == es[..k];
      ReduceGrows(es, k + 1);
    }
  }

  /** The reduction of the first k entries is in place. */
  ghost predicate Reduced(out: seq<Entry<int>>, es: seq<Entry<int>>, k: nat)
    requires k <= |es|
  {
    Reduce(es[..k]) <= out
  }

  lemma ReducedMerge(out: seq<Entry<int>>, es: seq<Entry<int>>, k: nat)
    requires 0 < k < |es| && Reduced(out, es, k) && |out| == |Reduce(es)| && SameKey(es[k], es[k - 1])
    ensures var last, e := |Reduce(es[..k])| - 1, es[k];
            && last >= 0 && |Reduce(es[..k + 1])| == last + 1
            && Reduced(out[last := Entry(e.row, e.col, e.val + out[last].val)], es, k + 1)
  {
    var r, last, e := Reduce(es[..k]), |Reduce(es[..k])| - 1, es[k];
    ReduceStep(es, k);
    assert out[last] == r[last];
    ReplaceLast(r, out, Entry(e.row, e.col, e.val + r[last].val));
  }

  lemma ReplaceLast(r: seq<Entry<int>>, out: seq<Entry<int>>, e: Entry<int>)
    requires r != [] && r <= out
    ensures r[..|r| - 1] + [e] <= out[|r| - 1 := e]
  {
  }

  lemma ReducedAppend(out: seq<Entry<int>>, es: seq<Entry<int>>, k: nat)
    requires 0 < k < |es| && Reduced(out, es, k) && |out| == |Reduce(es)| && !SameKey(es[k], es[k - 1])
    ensures var next := |Reduce(es[..k])|;
            next < |out| && |Reduce(es[..k + 1])| == next + 1 && Reduced(out[next := es[k]], es, k + 1)
  {
    ReduceStep(es, k);
    ReduceGrows(es, k + 1);
  }

  /** The key is that of the last result: the value is added there. */
  method MergeOne(row: int, column: int, value: int, last: nat, iOut: array<int>, jOut: array<int>, vOut: array<int>,
                  ghost es: seq<Entry<int>>, ghost k: nat)
    requires iOut.Length == jOut.Length == vOut.Length == |Reduce(es)| && iOut != jOut && vOut !in {iOut, jOut}
    requires 0 < k < |es| && es[k] == Entry(row, column, value) && SameKey(es[k], es[k - 1])
    requires last == |Reduce(es[..k])| - 1 && Reduced(ZipEntries(iOut[..], jOut[..], vOut[..]), es, k)
    modifies iOut, jOut, vOut
    ensures |Reduce(es[..k + 1])| == last + 1
    ensures Reduced(ZipEntries(iOut[..], jOut[..], vOut[..]), es, k + 1)
  {
    ReducedMerge(ZipEntries(iOut[..], jOut[..], vOut[..]), es, k);
    PutEntry(iOut, jOut, vOut, last, row, column, value + vOut[last]);
  }

  /** The key is a new one: the entry becomes the next result. */
  method AppendOne(row: int, column: int, value: int, next: nat, iOut: array<int>, jOut: array<int>, vOut: array<int>,
                   ghost es: seq<Entry<int>>, ghost k: nat)
    requires iOut.Length == jOut.Length == vOut.Length == |Reduce(es)| && iOut != jOut && vOut !in {iOut, jOut}
    requires 0 < k < |es| && es[k] == Entry(row, column, value) && !SameKey(es[k], es[k - 1])
    requires next == |Reduce(es[..k])| && Reduced(ZipEntries(iOut[..], jOut[..], vOut[..]), es, k)
    modifies iOut, jOut, vOut
    ensures |Reduce(es[..k + 1])| == next + 1
    ensures Reduced(ZipEntries(iOut[..], jOut[..], vOut[..]), es, k + 1)
  {
    ReducedAppend(ZipEntries(iOut[..], jOut[..], vOut[..]), es, k);
    PutEntry(iOut, jOut, vOut, next, row, column, value);
  }

  /** reduce_by_key: C must have room for exactly the entries that calculate_NNZ counts. */
  method ReduceByKey(i: array<int>, j: array<int>, v: array<int>, c: MatrixCOO<int>)
    requires i.Length == j.Length == v.Length > 0
    requires c.Allocated() && c.nnz == |Reduce(ZipEntries(i[..], j[..], v[..]))|
    requires {c.row, c.col, c.val} !! {i, j, v}
    modifies c.row, c.col, c.val
    ensures c.Allocated()
    ensures c.Entries() == Reduce(old(ZipEntries(i[..], j[..], v[..])))
  {
    ghost var es := ZipEntries(i[..], j[..], v[..]);
    var iOut, jOut, vOut := c.row, c.col, c.val;
    var outIterator := 0;
    assert es[..1][..0] == [] && es[..1] == [es[0]];
    ReduceGrows(es, 1);
    PutEntry(iOut, jOut, vOut, 0, i[0], j[0], v[0]);
    for k := 1 to i.Length
      invariant outIterator == |Reduce(es[..k])| - 1
      invariant Reduced(ZipEntries(iOut[..], jOut[..], vOut[..]), es, k)
    {
      assert es[k] == Entry(i[k], j[k], v[k]) && es[k - 1] == Entry(i[k - 1], j[k - 1], v[k - 1]);
      if i[k] == i[k - 1] && j[k] == j[k - 1] {
        MergeOne(i[k], j[k], v[k], outIterator, iOut, jOut, vOut, es, k);
      } else {
        outIterator := outIterator + 1;
        AppendOne(i[k], j[k], v[k], outIterator, iOut, jOut, vOut, es, k);
      }
    }
    assert es[..i.Length] == es;
  }
}
