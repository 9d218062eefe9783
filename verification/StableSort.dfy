/** The contract of thrust::stable_sort_by_key on a prefix of its arrays.  The library's own
    algorithm is not part of the model; an insertion sort on indices stands in for it. */
module StableSort {
  import opened Sequences

  /** Insert index x behind every index of p whose key is not greater. */
  function Insert(p: seq<int>, x: int, keys: seq<int>): (q: seq<int>)
    requires InRange(p, |keys|) && 0 <= x < |keys|
    ensures |q| == |p| + 1 && InRange(q, |keys|)
  {
    if p == [] || keys[p[|p| - 1]] <= keys[x] then p + [x]
    else Insert(p[..|p| - 1], x, keys) + [p[|p| - 1]]
  }

  /** The indices of `keys` in stable order. */
  function SortPerm(keys: seq<int>): (p: seq<int>)
    ensures |p| == |keys| && InRange(p, |keys|)
  {
    if keys == [] then []
    else
      var n := |keys| - 1;
      Insert(SortPerm(keys[..n]), n, keys)
  }

  /** Keys ascend, and equal keys keep their index order. */
  ghost predicate StableOrder(keys: seq<int>, p: seq<int>)
    requires InRange(p, |keys|)
  {
    forall a, b :: 0 <= a < b < |p| ==>
      keys[p[a]] < keys[p[b]] || (keys[p[a]] == keys[p[b]] && p[a] < p[b])
  }

  lemma {:induction false} InsertElements(p: seq<int>, x: int, keys: seq<int>)
    requires InRange(p, |keys|) && 0 <= x < |keys|
    ensures multiset(Insert(p, x, keys)) == multiset(p) + multiset{x}
  {
    if !(p == [] || keys[p[|p| - 1]] <= keys[x]) {
      InsertElements(p[..|p| - 1], x, keys);
      assert p == p[..|p| - 1] + [p[|p| - 1]];
    }
  }

  lemma {:induction false} InsertKeepsOrder(p: seq<int>, x: int, keys: seq<int>)
    requires InRange(p, |keys|) && 0 <= x < |keys|
    requires StableOrder(keys, p) && forall k :: 0 <= k < |p| ==> p[k] < x
    ensures StableOrder(keys, Insert(p, x, keys))
  {
    if !(p == [] || keys[p[|p| - 1]] <= keys[x]) {
      var init, z := p[..|p| - 1], p[|p| - 1];
      InsertKeepsOrder(init, x, keys);
      InsertElements(init, x, keys);
      var q := Insert(init, x, keys);
      forall a | 0 <= a < |q|
        ensures keys[q[a]] < keys[z] || (keys[q[a]] == keys[z] && q[a] < z)
      {
        assert q[a] in multiset(q);
        if q[a] != x {
          assert q[a] in init;
        }
      }
    }
  }

  /** SortPerm is a stable sort. */
  lemma {:induction false} SortPermIsStable(keys: seq<int>)
    ensures StableOrder(keys, SortPerm(keys))
  {
    if keys != [] {
      var n := |keys| - 1;
      var p := SortPerm(keys[..n]);
      SortPermIsStable(keys[..n]);
      assert StableOrder(keys, p);
      InsertKeepsOrder(p, n, keys);
    }
  }

  lemma {:induction false} ThroughInsert<T>(s: seq<T>, p: seq<int>, x: int, keys: seq<int>)
    requires |keys| <= |s| && InRange(p, |keys|) && 0 <= x < |keys|
    ensures multiset(Through(s, Insert(p, x, keys))) == multiset(Through(s, p)) + multiset{s[x]}
  {
    if p == [] || keys[p[|p| - 1]] <= keys[x] {
      assert Through(s, p + [x]) == Through(s, p) + [s[x]];
    } else {
      var init, z := p[..|p| - 1], p[|p| - 1];
      ThroughInsert(s, init, x, keys);
      assert Through(s, p) == Through(s, init) + [s[z]];
      assert Through(s, Insert(p, x, keys)) == Through(s, Insert(init, x, keys)) + [s[z]];
    }
  }

  /** Reading any sequence in sorted order permutes it. */
  lemma {:induction false} SortPermPermutes<T>(s: seq<T>, keys: seq<int>)
    requires |s| == |keys|
    ensures multiset(Through(s, SortPerm(keys))) == multiset(s)
  {
    if keys != [] {
      var n := |keys| - 1;
      var p := SortPerm(keys[..n]);
      SortPermPermutes(s[..n], keys[..n]);
      assert Through(s[..n], p) == Through(s, p);
      ThroughInsert(s, p, n, keys);
      assert s == s[..n] + [s[n]];
    }
  }

  /** The sorting permutation of the first n keys, leaving the others in place. */
  function SortPrefix(keys: seq<int>, n: nat): (p: seq<int>)
    requires n <= |keys|
    ensures |p| == |keys| && InRange(p, |keys|)
  {
    SortPerm(keys[..n]) + seq(|keys| - n, k requires 0 <= k < |keys| - n => n + k)
  }

  lemma SortPrefixPermutes<T>(s: seq<T>, keys: seq<int>, n: nat)
    requires |s| == |keys| && n <= |keys|
    ensures multiset(Through(s, SortPrefix(keys, n))) == multiset(s)
  {
    SortPermPermutes(s[..n], keys[..n]);
    assert Through(s, SortPrefix(keys, n)) == Through(s[..n], SortPerm(keys[..n])) + s[n..];
    assert s == s[..n] + s[n..];
  }

  /** Sorts the first `last` keys, and their values with them. */
  method StableSortByKey<T>(keys: array<int>, last: nat, values: array<T>)
    requires last <= keys.Length == values.Length
    requires keys as object != values as object
    modifies keys, values
    ensures keys[..] == Through(old(keys[..]), SortPrefix(old(keys[..]), last))
    ensures values[..] == Through(old(values[..]), SortPrefix(old(keys[..]), last))
  {
    var ks, vs := keys[..], values[..];
    var order := SortPrefix(ks, last);
    for i := 0 to last
      invariant forall k :: 0 <= k < keys.Length ==> keys[k] == if k < i then ks[order[k]] else ks[k]
      invariant forall k :: 0 <= k < keys.Length ==> values[k] == if k < i then vs[order[k]] else vs[k]
    {
      keys[i], values[i] := ks[order[i]], vs[order[i]];
    }
  }
}
