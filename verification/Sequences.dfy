/** Sums, prefix sums and counts over integer sequences, shared by every module. */
module Sequences {

  function Min(a: nat, b: nat): nat
  {
    if a < b then a else b
  }

  lemma MulMonotone(a: nat, b: nat, d: nat)
    requires a <= b
    ensures a * d <= b * d
  {
  }

  lemma QuotientBounds(p: nat, d: nat)
    requires d > 0
    ensures p / d * d <= p < (p / d + 1) * d
  {
    assert p == p / d * d + p % d;
    assert (p / d + 1) * d == p / d * d + d;
  }

  function Constant(n: nat, v: int): (s: seq<int>)
    ensures |s| == n
  {
    seq(n, _ => v)
  }

  /** The sum of the elements, taken from left to right. */
  function Sum(s: seq<int>): int
  {
    if s == [] then 0 else Sum(s[..|s| - 1]) + s[|s| - 1]
  }

  lemma SumSnoc(s: seq<int>, k: nat)
    requires k < |s|
    ensures Sum(s[..k + 1]) == Sum(s[..k]) + s[k]
  {
    assert s[..k + 1][..k] == s[..k];
  }

  lemma {:induction false} SumOfZeros(s: seq<int>)
    requires forall k :: 0 <= k < |s| ==> s[k] == 0
    ensures Sum(s) == 0
  {
    if s != [] {
      SumOfZeros(s[..|s| - 1]);
    }
  }

  predicate NonNegative(s: seq<int>)
  {
    forall k :: 0 <= k < |s| ==> 0 <= s[k]
  }

  /** Prefix sums with both ends: element k is the sum of the first k elements. */
  function Prefix(s: seq<int>): (p: seq<int>)
    ensures |p| == |s| + 1
  {
    seq(|s| + 1, k requires 0 <= k <= |s| => Sum(s[..k]))
  }

  lemma PrefixStep(s: seq<int>, k: nat)
    requires k < |s|
    ensures Prefix(s)[k + 1] == Prefix(s)[k] + s[k]
  {
    SumSnoc(s, k);
  }

  lemma {:induction false} PrefixMonotone(s: seq<int>, a: nat, b: nat)
    requires NonNegative(s) && a <= b <= |s|
    ensures 0 == Prefix(s)[0] <= Prefix(s)[a] <= Prefix(s)[b]
    decreases b
  {
    if a < b {
      PrefixMonotone(s, a, b - 1);
      PrefixStep(s, b - 1);
    } else if 0 < a {
      PrefixMonotone(s, a - 1, a - 1);
      PrefixStep(s, a - 1);
    }
  }

  /** How many elements equal x. */
  function Count(s: seq<int>, x: int): nat
  {
    if s == [] then 0 else Count(s[..|s| - 1], x) + (if s[|s| - 1] == x then 1 else 0)
  }

  lemma CountSnoc(s: seq<int>, k: nat, x: int)
    requires k < |s|
    ensures Count(s[..k + 1], x) == Count(s[..k], x) + (if s[k] == x then 1 else 0)
  {
    assert s[..k + 1][..k] == s[..k];
  }

  lemma {:induction false} CountMonotone(s: seq<int>, a: nat, b: nat, x: int)
    requires a <= b <= |s|
    ensures Count(s[..a], x) <= Count(s[..b], x)
    decreases b - a
  {
    if a < b {
      CountSnoc(s, a, x);
      CountMonotone(s, a + 1, b, x);
    }
  }

  /** How many elements are smaller than x. */
  function CountBelow(s: seq<int>, x: int): nat
  {
    if s == [] then 0 else CountBelow(s[..|s| - 1], x) + (if s[|s| - 1] < x then 1 else 0)
  }

  lemma {:induction false} CountBelowStep(s: seq<int>, x: int)
    ensures CountBelow(s, x + 1) == CountBelow(s, x) + Count(s, x)
  {
    if s != [] {
      CountBelowStep(s[..|s| - 1], x);
    }
  }

  lemma {:induction false} CountBelowMonotone(s: seq<int>, x: int, y: int)
    requires x <= y
    ensures CountBelow(s, x) <= CountBelow(s, y) <= |s|
  {
    if s != [] {
      CountBelowMonotone(s[..|s| - 1], x, y);
    }
  }

  predicate InRange(s: seq<int>, n: int)
  {
    forall k :: 0 <= k < |s| ==> 0 <= s[k] < n
  }

  lemma {:induction false} CountBelowEnds(s: seq<int>, n: int)
    requires InRange(s, n)
    ensures CountBelow(s, 0) == 0 && CountBelow(s, n) == |s|
  {
    if s != [] {
      CountBelowEnds(s[..|s| - 1], n);
    }
  }

  /** The CSR row offsets of a list of row indices: entry r counts the indices below r. */
  function Offsets(rows: seq<int>, nrow: nat): (o: seq<int>)
    ensures |o| == nrow + 1
  {
    seq(nrow + 1, r requires 0 <= r <= nrow => CountBelow(rows, r))
  }

  /** The number of indices in each row. */
  function RowCounts(rows: seq<int>, nrow: nat): (c: seq<int>)
    ensures |c| == nrow && NonNegative(c)
  {
    seq(nrow, r requires 0 <= r < nrow => Count(rows, r))
  }

  /** Counting row by row and summing gives the offsets. */
  lemma {:induction false} PrefixOfCounts(rows: seq<int>, nrow: nat, r: nat)
    requires InRange(rows, nrow) && r <= nrow
    ensures Prefix(RowCounts(rows, nrow))[r] == Offsets(rows, nrow)[r]
  {
    if r == 0 {
      CountBelowEnds(rows, nrow);
    } else {
      PrefixOfCounts(rows, nrow, r - 1);
      PrefixStep(RowCounts(rows, nrow), r - 1);
      CountBelowStep(rows, r - 1);
    }
  }

  ghost predicate Sorted(s: seq<int>)
  {
    forall a, b :: 0 <= a < b < |s| ==> s[a] <= s[b]
  }

  /** In a sorted list the offsets delimit exactly the positions holding each value. */
  lemma {:induction false} SortedSlice(s: seq<int>, t: nat, x: int)
    requires Sorted(s) && t < |s|
    ensures s[t] < x <==> t < CountBelow(s, x)
  {
    var init := s[..|s| - 1];
    CountBelowMonotone(init, x, x);
    if t < |s| - 1 {
      SortedSlice(init, t, x);
      if s[|s| - 1] < x {
        assert s[t] <= s[|s| - 1];
      }
    } else if s[t] < x {
      AllBelow(init, x);
    }
  }

  /** In a sorted list, the position where x is reached is the number of elements below x. */
  lemma CutIsCountBelow(s: seq<int>, t: nat, x: int)
    requires Sorted(s) && t <= |s|
    requires t == 0 || s[t - 1] < x
    requires t == |s| || x <= s[t]
    ensures CountBelow(s, x) == t
  {
    CountBelowMonotone(s, x, x);
    if t > 0 {
      SortedSlice(s, t - 1, x);
    }
    if t < |s| {
      SortedSlice(s, t, x);
    }
  }

  lemma {:induction false} AllBelow(s: seq<int>, x: int)
    requires forall k :: 0 <= k < |s| ==> s[k] < x
    ensures CountBelow(s, x) == |s|
  {
    if s != [] {
      AllBelow(s[..|s| - 1], x);
    }
  }

  /** The elements of s read through the index list p. */
  function Through<T>(s: seq<T>, p: seq<int>): (r: seq<T>)
    requires InRange(p, |s|)
    ensures |r| == |p|
  {
    seq(|p|, k requires 0 <= k < |p| => s[p[k]])
  }

  lemma ThroughSnoc<T>(s: seq<T>, p: seq<int>, x: int)
    requires InRange(p, |s|) && 0 <= x < |s|
    ensures InRange(p + [x], |s|) && Through(s, p + [x]) == Through(s, p) + [s[x]]
  {
  }

  lemma ThroughCounting(counting: seq<int>, p: seq<int>)
    requires forall k :: 0 <= k < |counting| ==> counting[k] == k
    requires InRange(p, |counting|)
    ensures Through(counting, p) == p
  {
  }

  lemma ThroughThrough<T>(s: seq<T>, p: seq<int>, q: seq<int>)
    requires InRange(p, |s|) && InRange(q, |p|)
    ensures InRange(Through(p, q), |s|) && Through(Through(s, p), q) == Through(s, Through(p, q))
  {
  }

  /** The segment that position k falls into, when segments of the given lengths are laid end to end. */
  function SegmentOf(lengths: seq<int>, k: int): (s: nat)
    requires NonNegative(lengths) && 0 <= k < Sum(lengths)
    ensures s < |lengths|
  {
    var n := |lengths| - 1;
    if k < Sum(lengths[..n]) then SegmentOf(lengths[..n], k) else n
  }

  lemma {:induction false} SegmentOfContains(lengths: seq<int>, k: int)
    requires NonNegative(lengths) && 0 <= k < Sum(lengths)
    ensures var s := SegmentOf(lengths, k); Prefix(lengths)[s] <= k < Prefix(lengths)[s + 1]
  {
    var n := |lengths| - 1;
    assert lengths[..n + 1] == lengths;
    if k < Sum(lengths[..n]) {
      SegmentOfContains(lengths[..n], k);
      var s := SegmentOf(lengths[..n], k);
      assert lengths[..n][..s] == lengths[..s] && lengths[..n][..s + 1] == lengths[..s + 1];
    }
  }

  lemma SegmentUnique(lengths: seq<int>, k: int, s: nat, t: nat)
    requires NonNegative(lengths) && s < |lengths| && t < |lengths|
    requires Prefix(lengths)[s] <= k < Prefix(lengths)[s + 1]
    requires Prefix(lengths)[t] <= k < Prefix(lengths)[t + 1]
    ensures s == t
  {
    if s < t {
      PrefixMonotone(lengths, s + 1, t);
    } else if t < s {
      PrefixMonotone(lengths, t + 1, s);
    }
  }

  lemma {:induction false} DistinctCount<T>(s: seq<T>)
    requires forall j, k :: 0 <= j < k < |s| ==> s[j] != s[k]
    ensures |set x | x in s| == |s|
  {
    if s != [] {
      var init, last := s[..|s| - 1], s[|s| - 1];
      DistinctCount(init);
      assert s == init + [last];
      assert (set x | x in s) == (set x | x in init) + {last};
    }
  }

  /** `before` with the part from first to last replaced by r. */
  lemma Spliced<T>(out: seq<T>, before: seq<T>, first: nat, last: nat, r: seq<T>)
    requires |out| == |before| && first <= last <= |before| && |r| == last - first
    requires forall k :: first <= k < last ==> out[k] == r[k - first]
    requires forall k :: 0 <= k < |out| && !(first <= k < last) ==> out[k] == before[k]
    ensures out == before[..first] + r + before[last..]
  {
  }
}
