/** The work partition of the GPU COO product (matrix/matrixcoo_gpu.cpp:195-216), and which of its warps
    the kernel runs (coo_kernels/coo_matrix_krenels.cl:106-116). */
module WarpPartition {
  import opened Sequences

  const WARP_SIZE := 32
  const BLOCK_SIZE := 128
  const MAX_BLOCKS := 32
  const WARPS_PER_BLOCK := BLOCK_SIZE / WARP_SIZE

  /** The kernel's own BLOCK_SIZE, which is not the host's. */
  const KERNEL_BLOCK_SIZE := 256

  function CeilDiv(a: nat, d: nat): nat
    requires d > 0
  {
    (a + (d - 1)) / d
  }

  function NumUnits(nnz: nat): nat
  {
    nnz / WARP_SIZE
  }

  function NumWarps(nnz: nat): nat
  {
    Min(NumUnits(nnz), WARPS_PER_BLOCK * MAX_BLOCKS)
  }

  function NumBlocks(nnz: nat): nat
  {
    CeilDiv(NumWarps(nnz), WARPS_PER_BLOCK)
  }

  function NumIters(nnz: nat): nat
    requires nnz > WARP_SIZE
  {
    CeilDiv(NumUnits(nnz), NumWarps(nnz))
  }

  function IntervalSize(nnz: nat): nat
    requires nnz > WARP_SIZE
  {
    WARP_SIZE * NumIters(nnz)
  }

  function Tail(nnz: nat): nat
  {
    NumUnits(nnz) * WARP_SIZE
  }

  function ActiveWarps(nnz: nat): nat
    requires nnz > WARP_SIZE
  {
    if IntervalSize(nnz) == 0 then 0 else CeilDiv(Tail(nnz), IntervalSize(nnz))
  }

  /** Warp w, if it runs, works on the entries from Begin(w) up to but not including End(w). */
  function Begin(nnz: nat, w: nat): nat
    requires nnz > WARP_SIZE
  {
    w * IntervalSize(nnz)
  }

  function End(nnz: nat, w: nat): nat
    requires nnz > WARP_SIZE
  {
    Min((w + 1) * IntervalSize(nnz), Tail(nnz))
  }

  lemma PositiveFactor(a: nat, b: nat)
    requires a * b > 0
    ensures a > 0
  {
  }

  /** The ceiling is the least multiple that covers. */
  lemma CeilDivBounds(a: nat, d: nat)
    requires d > 0
    ensures a <= CeilDiv(a, d) * d < a + d
  {
    var x := a + (d - 1);
    assert x == x / d * d + x % d;
  }

  lemma CeilDivAtMost(a: nat, d: nat, m: nat)
    requires d > 0 && a <= m * d
    ensures CeilDiv(a, d) <= m
  {
    CeilDivBounds(a, d);
    assert (m + 1) * d == m * d + d;
    if m < CeilDiv(a, d) {
      MulMonotone(m + 1, CeilDiv(a, d), d);
    }
  }

  lemma IntervalsCover(nnz: nat)
    requires nnz > WARP_SIZE
    ensures 0 < WARP_SIZE <= IntervalSize(nnz)
    ensures Tail(nnz) <= NumWarps(nnz) * IntervalSize(nnz)
    ensures IntervalSize(nnz) <= Tail(nnz)
  {
    var u, w, it := NumUnits(nnz), NumWarps(nnz), NumIters(nnz);
    CeilDivBounds(u, w);
    PositiveFactor(it, w);
    assert w * (WARP_SIZE * it) == (it * w) * WARP_SIZE;
    MulMonotone(1, w, u);
    CeilDivAtMost(u, w, u);
  }

  /** The counts fit: as many warps are launched as are active, or more, in as few groups of four as
      hold them, and few entries are left for the serial step.  Whether those warps are the active ones
      is AllLaunchedIff. */
  lemma LaunchFits(nnz: nat)
    requires nnz > 32
    ensures 0 < ActiveWarps(nnz) <= NumWarps(nnz) <= 4 * NumBlocks(nnz) < NumWarps(nnz) + 4
    ensures NumBlocks(nnz) <= 32
    ensures Tail(nnz) % 32 == 0 && Tail(nnz) <= nnz < Tail(nnz) + 32
  {
    ActiveFit(nnz);
    CeilDivBounds(NumWarps(nnz), WARPS_PER_BLOCK);
  }

  lemma ActiveFit(nnz: nat)
    requires nnz > WARP_SIZE
    ensures 0 < ActiveWarps(nnz) <= NumWarps(nnz)
  {
    IntervalsCover(nnz);
    CeilDivAtMost(Tail(nnz), IntervalSize(nnz), NumWarps(nnz));
    CeilDivBounds(Tail(nnz), IntervalSize(nnz));
    PositiveFactor(ActiveWarps(nnz), IntervalSize(nnz));
  }

  /** num_warps is the number of whole units of 32 entries, or 128 if that is less. */
  lemma NumWarpsIs(nnz: nat)
    ensures 32 * NumWarps(nnz) <= nnz && NumWarps(nnz) <= 128
    ensures nnz < 32 * (NumWarps(nnz) + 1) || NumWarps(nnz) == 128
  {
  }

  /** interval_size is the least multiple of 32 with which 128 warps reach the tail. */
  lemma IntervalIsLeast(nnz: nat, m: nat)
    requires nnz > 32
    ensures IntervalSize(nnz) % 32 == 0 && Tail(nnz) <= 128 * IntervalSize(nnz)
    ensures Tail(nnz) <= 128 * (32 * m) ==> IntervalSize(nnz) <= 32 * m
  {
    var u := NumUnits(nnz);
    if u <= 128 {
      CeilDivAtMost(u, u, 1);
    } else {
      CeilDivBounds(u, 128);
    }
    IntervalsCover(nnz);
    if Tail(nnz) <= 128 * (32 * m) && u > 128 {
      CeilDivAtMost(u, 128, m);
    }
  }

  /** The active warps are as few as reach the tail. */
  lemma ActiveWarpsAre(nnz: nat)
    requires nnz > 32
    ensures 0 < ActiveWarps(nnz)
    ensures (ActiveWarps(nnz) - 1) * IntervalSize(nnz) < Tail(nnz) <= ActiveWarps(nnz) * IntervalSize(nnz)
  {
    LaunchFits(nnz);
    IntervalsCover(nnz);
    CeilDivBounds(Tail(nnz), IntervalSize(nnz));
    OneLess(ActiveWarps(nnz), IntervalSize(nnz));
  }

  lemma OneLess(a: nat, d: nat)
    requires a > 0
    ensures (a - 1) * d == a * d - d
  {
  }

  /** Their intervals follow one another without a gap, all of interval_size entries but the last, which
      ends at the tail. */
  lemma IntervalsFollow(nnz: nat, w: nat)
    requires nnz > 32 && w < ActiveWarps(nnz)
    ensures Begin(nnz, 0) == 0
    ensures w + 1 < ActiveWarps(nnz) ==>
              End(nnz, w) == Begin(nnz, w + 1) == Begin(nnz, w) + IntervalSize(nnz)
    ensures w + 1 == ActiveWarps(nnz) ==> End(nnz, w) == Tail(nnz)
  {
    ActiveWarpsAre(nnz);
    OneLess(w + 1, IntervalSize(nnz));
    if w + 1 < ActiveWarps(nnz) {
      MulMonotone(w + 1, ActiveWarps(nnz) - 1, IntervalSize(nnz));
    }
  }

  /** No active warp's interval is empty. */
  lemma IntervalNotEmpty(nnz: nat, w: nat)
    requires nnz > WARP_SIZE && w < ActiveWarps(nnz)
    ensures Begin(nnz, w) < End(nnz, w) <= Tail(nnz)
  {
    IntervalsCover(nnz);
    var size := IntervalSize(nnz);
    CeilDivBounds(Tail(nnz), size);
    MulMonotone(w + 1, ActiveWarps(nnz), size);
    assert (w + 1) * size == w * size + size;
  }

  lemma QuotientBelow(p: nat, d: nat, m: nat)
    requires d > 0 && p < m * d
    ensures p / d < m
  {
    QuotientBounds(p, d);
    if m <= p / d {
      MulMonotone(m, p / d, d);
    }
  }

  lemma QuotientInterval(p: nat, size: nat, tail: nat) returns (w: nat)
    requires size > 0 && p < tail
    ensures w < CeilDiv(tail, size) && w * size <= p < Min((w + 1) * size, tail)
  {
    w := p / size;
    QuotientBounds(p, size);
    CeilDivBounds(tail, size);
    QuotientBelow(p, size, CeilDiv(tail, size));
  }

  lemma IntervalOf(nnz: nat, p: nat) returns (w: nat)
    requires nnz > WARP_SIZE && p < Tail(nnz)
    ensures w < ActiveWarps(nnz) && Begin(nnz, w) <= p < End(nnz, w)
  {
    IntervalsCover(nnz);
    w := QuotientInterval(p, IntervalSize(nnz), Tail(nnz));
  }

  /** Intervals of different warps share nothing. */
  lemma IntervalsDisjoint(nnz: nat, v: nat, w: nat)
    requires nnz > WARP_SIZE && v < w
    ensures End(nnz, v) <= Begin(nnz, w)
  {
    MulMonotone(v + 1, w, IntervalSize(nnz));
  }

  /** Every entry before the tail belongs to exactly one active warp. */
  lemma IntervalsPartition(nnz: nat, p: nat)
    requires nnz > WARP_SIZE && p < Tail(nnz)
    ensures exists w: nat :: w < ActiveWarps(nnz) && Begin(nnz, w) <= p < End(nnz, w)
    ensures forall v: nat, w: nat :: Begin(nnz, v) <= p < End(nnz, v) && Begin(nnz, w) <= p < End(nnz, w) ==> v == w
  {
    var x := IntervalOf(nnz, p);
    forall v: nat, w: nat | Begin(nnz, v) <= p < End(nnz, v) && Begin(nnz, w) <= p < End(nnz, w)
      ensures v == w
    {
      if v < w {
        IntervalsDisjoint(nnz, v, w);
      } else if w < v {
        IntervalsDisjoint(nnz, w, v);
      }
    }
  }

  // ---------------------------------------------------------------- the warps that run

  /** The number the kernel gives to the warp of a work item. */
  function WarpId(group: nat, item: nat): nat
  {
    (KERNEL_BLOCK_SIZE * group + item) / WARP_SIZE
  }

  /** Some work item of the launch, num_blocks groups of BLOCK_SIZE items, belongs to warp w. */
  ghost predicate Launched(nnz: nat, w: nat)
  {
    exists group: nat, item: nat :: group < NumBlocks(nnz) && item < BLOCK_SIZE && WarpId(group, item) == w
  }

  lemma WarpIdIs(group: nat, item: nat)
    requires item < BLOCK_SIZE
    ensures WarpId(group, item) == 8 * group + item / WARP_SIZE && item / WARP_SIZE < WARPS_PER_BLOCK
  {
  }

  /** Every group of four warps that run is followed by four that do not. */
  lemma LaunchedIff(nnz: nat, w: nat)
    ensures Launched(nnz, w) <==> w / 8 < NumBlocks(nnz) && w % 8 < 4
  {
    if Launched(nnz, w) {
      var group: nat, item: nat :| group < NumBlocks(nnz) && item < BLOCK_SIZE && WarpId(group, item) == w;
      WarpIdIs(group, item);
      Eighth(group, item / WARP_SIZE);
    }
    if w / 8 < NumBlocks(nnz) && w % 8 < WARPS_PER_BLOCK {
      WarpRuns(nnz, w / 8, w % 8);
    }
  }

  lemma Eighth(group: nat, l: nat)
    requires l < 8
    ensures (8 * group + l) / 8 == group && (8 * group + l) % 8 == l
  {
  }

  lemma WarpRuns(nnz: nat, group: nat, l: nat)
    requires group < NumBlocks(nnz) && l < WARPS_PER_BLOCK
    ensures Launched(nnz, 8 * group + l)
  {
    assert WarpId(group, WARP_SIZE * l) == 8 * group + l by {
      WarpIdIs(group, WARP_SIZE * l);
    }
  }

  lemma CeilDivAbove(a: nat, d: nat, m: nat)
    requires d > 0 && m * d < a
    ensures m < CeilDiv(a, d)
  {
    CeilDivBounds(a, d);
    if CeilDiv(a, d) <= m {
      MulMonotone(CeilDiv(a, d), m, d);
    }
  }

  /** Five units or more need more than four warps. */
  lemma UnitsExceed(nnz: nat)
    requires nnz >= 160
    ensures WARPS_PER_BLOCK * NumIters(nnz) < NumUnits(nnz)
  {
    var u := NumUnits(nnz);
    if u <= WARPS_PER_BLOCK * MAX_BLOCKS {
      CeilDivAtMost(u, u, 1);
    } else {
      CeilDivBounds(u, WARPS_PER_BLOCK * MAX_BLOCKS);
    }
  }

  /** At most four warps are active exactly when there are fewer than 160 entries. */
  lemma FewActive(nnz: nat)
    requires nnz > WARP_SIZE
    ensures ActiveWarps(nnz) <= WARPS_PER_BLOCK <==> nnz < 160
  {
    IntervalsCover(nnz);
    if nnz < 160 {
      LaunchFits(nnz);
    } else {
      UnitsExceed(nnz);
      CeilDivAbove(Tail(nnz), IntervalSize(nnz), WARPS_PER_BLOCK);
    }
  }

  /** Every active warp runs exactly when there are fewer than 160 entries. */
  lemma AllLaunchedIff(nnz: nat)
    requires nnz > WARP_SIZE
    ensures (forall w: nat :: w < ActiveWarps(nnz) ==> Launched(nnz, w)) <==> nnz < 160
  {
    FewActive(nnz);
    if nnz < 160 {
      forall w: nat | w < ActiveWarps(nnz)
        ensures Launched(nnz, w)
      {
        LaunchFits(nnz);
        LaunchedIff(nnz, w);
      }
    } else {
      LaunchedIff(nnz, 4);
    }
  }

  /** Some warp that runs works on entry p. */
  ghost predicate Covered(nnz: nat, p: nat)
    requires nnz > WARP_SIZE
  {
    exists w: nat :: Launched(nnz, w) && Begin(nnz, w) <= p < End(nnz, w)
  }

  /** No entry before the tail is skipped exactly when there are fewer than 160 entries. */
  lemma AllCoveredIff(nnz: nat)
    requires nnz > WARP_SIZE
    ensures (forall p: nat :: p < Tail(nnz) ==> Covered(nnz, p)) <==> nnz < 160
  {
    if nnz < 160 {
      forall p: nat | p < Tail(nnz)
        ensures Covered(nnz, p)
      {
        CoveredWhenFew(nnz, p);
      }
    } else {
      FifthSkipped(nnz);
      var p := Begin(nnz, 4);
      assert p < Tail(nnz) && !Covered(nnz, p);
    }
  }

  lemma CoveredWhenFew(nnz: nat, p: nat)
    requires WARP_SIZE < nnz < 160 && p < Tail(nnz)
    ensures Covered(nnz, p)
  {
    AllLaunchedIff(nnz);
    var w := IntervalOf(nnz, p);
    assert Launched(nnz, w);
  }

  /** From 160 entries on, the interval of warp 4 is skipped. */
  lemma FifthSkipped(nnz: nat)
    requires nnz >= 160
    ensures 4 < ActiveWarps(nnz)
    ensures forall p: nat :: Begin(nnz, 4) <= p < End(nnz, 4) ==> p < Tail(nnz) && !Covered(nnz, p)
    ensures Begin(nnz, 4) < End(nnz, 4)
  {
    FewActive(nnz);
    IntervalNotEmpty(nnz, 4);
    LaunchedIff(nnz, 4);
    forall p: nat | Begin(nnz, 4) <= p < End(nnz, 4)
      ensures p < Tail(nnz) && !Covered(nnz, p)
    {
      IntervalsPartition(nnz, p);
    }
  }

  /** For every int nnz, the unsigned and int expressions of the source stay in range. */
  lemma NoWrapAround(nnz: nat)
    requires 32 < nnz < 0x8000_0000
    ensures NumUnits(nnz) + (NumWarps(nnz) - 1) < 0x1_0000_0000 && NumWarps(nnz) >= 1
    ensures Tail(nnz) < 0x8000_0000
    ensures Tail(nnz) + (IntervalSize(nnz) - 1) < 0x1_0000_0000 && IntervalSize(nnz) >= 1
  {
    IntervalsCover(nnz);
  }
}
