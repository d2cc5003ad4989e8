/** The bitonic sort schedule of the sort emitter: how many stages a sort
    dimension of extent n needs, which xor masks each stage compares with,
    how consecutive small masks are batched into one tiled kernel, and the
    launch geometry each kernel gets. */
module SortSchedule {
  import opened Arith

  /** Tiles never exceed this many elements. */
  const MaxTileSize: nat := 2048
  /** Tiling gives no speed-up below this tile size. */
  const MinUsefulTileSize: nat := 128

  /** Number of bitonic stages for a sort dimension of extent n; the
      emitter checks 2^(stages-1) < n <= 2^stages.  n == 1 would make the
      emitter shift by -1, so it is excluded. */
  function NumStages(n: nat): (stages: nat)
    requires n >= 2
    ensures stages >= 1
    ensures Pow2(stages - 1) < n <= Pow2(stages)
  {
    Log2Ceiling(n)
  }

  /** The later masks of a stage with m of them: 2^(m-1), ..., 2^1, 2^0. */
  function LaterMasks(m: nat): (r: seq<nat>)
    ensures |r| == m
    ensures forall i :: 0 <= i < m ==> r[i] == Pow2(m - 1 - i)
  {
    if m == 0 then [] else [Pow2(m - 1)] + LaterMasks(m - 1)
  }

  /** The masks stage s compares with, in emission order. */
  function StageMasks(s: nat): (r: seq<nat>)
    ensures |r| == s + 1
    ensures r[0] == Pow2(s + 1) - 1
    ensures forall j :: 1 <= j <= s ==> r[j] == Pow2(s - j)
  {
    [Pow2(s + 1) - 1] + LaterMasks(s)
  }

  /** The full schedule: stage 0's masks, then stage 1's, ... */
  function Schedule(stages: nat): seq<nat> {
    if stages == 0 then [] else Schedule(stages - 1) + StageMasks(stages - 1)
  }

  /** Index in the schedule at which stage s starts. */
  function StageStart(s: nat): nat {
    s * (s + 1) / 2
  }

  lemma {:induction false} ScheduleLength(stages: nat)
    ensures |Schedule(stages)| == StageStart(stages)
  {
    if stages > 0 {
      ScheduleLength(stages - 1);
      assert stages * (stages + 1) == (stages - 1) * stages + 2 * stages;
    }
  }

  /** Mask j of stage s sits at StageStart(s) + j of the schedule. */
  lemma {:induction false} ScheduleStageLayout(stages: nat, s: nat, j: nat)
    requires s < stages
    requires j <= s
    ensures StageStart(s) + j < |Schedule(stages)|
    ensures Schedule(stages)[StageStart(s) + j] == StageMasks(s)[j]
  {
    ScheduleLength(stages);
    ScheduleLength(stages - 1);
    assert StageStart(stages) == StageStart(stages - 1) + stages by {
      assert stages * (stages + 1) == (stages - 1) * stages + 2 * stages;
    }
    if s < stages - 1 {
      ScheduleStageLayout(stages - 1, s, j);
      StageStartMonotone(s + 1, stages - 1);
      assert StageStart(s + 1) == StageStart(s) + s + 1 by {
        assert (s + 1) * (s + 2) == s * (s + 1) + 2 * (s + 1);
      }
    }
  }

  lemma StageStartMonotone(a: nat, b: nat)
    requires a <= b
    ensures StageStart(a) <= StageStart(b)
  {
    assert a * (a + 1) <= b * (b + 1) by {
      MulMonotone(b, a, a + 1);
      MulMonotone(b + 1, a + 1, b);
    }
  }

  /** kTileSize: min(2048, 2^stages). */
  function TileSize(stages: nat): (t: nat)
    ensures IsPowerOfTwo(t)
    ensures t <= MaxTileSize && t <= Pow2(stages)
    ensures t == Pow2(stages) || t == MaxTileSize
  {
    Pow2IsPowerOfTwo(stages);
    assert MaxTileSize == Pow2(11);
    Pow2IsPowerOfTwo(11);
    if Pow2(stages) < MaxTileSize then Pow2(stages) else MaxTileSize
  }

  /** Device limits the tiling decision consults. */
  datatype DeviceInfo = DeviceInfo(threadsPerBlockLimit: nat, sharedMemoryPerBlock: nat)

  /** Shared memory one tile of every sorted operand needs. */
  function SharedMemoryNeeded(tile: nat, elementBytes: seq<nat>): nat {
    if |elementBytes| == 0 then 0
    else SharedMemoryNeeded(tile, elementBytes[..|elementBytes| - 1]) + tile * elementBytes[|elementBytes| - 1]
  }

  /** no_tiling: tiles too small to pay off, more threads than a block may
      have, or more shared memory than a block may use. */
  predicate NoTiling(tile: nat, elementBytes: seq<nat>, device: DeviceInfo) {
    || tile < MinUsefulTileSize
    || tile / 2 > device.threadsPerBlockLimit
    || SharedMemoryNeeded(tile, elementBytes) > device.sharedMemoryPerBlock
  }

  function Flatten(kernels: seq<seq<nat>>): seq<nat> {
    if |kernels| == 0 then []
    else Flatten(kernels[..|kernels| - 1]) + kernels[|kernels| - 1]
  }

  lemma FlattenAppend(kernels: seq<seq<nat>>, k: seq<nat>)
    ensures Flatten(kernels + [k]) == Flatten(kernels) + k
  {
    assert (kernels + [k])[..|kernels|] == kernels;
  }

  /** A kernel whose masks may share one shared-memory tile. */
  predicate Batchable(masks: seq<nat>, tile: nat, noTiling: bool) {
    !noTiling && forall j :: 0 <= j < |masks| ==> masks[j] < tile
  }

  /** A kernel is nonempty, and holds several masks only if they share a tile. */
  predicate WellFormedKernel(masks: seq<nat>, tile: nat, noTiling: bool) {
    |masks| >= 1 && (|masks| == 1 || Batchable(masks, tile, noTiling))
  }

  /** A mask at or above the tile size, or any mask when tiling is off,
      sits alone in its kernel. */
  lemma UntileableMaskAlone(tile: nat, noTiling: bool, kernels: seq<seq<nat>>, k: nat, j: nat)
    requires AllWellFormed(kernels, tile, noTiling)
    requires k < |kernels| && j < |kernels[k]|
    requires kernels[k][j] >= tile || noTiling
    ensures kernels[k] == [kernels[k][j]]
  {
  }

  predicate AllWellFormed(kernels: seq<seq<nat>>, tile: nat, noTiling: bool) {
    forall k :: 0 <= k < |kernels| ==> WellFormedKernel(kernels[k], tile, noTiling)
  }

  /** No two neighbouring kernels could have been one batch. */
  predicate MaximalBatches(kernels: seq<seq<nat>>, tile: nat, noTiling: bool) {
    forall k :: 0 <= k < |kernels| - 1 ==>
      !(Batchable(kernels[k], tile, noTiling) && Batchable(kernels[k + 1], tile, noTiling))
  }

  lemma AppendKernel(kernels: seq<seq<nat>>, g: seq<nat>, tile: nat, noTiling: bool)
    requires AllWellFormed(kernels, tile, noTiling) && WellFormedKernel(g, tile, noTiling)
    requires MaximalBatches(kernels, tile, noTiling)
    requires |kernels| > 0 && Batchable(g, tile, noTiling) ==> !Batchable(kernels[|kernels| - 1], tile, noTiling)
    ensures AllWellFormed(kernels + [g], tile, noTiling)
    ensures MaximalBatches(kernels + [g], tile, noTiling)
  {
    var ks := kernels + [g];
    forall k | 0 <= k < |ks| - 1
      ensures !(Batchable(ks[k], tile, noTiling) && Batchable(ks[k + 1], tile, noTiling))
    {
      if k < |kernels| - 1 {
        assert ks[k] == kernels[k] && ks[k + 1] == kernels[k + 1];
      }
    }
  }

  /** The state the batching loop keeps: finished kernels are well formed
      and maximal, the last one is not batchable, and the pending group is
      batchable. */
  predicate BatchState(kernels: seq<seq<nat>>, pending: seq<nat>, tile: nat, noTiling: bool) {
    && AllWellFormed(kernels, tile, noTiling)
    && MaximalBatches(kernels, tile, noTiling)
    && (pending != [] ==> Batchable(pending, tile, noTiling))
    && (|kernels| > 0 ==> !Batchable(kernels[|kernels| - 1], tile, noTiling))
  }

  /** Emit the pending group, if any, as a kernel. */
  function Flush(kernels: seq<seq<nat>>, pending: seq<nat>): seq<seq<nat>> {
    if pending == [] then kernels else kernels + [pending]
  }

  lemma FlushKeeps(kernels: seq<seq<nat>>, pending: seq<nat>, tile: nat, noTiling: bool)
    requires BatchState(kernels, pending, tile, noTiling)
    ensures AllWellFormed(Flush(kernels, pending), tile, noTiling)
    ensures MaximalBatches(Flush(kernels, pending), tile, noTiling)
    ensures Flatten(Flush(kernels, pending)) == Flatten(kernels) + pending
  {
    if pending != [] {
      FlattenAppend(kernels, pending);
      AppendKernel(kernels, pending, tile, noTiling);
    } else {
      assert Flatten(kernels) + pending == Flatten(kernels);
    }
  }

  /** An untileable mask flushes the pending group and gets its own kernel. */
  lemma AloneStep(kernels: seq<seq<nat>>, pending: seq<nat>, m: nat, tile: nat, noTiling: bool)
    requires BatchState(kernels, pending, tile, noTiling)
    requires m >= tile || noTiling
    ensures BatchState(Flush(kernels, pending) + [[m]], [], tile, noTiling)
    ensures Flatten(Flush(kernels, pending) + [[m]]) == Flatten(kernels) + pending + [m]
  {
    var flushed := Flush(kernels, pending);
    assert !Batchable([m], tile, noTiling) by {
      assert [m][0] == m;
    }
    FlushKeeps(kernels, pending, tile, noTiling);
    FlattenAppend(flushed, [m]);
    AppendKernel(flushed, [m], tile, noTiling);
  }

  /** A tileable mask joins the pending group. */
  lemma PendStep(kernels: seq<seq<nat>>, pending: seq<nat>, m: nat, tile: nat, noTiling: bool)
    requires BatchState(kernels, pending, tile, noTiling)
    requires m < tile && !noTiling
    ensures BatchState(kernels, pending + [m], tile, noTiling)
  {
  }

  /** One iteration of the batching loop for mask m. */
  function Step(kernels: seq<seq<nat>>, pending: seq<nat>, m: nat, tile: nat, noTiling: bool): (seq<seq<nat>>, seq<nat>) {
    if m >= tile || noTiling then (Flush(kernels, pending) + [[m]], []) else (kernels, pending + [m])
  }

  lemma StepKeeps(kernels: seq<seq<nat>>, pending: seq<nat>, m: nat, tile: nat, noTiling: bool)
    requires BatchState(kernels, pending, tile, noTiling)
    ensures BatchState(Step(kernels, pending, m, tile, noTiling).0, Step(kernels, pending, m, tile, noTiling).1, tile, noTiling)
    ensures Flatten(Step(kernels, pending, m, tile, noTiling).0) + Step(kernels, pending, m, tile, noTiling).1
            == Flatten(kernels) + pending + [m]
  {
    if m >= tile || noTiling {
      AloneStep(kernels, pending, m, tile, noTiling);
      var next := Flush(kernels, pending) + [[m]];
      assert Flatten(next) + [] == Flatten(next);
    } else {
      PendStep(kernels, pending, m, tile, noTiling);
      assert Flatten(kernels) + (pending + [m]) == Flatten(kernels) + pending + [m];
    }
  }

  lemma TakeOneMore(s: seq<nat>, i: nat)
    requires i < |s|
    ensures s[..i + 1] == s[..i] + [s[i]]
  {
  }

  /** The batching loop: masks below the tile size accumulate in a pending
      group; any other mask flushes the pending group and gets a kernel of
      its own; the last pending group is flushed at the end. */
  method BatchMasks(masks: seq<nat>, tile: nat, noTiling: bool) returns (kernels: seq<seq<nat>>)
    ensures Flatten(kernels) == masks
    ensures AllWellFormed(kernels, tile, noTiling)
    ensures MaximalBatches(kernels, tile, noTiling)
  {
    kernels := [];
    var pending: seq<nat> := [];
    var i := 0;
    while i < |masks|
      invariant 0 <= i <= |masks|
      invariant Flatten(kernels) + pending == masks[..i]
      invariant BatchState(kernels, pending, tile, noTiling)
    {
      StepKeeps(kernels, pending, masks[i], tile, noTiling);
      TakeOneMore(masks, i);
      var next := Step(kernels, pending, masks[i], tile, noTiling);
      kernels, pending := next.0, next.1;
      i := i + 1;
    }
    assert masks[..|masks|] == masks;
    FlushKeeps(kernels, pending, tile, noTiling);
    kernels := Flush(kernels, pending);
  }

  /** Launch geometry of one sort kernel. */
  datatype SortLaunch = SortLaunch(blocks: nat, threadsPerBlock: nat, iterationsInSortDim: nat)

  /** Tiled launch: the sort dimension is rounded up to whole tiles, each
      thread moves two adjacent elements, so a block of tile/2 threads
      covers one tile.  otherElements is the product of the other extents. */
  function TiledLaunch(n: nat, stages: nat, otherElements: nat): (l: SortLaunch)
    requires n >= 2 && stages == NumStages(n)
    ensures l.threadsPerBlock * 2 == TileSize(stages)
    ensures 2 * l.iterationsInSortDim >= n
    ensures (2 * l.iterationsInSortDim) % TileSize(stages) == 0
    ensures 2 * l.iterationsInSortDim < n + TileSize(stages)
    ensures otherElements * l.iterationsInSortDim <= l.blocks * l.threadsPerBlock
    ensures l.blocks * l.threadsPerBlock < otherElements * l.iterationsInSortDim + l.threadsPerBlock
  {
    var tile := TileSize(stages);
    TileSizeEven(stages);
    var rounded := RoundUpToNearest(n, tile);
    var iterations := rounded / 2;
    assert rounded % 2 == 0 by { EvenMultiple(rounded, tile); }
    assert 2 * iterations == rounded;
    var threads := tile / 2;
    var blocks := CeilOfRatio(MulNat(otherElements, iterations), threads);
    SortLaunch(blocks, threads, iterations)
  }

  lemma TileSizeEven(stages: nat)
    requires stages >= 1
    ensures TileSize(stages) >= 2 && TileSize(stages) % 2 == 0
  {
    Pow2Monotone(1, stages);
    assert Pow2(1) == 2;
  }

  lemma EvenMultiple(a: nat, b: nat)
    requires b > 0 && b % 2 == 0 && a % b == 0
    ensures a % 2 == 0
  {
    var q := a / b;
    assert a == q * b;
    assert a == 2 * (q * (b / 2));
  }

  /** Standard launch: one iteration per compared pair, 2^(stages-1) of
      them along the sort dimension; the block split itself comes from the
      launch-dimension helper and is not modelled. */
  function StandardIterationsInSortDim(n: nat): (iterations: nat)
    requires n >= 2
    ensures IsPowerOfTwo(iterations)
    ensures 2 * iterations >= n
    ensures iterations < n
  {
    Pow2IsPowerOfTwo(NumStages(n) - 1);
    var stages := NumStages(n);
    assert Pow2(stages) == 2 * Pow2(stages - 1);
    Pow2(stages - 1)
  }

  /** Only one power of two lies in [n/2, n), so the bounds above fix the
      standard iteration count. */
  lemma StandardIterationsUnique(n: nat, p: int)
    requires n >= 2 && IsPowerOfTwo(p) && 2 * p >= n && p < n
    ensures p == StandardIterationsInSortDim(n)
  {
    var q := StandardIterationsInSortDim(n);
    if p < q {
      PowerOfTwoGap(p, q);
    } else if q < p {
      PowerOfTwoGap(q, p);
    }
  }

  /** One planned sort kernel: its masks and whether it uses the tiled geometry. */
  datatype SortKernel = SortKernel(masks: seq<nat>, tiled: bool)

  /** The whole sort plan for a sort dimension of extent n. */
  method PlanSort(n: nat, elementBytes: seq<nat>, device: DeviceInfo) returns (plan: seq<SortKernel>)
    requires n >= 2
    ensures |plan| >= 1
    ensures Flatten(MasksOf(plan)) == Schedule(NumStages(n))
    ensures forall k :: 0 <= k < |plan| ==> (plan[k].tiled <==> |plan[k].masks| > 1)
    ensures forall k :: 0 <= k < |plan| && plan[k].tiled ==>
              && !NoTiling(TileSize(NumStages(n)), elementBytes, device)
              && forall j :: 0 <= j < |plan[k].masks| ==> plan[k].masks[j] < TileSize(NumStages(n))
  {
    var stages := NumStages(n);
    var tile := TileSize(stages);
    var noTiling := NoTiling(tile, elementBytes, device);
    var kernels := BatchMasks(Schedule(stages), tile, noTiling);
    plan := seq(|kernels|, k requires 0 <= k < |kernels| => SortKernel(kernels[k], |kernels[k]| > 1));
    assert MasksOf(plan) == kernels;
    ScheduleLength(stages);
    assert |Flatten(kernels)| > 0;
  }

  function MasksOf(plan: seq<SortKernel>): (r: seq<seq<nat>>)
    ensures |r| == |plan|
    ensures forall k :: 0 <= k < |plan| ==> r[k] == plan[k].masks
  {
    seq(|plan|, k requires 0 <= k < |plan| => plan[k].masks)
  }
}
