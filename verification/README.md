# GPU unnested IR emitter: the integer decisions, modelled in Dafny

XLA's GPU backend turns each unnested HLO instruction into one or more GPU
kernels (`IrEmitterUnnested`). Most of that file builds LLVM IR. Inside it,
though, are pure integer and sequence decisions that fix what the kernels do.
This project restates those decisions as Dafny functions and proves what they
promise:

- **`SortSchedule`**: the bitonic sort stage count and xor-mask schedule, the
  tile size, the `no_tiling` decision, how masks are batched into kernels, and
  the tiled and standard launch arithmetic.
- **`Initializer`**: how a reduction initializer is chosen, among memzero, a
  replicated 32-bit memset, a repeated 32-bit word, or a kernel.
- **`Scatter`**: how the scatter loop body resolves an update index to an
  operand index, including its bounds check.
- **`SelectAndScatter`**: the select-and-scatter operand index
  `S*stride + W - pad`, its unsigned bounds check, and the
  first-in-bounds-then-replace-when-select-is-false selection.
- **`SliceFusion`**: the consistency check on the input shapes of fused root
  slices, the slice guard `start <= i < limit`, and the destination `i - start`.
- **`Tiling`**:
  - blocks per dimension and last-block tile bounds;
  - the per-block Z tile count;
  - which `(y, x)` positions a thread visits under the three indexing orders;
  - when the x bound is checked;
  - the untransposed output address.
- **`Reduction`**:
  - `NearestPowerOfTwo`;
  - the thread counts, indexing order, vector size and partial-result count of
    `ComputeReductionCodegenInfo`;
  - the warp shuffle-down schedule 16, 8, 4, 2, 1.
- **`OutputGroups`**: `DivideOutputInstructionsIntoGroups`, modelled as a
  union-find partition over an abstract reachability relation.
- **`KernelArgs`**:
  - the kernel argument list;
  - the value each buffer slice is bound to;
  - the temp buffer base;
  - which slices are marked invariant.
- **`BufferSlices`**: the `find_slice_for` search and the de-duplicating
  collection in `GetHloBufferSlices`.
- **`IndexType`**: `GetIndexTypeForKernel` (32- or 64-bit indices) and
  `ComputeMaxUnrollFactor`.
- **`Transpose021`**: 0-2-1 transpose admission:
  - operands must agree on the reduced dimensions;
  - both minor dimensions must be at least 16;
  - operands must be safe for shared memory, judged over an acyclic user graph;
  - operands are kept only while the 48 KiB shared-memory budget allows.
- **`Arith`** and **`Wrappers`**: the small library helpers the emitter relies
  on (`Log2Ceiling`, `CeilOfRatio`, `RoundUpToNearest`, `IsInt32`, two's
  complement wrap, unsigned compare), plus `Option`/`Result`.

Two details of the code that the model keeps:

- The sort tile size is `min(2048, 2^stages)` (line 2005), and under
  `no_tiling` every mask gets its own kernel (line 2111).
- `find_slice_for` keeps the gte indices of a failed get-tuple-element walk
  when it starts the index-prefix walk (lines 2313–2339). The model states
  this as written, shows on a concrete graph that it gives a wrong answer (see
  "## Findings"). `GetHloBufferSlices` uses the search as written;
  `GetHloBufferSlicesCorrected` is the same collection over a corrected search.

Every source cell below is a path into the XLA repository. Every line number
refers to `tensorflow/compiler/xla/service/gpu/ir_emitter_unnested.cc`.

## Model

| member | source | states |
|---|---|---|
| SortSchedule.NumStages | tensorflow/compiler/xla/service/gpu/ir_emitter_unnested.cc:1975-1979 | for a sort extent n >= 2 the stage count is at least 1 and 2^(stages-1) < n <= 2^stages |
| SortSchedule.StageMasks | tensorflow/compiler/xla/service/gpu/ir_emitter_unnested.cc:2103-2110 | stage s emits exactly s+1 masks: first 2^(s+1)-1, then 2^(s-1) down to 1 |
| SortSchedule.ScheduleLength | tensorflow/compiler/xla/service/gpu/ir_emitter_unnested.cc:2103-2110 | the whole schedule holds stages*(stages+1)/2 masks |
| SortSchedule.ScheduleStageLayout | tensorflow/compiler/xla/service/gpu/ir_emitter_unnested.cc:2103-2110 | mask j of stage s sits at position s*(s+1)/2 + j of the schedule |
| SortSchedule.TileSize | tensorflow/compiler/xla/service/gpu/ir_emitter_unnested.cc:2005 | the tile size is a power of two, at most 2048 and at most 2^stages, and equal to one of the two |
| SortSchedule.BatchMasks | tensorflow/compiler/xla/service/gpu/ir_emitter_unnested.cc:2111-2124 | concatenating the kernels' mask lists in order gives back the schedule; a mask >= tile size, or any mask under no_tiling, is alone in its kernel; no two adjacent batchable kernels could have been merged |
| SortSchedule.UntileableMaskAlone | tensorflow/compiler/xla/service/gpu/ir_emitter_unnested.cc:2111-2116 | in a well-formed batching, a mask that cannot be tiled forms a kernel by itself |
| SortSchedule.TiledLaunch | tensorflow/compiler/xla/service/gpu/ir_emitter_unnested.cc:2020-2063 | tiled launch: tile/2 threads per block; twice the iteration count is the least multiple of the tile size that is at least n; the blocks cover all iterations with less than one block to spare |
| SortSchedule.StandardIterationsInSortDim | tensorflow/compiler/xla/service/gpu/ir_emitter_unnested.cc:2012-2015 | standard launch: the iteration count along the sort dimension is a power of two p with n <= 2p and p < n |
| SortSchedule.StandardIterationsUnique | tensorflow/compiler/xla/service/gpu/ir_emitter_unnested.cc:2012-2015 | only one power of two lies in [n/2, n), so those bounds fix the count at 2^(stages-1) |
| SortSchedule.PlanSort | tensorflow/compiler/xla/service/gpu/ir_emitter_unnested.cc:2040-2124 | the planned kernels' masks concatenate to the full schedule; a kernel uses the tiled geometry iff it has more than one mask; tiled kernels occur only when tiling is allowed, and only for masks below the tile size |
| Initializer.Pattern32 | tensorflow/compiler/xla/service/gpu/ir_emitter_unnested.cc:2687-2696 | the memset word's bytes are a 1-byte literal four times or a 2-byte literal twice (little-endian) |
| Initializer.WordBytesRoundTrip | tensorflow/compiler/xla/service/gpu/ir_emitter_unnested.cc:2706-2707 | reading four literal bytes as a word and storing the word back gives the same bytes |
| Initializer.ChooseInitializer | tensorflow/compiler/xla/service/gpu/ir_emitter_unnested.cc:2669-2716 | memzero iff the init value is a constant with all bytes zero; a 32-bit memset only for a non-zero constant, with an output size divisible by 4 for 1- and 2-byte literals and equal 4-byte words for longer ones; the kernel fallback iff none of the three rules applies |
| Initializer.MemsetMatchesElementwiseInit | tensorflow/compiler/xla/service/gpu/ir_emitter_unnested.cc:2669-2710 | whenever a memzero or memset is chosen, the bytes it writes are exactly the literal repeated over the output buffer |
| Initializer.RepeatedWords | tensorflow/compiler/xla/service/gpu/ir_emitter_unnested.cc:2703-2705 | a literal whose later bytes equal its first word, shifted by four, is that first word repeated |
| Scatter.PartitionContents | tensorflow/compiler/xla/service/gpu/ir_emitter_unnested.cc:1735-1746 | window coordinate k is the update index at update_window_dims[k], with the updates-shape extent of that axis as its bound |
| Scatter.WindowCoordinateCount | tensorflow/compiler/xla/service/gpu/ir_emitter_unnested.cc:1735-1748 | there are exactly as many window coordinates as update_window_dims entries, each taken from its axis |
| Scatter.InsertedAxesContents | tensorflow/compiler/xla/service/gpu/ir_emitter_unnested.cc:1750-1768 | the operand window has operand rank; an inserted axis has bound 1 and coordinate 0; the other axes take the window coordinates in order |
| Scatter.IndexVectorLookup | tensorflow/compiler/xla/service/gpu/ir_emitter_unnested.cc:1770-1794 | the scatter-indices lookup index is the scatter coordinates with c inserted at index_vector_dim |
| Scatter.AddScatterIndices | tensorflow/compiler/xla/service/gpu/ir_emitter_unnested.cc:1799-1820 | each operand coordinate is the window coordinate plus the loaded indices aimed at that dimension, each cast to the kernel's index width (sign-extended or truncated); the in-bounds flag is the conjunction of the unsigned compares |
| Scatter.ResolveScatterIndex | tensorflow/compiler/xla/service/gpu/ir_emitter_unnested.cc:1728-1825 | the update is applied iff every bounds step passes; the operand index it is applied at has operand rank, and coordinate d is the window coordinate plus the sum of the loaded indices aimed at d, each read as a signed integer of the index element's width and then cast to the kernel's index width |
| Scatter.ScatterWrittenIff | tensorflow/compiler/xla/service/gpu/ir_emitter_unnested.cc:1813-1825 | for loaded indices (read as signed elements) that fit the kernel's index width, the window is written iff every loaded index k satisfies 0 <= k < dim - window_bound + 1; otherwise it is silently skipped |
| Scatter.ScatterWrittenIffWrapped | tensorflow/compiler/xla/service/gpu/ir_emitter_unnested.cc:1805-1825 | for any index element width and any loaded indices, the window is written iff every loaded index, read as a signed element and cast to the kernel's index width, lies in [0, dim - window_bound + 1) |
| Scatter.ScatterWrittenIffNarrow | tensorflow/compiler/xla/service/gpu/ir_emitter_unnested.cc:1805-1825 | when the index element is no wider than the kernel's index type, the window is written iff every index, read as a signed element, lies in [0, dim - window_bound + 1) |
| Scatter.UnsignedByteIndexSkipsWindow | tensorflow/compiler/xla/service/gpu/ir_emitter_unnested.cc:1799-1825 | an 8-bit scatter index holding 200 is read as -56 by the signed cast, so the window is skipped even on an axis with room at coordinate 200 |
| Scatter.WideIndexWrapsToZero | tensorflow/compiler/xla/service/gpu/ir_emitter_unnested.cc:1805-1820 | in a 32-bit kernel a loaded index of 2^32 truncates to 0 and passes the bounds check of any axis with room for the window |
| Scatter.ScatterWriteInsideOperand | tensorflow/compiler/xla/service/gpu/ir_emitter_unnested.cc:1805-1825 | every element that is written lies inside the operand |
| SelectAndScatter.WindowOrder | tensorflow/compiler/xla/service/gpu/ir_emitter_unnested.cc:1430-1441 | the window loop nest visits Product(window dims) positions, each inside the window, the p-th being the index whose row-major linearisation (axis 0 slowest) is p |
| SelectAndScatter.WindowOrderListsEveryIndex | tensorflow/compiler/xla/service/gpu/ir_emitter_unnested.cc:1430-1441 | every index inside the window is visited, exactly at its row-major position |
| SelectAndScatter.Candidates | tensorflow/compiler/xla/service/gpu/ir_emitter_unnested.cc:1438-1463 | one candidate per window position; the window index W is visited at its row-major position, and its candidate there is I = S*stride + W - padding, per axis |
| SelectAndScatter.InBoundsIsRangeCheck | tensorflow/compiler/xla/service/gpu/ir_emitter_unnested.cc:1464-1467 | the per-axis unsigned compare I u< dim is the signed range check 0 <= I < dim |
| SelectAndScatter.SelectPrefix | tensorflow/compiler/xla/service/gpu/ir_emitter_unnested.cc:1470-1529 | nothing is selected iff no candidate so far is in bounds; the selection is an in-bounds candidate and holds the operand value there; select(selected, c) held for every later in-bounds candidate c, since each one it rejected would have replaced the selection |
| SelectAndScatter.SelectedIndex | tensorflow/compiler/xla/service/gpu/ir_emitter_unnested.cc:1399-1408 | the selected index is in bounds and is the operand index of an index inside the window; there is none iff every index of the window is out of bounds |
| SelectAndScatter.SelectionIsExtremal | tensorflow/compiler/xla/service/gpu/ir_emitter_unnested.cc:1399-1407 | when select is a total preorder, the selected value is select-related to every in-bounds candidate of the window, and no in-bounds candidate before it is select-related to it |
| SelectAndScatter.FirstBestUnique | tensorflow/compiler/xla/service/gpu/ir_emitter_unnested.cc:1399-1407 | under a total preorder at most one window index is the first of the best (in bounds, selected over all, not beaten by an earlier one) |
| SelectAndScatter.SelectedIndexIsFirstBest | tensorflow/compiler/xla/service/gpu/ir_emitter_unnested.cc:1399-1408 | under a total preorder the index scattered to is that of the first best window index in loop-nest order, so ties go to the earliest |
| SliceFusion.ConsistentInputShapeForRootSlices | tensorflow/compiler/xla/service/gpu/ir_emitter_unnested.cc:522-551 | non-fusible slices give FailedPrecondition; a single slice gives its operand shape; a tuple of slices succeeds iff all operand shapes equal the first one (ignoring element type), and then gives the first one |
| SliceFusion.SliceWrite | tensorflow/compiler/xla/service/gpu/ir_emitter_unnested.cc:4717-4740 | an element is written iff start <= i < limit on every axis; the destination lies in [0, limit - start) and adding start gives back i |
| SliceFusion.SliceOutputWrittenOnce | tensorflow/compiler/xla/service/gpu/ir_emitter_unnested.cc:4717-4740 | each slice output element is written from exactly one input index, out + start |
| Tiling.DimsInBlocks | tensorflow/compiler/xla/service/gpu/ir_emitter_unnested.cc:3753-3757 | blocks per axis is ceil(dims/tile): the blocks cover the axis with less than one tile to spare |
| Tiling.TileBound | tensorflow/compiler/xla/service/gpu/ir_emitter_unnested.cc:3786-3797 | a block's bound lies in [1, tile] and stays inside the axis; every block but the last gets the full tile; the last ends exactly at the axis end |
| Tiling.ElementInItsTile | tensorflow/compiler/xla/service/gpu/ir_emitter_unnested.cc:3753-3797 | every element lies in a block that exists and below that block's bound |
| Tiling.ZTilesInBlockIsTileBound | tensorflow/compiler/xla/service/gpu/ir_emitter_unnested.cc:3817-3831 | the Z tile count of a block equals its tile bound along Z |
| Tiling.YBound | tensorflow/compiler/xla/service/gpu/ir_emitter_unnested.cc:3132-3140 | the rewritten loop bound ceil((tile_height - tid_y)/num_threads_y) admits exactly the iterations whose y lies inside the tile |
| Tiling.EveryRowVisitedOnce | tensorflow/compiler/xla/service/gpu/ir_emitter_unnested.cc:3132-3140 | every row of the tile is visited by exactly one (thread, iteration) pair |
| Tiling.XLocationInTile | tensorflow/compiler/xla/service/gpu/ir_emitter_unnested.cc:3020-3102 | for each indexing order, every (thread, step, lane) slot lands inside [0, tile_size_x), and no other slot lands on the same x |
| Tiling.XOwnerCovers | tensorflow/compiler/xla/service/gpu/ir_emitter_unnested.cc:3020-3102 | for each indexing order, every x in [0, tile_size_x) is reached by some valid slot |
| Tiling.XEmittedIffInsideTile | tensorflow/compiler/xla/service/gpu/ir_emitter_unnested.cc:3069-3163 | with or without the x bounds check, an x offset is emitted iff it lies below the block's tile width |
| Tiling.UntransposedOutputLinearAddress | tensorflow/compiler/xla/service/gpu/ir_emitter_unnested.cc:3408-3422 | for an index inside the tile, the address lies in the kept output's range (Y extent for rows, Z*X extent for columns) |
| Tiling.SameOutputIffSameKeptCoordinates | tensorflow/compiler/xla/service/gpu/ir_emitter_unnested.cc:3408-3422 | two in-range indices get the same output address iff they agree on the kept coordinates (y for rows, z and x for columns) |
| Reduction.NearestPowerOfTwo | tensorflow/compiler/xla/service/gpu/ir_emitter_unnested.cc:4342-4349 | a negative value gives 0; a positive value gives a power of two |
| Reduction.NearestPowerOfTwoIsNearest | tensorflow/compiler/xla/service/gpu/ir_emitter_unnested.cc:4342-4349 | no power of two is closer to v; on a tie the smaller one is chosen |
| Reduction.MaxRowBlockSize | tensorflow/compiler/xla/service/gpu/ir_emitter_unnested.cc:4383-4387 | the cap is 512 / p for p = NearestPowerOfTwo(fan_out) up to 8, and 64 from 8 on; always a multiple of 32 in [64, 512] |
| Reduction.MaxRowBlockSizeByFanOut | tensorflow/compiler/xla/service/gpu/ir_emitter_unnested.cc:4383-4387 | by fan-out the cap is 512 for 1, 256 for 2-3, 128 for 4-6 and 64 from 7 on |
| Reduction.NumThreadsX | tensorflow/compiler/xla/service/gpu/ir_emitter_unnested.cc:4377-4395 | column reductions use a warp of x threads; row reductions use a multiple of 32, at most the cap, and at least one warp when the reduced dimension is non-empty |
| Reduction.RowThreadsCoverBelowCap | tensorflow/compiler/xla/service/gpu/ir_emitter_unnested.cc:4387-4392 | a row thread count below the cap gives tiles that together cover the reduced dimension |
| Reduction.RowThreadsLeastCover | tensorflow/compiler/xla/service/gpu/ir_emitter_unnested.cc:4387-4392 | no multiple of 32 whose tiles cover the reduced dimension is below the row thread count, and the count covers it unless it equals the cap: the count is min(cap, least covering multiple of 32) |
| Reduction.ComputeReductionCodegenInfo | tensorflow/compiler/xla/service/gpu/ir_emitter_unnested.cc:4377-4439 | strided-linear order iff it is tried, the minor extent is even and vectorization is not prevented; linear order iff a column reduction where unrolling is beneficial; vector size 2 exactly for strided-linear; 2 partial results exactly for linear; tile sizes are tiling * threads (and * partial results for x) |
| Reduction.ReductionSchemeCoversTile | tensorflow/compiler/xla/service/gpu/ir_emitter_unnested.cc:4397-4439 | when the strided-linear order gets an even X tiling, the scheme chosen satisfies the conditions under which the x offsets cover the tile exactly once |
| Reduction.ShuffleDownLoopGathers | tensorflow/compiler/xla/service/gpu/ir_emitter_unnested.cc:3382-3401 | if lane l holds the lanes congruent to l modulo 2d, the remaining shuffle-downs from distance d leave lane 0 holding all 32 lanes |
| Reduction.WarpReduceGathersAllLanes | tensorflow/compiler/xla/service/gpu/ir_emitter_unnested.cc:3382-3401 | after shuffle-down by 16, 8, 4, 2, 1, lane 0 holds the combination of every one of the 32 lanes exactly once |
| OutputGroups.ReachedPrefix | tensorflow/compiler/xla/service/gpu/ir_emitter_unnested.cc:4535-4551 | an output is among an instruction's reached outputs iff it is reachable and not a reduce fed by a broadcasted constant or scalar |
| OutputGroups.Merge | tensorflow/compiler/xla/service/gpu/ir_emitter_unnested.cc:4552-4555 | merging puts the two outputs together and separates nothing that was together |
| OutputGroups.DivideOutputsIntoGroups | tensorflow/compiler/xla/service/gpu/ir_emitter_unnested.cc:4519-4567 | the groups partition the outputs; two outputs reached from one fused instruction share a group |
| OutputGroups.GroupsPartition | tensorflow/compiler/xla/service/gpu/ir_emitter_unnested.cc:4558-4561 | grouping by representative gives a partition in which two outputs are together iff they have the same representative |
| OutputGroups.FinalLabelsRespectJoins | tensorflow/compiler/xla/service/gpu/ir_emitter_unnested.cc:4535-4556 | after all merges, all outputs reached from one instruction have one representative |
| OutputGroups.GroupsAreFinest | tensorflow/compiler/xla/service/gpu/ir_emitter_unnested.cc:4527-4561 | the groups are the finest partition that keeps jointly reached outputs together: any labelling doing so agrees on each group |
| KernelArgs.FirstTemp | tensorflow/compiler/xla/service/gpu/ir_emitter_unnested.cc:2396-2404 | the temp buffer is the first preallocated temp allocation, absent iff there is none |
| KernelArgs.KernelArguments | tensorflow/compiler/xla/service/gpu/ir_emitter_unnested.cc:2392-2420 | the arguments are exactly the non-constant allocations among those referenced by a slice plus the temp buffer, without duplicates, in increasing allocation index |
| KernelArgs.KernelArgumentsDetermined | tensorflow/compiler/xla/service/gpu/ir_emitter_unnested.cc:2411-2420 | any strictly increasing list of those allocations is the argument list |
| KernelArgs.SliceAllocationIsArgument | tensorflow/compiler/xla/service/gpu/ir_emitter_unnested.cc:2466-2468 | every non-constant allocation a slice uses is an argument, so the argument lookup never fails |
| KernelArgs.BindSlice | tensorflow/compiler/xla/service/gpu/ir_emitter_unnested.cc:2456-2478 | a slice is bound to its allocation's global if constant, else to its argument plus the slice offset, then dereferenced once per gte index element in order |
| KernelArgs.UnwindApplyDerefs | tensorflow/compiler/xla/service/gpu/ir_emitter_unnested.cc:2475-2478 | the dereference chain can be read back: the base and the gte index it was built from |
| KernelArgs.TempBufferBase | tensorflow/compiler/xla/service/gpu/ir_emitter_unnested.cc:2485-2490 | the temp buffer base is null iff there is no temp buffer, otherwise the argument holding it |
| KernelArgs.InvariantMarks | tensorflow/compiler/xla/service/gpu/ir_emitter_unnested.cc:2528-2548 | a slice is marked invariant iff no written slice has the same buffer slice |
| KernelArgs.InvariantMarksConsistent | tensorflow/compiler/xla/service/gpu/ir_emitter_unnested.cc:2533-2548 | a written slice is never invariant; slices over the same buffer slice are marked alike |
| BufferSlices.BitcastWalk | tensorflow/compiler/xla/service/gpu/ir_emitter_unnested.cc:2300-2308 | the bitcast walk finds an assigned ancestor with the same buffer, or stops at a non-bitcast with the same buffer |
| BufferSlices.GteWalk | tensorflow/compiler/xla/service/gpu/ir_emitter_unnested.cc:2313-2322 | the get-tuple-element walk keeps "ancestor at collected indices" equal to the starting buffer, and finds an assigned ancestor or stops at a non-GTE |
| BufferSlices.PrefixWalk | tensorflow/compiler/xla/service/gpu/ir_emitter_unnested.cc:2333-2341 | the prefix walk returns the longest assigned proper prefix of the index, with the dropped suffix in front of the collected indices; nothing iff no proper prefix is assigned |
| BufferSlices.FindSliceFor | tensorflow/compiler/xla/service/gpu/ir_emitter_unnested.cc:2287-2344 | as written: a directly assigned sub-buffer is returned with no gte index; any result is a slice of the buffer assignment |
| BufferSlices.FindSliceForSoundAtTopLevel | tensorflow/compiler/xla/service/gpu/ir_emitter_unnested.cc:2287-2322 | for a top-level buffer, the slice found, dereferenced along the returned indices, is the requested buffer |
| BufferSlices.FindSliceForSoundOnPlainInstr | tensorflow/compiler/xla/service/gpu/ir_emitter_unnested.cc:2287-2344 | for an instruction that is neither a bitcast nor a get-tuple-element, every result is right for every index |
| BufferSlices.PrefixWalkKeepsGteIndices | tensorflow/compiler/xla/service/gpu/ir_emitter_unnested.cc:2313-2339 | on a concrete graph the prefix walk puts its index 0 in front of the stale gte index 1 from the failed get-tuple-element walk; the answer [0, 1] is justified by no assigned sub-buffer |
| BufferSlices.FindSliceForCorrected | tensorflow/compiler/xla/service/gpu/ir_emitter_unnested.cc:2287-2344 | the search with the gte indices cleared before the prefix walk: same direct hit, same answer whenever a walk succeeds, and only assigned slices |
| BufferSlices.FindSliceForCorrectedSound | tensorflow/compiler/xla/service/gpu/ir_emitter_unnested.cc:2324-2344 | every top-level answer of the corrected search, and every answer it gives through the prefix walk, is justified by an assigned sub-buffer |
| BufferSlices.CollectSlices | tensorflow/compiler/xla/service/gpu/ir_emitter_unnested.cc:2347-2367 | one entry per distinct visited sub-buffer that resolves, carrying the resolver's answer; repeats are skipped |
| BufferSlices.GetHloBufferSlices | tensorflow/compiler/xla/service/gpu/ir_emitter_unnested.cc:2279-2376 | the entries are distinct, come from visited sub-buffers with find_slice_for's answer as written, and cover every visited sub-buffer it resolves |
| BufferSlices.GetHloBufferSlicesCorrected | tensorflow/compiler/xla/service/gpu/ir_emitter_unnested.cc:2279-2376 | the same collection over the corrected search: distinct entries from visited sub-buffers with the corrected answer, covering every visited sub-buffer it resolves |
| BufferSlices.GetHloBufferSlicesCorrectedSound | tensorflow/compiler/xla/service/gpu/ir_emitter_unnested.cc:2324-2367 | every top-level entry of the corrected collection, and every entry answered through the prefix walk, is justified by an assigned sub-buffer |
| IndexType.ShapeInRangeIffEverySubshape | tensorflow/compiler/xla/service/gpu/ir_emitter_unnested.cc:415-424 | a shape is in range iff every array subshape, at any index, has an element count within int32 |
| IndexType.GetIndexTypeForKernel | tensorflow/compiler/xla/service/gpu/ir_emitter_unnested.cc:406-457 | 32-bit iff the launch size and every array subshape of the result, the operands and (for a fusion) every fused instruction fit int32 |
| IndexType.OneOverflowForces64 | tensorflow/compiler/xla/service/gpu/ir_emitter_unnested.cc:406-457 | one overflowing array subshape anywhere in the kernel forces 64-bit indices |
| IndexType.LaunchSizeBoundary | tensorflow/compiler/xla/service/gpu/ir_emitter_unnested.cc:428-431 | a launch of 2^31 - 1 threads keeps 32-bit indices; 2^31 forces 64-bit |
| IndexType.ComputeMaxUnrollFactor | tensorflow/compiler/xla/service/gpu/ir_emitter_unnested.cc:372-386 | the factor is 1 or one of max, max/2, ... that divides the element count, and no larger candidate divides it |
| IndexType.UnrollFactorIsPowerOfTwo | tensorflow/compiler/xla/service/gpu/ir_emitter_unnested.cc:372-386 | with a power-of-two maximum the factor is a power of two not above it |
| IndexType.UnrollFactorIsLargest | tensorflow/compiler/xla/service/gpu/ir_emitter_unnested.cc:372-386 | with a power-of-two maximum, no power of two above the factor and up to the maximum divides the element count |
| IndexType.MaxUnrollFactorForHlo | tensorflow/compiler/xla/service/gpu/ir_emitter_unnested.cc:389-396 | the factor is 1 or a candidate max, max/2, ... dividing the element count of the first output (multi-output fusion) or of the shape, and no larger candidate divides it |
| Transpose021.IsSafe | tensorflow/compiler/xla/service/gpu/ir_emitter_unnested.cc:4069-4113 | defines shared-memory safety by recursion over users (stated through SafeIffNoUnsafePath) |
| Transpose021.SafeIffNoUnsafePath | tensorflow/compiler/xla/service/gpu/ir_emitter_unnested.cc:4069-4113 | an op is safe iff no chain of elementwise or pass-through users leads from it to an op that breaks the tile |
| Transpose021.FilterInputs | tensorflow/compiler/xla/service/gpu/ir_emitter_unnested.cc:4129-4147 | the filtered inputs are exactly the safe ones, in their original order |
| Transpose021.ScanOperands | tensorflow/compiler/xla/service/gpu/ir_emitter_unnested.cc:4163-4187 | a conflict iff two operands have different 0-2-1 transposes; otherwise the operands collected are exactly those with a transpose, in order, and the reduced dims are theirs |
| Transpose021.TruncateForShmem | tensorflow/compiler/xla/service/gpu/ir_emitter_unnested.cc:4217-4229 | the kept operands are the longest prefix whose tiles, times three blocks, fit in 48 KiB |
| Transpose021.ChooseParams | tensorflow/compiler/xla/service/gpu/ir_emitter_unnested.cc:4192-4229 | the kept operands are strictly increasing, drawn from the agreeing operands, safe for a shared-memory tile when the op is a fusion, and within the shared-memory budget |
| Transpose021.ChooseParamsIsLongestPrefix | tensorflow/compiler/xla/service/gpu/ir_emitter_unnested.cc:4192-4229 | the kept operands are the longest prefix of the safe agreeing operands (all agreeing ones for a copy) within the budget; some are kept iff the first safe one's tile fits alone |
| Transpose021.CheckTile021 | tensorflow/compiler/xla/service/gpu/ir_emitter_unnested.cc:4163-4235 | declined when the transposes disagree or none exists; when admitted, the minor dims are >= 16 and the kept operands are non-empty, increasing, all with that transpose, safe and within the budget |
| Transpose021.CheckTile021Decision | tensorflow/compiler/xla/service/gpu/ir_emitter_unnested.cc:4163-4235 | admitted iff the transposes agree, one exists, its minor dims are >= 16, and the first safe operand's tile fits the budget; then the kept operands are ChooseParams' prefix |
| Transpose021.SmallDimsDecline | tensorflow/compiler/xla/service/gpu/ir_emitter_unnested.cc:4187-4190 | a minor reduced dimension below 16 declines the tiled transpose |
| Transpose021.CopyAdmitted | tensorflow/compiler/xla/service/gpu/ir_emitter_unnested.cc:4163-4235 | a copy with agreeing transposes, large minor dims and tiles that fit the budget is admitted |

## Left out

- IR construction is not modelled: IRBuilder/LLVM/MLIR calls, GEPs, metadata,
  allocas, launch-dimension annotation, and MLIR-to-HLO conversion. Only the
  integer decisions that feed it are.
- Generated-kernel runtime behaviour is not modelled: barriers, atomics,
  shared-memory races and ordering between blocks. The warp shuffle is modelled
  as a lock-step sequence function over lane values, where each lane value is
  the multiset of the lane ids it has combined.
- User sub-computations (comparators, reducers, select and scatter bodies) are
  abstract functions or predicates. Floating point is not modelled.
- Collaborators whose source is not part of this model are inputs:
  - `GetReductionTiling`, `IsUnrollingColumnReductionBeneficial` and
    `MayPreventVectorization` are context fields;
  - `FindTranspose021` is an optional per-operand result;
  - `CalculateLaunchDimensions` is not modelled (the standard sort launch
    models only its iteration count);
  - `IrArray` linearisation and block delinearisation are not modelled;
  - `HloReachabilityMap` is a per-instruction set of reached outputs;
  - the buffer assignment is a partial map;
  - the subshape enumeration of `GetHloBufferSlices` is a list of visited
    (instruction, index) pairs.
- Thunk runtime behaviour (copy, memset, while, conditional, collectives, custom
  calls) is not modelled.
- SortSchedule.NumStages: requires n >= 2. For n = 1 the source shifts by -1
  (lines 1979 and 2013), which is undefined behaviour.
- Initializer.Pattern32: assumes a little-endian host for the 2-byte `memcpy`
  (line 2694) and the 4-byte word (line 2707).
- Tiling.XOwnerCovers: the strided order covers the tile only with vector size 1.
  The kernel mapping scheme that pairs strided indexing with vector size 1 is
  not part of this model. Reduction.ReductionSchemeCoversTile shows the
  reduction emitter makes that pairing.
- Tiling.XLocationInTile: thread ids are taken as given. The split of the
  linear thread id into (tid_y, tid_x) is not part of this model. Like
  Tiling.XOwnerCovers and Tiling.XOwner, it requires vector size 1 for the
  strided order, for the reason given on the Tiling.XOwnerCovers line.
- Reduction.NearestPowerOfTwo: requires v != 0. `NextPowerOfTwo64(0)` shifts by
  -1. Fan-out, its only argument here, is at least 1.
- Reduction.ComputeReductionCodegenInfo: requires a positive minor extent for
  row reductions, since the tile-fit test divides by the thread count. The
  compute-capability major version is an input (0 when unknown);
  `TriesStridedLinear` computes the test from it, the smallest input width
  and the tile-fit test.
- OutputGroups.DivideOutputsIntoGroups: the groups are returned as a set of
  sets, because the source orders them by hash-map iteration. A union-find with
  a representative per output is modelled as relabelling.
- SelectAndScatter.WindowOrder: `ForLoopNest::AddLoopsForShape` is not part of
  this model. The window loop nest is taken to run in row-major order, axis 0
  outermost, the order of the default layout `MakeShape` gives the window
  shape.
- SelectAndScatter.OperandIndex: `padding[i]` is element i of the op's
  `padding` attribute, zipped with `window_strides` (lines 1451-1458). The
  model reads it as the low padding of axis i, as the pseudo-code at line 1402
  does.
- SelectAndScatter.SelectPrefix: for a select computation that is not a total
  preorder, the contract does not single out the position kept; it states
  only that the choice is in bounds and is selected over every later in-bounds
  candidate. Under a total preorder SelectAndScatter.SelectedIndexIsFirstBest
  and SelectAndScatter.FirstBestUnique fix it.
- SelectAndScatter.SelectedIndex: when every window position is out of bounds,
  the source scatters to an uninitialized selected index. The model returns no
  index.
- Scatter.PartitionUpdateIndex: the binary search over `update_window_dims` and
  `inserted_window_dims` is modelled as membership, which needs those lists
  sorted.
- BufferSlices.FindSliceFor: modelled as written, including the gte indices
  kept between the two walks. Soundness is proved for top-level buffers and for
  instructions that are neither bitcasts nor get-tuple-elements. When the
  bitcast or get-tuple-element walk answers a request for a non-empty index, the
  answer ignores that index, in both the as-written and the corrected search.
  No soundness is claimed for those answers.
- Scatter.ResolveScatterIndex: the scatter indices array is an input, `load`,
  giving the element stored at a coordinate. Of its element type only the bit
  width is modelled, because the cast at lines 1806-1808 reads every element as
  signed whatever the type's signedness.
- Scatter.ScatterWrittenIff: holds only for loaded indices that fit the
  kernel's index width. Scatter.ScatterWrittenIffNarrow discharges that for
  every index element no wider than the kernel's index type. A wider index is
  truncated by `IntCast` (line 1807): Scatter.ScatterWrittenIffWrapped states
  the general case and
  Scatter.WideIndexWrapsToZero shows a 64-bit index of 2^32 written at offset 0
  of a 32-bit kernel.
- KernelArgs.TempBufferBase: requires the temp allocation to be non-constant.
  Otherwise `kernel_args.at` would throw (line 2486).
- Transpose021.FilterInputs: requires every input id to name a parameter.
  `params.at` would throw otherwise. The TensorLoad walk that builds `params` is
  an input.
- Transpose021.CheckTile021: stops at the admission decision. Emitting the
  tiled kernel (lines 4237 onward) is IR construction.
- IndexType.GetIndexTypeForKernel: the MLIR twin `GetIndexTypeForKernelFromMlir`
  applies the same rule and is not modelled separately.
- Integer widths: shape and mask arithmetic is unbounded. Only the scatter and
  select-and-scatter index arithmetic, where the source's index type matters,
  wraps explicitly.

## Findings

| source | as written | input that shows it | evidently intended | confidence | as-written member | corrected member |
|---|---|---|---|---|---|---|
| tensorflow/compiler/xla/service/gpu/ir_emitter_unnested.cc:2313-2339 | the index-prefix walk pushes the dropped index elements in front of the gte indices left over from a failed get-tuple-element walk | instruction 1 is get-tuple-element 1 of instruction 0 and only (1, {}) is assigned; sub-buffer {0} of instruction 1 is reported at [0, 1] of that slice instead of [0] | the prefix walk starts from empty gte indices, so only the dropped suffix of the index is dereferenced | low: not executed; whether buffer assignment can assign (1, {}) while leaving (0, {}) unassigned is not shown | BufferSlices.PrefixWalkKeepsGteIndices | BufferSlices.FindSliceForCorrectedSound |
