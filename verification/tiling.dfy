/** Geometry of the tiled kernels.  The iteration space has three axes
    [Z, Y, X]; it is cut into blocks of tiles, the last block along an axis
    may be partial, and inside a tile every thread visits a fixed set of
    (y, x) positions chosen by the indexing order along X. */
module Tiling {
  import opened Arith

  // ---------------------------------------------------------------------
  // Blocks and tile bounds (EmitTilingKernel)
  // ---------------------------------------------------------------------

  /** dims_in_blocks: ceil(dims / tile) on every axis. */
  function DimsInBlocks(dims: seq<nat>, tiles: seq<nat>): (r: seq<nat>)
    requires |dims| == |tiles|
    requires forall i :: 0 <= i < |tiles| ==> tiles[i] >= 1
    ensures |r| == |dims|
    ensures forall i :: 0 <= i < |r| ==> dims[i] <= r[i] * tiles[i] < dims[i] + tiles[i]
  {
    seq(|dims|, i requires 0 <= i < |dims| => CeilOfRatio(dims[i], tiles[i]))
  }

  /** The bound of the tile of block `block` along an axis: the last block
      gets what is left of the axis, every other block the full tile. */
  function TileBound(dim: nat, tile: nat, block: nat): (r: nat)
    requires tile >= 1 && block < CeilOfRatio(dim, tile)
    ensures 1 <= r <= tile
    ensures block * tile + r <= dim
    ensures block + 1 < CeilOfRatio(dim, tile) ==> r == tile
    ensures block + 1 == CeilOfRatio(dim, tile) ==> block * tile + r == dim
  {
    var blocks := CeilOfRatio(dim, tile);
    assert (blocks - 1) * tile == blocks * tile - tile;
    assert block + 1 < blocks ==> block * tile + tile <= (blocks - 1) * tile by {
      if block + 1 < blocks {
        MulMonotone(blocks - 1, block + 1, tile);
        assert (block + 1) * tile == block * tile + tile;
      }
    }
    if block == blocks - 1 then dim - (blocks - 1) * tile else tile
  }

  /** Every element of an axis lies in exactly the tile of block e / tile,
      at offset e % tile, and that offset is inside the tile's bound. */
  lemma ElementInItsTile(dim: nat, tile: nat, e: nat)
    requires tile >= 1 && e < dim
    ensures e / tile < CeilOfRatio(dim, tile)
    ensures e % tile < TileBound(dim, tile, e / tile)
  {
    var blocks := CeilOfRatio(dim, tile);
    var b := e / tile;
    if b >= blocks {
      MulMonotone(b, blocks, tile);
    }
    assert b < blocks;
    if b == blocks - 1 {
      assert e == b * tile + e % tile;
    }
  }

  /** The number of Z tiles the block whose tile origin is originZ runs:
      one tile when the Z tile size is 1, otherwise the full Z tile size
      except in the last Z block. */
  function ZTilesInBlock(dimZ: nat, tileZ: nat, originZ: nat): (r: nat)
    requires tileZ >= 1
  {
    if tileZ == 1 then 1
    else
      var blocks := CeilOfRatio(dimZ, tileZ);
      if blocks >= 1 && originZ / tileZ == blocks - 1 then dimZ - (blocks - 1) * tileZ
      else tileZ
  }

  /** The Z tile loop of a block runs exactly its Z tile bound. */
  lemma ZTilesInBlockIsTileBound(dimZ: nat, tileZ: nat, blockZ: nat)
    requires tileZ >= 1 && blockZ < CeilOfRatio(dimZ, tileZ)
    ensures ZTilesInBlock(dimZ, tileZ, blockZ * tileZ) == TileBound(dimZ, tileZ, blockZ)
  {
    MultipleModZero(blockZ, tileZ);
    if tileZ == 1 {
      assert CeilOfRatio(dimZ, 1) == dimZ;
    }
  }

  // ---------------------------------------------------------------------
  // Positions one thread visits (EmitTile, GetStartOffsetX,
  // UnrollInnerTileLoop)
  // ---------------------------------------------------------------------

  /** y_loc of the k-th iteration of the y loop of thread tidY. */
  function YLocation(tidY: nat, k: nat, numThreadsY: nat): nat {
    tidY + k * numThreadsY
  }

  lemma FloorDivBound(a: nat, n: nat, k: nat)
    requires n >= 1
    ensures k < a / n <==> (k + 1) * n <= a
  {
    var q := a / n;
    if k < q {
      MulMonotone(q, k + 1, n);
    } else {
      MulMonotone(k, q, n);
    }
  }

  /** The rewritten y loop bound ceil((tile_height - tid_y) / num_threads_y):
      iteration k runs exactly when its row lies inside the tile.  Since
      tile_height >= 1 > tid_y - num_threads_y, the unsigned sum never
      wraps. */
  function YBound(tileHeight: nat, tidY: nat, numThreadsY: nat): (r: nat)
    requires numThreadsY >= 1 && tidY < numThreadsY && tileHeight >= 1
    ensures forall k: nat :: k < r <==> YLocation(tidY, k, numThreadsY) < tileHeight
  {
    var a: nat := tileHeight + numThreadsY - 1 - tidY;
    assert forall k: nat :: k < a / numThreadsY <==> YLocation(tidY, k, numThreadsY) < tileHeight by {
      forall k: nat ensures k < a / numThreadsY <==> YLocation(tidY, k, numThreadsY) < tileHeight {
        FloorDivBound(a, numThreadsY, k);
      }
    }
    a / numThreadsY
  }

  /** Every row of a tile is visited by exactly one thread row: thread
      y % num_threads_y, in iteration y / num_threads_y. */
  lemma EveryRowVisitedOnce(tileHeight: nat, numThreadsY: nat, y: nat)
    requires numThreadsY >= 1 && y < tileHeight
    ensures YLocation(y % numThreadsY, y / numThreadsY, numThreadsY) == y
    ensures y / numThreadsY < YBound(tileHeight, y % numThreadsY, numThreadsY)
    ensures forall t: nat, k: nat :: t < numThreadsY && YLocation(t, k, numThreadsY) == y ==>
              t == y % numThreadsY && k == y / numThreadsY
  {
    forall t: nat, k: nat | t < numThreadsY && YLocation(t, k, numThreadsY) == y
      ensures t == y % numThreadsY && k == y / numThreadsY
    {
      DivModUnique(y, numThreadsY, k, t);
    }
  }

  datatype IndexingOrder = StridedX | LinearX | StridedLinearX

  /** The unrolled element (j, i) of thread `thread`: step j of
      x_num_steps / vector_size, lane i of vector_size. */
  datatype XSlot = XSlot(thread: int, step: int, lane: int)

  /** GetStartOffsetX. */
  function StartOffsetX(order: IndexingOrder, tidX: int, xNumSteps: nat, vectorSize: nat): int {
    match order
    case StridedX => tidX
    case StridedLinearX => tidX * vectorSize
    case LinearX => tidX * xNumSteps
  }

  /** Dilated orders step by the number of threads, the linear one by 1. */
  function StepX(order: IndexingOrder, numThreadsX: nat): nat {
    if order == LinearX then 1 else numThreadsX
  }

  /** x_loc of an unrolled element. */
  function XLocation(order: IndexingOrder, numThreadsX: nat, xNumSteps: nat, vectorSize: nat, s: XSlot): int {
    StartOffsetX(order, s.thread, xNumSteps, vectorSize) + s.step * StepX(order, numThreadsX) * vectorSize + s.lane
  }

  predicate ValidSlot(numThreadsX: nat, xNumSteps: nat, vectorSize: nat, s: XSlot)
    requires vectorSize >= 1
  {
    0 <= s.thread < numThreadsX && 0 <= s.step < xNumSteps / vectorSize && 0 <= s.lane < vectorSize
  }

  /** The mapping schemes the reduction emitter builds: vectors only with
      the strided-linear order, and x_num_steps a multiple of the vector
      size. */
  predicate ValidXMapping(order: IndexingOrder, numThreadsX: nat, xNumSteps: nat, vectorSize: nat) {
    && numThreadsX >= 1 && xNumSteps >= 1 && vectorSize >= 1 && xNumSteps % vectorSize == 0
    && (order == StridedX ==> vectorSize == 1)
  }

  /** Which thread, step and lane visits x (for the strided order the
      vector size is 1, so its lane is always 0). */
  function XOwner(order: IndexingOrder, numThreadsX: nat, xNumSteps: nat, vectorSize: nat, x: nat): XSlot
    requires ValidXMapping(order, numThreadsX, xNumSteps, vectorSize)
  {
    match order
    case StridedX | StridedLinearX => XSlot((x / vectorSize) % numThreadsX, (x / vectorSize) / numThreadsX, x % vectorSize)
    case LinearX => XSlot(x / xNumSteps, (x % xNumSteps) / vectorSize, (x % xNumSteps) % vectorSize)
  }

  lemma MulAddBound(q: nat, b: nat, r: nat, n: nat)
    requires r < b && q < n
    ensures q * b + r < n * b
  {
    MulMonotone(n - 1, q, b);
  }

  /** Arithmetic of the strided-linear order, x = t*vs + j*n*vs + i. */
  lemma StridedLinearSlot(t: int, j: int, i: int, n: nat, steps: nat, vs: nat)
    requires n >= 1 && vs >= 1 && steps % vs == 0
    requires 0 <= t < n && 0 <= j < steps / vs && 0 <= i < vs
    ensures 0 <= t * vs + j * n * vs + i < n * steps
    ensures ((t * vs + j * n * vs + i) / vs) % n == t
    ensures ((t * vs + j * n * vs + i) / vs) / n == j
    ensures (t * vs + j * n * vs + i) % vs == i
  {
    var m := steps / vs;
    var q := j * n + t;
    assert t * vs + j * n * vs + i == q * vs + i;
    MulAddBound(j, n, t, m);
    MulAddBound(q, vs, i, m * n);
    assert (m * n) * vs == n * steps by {
      assert steps == m * vs;
    }
    DivModUnique(q * vs + i, vs, q, i);
    DivModUnique(q, n, j, t);
  }

  /** Arithmetic of the strided order (vector size 1), x = t + j*n*vs + i. */
  lemma StridedSlot(t: int, j: int, i: int, n: nat, steps: nat, vs: nat)
    requires n >= 1 && vs == 1
    requires 0 <= t < n && 0 <= j < steps / vs && 0 <= i < vs
    ensures 0 <= t + j * n * vs + i < n * steps
    ensures ((t + j * n * vs + i) / vs) % n == t
    ensures ((t + j * n * vs + i) / vs) / n == j
    ensures (t + j * n * vs + i) % vs == i
  {
    StridedLinearSlot(t, j, i, n, steps, vs);
  }

  /** Arithmetic of the linear order, x = t*steps + j*1*vs + i. */
  lemma LinearSlot(t: int, j: int, i: int, n: nat, steps: nat, vs: nat)
    requires n >= 1 && vs >= 1 && steps >= 1 && steps % vs == 0
    requires 0 <= t < n && 0 <= j < steps / vs && 0 <= i < vs
    ensures 0 <= t * steps + j * 1 * vs + i < n * steps
    ensures (t * steps + j * 1 * vs + i) / steps == t
    ensures ((t * steps + j * 1 * vs + i) % steps) / vs == j
    ensures ((t * steps + j * 1 * vs + i) % steps) % vs == i
  {
    var m := steps / vs;
    var r := j * vs + i;
    MulAddBound(j, vs, i, m);
    assert r < steps by {
      assert steps == m * vs;
    }
    MulAddBound(t, steps, r, n);
    DivModUnique(t * steps + r, steps, t, r);
    DivModUnique(r, vs, j, i);
  }

  /** Splits a < n*b into quotient a / b < n and remainder a % b. */
  lemma QuotientBound(a: nat, b: nat, n: nat)
    requires b >= 1 && a < n * b
    ensures a == (a / b) * b + a % b
    ensures a / b < n
  {
    if a / b >= n {
      MulMonotone(a / b, n, b);
    }
  }

  lemma StridedLinearCover(x: int, n: nat, steps: nat, vs: nat)
    requires n >= 1 && vs >= 1 && steps % vs == 0
    requires 0 <= x < n * steps
    ensures 0 <= (x / vs) % n < n && 0 <= (x / vs) / n < steps / vs && 0 <= x % vs < vs
    ensures ((x / vs) % n) * vs + ((x / vs) / n) * n * vs + x % vs == x
  {
    var m := steps / vs;
    StepsSplit(n, steps, vs);
    QuotientBound(x, vs, m * n);
    var q := x / vs;
    QuotientBound(q, n, m);
    Recompose(q, n, vs);
  }

  lemma StepsSplit(n: nat, steps: nat, vs: nat)
    requires vs >= 1 && steps % vs == 0
    ensures n * steps == ((steps / vs) * n) * vs
  {
    var m := steps / vs;
    assert steps == m * vs;
    assert n * (m * vs) == (m * n) * vs;
  }

  lemma Recompose(q: int, n: nat, vs: nat)
    requires n >= 1
    ensures (q % n) * vs + (q / n) * n * vs == q * vs
  {
    var r, d := q % n, q / n;
    assert q == d * n + r;
    assert (d * n + r) * vs == r * vs + d * n * vs;
  }

  lemma StridedCover(x: int, n: nat, steps: nat, vs: nat)
    requires n >= 1 && vs == 1
    requires 0 <= x < n * steps
    ensures 0 <= (x / vs) % n < n && 0 <= (x / vs) / n < steps / vs && 0 <= x % vs < vs
    ensures (x / vs) % n + ((x / vs) / n) * n * vs + x % vs == x
  {
    StridedLinearCover(x, n, steps, vs);
  }

  lemma LinearCover(x: int, n: nat, steps: nat, vs: nat)
    requires n >= 1 && vs >= 1 && steps >= 1 && steps % vs == 0
    requires 0 <= x < n * steps
    ensures 0 <= x / steps < n && 0 <= (x % steps) / vs < steps / vs && 0 <= (x % steps) % vs < vs
    ensures (x / steps) * steps + ((x % steps) / vs) * 1 * vs + (x % steps) % vs == x
  {
    var m := steps / vs;
    QuotientBound(x, steps, n);
    assert x % steps < m * vs by {
      assert steps == m * vs;
    }
    QuotientBound(x % steps, vs, m);
  }

  /** Every unrolled element of every thread lands inside the tile, and is
      the only one that lands there. */
  lemma XLocationInTile(order: IndexingOrder, numThreadsX: nat, xNumSteps: nat, vectorSize: nat, s: XSlot)
    requires ValidXMapping(order, numThreadsX, xNumSteps, vectorSize)
    requires ValidSlot(numThreadsX, xNumSteps, vectorSize, s)
    ensures 0 <= XLocation(order, numThreadsX, xNumSteps, vectorSize, s) < numThreadsX * xNumSteps
    ensures XOwner(order, numThreadsX, xNumSteps, vectorSize, XLocation(order, numThreadsX, xNumSteps, vectorSize, s)) == s
  {
    match order
    case StridedX => StridedSlot(s.thread, s.step, s.lane, numThreadsX, xNumSteps, vectorSize);
    case StridedLinearX => StridedLinearSlot(s.thread, s.step, s.lane, numThreadsX, xNumSteps, vectorSize);
    case LinearX => LinearSlot(s.thread, s.step, s.lane, numThreadsX, xNumSteps, vectorSize);
  }

  /** Every position of the tile is visited by some unrolled element of
      some thread; with XLocationInTile, the threads cover [0, tile_size_x)
      exactly once. */
  lemma XOwnerCovers(order: IndexingOrder, numThreadsX: nat, xNumSteps: nat, vectorSize: nat, x: nat)
    requires ValidXMapping(order, numThreadsX, xNumSteps, vectorSize)
    requires x < numThreadsX * xNumSteps
    ensures ValidSlot(numThreadsX, xNumSteps, vectorSize, XOwner(order, numThreadsX, xNumSteps, vectorSize, x))
    ensures XLocation(order, numThreadsX, xNumSteps, vectorSize, XOwner(order, numThreadsX, xNumSteps, vectorSize, x)) == x
  {
    match order
    case StridedX => StridedCover(x, numThreadsX, xNumSteps, vectorSize);
    case StridedLinearX => StridedLinearCover(x, numThreadsX, xNumSteps, vectorSize);
    case LinearX => LinearCover(x, numThreadsX, xNumSteps, vectorSize);
  }

  /** x_tile_fits: every block along X is a full tile and rows are
      contiguous, so no x needs a bounds check. */
  predicate XTileFits(dimX: nat, tileSizeX: nat, rowContiguous: bool)
    requires tileSizeX >= 1
  {
    dimX % tileSizeX == 0 && rowContiguous
  }

  /** Whether the unrolled x loop guards each element with x < tile_width:
      the strided-linear order skips the guard on full tiles. */
  function XBoundsChecked(order: IndexingOrder, xTileFits: bool, tileSizeX: nat, tileWidth: nat): bool {
    if !xTileFits && order == StridedLinearX then tileSizeX != tileWidth else !xTileFits
  }

  predicate XEmitted(x: nat, checked: bool, tileWidth: nat) {
    !checked || x < tileWidth
  }

  /** Whichever branch the emitter takes, an element of the tile is
      emitted exactly when it lies inside the tile's X bound. */
  lemma XEmittedIffInsideTile(order: IndexingOrder, dimX: nat, tileSizeX: nat, rowContiguous: bool, blockX: nat, x: nat)
    requires tileSizeX >= 1 && blockX < CeilOfRatio(dimX, tileSizeX) && x < tileSizeX
    ensures var w := TileBound(dimX, tileSizeX, blockX);
            XEmitted(x, XBoundsChecked(order, XTileFits(dimX, tileSizeX, rowContiguous), tileSizeX, w), w) <==> x < w
  {
    if dimX % tileSizeX == 0 {
      var blocks := CeilOfRatio(dimX, tileSizeX);
      DivModUnique(blocks * tileSizeX, tileSizeX, blocks, 0);
      var k := dimX / tileSizeX;
      assert dimX == k * tileSizeX;
      if blocks > k {
        MulMonotone(blocks, k + 1, tileSizeX);
      } else if blocks < k {
        MulMonotone(k, blocks + 1, tileSizeX);
      }
      assert blocks * tileSizeX == dimX;
    }
  }

  // ---------------------------------------------------------------------
  // GetUntransposedOutputLinearAddress
  // ---------------------------------------------------------------------

  predicate IndexInside(index: seq<int>, dims: seq<nat>)
    requires |index| == |dims|
  {
    forall i :: 0 <= i < |index| ==> 0 <= index[i] < dims[i]
  }

  /** The linear address of the reduction output an input element at
      [z, y, x] contributes to: a row reduction keeps y; a column reduction
      keeps z and x, laid out row-major. */
  function UntransposedOutputLinearAddress(isRowReduction: bool, index: seq<int>, dimsInElems: seq<nat>): (r: int)
    requires |index| == 3 == |dimsInElems|
    ensures IndexInside(index, dimsInElems) ==>
              0 <= r < (if isRowReduction then dimsInElems[1] else dimsInElems[0] * dimsInElems[2])
  {
    if isRowReduction then index[1]
    else
      ColumnAddressInside(index, dimsInElems);
      index[0] * dimsInElems[2] + index[2]
  }

  lemma ColumnAddressInside(index: seq<int>, dimsInElems: seq<nat>)
    requires |index| == 3 == |dimsInElems|
    ensures IndexInside(index, dimsInElems) ==>
              0 <= index[0] * dimsInElems[2] + index[2] < dimsInElems[0] * dimsInElems[2]
  {
    if IndexInside(index, dimsInElems) {
      assert 0 <= index[0] < dimsInElems[0] && 0 <= index[2] < dimsInElems[2];
      MulAddBound(index[0], dimsInElems[2], index[2], dimsInElems[0]);
    }
  }

  /** Two input elements reduce into the same output element exactly when
      they agree on the kept coordinates. */
  lemma SameOutputIffSameKeptCoordinates(isRowReduction: bool, a: seq<int>, b: seq<int>, dimsInElems: seq<nat>)
    requires |a| == |b| == 3 == |dimsInElems|
    requires IndexInside(a, dimsInElems) && IndexInside(b, dimsInElems)
    ensures UntransposedOutputLinearAddress(isRowReduction, a, dimsInElems) == UntransposedOutputLinearAddress(isRowReduction, b, dimsInElems)
            <==> (if isRowReduction then a[1] == b[1] else a[0] == b[0] && a[2] == b[2])
  {
    if !isRowReduction {
      var addr := a[0] * dimsInElems[2] + a[2];
      if addr == b[0] * dimsInElems[2] + b[2] {
        DivModUnique(addr, dimsInElems[2], a[0], a[2]);
        DivModUnique(addr, dimsInElems[2], b[0], b[2]);
      }
    }
  }
}
