/** Launch-shape decisions of the reduction emitter: the number of threads
    per block along X and Y, the indexing order and vector size, the
    number of partial results per thread, and the warp-level tree of
    shuffle-downs that combines 32 partial results into lane 0. */
module Reduction {
  import opened Arith
  import opened Tiling

  const WarpSize: nat := 32

  /** The power of two nearest to v, ties going down; 0 for negative v.
      NextPowerOfTwo64(0) shifts by -1, so v == 0 is excluded. */
  function NearestPowerOfTwo(v: int): (r: int)
    requires v != 0
    ensures v < 0 ==> r == 0
    ensures v > 0 ==> IsPowerOfTwo(r)
  {
    if v < 0 then 0
    else
      var upper := NextPowerOfTwo(v);
      var lower := upper / 2;
      if upper - v < v - lower then upper else lower
  }

  lemma PowerOfTwoPositive(p: int)
    requires IsPowerOfTwo(p)
    ensures p >= 1
  {
  }

  /** No power of two is closer to v than NearestPowerOfTwo(v), and among
      two equally close ones the smaller is chosen. */
  lemma NearestPowerOfTwoIsNearest(v: int, p: int)
    requires v > 0 && IsPowerOfTwo(p)
    ensures var r := NearestPowerOfTwo(v);
            var dr := if r <= v then v - r else r - v;
            var dp := if p <= v then v - p else p - v;
            dr <= dp && (dr == dp && p != r ==> r < p)
  {
    var upper := NextPowerOfTwo(v);
    var lower := upper / 2;
    PowerOfTwoPositive(p);
    if upper >= 2 && lower < p < upper {
      PowerOfTwoGap(lower, p);
    }
    assert p <= lower || p >= upper;
  }

  /** The largest row-reduction block: 512 threads, divided among the
      outputs of a multi-output fusion, but never below 64. */
  function MaxRowBlockSize(fanOut: nat): (r: nat)
    requires fanOut >= 1
    ensures 64 <= r <= 512 && r % WarpSize == 0
    ensures NearestPowerOfTwo(fanOut) <= 8 ==> r * NearestPowerOfTwo(fanOut) == 512
    ensures NearestPowerOfTwo(fanOut) >= 8 ==> r == 64
  {
    var np := NearestPowerOfTwo(fanOut);
    PowerOfTwoPositive(np);
    LargeDivisorQuotient(np);
    BlockShare(np);
    var q := 512 / np;
    if q > 64 then q else 64
  }

  /** 512 threads shared by a power-of-two fan-out p: exactly 512 / p up to
      p = 8, and the floor of 64 from there on. */
  lemma BlockShare(p: int)
    requires IsPowerOfTwo(p)
    ensures p <= 8 ==> (if 512 / p > 64 then 512 / p else 64) * p == 512
    ensures p >= 8 ==> 512 / p <= 64
  {
    PowerOfTwoPositive(p);
    if p < 8 {
      SmallPowersOfTwo(p);
    } else {
      QuotientAtMost64(p);
    }
  }

  lemma QuotientAtMost64(p: int)
    requires p >= 8
    ensures 512 / p <= 64
  {
    var q := 512 / p;
    assert q * p <= 512;
    MulMonotone(p, 8, q);
  }

  /** The cap by fan-out: 512 threads for one output, 256 for two or
      three, 128 for four to six, and 64 from seven outputs on (seven and
      above round to a power of two of at least 8). */
  lemma MaxRowBlockSizeByFanOut(fanOut: nat)
    requires fanOut >= 1
    ensures MaxRowBlockSize(fanOut) ==
              if fanOut == 1 then 512
              else if fanOut <= 3 then 256
              else if fanOut <= 6 then 128
              else 64
  {
    var np := NearestPowerOfTwo(fanOut);
    if fanOut <= 6 {
      NearestSmallFanOut(fanOut);
    } else {
      assert IsPowerOfTwo(8) by {
        assert IsPowerOfTwo(2);
        assert IsPowerOfTwo(4);
      }
      NearestPowerOfTwoIsNearest(fanOut, 8);
      if np < 8 {
        SmallPowersOfTwo(np);
      }
    }
  }

  /** Fan-outs up to six round to 1, 2 or 4 (a tie rounds down). */
  lemma NearestSmallFanOut(fanOut: nat)
    requires 1 <= fanOut <= 6
    ensures NearestPowerOfTwo(fanOut) == if fanOut == 1 then 1 else if fanOut <= 3 then 2 else 4
  {
    if fanOut == 1 {
      assert Log2Ceiling(1) == 0;
    } else if fanOut == 2 {
      assert Log2Ceiling(2) == 1;
    } else if fanOut <= 4 {
      assert Log2Ceiling(2) == 1;
      assert Log2Ceiling(fanOut) == 2;
      assert Pow2(2) == 4;
    } else {
      assert Log2Ceiling(2) == 1 && Log2Ceiling(3) == 2;
      assert Log2Ceiling(fanOut) == 3;
      assert Pow2(3) == 8;
    }
  }

  /** 512 / p exceeds 64 only for the powers of two 1, 2 and 4. */
  lemma LargeDivisorQuotient(p: int)
    requires IsPowerOfTwo(p)
    ensures 512 / p > 64 ==> 512 / p == 512 || 512 / p == 256 || 512 / p == 128
  {
    PowerOfTwoPositive(p);
    if p >= 8 {
      QuotientAtMost64(p);
    } else {
      SmallPowersOfTwo(p);
    }
  }

  lemma SmallPowersOfTwo(p: int)
    requires IsPowerOfTwo(p) && p < 8
    ensures p == 1 || p == 2 || p == 4
  {
    if p != 1 {
      assert IsPowerOfTwo(p / 2);
      if p / 2 != 1 {
        assert IsPowerOfTwo(p / 4);
      }
    }
  }

  datatype ReductionDimensions = ReductionDimensions(isRowReduction: bool, dimensions: seq<nat>)

  /** What the emitter consults besides the reduction dimensions: the tile
      sizes GetReductionTiling picked, the fusion's fan-out (the root's
      operand count for a multi-output fusion, otherwise 1), the smallest
      input element width in bits, the compute capability major version (0
      when unknown), and the verdicts of IsUnrollingColumnReductionBeneficial
      and MayPreventVectorization, which are not part of this model. */
  datatype ReductionContext = ReductionContext(
    tiling: seq<nat>,
    fanOut: nat,
    smallestInputBits: nat,
    ccMajor: int,
    unrollingColumnReductionBeneficial: bool,
    mayPreventVectorization: bool)

  datatype MappingScheme = MappingScheme(
    dimsInElems: seq<nat>,
    tileSizes: seq<nat>,
    numThreadsY: nat,
    numThreadsX: nat,
    order: IndexingOrder,
    vectorSize: nat)

  datatype ReductionCodegenInfo = ReductionCodegenInfo(scheme: MappingScheme, numPartialResults: nat, isRowReduction: bool)

  predicate WellFormedInputs(rd: ReductionDimensions, ctx: ReductionContext) {
    && |rd.dimensions| == 3
    && |ctx.tiling| == 3
    && (forall i :: 0 <= i < 3 ==> ctx.tiling[i] >= 1)
    && ctx.fanOut >= 1
    // tile_fit divides by the row thread count, which is 0 for an empty row
    && (rd.isRowReduction ==> rd.dimensions[2] >= 1)
  }

  /** Threads per block along X: for a row reduction, enough warps to
      cover the row's tiles, capped by the block size; a warp otherwise. */
  function NumThreadsX(rd: ReductionDimensions, ctx: ReductionContext): (r: nat)
    requires WellFormedInputs(rd, ctx)
    ensures !rd.isRowReduction ==> r == WarpSize
    ensures rd.isRowReduction ==> r <= MaxRowBlockSize(ctx.fanOut) && r % WarpSize == 0
    ensures rd.isRowReduction && rd.dimensions[2] >= 1 ==> r >= WarpSize
  {
    if rd.isRowReduction then
      var c := CeilOfRatio(rd.dimensions[2], ctx.tiling[2]);
      var cover := RoundUpToNearest(c, WarpSize);
      var cap := MaxRowBlockSize(ctx.fanOut);
      if cap < cover then cap else cover
    else WarpSize
  }

  /** Below the cap, the row threads' tiles cover the reduced dimension. */
  lemma RowThreadsCoverBelowCap(rd: ReductionDimensions, ctx: ReductionContext)
    requires WellFormedInputs(rd, ctx) && rd.isRowReduction
    ensures NumThreadsX(rd, ctx) < MaxRowBlockSize(ctx.fanOut) ==>
              NumThreadsX(rd, ctx) * ctx.tiling[2] >= rd.dimensions[2]
  {
    var c := CeilOfRatio(rd.dimensions[2], ctx.tiling[2]);
    var cover := RoundUpToNearest(c, WarpSize);
    MulMonotone(cover, c, ctx.tiling[2]);
  }

  /** No multiple of the warp size whose tiles cover the row is smaller
      than the row thread count, and the count covers the row unless it is
      the cap: with NumThreadsX's contract this pins the count to the lesser
      of the cap and the least covering multiple of 32. */
  lemma RowThreadsLeastCover(rd: ReductionDimensions, ctx: ReductionContext, m: nat)
    requires WellFormedInputs(rd, ctx) && rd.isRowReduction
    requires m % WarpSize == 0 && m * ctx.tiling[2] >= rd.dimensions[2]
    ensures NumThreadsX(rd, ctx) <= m
    ensures NumThreadsX(rd, ctx) * ctx.tiling[2] >= rd.dimensions[2]
            || NumThreadsX(rd, ctx) == MaxRowBlockSize(ctx.fanOut)
  {
    var t := ctx.tiling[2];
    var c := CeilOfRatio(rd.dimensions[2], t);
    var cover := RoundUpToNearest(c, WarpSize);
    if m < c {
      MulMonotone(c - 1, m, t);
    }
    assert m >= c;
    if m < cover {
      DivModUnique(m, WarpSize, m / WarpSize, 0);
      DivModUnique(cover, WarpSize, cover / WarpSize, 0);
      MulMonotone(cover / WarpSize - 1, m / WarpSize, WarpSize);
    }
    MulMonotone(cover, c, t);
  }

  /** The P100 (major 6) and V100+ (major >= 7) conditions under which a
      row reduction tries the vectorizable strided-linear order. */
  predicate TriesStridedLinear(rd: ReductionDimensions, ctx: ReductionContext)
    requires WellFormedInputs(rd, ctx)
  {
    var tileFit := rd.dimensions[2] % (ctx.tiling[2] * NumThreadsX(rd, ctx)) == 0;
    && rd.isRowReduction
    && ((ctx.ccMajor == 6 && ctx.smallestInputBits <= 32 && tileFit)
        || (ctx.ccMajor >= 7 && rd.dimensions[2] % 2 == 0))
  }

  /** The indexing order: strided-linear is tried first and kept only when
      the minor extent is even and vectorization is not prevented (plain
      strided otherwise); a column reduction that benefits from unrolling
      gets the linear order; everything else is strided. */
  function ChooseOrder(triesStridedLinear: bool, isRowReduction: bool, unrollingBeneficial: bool,
                       evenMinor: bool, mayPreventVectorization: bool): (o: IndexingOrder)
    requires triesStridedLinear ==> isRowReduction
    ensures o == StridedLinearX <==> triesStridedLinear && evenMinor && !mayPreventVectorization
    ensures o == LinearX <==> !isRowReduction && unrollingBeneficial
  {
    var order0 :=
      if triesStridedLinear then StridedLinearX
      else if !isRowReduction && unrollingBeneficial then LinearX
      else StridedX;
    var vectorize := order0 == StridedLinearX && evenMinor && !mayPreventVectorization;
    if order0 == StridedLinearX && !vectorize then StridedX else order0
  }

  /** ComputeReductionCodegenInfo, given GetReductionTiling's choice. */
  function ComputeReductionCodegenInfo(rd: ReductionDimensions, ctx: ReductionContext): (r: ReductionCodegenInfo)
    requires WellFormedInputs(rd, ctx)
    ensures r.isRowReduction == rd.isRowReduction
    ensures r.scheme.dimsInElems == rd.dimensions
    ensures r.scheme.numThreadsY == (if rd.isRowReduction then 1 else WarpSize)
    ensures r.scheme.numThreadsX == NumThreadsX(rd, ctx)
    ensures r.scheme.order == StridedLinearX <==>
              TriesStridedLinear(rd, ctx) && rd.dimensions[2] % 2 == 0 && !ctx.mayPreventVectorization
    ensures r.scheme.order == LinearX <==> !rd.isRowReduction && ctx.unrollingColumnReductionBeneficial
    ensures r.scheme.vectorSize == (if r.scheme.order == StridedLinearX then 2 else 1)
    ensures r.numPartialResults == (if r.scheme.order == LinearX then 2 else 1)
    ensures r.scheme.tileSizes == [ctx.tiling[0], ctx.tiling[1] * r.scheme.numThreadsY,
                                   ctx.tiling[2] * r.numPartialResults * r.scheme.numThreadsX]
  {
    var nty := if rd.isRowReduction then 1 else WarpSize;
    var ntx := NumThreadsX(rd, ctx);
    var order := ChooseOrder(TriesStridedLinear(rd, ctx), rd.isRowReduction, ctx.unrollingColumnReductionBeneficial,
                             rd.dimensions[2] % 2 == 0, ctx.mayPreventVectorization);
    var npr := if order == LinearX then 2 else 1;
    var vs := if order == StridedLinearX then 2 else 1;
    MulMonotone(ctx.tiling[1], 0, nty);
    MulMonotone(ctx.tiling[2], 0, npr);
    MulMonotone(ctx.tiling[2] * npr, 0, ntx);
    var tileY: nat := ctx.tiling[1] * nty;
    var tileX: nat := (ctx.tiling[2] * npr) * ntx;
    ReductionCodegenInfo(
      MappingScheme(rd.dimensions, [ctx.tiling[0], tileY, tileX], nty, ntx, order, vs),
      npr, rd.isRowReduction)
  }

  /** The scheme always satisfies the conditions under which the threads of
      a block cover the X extent of a tile exactly once (XLocationInTile and
      XOwnerCovers), provided the vectorized order gets an even X tiling. */
  lemma ReductionSchemeCoversTile(rd: ReductionDimensions, ctx: ReductionContext)
    requires WellFormedInputs(rd, ctx)
    requires ComputeReductionCodegenInfo(rd, ctx).scheme.order == StridedLinearX ==> ctx.tiling[2] % 2 == 0
    ensures var s := ComputeReductionCodegenInfo(rd, ctx).scheme;
            && s.numThreadsX >= 1
            && s.tileSizes[2] == s.numThreadsX * (s.tileSizes[2] / s.numThreadsX)
            && ValidXMapping(s.order, s.numThreadsX, s.tileSizes[2] / s.numThreadsX, s.vectorSize)
  {
    var info := ComputeReductionCodegenInfo(rd, ctx);
    var s := info.scheme;
    var steps := ctx.tiling[2] * info.numPartialResults;
    assert s.tileSizes[2] == steps * s.numThreadsX;
    MultipleModZero(steps, s.numThreadsX);
    if s.order == StridedLinearX {
      var h := ctx.tiling[2] / 2;
      assert steps == h * 2;
      MultipleModZero(h, 2);
    }
  }

  // ---------------------------------------------------------------------
  // Warp shuffle-down reduction (EmitFullWarpShuffleDownLoopForReduce)
  // ---------------------------------------------------------------------

  /** Each lane's partial result is represented by the multiset of lanes
      whose initial values it has combined; the reducer is taken to be
      associative and commutative, as the emitter assumes. */

  /** One round: every lane combines its value with that of the lane
      `distance` above it; a lane whose partner lies outside the warp gets
      its own value back from shfl.down. */
  function ShuffleDown(lanes: seq<multiset<nat>>, distance: nat): (r: seq<multiset<nat>>)
    requires |lanes| == WarpSize
    ensures |r| == WarpSize
  {
    seq(WarpSize, l requires 0 <= l < WarpSize =>
      lanes[l] + (if l + distance < WarpSize then lanes[l + distance] else lanes[l]))
  }

  /** for (distance = d; distance >= 1; distance /= 2). */
  function ShuffleDownLoop(lanes: seq<multiset<nat>>, distance: nat): (r: seq<multiset<nat>>)
    requires |lanes| == WarpSize
    ensures |r| == WarpSize
    decreases distance
  {
    if distance < 1 then lanes else ShuffleDownLoop(ShuffleDown(lanes, distance), distance / 2)
  }

  /** The lanes x of the warp with x % m == l. */
  function Residues(l: nat, m: nat): multiset<nat>
    requires m >= 1
  {
    multiset(set x: nat | x < WarpSize && x % m == l)
  }

  lemma ModOfDouble(x: nat, m: nat)
    requires m >= 1
    ensures x % (2 * m) < m ==> x % m == x % (2 * m)
    ensures x % (2 * m) >= m ==> x % m == x % (2 * m) - m
  {
    var q := x / (2 * m);
    var r := x % (2 * m);
    assert x == q * (2 * m) + r;
    if r < m {
      DivModUnique(x, m, 2 * q, r);
    } else {
      DivModUnique(x, m, 2 * q + 1, r - m);
    }
  }

  /** The lanes congruent to l modulo m are those congruent to l or to
      l + m modulo 2m, and no lane is both. */
  lemma ResidueSplit(l: nat, m: nat)
    requires 1 <= m && l < m
    ensures Residues(l, m) == Residues(l, 2 * m) + Residues(l + m, 2 * m)
  {
    var a := set x: nat | x < WarpSize && x % (2 * m) == l;
    var b := set x: nat | x < WarpSize && x % (2 * m) == l + m;
    var c := set x: nat | x < WarpSize && x % m == l;
    forall x: nat ensures x in c <==> x in a || x in b {
      ModOfDouble(x, m);
    }
    assert c == a + b;
    assert a !! b;
    assert multiset(c) == multiset(a) + multiset(b);
  }

  /** If lanes below 2d hold their residues modulo 2d, the rounds at
      d, d/2, ..., 1 leave lane 0 holding every lane of the warp once. */
  lemma {:induction false} ShuffleDownLoopGathers(lanes: seq<multiset<nat>>, d: nat)
    requires |lanes| == WarpSize
    requires IsPowerOfTwo(d) && d <= 16
    requires forall l :: 0 <= l < 2 * d ==> lanes[l] == Residues(l, 2 * d)
    ensures ShuffleDownLoop(lanes, d)[0] == Residues(0, 1)
    decreases d
  {
    var next := ShuffleDown(lanes, d);
    forall l | 0 <= l < d ensures next[l] == Residues(l, d) {
      ResidueSplit(l, d);
    }
    if d == 1 {
      assert ShuffleDownLoop(lanes, d) == ShuffleDownLoop(next, 0) == next;
    } else {
      assert 2 * (d / 2) == d;
      ShuffleDownLoopGathers(next, d / 2);
    }
  }

  /** Starting from lanes that hold only their own value, the rounds at
      distances 16, 8, 4, 2, 1 leave lane 0 having combined the partial
      result of every lane of the warp exactly once. */
  lemma WarpReduceGathersAllLanes(init: seq<multiset<nat>>)
    requires |init| == WarpSize
    requires forall l :: 0 <= l < WarpSize ==> init[l] == multiset{l}
    ensures forall x: nat :: ShuffleDownLoop(init, 16)[0][x] == (if x < WarpSize then 1 else 0)
  {
    forall l | 0 <= l < 32 ensures init[l] == Residues(l, 32) {
      var s := set x: nat | x < WarpSize && x % 32 == l;
      forall x: nat ensures x in s <==> x == l {
        if x < WarpSize {
          DivModUnique(x, 32, 0, x);
        }
      }
      assert s == {l};
    }
    assert IsPowerOfTwo(16) by {
      assert IsPowerOfTwo(2);
      assert IsPowerOfTwo(4);
      assert IsPowerOfTwo(8);
    }
    ShuffleDownLoopGathers(init, 16);
    var all := set x: nat | x < WarpSize && x % 1 == 0;
    var gathered: multiset<nat> := multiset(all);
    assert ShuffleDownLoop(init, 16)[0] == gathered;
    forall x: nat ensures gathered[x] == (if x < WarpSize then 1 else 0) {
      assert x % 1 == 0;
      assert x in all <==> x < WarpSize;
    }
  }
}
