/** The two small per-kernel decisions made before emission: the width of
    the index type (GetIndexTypeForKernel) and the largest unroll factor
    (ComputeMaxUnrollFactor). */
module IndexType {
  import opened Wrappers
  import opened Arith

  /** An XLA shape: an array with its extents, or a tuple of shapes. */
  datatype Shape = Array(dims: seq<nat>) | Tuple(elements: seq<Shape>)

  /** shape_in_range: every array subshape's element count fits int32. */
  predicate ShapeInRange(s: Shape) {
    match s
    case Array(dims) => IsInt32(Product(dims))
    case Tuple(elements) => forall e :: e in elements ==> ShapeInRange(e)
  }

  /** ShapeUtil::GetSubshape, reporting an index that leaves the shape. */
  function Subshape(s: Shape, index: seq<nat>): Option<Shape>
    decreases |index|
  {
    if |index| == 0 then Some(s)
    else match s
      case Array(_) => None
      case Tuple(elements) =>
        if index[0] < |elements| then Subshape(elements[index[0]], index[1..]) else None
  }

  /** An array subshape of an in-range shape is in range. */
  lemma {:induction false} InRangeSubshape(s: Shape, index: seq<nat>, d: seq<nat>)
    requires ShapeInRange(s) && Subshape(s, index) == Some(Array(d))
    ensures IsInt32(Product(d))
    decreases |index|
  {
    if |index| > 0 {
      var e := s.elements[index[0]];
      assert e in s.elements;
      InRangeSubshape(e, index[1..], d);
    }
  }

  /** An out-of-range shape has an array subshape whose element count
      leaves int32. */
  lemma {:induction false} OutOfRangeWitness(s: Shape) returns (index: seq<nat>, d: seq<nat>)
    requires !ShapeInRange(s)
    ensures Subshape(s, index) == Some(Array(d)) && !IsInt32(Product(d))
  {
    match s
    case Array(dims) =>
      index, d := [], dims;
    case Tuple(elements) =>
      var e :| e in elements && !ShapeInRange(e);
      var i :| 0 <= i < |elements| && elements[i] == e;
      var rest;
      rest, d := OutOfRangeWitness(e);
      index := [i] + rest;
      assert index[1..] == rest;
  }

  /** The ForEachSubshape formulation: the shape is in range exactly when no
      array subshape, at any index, has an element count outside int32. */
  lemma ShapeInRangeIffEverySubshape(s: Shape)
    ensures ShapeInRange(s) <==>
              forall index, d :: Subshape(s, index) == Some(Array(d)) ==> IsInt32(Product(d))
  {
    if ShapeInRange(s) {
      forall index, d | Subshape(s, index) == Some(Array(d)) ensures IsInt32(Product(d)) {
        InRangeSubshape(s, index, d);
      }
    } else {
      var index, d := OutOfRangeWitness(s);
    }
  }

  /** The instruction a kernel is generated for, as far as the index width
      depends on it. */
  datatype Unnested = Unnested(shape: Shape, operandShapes: seq<Shape>, isFusion: bool, fusedShapes: seq<Shape>)

  /** An instruction inside a fusion computation is emitted as part of the
      fusion instruction's kernel. */
  datatype Hlo = Hlo(self: Unnested, enclosingFusion: Option<Unnested>)

  function UnnestedHlo(h: Hlo): Unnested {
    if h.enclosingFusion.Some? then h.enclosingFusion.value else h.self
  }

  /** Every shape whose element counts bound the kernel's indices: the
      result, the operands and, for a fusion, every fused instruction. */
  function KernelShapes(u: Unnested): seq<Shape> {
    [u.shape] + u.operandShapes + (if u.isFusion then u.fusedShapes else [])
  }

  /** GetIndexTypeForKernel: 32-bit when the launch size and every tensor
      of the kernel fit int32, 64-bit as soon as one of them does not. */
  function GetIndexTypeForKernel(h: Hlo, launchSize: int): (w: IndexWidth)
    ensures w == Index32 <==>
              && IsInt32(launchSize)
              && forall s :: s in KernelShapes(UnnestedHlo(h)) ==> ShapeInRange(s)
  {
    var u := UnnestedHlo(h);
    var shapes := KernelShapes(u);
    if !IsInt32(launchSize) then Index64
    else if !ShapeInRange(u.shape) then
      assert shapes[0] == u.shape && shapes[0] in shapes;
      Index64
    else if exists s :: s in u.operandShapes && !ShapeInRange(s) then
      assert forall s :: s in u.operandShapes ==> s in shapes;
      Index64
    else if u.isFusion && exists s :: s in u.fusedShapes && !ShapeInRange(s) then
      assert forall s :: s in u.fusedShapes ==> s in shapes;
      Index64
    else
      assert forall s :: s in shapes ==> s == u.shape || s in u.operandShapes || (u.isFusion && s in u.fusedShapes);
      Index32
  }

  /** One array subshape anywhere in the kernel whose element count leaves
      int32 forces 64-bit indices. */
  lemma OneOverflowForces64(h: Hlo, launchSize: int, k: nat, index: seq<nat>, dims: seq<nat>)
    requires k < |KernelShapes(UnnestedHlo(h))|
    requires Subshape(KernelShapes(UnnestedHlo(h))[k], index) == Some(Array(dims))
    requires !IsInt32(Product(dims))
    ensures GetIndexTypeForKernel(h, launchSize) == Index64
  {
    ShapeInRangeIffEverySubshape(KernelShapes(UnnestedHlo(h))[k]);
  }

  /** The launch-size boundary: 2^31 - 1 threads still use 32-bit indices,
      2^31 do not. */
  lemma LaunchSizeBoundary(h: Hlo)
    requires forall s :: s in KernelShapes(UnnestedHlo(h)) ==> ShapeInRange(s)
    ensures GetIndexTypeForKernel(h, 0x7fff_ffff) == Index32
    ensures GetIndexTypeForKernel(h, 0x8000_0000) == Index64
  {
  }

  // ---------------------------------------------------------------------
  // Unroll factor
  // ---------------------------------------------------------------------

  /** The k-th candidate of the unroll loop: max halved k times. */
  function Halved(max: int, k: nat): int {
    if k == 0 then max else Halved(max, k - 1) / 2
  }

  /** v is one of max, max/2, max/4, ... */
  ghost predicate IsCandidate(max: int, v: int) {
    exists j: nat :: Halved(max, j) == v
  }

  /** Try the candidates from Halved(max, k) on while they exceed 1. */
  function UnrollFrom(numElements: nat, max: int, k: nat): (r: int)
    ensures r >= 1
    ensures r == 1 || (numElements % r == 0 && IsCandidate(max, r))
    ensures forall j: nat :: k <= j && Halved(max, j) > r ==> numElements % Halved(max, j) != 0
    decreases if Halved(max, k) > 1 then Halved(max, k) else 0
  {
    var i := Halved(max, k);
    if i <= 1 then
      assert forall j: nat :: k <= j ==> Halved(max, j) <= 1 by {
        forall j | k <= j ensures Halved(max, j) <= 1 { HalvedStaysAtMostOne(max, k, j); }
      }
      1
    else if numElements % i == 0 then
      assert forall j: nat :: k <= j && Halved(max, j) > i ==> j == k by {
        forall j | k <= j && j != k ensures Halved(max, j) <= i { HalvedDecreases(max, k, j); }
      }
      assert Halved(max, k) == i;
      i
    else
      UnrollFrom(numElements, max, k + 1)
  }

  lemma {:induction false} HalvedStaysAtMostOne(max: int, k: nat, j: nat)
    requires k <= j && Halved(max, k) <= 1
    ensures Halved(max, j) <= 1
    decreases j - k
  {
    if j > k {
      HalvedStaysAtMostOne(max, k, j - 1);
    }
  }

  lemma {:induction false} HalvedDecreases(max: int, k: nat, j: nat)
    requires k < j && Halved(max, k) > 1
    ensures Halved(max, j) < Halved(max, k)
    decreases j - k
  {
    if j > k + 1 {
      HalvedDecreases(max, k, j - 1);
      if Halved(max, j - 1) > 1 { } else { }
    }
  }

  /** ComputeMaxUnrollFactor: the first of max, max/2, max/4, ... above 1
      that divides the element count, or 1 when none does. */
  function ComputeMaxUnrollFactor(numElements: nat, max: int): (r: int)
    ensures r >= 1
    ensures r > 1 ==> numElements % r == 0 && IsCandidate(max, r)
    ensures forall j: nat :: Halved(max, j) > r ==> numElements % Halved(max, j) != 0
  {
    UnrollFrom(numElements, max, 0)
  }

  /** With a power-of-two maximum the factor is a power of two not above
      the maximum. */
  lemma UnrollFactorIsPowerOfTwo(numElements: nat, m: nat)
    ensures IsPowerOfTwo(ComputeMaxUnrollFactor(numElements, Pow2(m)))
    ensures ComputeMaxUnrollFactor(numElements, Pow2(m)) <= Pow2(m)
  {
    var r := ComputeMaxUnrollFactor(numElements, Pow2(m));
    if r > 1 {
      var j: nat :| Halved(Pow2(m), j) == r;
      if j <= m {
        HalvedPow2(m, j);
        Pow2IsPowerOfTwo(m - j);
        Pow2Monotone(m - j, m);
      } else {
        HalvedPow2(m, m);
        HalvedStaysAtMostOne(Pow2(m), m, j);
      }
    } else {
      Pow2IsPowerOfTwo(0);
      Pow2Monotone(0, m);
    }
  }

  /** With a power-of-two maximum no power of two above the factor and up
      to the maximum divides the element count. */
  lemma UnrollFactorIsLargest(numElements: nat, m: nat, p: nat)
    requires p <= m
    requires Pow2(p) > ComputeMaxUnrollFactor(numElements, Pow2(m))
    ensures numElements % Pow2(p) != 0
  {
    HalvedPow2(m, m - p);
  }

  lemma {:induction false} HalvedPow2(m: nat, k: nat)
    requires k <= m
    ensures Halved(Pow2(m), k) == Pow2(m - k)
  {
    if k > 0 {
      HalvedPow2(m, k - 1);
      assert Pow2(m - k + 1) == 2 * Pow2(m - k);
    }
  }

  /** The unroll factor of an instruction: a multi-output fusion unrolls by
      the element count of its first output, any other instruction by that
      of its own shape; the factor is the largest candidate dividing it. */
  function MaxUnrollFactorForHlo(shape: Shape, isMultiOutputFusion: bool, max: int): (r: int)
    requires isMultiOutputFusion ==> shape.Tuple? && |shape.elements| > 0 && shape.elements[0].Array?
    requires !isMultiOutputFusion ==> shape.Array?
    ensures r >= 1
    ensures var element := if isMultiOutputFusion then shape.elements[0] else shape;
            r > 1 ==> Product(element.dims) % r == 0 && IsCandidate(max, r)
    ensures var element := if isMultiOutputFusion then shape.elements[0] else shape;
            forall j: nat :: Halved(max, j) > r ==> Product(element.dims) % Halved(max, j) != 0
  {
    var element := if isMultiOutputFusion then shape.elements[0] else shape;
    ComputeMaxUnrollFactor(Product(element.dims), max)
  }
}
