/** Index resolution of the scatter emitter: one update coordinate is split
    into window and scatter axes, the elided operand axes are re-inserted,
    the scatter indices are loaded and added into their operand axes, and
    the write happens only if every loaded index keeps the window inside
    the operand. */
module Scatter {
  import opened Wrappers
  import opened Arith

  datatype ScatterDimensionNumbers = ScatterDimensionNumbers(
    updateWindowDims: seq<nat>,
    insertedWindowDims: seq<nat>,
    scatterDimsToOperandDims: seq<nat>,
    indexVectorDim: nat)

  /** The dimension lists are kept sorted, so the emitter's binary search
      over them is plain membership. */
  predicate StrictlyIncreasing(s: seq<nat>) {
    forall i, j :: 0 <= i < j < |s| ==> s[i] < s[j]
  }

  /** How many of the positions 0 .. n-1 are listed in dims. */
  function CountIn(n: nat, dims: seq<nat>): (c: nat)
    ensures c <= n
  {
    if n == 0 then 0 else CountIn(n - 1, dims) + (if n - 1 in dims then 1 else 0)
  }

  /** For a sorted list, its first CountIn(n, dims) entries are exactly the
      entries below n. */
  lemma {:induction false} CountInRank(n: nat, dims: seq<nat>)
    requires StrictlyIncreasing(dims)
    ensures CountIn(n, dims) <= |dims|
    ensures forall k :: 0 <= k < |dims| ==> (k < CountIn(n, dims) <==> dims[k] < n)
  {
    if n > 0 {
      CountInRank(n - 1, dims);
      var c := CountIn(n - 1, dims);
      if n - 1 in dims {
        var p :| 0 <= p < |dims| && dims[p] == n - 1;
        if p > 0 {
          assert dims[p - 1] < dims[p];
        }
        assert p == c;
      }
    }
  }

  /** Every listed axis below the rank is counted once. */
  lemma CountInAll(rank: nat, dims: seq<nat>)
    requires StrictlyIncreasing(dims)
    requires forall k :: 0 <= k < |dims| ==> dims[k] < rank
    ensures CountIn(rank, dims) == |dims|
  {
    CountInRank(rank, dims);
    if |dims| > 0 {
      assert dims[|dims| - 1] < rank;
    }
  }

  lemma {:induction false} CountInStep(n: nat, m: nat, dims: seq<nat>)
    requires n <= m
    ensures CountIn(n, dims) <= CountIn(m, dims)
    ensures n - CountIn(n, dims) <= m - CountIn(m, dims)
  {
    if n < m {
      CountInStep(n, m - 1, dims);
    }
  }

  /** An update coordinate split into its window part (with the update
      extents of those axes) and its scatter part. */
  datatype UpdatePartition = UpdatePartition(window: seq<int>, windowBounds: seq<nat>, scatter: seq<int>)

  function PartitionPrefix(index: seq<int>, updateDims: seq<nat>, uwd: seq<nat>, n: nat): (p: UpdatePartition)
    requires |index| == |updateDims| && n <= |index|
    ensures |p.window| == |p.windowBounds| == CountIn(n, uwd)
    ensures |p.window| + |p.scatter| == n
  {
    if n == 0 then UpdatePartition([], [], [])
    else
      var p := PartitionPrefix(index, updateDims, uwd, n - 1);
      if n - 1 in uwd then UpdatePartition(p.window + [index[n - 1]], p.windowBounds + [updateDims[n - 1]], p.scatter)
      else UpdatePartition(p.window, p.windowBounds, p.scatter + [index[n - 1]])
  }

  /** Axes listed in update_window_dims go to the window part, in order;
      the others go to the scatter part. */
  function PartitionUpdateIndex(index: seq<int>, updateDims: seq<nat>, uwd: seq<nat>): (p: UpdatePartition)
    requires |index| == |updateDims|
    ensures |p.window| == |p.windowBounds| == CountIn(|index|, uwd)
    ensures |p.window| + |p.scatter| == |index|
  {
    PartitionPrefix(index, updateDims, uwd, |index|)
  }

  /** The k-th window coordinate is the coordinate of the k-th window axis,
      and there are exactly as many as update_window_dims lists. */
  lemma {:induction false} PartitionContents(index: seq<int>, updateDims: seq<nat>, uwd: seq<nat>, n: nat)
    requires |index| == |updateDims| && n <= |index|
    requires StrictlyIncreasing(uwd)
    ensures var p := PartitionPrefix(index, updateDims, uwd, n);
            forall k :: 0 <= k < |uwd| && uwd[k] < n ==>
              k < |p.window| && p.window[k] == index[uwd[k]] && p.windowBounds[k] == updateDims[uwd[k]]
  {
    if n > 0 {
      PartitionContents(index, updateDims, uwd, n - 1);
      CountInRank(n - 1, uwd);
      CountInRank(n, uwd);
    }
  }

  lemma WindowCoordinateCount(index: seq<int>, updateDims: seq<nat>, uwd: seq<nat>)
    requires |index| == |updateDims|
    requires StrictlyIncreasing(uwd)
    requires forall k :: 0 <= k < |uwd| ==> uwd[k] < |index|
    ensures |PartitionUpdateIndex(index, updateDims, uwd).window| == |uwd|
    ensures forall k :: 0 <= k < |uwd| ==>
              PartitionUpdateIndex(index, updateDims, uwd).window[k] == index[uwd[k]]
  {
    CountInAll(|index|, uwd);
    PartitionContents(index, updateDims, uwd, |index|);
  }

  /** The window coordinates laid out over the operand's axes. */
  datatype OperandWindow = OperandWindow(coords: seq<int>, bounds: seq<nat>)

  /** Operand axes listed in inserted_window_dims get the trivial
      coordinate 0 with extent 1; the others take the window coordinates
      in order. */
  function InsertElidedAxes(raw: seq<int>, rawBounds: seq<nat>, inserted: seq<nat>, n: nat): (w: OperandWindow)
    requires |raw| == |rawBounds| >= n - CountIn(n, inserted)
    ensures |w.coords| == |w.bounds| == n
  {
    if n == 0 then OperandWindow([], [])
    else
      CountInStep(n - 1, n, inserted);
      var w := InsertElidedAxes(raw, rawBounds, inserted, n - 1);
      if n - 1 in inserted then OperandWindow(w.coords + [0], w.bounds + [1])
      else
        var k := n - 1 - CountIn(n - 1, inserted);
        OperandWindow(w.coords + [raw[k]], w.bounds + [rawBounds[k]])
  }

  /** Axis i of the operand window is placed as the emitter places it: an
      inserted axis holds coordinate 0 with extent 1, and the i-th axis
      that is not inserted holds window coordinate number i - CountIn(i). */
  predicate AxisPlaced(w: OperandWindow, raw: seq<int>, rawBounds: seq<nat>, inserted: seq<nat>, i: nat)
    requires i < |w.coords| == |w.bounds|
  {
    && (i in inserted ==> w.coords[i] == 0 && w.bounds[i] == 1)
    && (i !in inserted ==>
          && i - CountIn(i, inserted) < |raw| == |rawBounds|
          && w.coords[i] == raw[i - CountIn(i, inserted)]
          && w.bounds[i] == rawBounds[i - CountIn(i, inserted)])
  }

  lemma {:induction false} InsertedAxisAt(raw: seq<int>, rawBounds: seq<nat>, inserted: seq<nat>, n: nat, i: nat)
    requires |raw| == |rawBounds| >= n - CountIn(n, inserted)
    requires i < n
    ensures AxisPlaced(InsertElidedAxes(raw, rawBounds, inserted, n), raw, rawBounds, inserted, i)
  {
    CountInStep(n - 1, n, inserted);
    if i < n - 1 {
      InsertedAxisAt(raw, rawBounds, inserted, n - 1, i);
      var w := InsertElidedAxes(raw, rawBounds, inserted, n - 1);
      var w' := InsertElidedAxes(raw, rawBounds, inserted, n);
      assert w'.coords[i] == w.coords[i] && w'.bounds[i] == w.bounds[i];
    }
  }

  lemma InsertedAxesContents(raw: seq<int>, rawBounds: seq<nat>, inserted: seq<nat>, n: nat)
    requires |raw| == |rawBounds| >= n - CountIn(n, inserted)
    ensures forall i :: 0 <= i < n ==>
              AxisPlaced(InsertElidedAxes(raw, rawBounds, inserted, n), raw, rawBounds, inserted, i)
  {
    forall i | 0 <= i < n {
      InsertedAxisAt(raw, rawBounds, inserted, n, i);
    }
  }

  /** The coordinate into the scatter indices that holds component c of
      the index vector: the scatter coordinates with c put in at
      index_vector_dim. */
  function IndexVectorLookup(scatterCoords: seq<int>, indexVectorDim: nat, c: nat): (r: seq<int>)
    requires indexVectorDim <= |scatterCoords|
    ensures |r| == |scatterCoords| + 1
    ensures r[indexVectorDim] == c
    ensures r[..indexVectorDim] + r[indexVectorDim + 1..] == scatterCoords
  {
    var r := scatterCoords[..indexVectorDim] + [c] + scatterCoords[indexVectorDim..];
    assert r[indexVectorDim + 1..] == scatterCoords[indexVectorDim..];
    r
  }

  /** The loaded index components, one per scatter_dims_to_operand_dims
      entry. load gives the element stored at a coordinate of the scatter
      indices array as any integer with the element's bits (its unsigned
      and its signed reading alike); the emitter's cast treats the bits as
      signed at the element's width e, so an unsigned 8-bit 200 is -56. */
  function LoadIndexVector(load: seq<int> -> int, e: ElementWidth, scatterCoords: seq<int>, indexVectorDim: nat,
                           count: nat): (r: seq<int>)
    requires indexVectorDim <= |scatterCoords|
    ensures |r| == count
    ensures forall c :: 0 <= c < count ==>
              r[c] == AsSignedElement(load(IndexVectorLookup(scatterCoords, indexVectorDim, c)), e)
  {
    seq(count, c requires 0 <= c < count => AsSignedElement(load(IndexVectorLookup(scatterCoords, indexVectorDim, c)), e))
  }

  /** Largest in-bounds index plus one along an operand axis:
      operand extent - window extent + 1. */
  function MaxIndex(operandDims: seq<nat>, window: OperandWindow, d: nat): int
    requires d < |operandDims| && |window.bounds| == |operandDims|
  {
    operandDims[d] as int - window.bounds[d] as int + 1
  }

  /** The sum of the loaded components (after the cast to the index width)
      that the first i steps add into operand axis d. */
  function OffsetInto(d: nat, sdod: seq<nat>, loaded: seq<int>, w: IndexWidth, i: nat): int
    requires |loaded| == |sdod| && i <= |sdod|
  {
    if i == 0 then 0
    else OffsetInto(d, sdod, loaded, w, i - 1) + (if sdod[i - 1] == d then SignedWrap(loaded[i - 1], w) else 0)
  }

  predicate StepInBounds(operandDims: seq<nat>, window: OperandWindow, sdod: seq<nat>, loaded: seq<int>, w: IndexWidth, j: nat)
    requires |window.bounds| == |operandDims|
    requires |loaded| == |sdod| && j < |sdod| && sdod[j] < |operandDims|
  {
    UnsignedLess(SignedWrap(loaded[j], w), MaxIndex(operandDims, window, sdod[j]), w)
  }

  datatype Resolved = Resolved(coords: seq<int>, inBounds: bool)

  /** The first i steps of the index loop: add component j into operand
      axis scatter_dims_to_operand_dims[j], and and-in its unsigned bounds
      check. */
  function AddScatterIndices(operandDims: seq<nat>, window: OperandWindow, sdod: seq<nat>, loaded: seq<int>,
                             w: IndexWidth, i: nat): (r: Resolved)
    requires |window.coords| == |window.bounds| == |operandDims|
    requires |loaded| == |sdod| && i <= |sdod|
    requires forall j :: 0 <= j < |sdod| ==> sdod[j] < |operandDims|
    ensures |r.coords| == |operandDims|
    ensures forall d :: 0 <= d < |operandDims| ==> r.coords[d] == window.coords[d] + OffsetInto(d, sdod, loaded, w, i)
    ensures r.inBounds <==> forall j :: 0 <= j < i ==> StepInBounds(operandDims, window, sdod, loaded, w, j)
  {
    if i == 0 then Resolved(window.coords, true)
    else
      var r := AddScatterIndices(operandDims, window, sdod, loaded, w, i - 1);
      var d := sdod[i - 1];
      Resolved(r.coords[d := r.coords[d] + SignedWrap(loaded[i - 1], w)],
               r.inBounds && StepInBounds(operandDims, window, sdod, loaded, w, i - 1))
  }

  /** The shapes and dimension numbers of one scatter, and the bit width
      of the scatter indices' element type. */
  datatype ScatterDescriptor = ScatterDescriptor(
    operandDims: seq<nat>,
    updatesDims: seq<nat>,
    dims: ScatterDimensionNumbers,
    indexElement: ElementWidth)

  /** The shape facts the emitter relies on, as the verifier of the
      operator graph guarantees them. */
  predicate WellFormedDescriptor(desc: ScatterDescriptor) {
    var dn := desc.dims;
    var windowCount := CountIn(|desc.updatesDims|, dn.updateWindowDims);
    && windowCount >= |desc.operandDims| - CountIn(|desc.operandDims|, dn.insertedWindowDims)
    && dn.indexVectorDim <= |desc.updatesDims| - windowCount
    && (forall j :: 0 <= j < |dn.scatterDimsToOperandDims| ==> dn.scatterDimsToOperandDims[j] < |desc.operandDims|)
  }

  /** The operand-side window of one update coordinate. */
  function OperandWindowOf(desc: ScatterDescriptor, index: seq<int>): (w: OperandWindow)
    requires WellFormedDescriptor(desc) && |index| == |desc.updatesDims|
    ensures |w.coords| == |w.bounds| == |desc.operandDims|
  {
    var p := PartitionUpdateIndex(index, desc.updatesDims, desc.dims.updateWindowDims);
    InsertElidedAxes(p.window, p.windowBounds, desc.dims.insertedWindowDims, |desc.operandDims|)
  }

  /** The loaded index vector of one update coordinate. */
  function IndexVectorOf(desc: ScatterDescriptor, index: seq<int>, load: seq<int> -> int): (v: seq<int>)
    requires WellFormedDescriptor(desc) && |index| == |desc.updatesDims|
    ensures |v| == |desc.dims.scatterDimsToOperandDims|
    ensures forall j :: 0 <= j < |v| ==> -(ElementHalf(desc.indexElement) as int) <= v[j] < ElementHalf(desc.indexElement)
  {
    var p := PartitionUpdateIndex(index, desc.updatesDims, desc.dims.updateWindowDims);
    LoadIndexVector(load, desc.indexElement, p.scatter, desc.dims.indexVectorDim, |desc.dims.scatterDimsToOperandDims|)
  }

  /** The operand coordinate one update element is combined into, or None
      when the window does not fit and the element is skipped. */
  function ResolveScatterIndex(desc: ScatterDescriptor, index: seq<int>, load: seq<int> -> int, w: IndexWidth): (r: Option<seq<int>>)
    requires WellFormedDescriptor(desc) && |index| == |desc.updatesDims|
    ensures r.Some? ==> |r.value| == |desc.operandDims|
    ensures r.Some? ==> forall d :: 0 <= d < |desc.operandDims| ==>
              r.value[d] == OperandWindowOf(desc, index).coords[d] +
                            OffsetInto(d, desc.dims.scatterDimsToOperandDims, IndexVectorOf(desc, index, load), w,
                                       |desc.dims.scatterDimsToOperandDims|)
    ensures r.Some? <==>
              forall j :: 0 <= j < |desc.dims.scatterDimsToOperandDims| ==>
                StepInBounds(desc.operandDims, OperandWindowOf(desc, index), desc.dims.scatterDimsToOperandDims,
                             IndexVectorOf(desc, index, load), w, j)
  {
    var window := OperandWindowOf(desc, index);
    var loaded := IndexVectorOf(desc, index, load);
    var sdod := desc.dims.scatterDimsToOperandDims;
    var res := AddScatterIndices(desc.operandDims, window, sdod, loaded, w, |sdod|);
    if res.inBounds then Some(res.coords) else None
  }

  /** Within the index width, the unsigned check is the two-sided check
      0 <= k < operand extent - window extent + 1: a window is written iff
      every loaded index satisfies it. */
  lemma ScatterWrittenIff(desc: ScatterDescriptor, index: seq<int>, load: seq<int> -> int, w: IndexWidth)
    requires WellFormedDescriptor(desc) && |index| == |desc.updatesDims|
    requires forall d :: 0 <= d < |desc.operandDims| ==>
               OperandWindowOf(desc, index).bounds[d] <= desc.operandDims[d] < HalfModulus(w)
    requires forall j :: 0 <= j < |desc.dims.scatterDimsToOperandDims| ==>
               -(HalfModulus(w) as int) <= IndexVectorOf(desc, index, load)[j] < HalfModulus(w)
    ensures ResolveScatterIndex(desc, index, load, w).Some? <==>
              forall j :: 0 <= j < |desc.dims.scatterDimsToOperandDims| ==>
                var d := desc.dims.scatterDimsToOperandDims[j];
                0 <= IndexVectorOf(desc, index, load)[j] < desc.operandDims[d] - OperandWindowOf(desc, index).bounds[d] + 1
  {
    var window := OperandWindowOf(desc, index);
    var loaded := IndexVectorOf(desc, index, load);
    var sdod := desc.dims.scatterDimsToOperandDims;
    forall j | 0 <= j < |sdod|
      ensures StepInBounds(desc.operandDims, window, sdod, loaded, w, j) <==>
              0 <= loaded[j] < desc.operandDims[sdod[j]] - window.bounds[sdod[j]] + 1
    {
      SignedWrapInRange(loaded[j], w);
      UnsignedLessIsRangeCheck(loaded[j], MaxIndex(desc.operandDims, window, sdod[j]), w);
    }
  }

  /** Without any assumption on the loaded indices: a window is written
      iff every loaded index, once truncated to the kernel's index width,
      satisfies 0 <= k < operand extent - window extent + 1. */
  lemma ScatterWrittenIffWrapped(desc: ScatterDescriptor, index: seq<int>, load: seq<int> -> int, w: IndexWidth)
    requires WellFormedDescriptor(desc) && |index| == |desc.updatesDims|
    requires forall d :: 0 <= d < |desc.operandDims| ==>
               OperandWindowOf(desc, index).bounds[d] <= desc.operandDims[d] < HalfModulus(w)
    ensures ResolveScatterIndex(desc, index, load, w).Some? <==>
              forall j :: 0 <= j < |desc.dims.scatterDimsToOperandDims| ==>
                var d := desc.dims.scatterDimsToOperandDims[j];
                0 <= SignedWrap(IndexVectorOf(desc, index, load)[j], w)
                  < desc.operandDims[d] - OperandWindowOf(desc, index).bounds[d] + 1
  {
    var window := OperandWindowOf(desc, index);
    var loaded := IndexVectorOf(desc, index, load);
    var sdod := desc.dims.scatterDimsToOperandDims;
    forall j | 0 <= j < |sdod|
      ensures StepInBounds(desc.operandDims, window, sdod, loaded, w, j) <==>
              0 <= SignedWrap(loaded[j], w) < desc.operandDims[sdod[j]] - window.bounds[sdod[j]] + 1
    {
      UnsignedLessIsRangeCheck(SignedWrap(loaded[j], w), MaxIndex(desc.operandDims, window, sdod[j]), w);
    }
  }

  /** When the index element is no wider than the kernel's index type the
      cast only sign-extends: a window is written iff every index, read as
      a signed element, satisfies 0 <= k < operand extent - window extent + 1. */
  lemma ScatterWrittenIffNarrow(desc: ScatterDescriptor, index: seq<int>, load: seq<int> -> int, w: IndexWidth)
    requires WellFormedDescriptor(desc) && |index| == |desc.updatesDims|
    requires ElementHalf(desc.indexElement) <= HalfModulus(w)
    requires forall d :: 0 <= d < |desc.operandDims| ==>
               OperandWindowOf(desc, index).bounds[d] <= desc.operandDims[d] < HalfModulus(w)
    ensures ResolveScatterIndex(desc, index, load, w).Some? <==>
              forall j :: 0 <= j < |desc.dims.scatterDimsToOperandDims| ==>
                var d := desc.dims.scatterDimsToOperandDims[j];
                0 <= IndexVectorOf(desc, index, load)[j] < desc.operandDims[d] - OperandWindowOf(desc, index).bounds[d] + 1
  {
    ScatterWrittenIff(desc, index, load, w);
  }

  /** An unsigned 8-bit scatter index of 200 is read as -56, so its window
      is skipped even when the operand has room for it at coordinate 200. */
  lemma UnsignedByteIndexSkipsWindow(desc: ScatterDescriptor, index: seq<int>, load: seq<int> -> int, w: IndexWidth, j: nat)
    requires WellFormedDescriptor(desc) && |index| == |desc.updatesDims|
    requires desc.indexElement == Bits8
    requires j < |desc.dims.scatterDimsToOperandDims|
    requires var d := desc.dims.scatterDimsToOperandDims[j];
             OperandWindowOf(desc, index).bounds[d] <= desc.operandDims[d] < HalfModulus(w)
    requires load(IndexVectorLookup(PartitionUpdateIndex(index, desc.updatesDims, desc.dims.updateWindowDims).scatter,
                                    desc.dims.indexVectorDim, j)) == 200
    ensures IndexVectorOf(desc, index, load)[j] == -56
    ensures ResolveScatterIndex(desc, index, load, w).None?
  {
    DivModUnique(200 + 0x80, 0x100, 1, 72);
    var window := OperandWindowOf(desc, index);
    var sdod := desc.dims.scatterDimsToOperandDims;
    SignedWrapInRange(-56, w);
    UnsignedLessIsRangeCheck(-56, MaxIndex(desc.operandDims, window, sdod[j]), w);
    assert !StepInBounds(desc.operandDims, window, sdod, IndexVectorOf(desc, index, load), w, j);
  }

  /** The truncation is observable: in a 32-bit kernel a 64-bit scatter
      index of 2^32 passes the bounds check of any axis with room for the
      window, and adds nothing to the window coordinate. */
  lemma WideIndexWrapsToZero(operandDims: seq<nat>, window: OperandWindow, sdod: seq<nat>, loaded: seq<int>, j: nat)
    requires |window.bounds| == |operandDims|
    requires |loaded| == |sdod| && j < |sdod| && sdod[j] < |operandDims|
    requires loaded[j] == 0x1_0000_0000
    requires 1 <= MaxIndex(operandDims, window, sdod[j]) < HalfModulus(Index32)
    ensures SignedWrap(loaded[j], Index32) == 0
    ensures StepInBounds(operandDims, window, sdod, loaded, Index32, j)
  {
    DivModUnique(loaded[j] + HalfModulus(Index32), Modulus(Index32), 1, HalfModulus(Index32));
    UnsignedLessIsRangeCheck(0, MaxIndex(operandDims, window, sdod[j]), Index32);
  }

  lemma SignedWrapInRange(x: int, w: IndexWidth)
    requires -(HalfModulus(w) as int) <= x < HalfModulus(w)
    ensures SignedWrap(x, w) == x
  {
    var m := Modulus(w);
    var h := HalfModulus(w);
    DivModUnique(x + h, m, 0, x + h);
  }

  /** Every window coordinate lies inside its window extent when the
      update coordinate lies inside the updates shape. */
  lemma WindowCoordsInBounds(desc: ScatterDescriptor, index: seq<int>)
    requires WellFormedDescriptor(desc) && |index| == |desc.updatesDims|
    requires StrictlyIncreasing(desc.dims.updateWindowDims)
    requires forall i :: 0 <= i < |index| ==> 0 <= index[i] < desc.updatesDims[i]
    ensures var win := OperandWindowOf(desc, index);
            forall d :: 0 <= d < |desc.operandDims| ==> 0 <= win.coords[d] < win.bounds[d]
  {
    var uwd := desc.dims.updateWindowDims;
    var p := PartitionUpdateIndex(index, desc.updatesDims, uwd);
    PartitionContents(index, desc.updatesDims, uwd, |index|);
    CountInRank(|index|, uwd);
    InsertedAxesContents(p.window, p.windowBounds, desc.dims.insertedWindowDims, |desc.operandDims|);
    forall k | 0 <= k < |p.window|
      ensures 0 <= p.window[k] < p.windowBounds[k]
    {
      assert uwd[k] < |index|;
    }
    var win := OperandWindowOf(desc, index);
    forall d | 0 <= d < |desc.operandDims|
      ensures 0 <= win.coords[d] < win.bounds[d]
    {
      assert AxisPlaced(win, p.window, p.windowBounds, desc.dims.insertedWindowDims, d);
    }
  }

  /** A written update lands inside the operand: with distinct target axes
      and window extents no larger than the operand's, a window that passes
      the check never reaches past either end of any axis. */
  lemma ScatterWriteInsideOperand(desc: ScatterDescriptor, index: seq<int>, load: seq<int> -> int, w: IndexWidth)
    requires WellFormedDescriptor(desc) && |index| == |desc.updatesDims|
    requires StrictlyIncreasing(desc.dims.updateWindowDims)
    requires forall i :: 0 <= i < |index| ==> 0 <= index[i] < desc.updatesDims[i]
    requires forall i, j :: 0 <= i < j < |desc.dims.scatterDimsToOperandDims| ==>
               desc.dims.scatterDimsToOperandDims[i] != desc.dims.scatterDimsToOperandDims[j]
    requires forall d :: 0 <= d < |desc.operandDims| ==>
               OperandWindowOf(desc, index).bounds[d] <= desc.operandDims[d] < HalfModulus(w)
    requires ResolveScatterIndex(desc, index, load, w).Some?
    ensures var target := ResolveScatterIndex(desc, index, load, w).value;
            forall d :: 0 <= d < |desc.operandDims| ==> 0 <= target[d] < desc.operandDims[d]
  {
    var window := OperandWindowOf(desc, index);
    var loaded := IndexVectorOf(desc, index, load);
    var sdod := desc.dims.scatterDimsToOperandDims;
    WindowCoordsInBounds(desc, index);
    forall d | 0 <= d < |desc.operandDims|
      ensures 0 <= window.coords[d] + OffsetInto(d, sdod, loaded, w, |sdod|) < desc.operandDims[d]
    {
      OffsetBounds(desc.operandDims, window, sdod, loaded, w, d, |sdod|);
    }
  }

  /** The offset added into axis d is a single in-bounds component, or 0
      when no entry targets d. */
  lemma {:induction false} OffsetBounds(operandDims: seq<nat>, window: OperandWindow, sdod: seq<nat>, loaded: seq<int>,
                                        w: IndexWidth, d: nat, i: nat)
    requires |window.coords| == |window.bounds| == |operandDims| && d < |operandDims|
    requires window.bounds[d] <= operandDims[d] < HalfModulus(w)
    requires |loaded| == |sdod| && i <= |sdod|
    requires forall j :: 0 <= j < |sdod| ==> sdod[j] < |operandDims|
    requires forall a, b :: 0 <= a < b < |sdod| ==> sdod[a] != sdod[b]
    requires forall j :: 0 <= j < i ==> StepInBounds(operandDims, window, sdod, loaded, w, j)
    ensures (forall j :: 0 <= j < i ==> sdod[j] != d) ==> OffsetInto(d, sdod, loaded, w, i) == 0
    ensures 0 <= OffsetInto(d, sdod, loaded, w, i) < operandDims[d] - window.bounds[d] + 1
  {
    if i > 0 {
      OffsetBounds(operandDims, window, sdod, loaded, w, d, i - 1);
      if sdod[i - 1] == d {
        assert forall j :: 0 <= j < i - 1 ==> sdod[j] != d;
        assert OffsetInto(d, sdod, loaded, w, i - 1) == 0;
        var k := SignedWrap(loaded[i - 1], w);
        assert StepInBounds(operandDims, window, sdod, loaded, w, i - 1);
        UnsignedLessIsRangeCheck(k, MaxIndex(operandDims, window, d), w);
      }
    }
  }
}
