/** Input fusions whose root is a slice, or a tuple of slices, of values
    with one common shape: the shape check that picks the launch shape, and
    the per-slice guard and destination of every launched element. */
module SliceFusion {
  import opened Wrappers

  datatype Shape = Shape(elementType: nat, dims: seq<nat>, layout: seq<nat>)

  predicate EqualIgnoringElementType(a: Shape, b: Shape) {
    a.dims == b.dims && a.layout == b.layout
  }

  /** The root of the fused computation: one slice, or a tuple of slices;
      each is given by the shape of the value it slices. */
  datatype SliceRoot =
    | SingleSlice(operandShape: Shape)
    | TupleOfSlices(operandShapes: seq<Shape>)

  const UnsupportedRoot := "Unsupported root for slice input fusion. Only non-strided slices are supported."
  const InconsistentShapes := "Fused slices do not have the same input shape."

  /** The launch shape of a slice input fusion: the common input shape of
      the root slices.  nonStridedFusible is the fusibility verdict of the
      fusion helpers, which are not part of this model. */
  function ConsistentInputShapeForRootSlices(nonStridedFusible: bool, root: SliceRoot): (r: Result<Shape>)
    requires root.TupleOfSlices? ==> |root.operandShapes| >= 1
    ensures !nonStridedFusible ==> r.Err? && r.error.FailedPrecondition?
    ensures r.Err? ==> r.error.FailedPrecondition?
    ensures root.SingleSlice? && nonStridedFusible ==> r == Ok(root.operandShape)
    ensures root.TupleOfSlices? ==>
              (r.Ok? <==>
                 (nonStridedFusible &&
                  forall i :: 0 <= i < |root.operandShapes| ==>
                    EqualIgnoringElementType(root.operandShapes[0], root.operandShapes[i])))
    ensures r.Ok? && root.TupleOfSlices? ==> r.value == root.operandShapes[0]
  {
    if !nonStridedFusible then
      Err(FailedPrecondition(UnsupportedRoot))
    else
      match root
      case SingleSlice(s) => Ok(s)
      case TupleOfSlices(shapes) =>
        if forall i :: 1 <= i < |shapes| ==> EqualIgnoringElementType(shapes[0], shapes[i]) then Ok(shapes[0])
        else Err(FailedPrecondition(InconsistentShapes))
  }

  /** One non-strided slice: per-axis start and limit. */
  datatype Slice = Slice(starts: seq<int>, limits: seq<int>)

  /** guarding_cond: start <= index < limit on every axis (signed compares). */
  predicate InSlice(index: seq<int>, s: Slice)
    requires |s.starts| == |s.limits| == |index|
  {
    forall d :: 0 <= d < |index| ==> s.starts[d] <= index[d] < s.limits[d]
  }

  /** The element of the slice output that the launched element at `index`
      writes, or None when it lies outside the slice. */
  function SliceWrite(index: seq<int>, s: Slice): (r: Option<seq<int>>)
    requires |s.starts| == |s.limits| == |index|
    ensures r.Some? <==> InSlice(index, s)
    ensures r.Some? ==> |r.value| == |index|
    ensures r.Some? ==> forall d :: 0 <= d < |index| ==>
              0 <= r.value[d] < s.limits[d] - s.starts[d] && r.value[d] + s.starts[d] == index[d]
  {
    if InSlice(index, s) then Some(seq(|index|, d requires 0 <= d < |index| => index[d] - s.starts[d])) else None
  }

  /** Every element of the slice output is written, by exactly one launched
      element: the one at output coordinate + start. */
  lemma SliceOutputWrittenOnce(s: Slice, out: seq<int>, index: seq<int>)
    requires |s.starts| == |s.limits| == |out| == |index|
    requires forall d :: 0 <= d < |out| ==> 0 <= out[d] < s.limits[d] - s.starts[d]
    ensures SliceWrite(seq(|out|, d requires 0 <= d < |out| => out[d] + s.starts[d]), s) == Some(out)
    ensures SliceWrite(index, s) == Some(out) ==> forall d :: 0 <= d < |out| ==> index[d] == out[d] + s.starts[d]
  {
    var from := seq(|out|, d requires 0 <= d < |out| => out[d] + s.starts[d]);
    assert InSlice(from, s);
    assert SliceWrite(from, s).value == out;
  }
}
