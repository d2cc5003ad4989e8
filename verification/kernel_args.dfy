/** BuildKernelThunkFromBufferSlices: which buffer allocations become
    kernel arguments, in which order, how each buffer slice is bound to a
    value derived from those arguments, where the temp buffer base points,
    and which slices are marked invariant over the whole program. */
module KernelArgs {
  import opened Wrappers

  /** A buffer allocation; an assignment lists them by index, so the
      allocation with index i is allocs[i]. */
  datatype BufferAllocation = BufferAllocation(isConstant: bool, isPreallocatedTemp: bool)

  /** BufferAllocation::Slice: allocation index, byte offset and size. */
  datatype Slice = Slice(allocation: nat, offset: nat, size: nat)

  /** A slice the kernel touches, the tuple indices to dereference from it,
      and whether the kernel writes it. */
  datatype KernelSlice = KernelSlice(bufferSlice: Slice, gteIndex: seq<nat>, written: bool)

  predicate SlicesInAssignment(allocs: seq<BufferAllocation>, slices: seq<KernelSlice>) {
    forall k :: 0 <= k < |slices| ==> slices[k].bufferSlice.allocation < |allocs|
  }

  function FirstTempFrom(allocs: seq<BufferAllocation>, i: nat): (r: Option<nat>)
    requires i <= |allocs|
    ensures r.None? <==> forall j :: i <= j < |allocs| ==> !allocs[j].isPreallocatedTemp
    ensures r.Some? ==> i <= r.value < |allocs| && allocs[r.value].isPreallocatedTemp
    ensures r.Some? ==> forall j :: i <= j < r.value ==> !allocs[j].isPreallocatedTemp
    decreases |allocs| - i
  {
    if i == |allocs| then None
    else if allocs[i].isPreallocatedTemp then Some(i)
    else FirstTempFrom(allocs, i + 1)
  }

  /** The first preallocated temp buffer of the assignment, if any. */
  function FirstTemp(allocs: seq<BufferAllocation>): (r: Option<nat>)
    ensures r.None? <==> forall j :: 0 <= j < |allocs| ==> !allocs[j].isPreallocatedTemp
    ensures r.Some? ==> r.value < |allocs| && allocs[r.value].isPreallocatedTemp
    ensures r.Some? ==> forall j :: 0 <= j < r.value ==> !allocs[j].isPreallocatedTemp
  {
    FirstTempFrom(allocs, 0)
  }

  /** buffers_needed: every allocation a slice refers to, plus the temp
      buffer, which nested computations may use. */
  function BuffersNeeded(allocs: seq<BufferAllocation>, slices: seq<KernelSlice>): set<nat> {
    var referenced := set k | 0 <= k < |slices| :: slices[k].bufferSlice.allocation;
    var temp := FirstTemp(allocs);
    if temp.Some? then referenced + {temp.value} else referenced
  }

  predicate StrictlyIncreasing(s: seq<nat>) {
    forall i, j :: 0 <= i < j < |s| ==> s[i] < s[j]
  }

  /** The non-constant allocations among `needed` below n, by index. */
  function NonConstantBelow(allocs: seq<BufferAllocation>, needed: set<nat>, n: nat): (r: seq<nat>)
    requires n <= |allocs|
    ensures StrictlyIncreasing(r)
    ensures forall i :: 0 <= i < |r| ==> r[i] < n
    ensures forall a: nat :: a in r <==> a < n && a in needed && !allocs[a].isConstant
  {
    if n == 0 then []
    else
      var prev := NonConstantBelow(allocs, needed, n - 1);
      if n - 1 in needed && !allocs[n - 1].isConstant then prev + [n - 1] else prev
  }

  /** non_constant_buffers: the kernel's parameters, in order. */
  function KernelArguments(allocs: seq<BufferAllocation>, slices: seq<KernelSlice>): (r: seq<nat>)
    requires SlicesInAssignment(allocs, slices)
    ensures StrictlyIncreasing(r)
    ensures forall a: nat :: a in r <==> a in BuffersNeeded(allocs, slices) && a < |allocs| && !allocs[a].isConstant
  {
    NonConstantBelow(allocs, BuffersNeeded(allocs, slices), |allocs|)
  }

  /** Sorting a set by index has one possible outcome: two strictly
      increasing sequences with the same elements are equal. */
  lemma {:induction false} StrictlyIncreasingUnique(a: seq<nat>, b: seq<nat>)
    requires StrictlyIncreasing(a) && StrictlyIncreasing(b)
    requires forall x :: x in a <==> x in b
    ensures a == b
    decreases |a|
  {
    if |a| > 0 && |b| > 0 {
      HeadsEqual(a, b);
      TailsSameElements(a, b);
      StrictlyIncreasingUnique(a[1..], b[1..]);
      assert a == [a[0]] + a[1..];
      assert b == [b[0]] + b[1..];
    } else {
      SameElementsBothEmpty(a, b);
    }
  }

  /** The least element of two equal sets comes first in both listings. */
  lemma HeadsEqual(a: seq<nat>, b: seq<nat>)
    requires StrictlyIncreasing(a) && StrictlyIncreasing(b)
    requires forall x :: x in a <==> x in b
    requires |a| > 0 && |b| > 0
    ensures a[0] == b[0]
  {
    assert a[0] in b && b[0] in a;
    var i :| 0 <= i < |b| && b[i] == a[0];
    var j :| 0 <= j < |a| && a[j] == b[0];
  }

  lemma TailsSameElements(a: seq<nat>, b: seq<nat>)
    requires StrictlyIncreasing(a) && StrictlyIncreasing(b)
    requires forall x :: x in a <==> x in b
    requires |a| > 0 && |b| > 0 && a[0] == b[0]
    ensures forall x :: x in a[1..] <==> x in b[1..]
  {
    forall x ensures x in a[1..] <==> x in b[1..] {
      if x in a[1..] {
        var i :| 1 <= i < |a| && a[i] == x;
        assert x in b;
        assert x != b[0];
      }
      if x in b[1..] {
        var i :| 1 <= i < |b| && b[i] == x;
        assert x in a;
        assert x != a[0];
      }
    }
  }

  lemma SameElementsBothEmpty(a: seq<nat>, b: seq<nat>)
    requires forall x :: x in a <==> x in b
    ensures |a| == 0 <==> |b| == 0
  {
    if |a| > 0 { assert a[0] in b; }
    if |b| > 0 { assert b[0] in a; }
  }

  /** The argument list is the only sorted, duplicate-free listing of the
      non-constant allocations the kernel needs. */
  lemma KernelArgumentsDetermined(allocs: seq<BufferAllocation>, slices: seq<KernelSlice>, other: seq<nat>)
    requires SlicesInAssignment(allocs, slices)
    requires StrictlyIncreasing(other)
    requires forall a: nat :: a in other <==> a in BuffersNeeded(allocs, slices) && a < |allocs| && !allocs[a].isConstant
    ensures other == KernelArguments(allocs, slices)
  {
    StrictlyIncreasingUnique(other, KernelArguments(allocs, slices));
  }

  /** Every non-constant allocation a slice refers to is an argument, so the
      argument lookup for a slice never fails. */
  lemma SliceAllocationIsArgument(allocs: seq<BufferAllocation>, slices: seq<KernelSlice>, k: nat)
    requires SlicesInAssignment(allocs, slices) && k < |slices|
    requires !allocs[slices[k].bufferSlice.allocation].isConstant
    ensures slices[k].bufferSlice.allocation in KernelArguments(allocs, slices)
  {
    assert slices[k].bufferSlice.allocation in BuffersNeeded(allocs, slices);
  }

  // ---------------------------------------------------------------------
  // Binding slices to values
  // ---------------------------------------------------------------------

  /** A value derived from the kernel arguments: the global of a constant
      allocation, an argument plus a byte offset, or a pointer loaded from
      element `element` of the pointer table at `pointer`. */
  datatype Location =
    | Global(allocation: nat)
    | ArgumentPlusOffset(argument: nat, offset: nat)
    | Deref(pointer: Location, element: nat)

  /** One dereference per gte index, outermost first. */
  function ApplyDerefs(loc: Location, path: seq<nat>): Location
    decreases |path|
  {
    if |path| == 0 then loc else ApplyDerefs(Deref(loc, path[0]), path[1..])
  }

  /** The base a location starts from and the elements it dereferences. */
  function Unwind(loc: Location): (Location, seq<nat>) {
    match loc
    case Deref(p, e) => var (base, path) := Unwind(p); (base, path + [e])
    case _ => (loc, [])
  }

  lemma {:induction false} UnwindApplyDerefs(loc: Location, path: seq<nat>)
    ensures Unwind(ApplyDerefs(loc, path)) == (Unwind(loc).0, Unwind(loc).1 + path)
    decreases |path|
  {
    if |path| > 0 {
      UnwindApplyDerefs(Deref(loc, path[0]), path[1..]);
      assert Unwind(Deref(loc, path[0])) == (Unwind(loc).0, Unwind(loc).1 + [path[0]]);
      assert Unwind(loc).1 + [path[0]] + path[1..] == Unwind(loc).1 + path;
    } else {
      assert Unwind(loc).1 + path == Unwind(loc).1;
    }
  }

  /** The argument position of an allocation. */
  function ArgumentOf(args: seq<nat>, a: nat): (p: nat)
    requires a in args
    ensures p < |args| && args[p] == a
  {
    if args[0] == a then 0 else 1 + ArgumentOf(args[1..], a)
  }

  /** The value bound to a slice: a constant allocation's global or the
      argument plus the slice's offset, followed by one dereference per
      gte index element. */
  function BindSlice(allocs: seq<BufferAllocation>, args: seq<nat>, s: KernelSlice): (r: Location)
    requires s.bufferSlice.allocation < |allocs|
    requires !allocs[s.bufferSlice.allocation].isConstant ==> s.bufferSlice.allocation in args
    ensures Unwind(r).1 == s.gteIndex
    ensures allocs[s.bufferSlice.allocation].isConstant ==> Unwind(r).0 == Global(s.bufferSlice.allocation)
    ensures !allocs[s.bufferSlice.allocation].isConstant ==>
              && Unwind(r).0.ArgumentPlusOffset?
              && Unwind(r).0.argument < |args|
              && args[Unwind(r).0.argument] == s.bufferSlice.allocation
              && Unwind(r).0.offset == s.bufferSlice.offset
  {
    var a := s.bufferSlice.allocation;
    var base := if allocs[a].isConstant then Global(a) else ArgumentPlusOffset(ArgumentOf(args, a), s.bufferSlice.offset);
    UnwindApplyDerefs(base, s.gteIndex);
    ApplyDerefs(base, s.gteIndex)
  }

  /** Where the temp buffer base points. */
  datatype TempBase = TempArgument(argument: nat) | NullPointer

  function TempBufferBase(allocs: seq<BufferAllocation>, slices: seq<KernelSlice>): (r: TempBase)
    requires SlicesInAssignment(allocs, slices)
    requires FirstTemp(allocs).Some? ==> !allocs[FirstTemp(allocs).value].isConstant
    ensures r.NullPointer? <==> FirstTemp(allocs).None?
    ensures r.TempArgument? ==>
              r.argument < |KernelArguments(allocs, slices)|
              && KernelArguments(allocs, slices)[r.argument] == FirstTemp(allocs).value
  {
    var temp := FirstTemp(allocs);
    if temp.Some? then
      assert temp.value in BuffersNeeded(allocs, slices);
      TempArgument(ArgumentOf(KernelArguments(allocs, slices), temp.value))
    else NullPointer
  }

  // ---------------------------------------------------------------------
  // Invariance marking
  // ---------------------------------------------------------------------

  /** buffers_written: the buffer slices some kernel slice writes. */
  function WrittenSlices(slices: seq<KernelSlice>): set<Slice> {
    set k | 0 <= k < |slices| && slices[k].written :: slices[k].bufferSlice
  }

  /** Which slices are marked invariant over the whole program. */
  function InvariantMarks(slices: seq<KernelSlice>): (r: seq<bool>)
    ensures |r| == |slices|
    ensures forall k :: 0 <= k < |r| ==>
              (r[k] <==> forall j :: 0 <= j < |slices| && slices[j].written ==> slices[j].bufferSlice != slices[k].bufferSlice)
  {
    var written := WrittenSlices(slices);
    seq(|slices|, k requires 0 <= k < |slices| => slices[k].bufferSlice !in written)
  }

  /** A written slice is never invariant, and slices over the same buffer
      slice are marked alike. */
  lemma InvariantMarksConsistent(slices: seq<KernelSlice>, k: nat, j: nat)
    requires k < |slices| && j < |slices|
    ensures slices[k].written ==> !InvariantMarks(slices)[k]
    ensures slices[k].bufferSlice == slices[j].bufferSlice ==> InvariantMarks(slices)[k] == InvariantMarks(slices)[j]
  {
  }
}
