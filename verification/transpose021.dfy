/** Admission of the shared-memory 0-2-1 transpose emitter
    (CheckAndEmitHloWithTile021): which operands are read through a
    shared-memory tile, and when the emitter declines altogether. */
module Transpose021 {
  import opened Wrappers

  /** Below this extent an untiled transpose may be faster. */
  const MinDimensionToTransposeTiled: int := 16
  const MinBlocksPerCore: int := 3
  const ShmemPerCore: int := 48 * 1024
  /** Elements in one shared-memory tile (32 rows padded to 33). */
  const TileElements: int := 32 * 33

  // ---------------------------------------------------------------------
  // Shared-memory safety over the fusion's user graph
  // ---------------------------------------------------------------------

  /** How safety treats an operation: a tensor store ends the chain, an
      elementwise op or a pass-through op (get-tuple-element, map,
      parameter or tensor load, tuple, tuple-select) is safe when all its
      users are, get-dimension-size does not read the data, anything else is
      unsafe. */
  datatype OpKind = TensorStore | Elementwise | PassThrough | GetDimensionSize | Other

  datatype Op = Op(kind: OpKind, users: seq<nat>)

  /** Users come later than the ops they use, so the user graph is acyclic. */
  predicate UsersLater(ops: seq<Op>) {
    forall p, k :: 0 <= p < |ops| && 0 <= k < |ops[p].users| ==> p < ops[p].users[k] < |ops|
  }

  predicate Forwards(k: OpKind) {
    k == Elementwise || k == PassThrough
  }

  /** IsInstructionSafeForShmemTranspose. */
  function IsSafe(ops: seq<Op>, p: nat): bool
    requires UsersLater(ops) && p < |ops|
    decreases |ops| - p
  {
    match ops[p].kind
    case TensorStore => true
    case GetDimensionSize => true
    case Other => false
    case _ => forall k :: 0 <= k < |ops[p].users| ==> IsSafe(ops, ops[p].users[k])
  }

  /** A chain of users from path[0] through forwarding ops to an unsafe op. */
  ghost predicate UnsafePath(ops: seq<Op>, path: seq<nat>) {
    && |path| >= 1
    && (forall i :: 0 <= i < |path| ==> path[i] < |ops|)
    && (forall i :: 0 <= i < |path| - 1 ==> Forwards(ops[path[i]].kind) && path[i + 1] in ops[path[i]].users)
    && ops[path[|path| - 1]].kind == Other
  }

  /** An unsafe op has a chain of users to an op that breaks the tile. */
  lemma {:induction false} UnsafeHasPath(ops: seq<Op>, p: nat) returns (path: seq<nat>)
    requires UsersLater(ops) && p < |ops| && !IsSafe(ops, p)
    ensures UnsafePath(ops, path) && path[0] == p
    decreases |ops| - p
  {
    if ops[p].kind == Other {
      path := [p];
    } else {
      var k :| 0 <= k < |ops[p].users| && !IsSafe(ops, ops[p].users[k]);
      var rest := UnsafeHasPath(ops, ops[p].users[k]);
      path := [p] + rest;
      assert path[1..] == rest;
      forall i | 0 <= i < |path| - 1 ensures Forwards(ops[path[i]].kind) && path[i + 1] in ops[path[i]].users {
        if i > 0 {
          assert path[i] == rest[i - 1] && path[i + 1] == rest[i];
        }
      }
    }
  }

  /** Every op with such a chain is unsafe. */
  lemma {:induction false} PathMakesUnsafe(ops: seq<Op>, path: seq<nat>)
    requires UsersLater(ops) && UnsafePath(ops, path)
    ensures !IsSafe(ops, path[0])
    decreases |path|
  {
    if |path| > 1 {
      var rest := path[1..];
      assert UnsafePath(ops, rest) by {
        forall i | 0 <= i < |rest| - 1 ensures Forwards(ops[rest[i]].kind) && rest[i + 1] in ops[rest[i]].users {
          assert rest[i] == path[i + 1] && rest[i + 1] == path[i + 2];
        }
      }
      PathMakesUnsafe(ops, rest);
      var k :| 0 <= k < |ops[path[0]].users| && ops[path[0]].users[k] == path[1];
    }
  }

  /** Safety is the absence of an unsafe chain. */
  lemma SafeIffNoUnsafePath(ops: seq<Op>, p: nat)
    requires UsersLater(ops) && p < |ops|
    ensures IsSafe(ops, p) <==> forall path :: UnsafePath(ops, path) ==> path[0] != p
  {
    if IsSafe(ops, p) {
      forall path | UnsafePath(ops, path) ensures path[0] != p {
        PathMakesUnsafe(ops, path);
      }
    } else {
      var path := UnsafeHasPath(ops, p);
    }
  }

  predicate StrictlyIncreasing(s: seq<nat>) {
    forall i, j :: 0 <= i < j < |s| ==> s[i] < s[j]
  }

  lemma AppendLarger(s: seq<nat>, x: nat)
    requires StrictlyIncreasing(s)
    requires forall y :: y in s ==> y < x
    ensures StrictlyIncreasing(s + [x])
  {
    forall i, j | 0 <= i < j < |s| + 1 ensures (s + [x])[i] < (s + [x])[j] {
      if j == |s| {
        assert s[i] in s;
      }
    }
  }

  /** FilterInputsForShmemTranspose: the input ids whose parameter op is
      safe, in their original order. params[i] is the op that loads input i. */
  function FilterInputs(ops: seq<Op>, params: seq<nat>, inputIds: seq<nat>): (r: seq<nat>)
    requires UsersLater(ops)
    requires forall i :: 0 <= i < |params| ==> params[i] < |ops|
    requires forall i :: 0 <= i < |inputIds| ==> inputIds[i] < |params|
    ensures forall x :: x in r <==> x in inputIds && IsSafe(ops, params[x])
    ensures StrictlyIncreasing(inputIds) ==> StrictlyIncreasing(r)
    ensures |r| <= |inputIds|
    decreases |inputIds|
  {
    if |inputIds| == 0 then []
    else
      var n := |inputIds| - 1;
      var prev := FilterInputs(ops, params, inputIds[..n]);
      assert inputIds == inputIds[..n] + [inputIds[n]];
      var x := inputIds[n];
      if IsSafe(ops, params[x]) then
        assert StrictlyIncreasing(inputIds) ==> StrictlyIncreasing(prev + [x]) by {
          if StrictlyIncreasing(inputIds) {
            assert StrictlyIncreasing(inputIds[..n]);
            forall y | y in prev ensures y < x {
              var i :| 0 <= i < n && inputIds[i] == y;
            }
            AppendLarger(prev, x);
          }
        }
        prev + [x]
      else prev
  }

  // ---------------------------------------------------------------------
  // Agreeing on the reduced dimensions
  // ---------------------------------------------------------------------

  /** The outcome of scanning the operands: a reduced 0-2-1 shape and the
      operands that are its 0-1-2 transpose, or a conflict between two
      different transposes. */
  datatype Scan = Scanned(reduced: Option<seq<int>>, params: seq<nat>) | Conflict

  /** All operands that have a 0-2-1 transpose among the first n have the
      same one. */
  predicate AllAgree(transposes: seq<Option<seq<int>>>, n: nat)
    requires n <= |transposes|
  {
    forall i, j :: 0 <= i < n && 0 <= j < n && transposes[i].Some? && transposes[j].Some? ==>
      transposes[i].value == transposes[j].value
  }

  /** The operand loop over the first n operands. transposes[i] is what
      FindTranspose021 returns for operand i against the first output. */
  function ScanOperands(transposes: seq<Option<seq<int>>>, n: nat): (r: Scan)
    requires n <= |transposes|
    ensures r.Conflict? <==> !AllAgree(transposes, n)
    ensures r.Scanned? ==> forall k :: 0 <= k < |r.params| ==> r.params[k] < n
    ensures r.Scanned? ==> StrictlyIncreasing(r.params)
    ensures r.Scanned? ==> forall x: nat :: x in r.params <==> x < n && transposes[x].Some?
    ensures r.Scanned? ==> (r.reduced.None? <==> forall i :: 0 <= i < n ==> transposes[i].None?)
    ensures r.Scanned? && r.reduced.Some? ==> forall i :: 0 <= i < n && transposes[i].Some? ==> transposes[i].value == r.reduced.value
  {
    if n == 0 then Scanned(None, [])
    else
      var prev := ScanOperands(transposes, n - 1);
      var t := transposes[n - 1];
      match prev
      case Conflict => Conflict
      case Scanned(reduced, params) =>
        if t.None? then
          AgreeExtend(transposes, n);
          prev
        else if reduced.None? then
          AgreeExtend(transposes, n);
          AppendLarger(params, n - 1);
          Scanned(t, params + [n - 1])
        else if reduced.value != t.value then
          assert transposes[n - 1].Some? && exists i :: 0 <= i < n - 1 && transposes[i].Some? && transposes[i].value == reduced.value;
          Conflict
        else
          AgreeExtend(transposes, n);
          AppendLarger(params, n - 1);
          Scanned(reduced, params + [n - 1])
  }

  /** The n-th operand agrees with all earlier ones. */
  lemma AgreeExtend(transposes: seq<Option<seq<int>>>, n: nat)
    requires 0 < n <= |transposes| && AllAgree(transposes, n - 1)
    requires transposes[n - 1].Some? ==>
               forall i :: 0 <= i < n - 1 && transposes[i].Some? ==> transposes[i].value == transposes[n - 1].value
    ensures AllAgree(transposes, n)
  {
  }

  // ---------------------------------------------------------------------
  // Shared-memory budget
  // ---------------------------------------------------------------------

  /** Bytes per element of operand x; every operand the emitter asks about
      is one of the fusion's operands. */
  function ElementBytes(elementBytes: seq<nat>, x: nat): nat {
    if x < |elementBytes| then elementBytes[x] else 0
  }

  /** Shared memory taken by tiles for the given operands, in bytes. */
  function SharedBytes(params: seq<nat>, elementBytes: seq<nat>): int {
    if |params| == 0 then 0
    else SharedBytes(params[..|params| - 1], elementBytes) + TileElements * ElementBytes(elementBytes, params[|params| - 1])
  }

  predicate WithinBudget(used: int) {
    MinBlocksPerCore * used <= ShmemPerCore
  }

  /** Keep the operands while three blocks' worth of tiles fit into 48 KiB:
      the longest prefix within budget. */
  function TruncateForShmem(params: seq<nat>, elementBytes: seq<nat>): (r: seq<nat>)
    ensures |r| <= |params| && r == params[..|r|]
    ensures forall k :: 0 <= k <= |r| ==> WithinBudget(SharedBytes(params[..k], elementBytes))
    ensures |r| < |params| ==> !WithinBudget(SharedBytes(params[..|r| + 1], elementBytes))
  {
    TruncateFrom(params, elementBytes, 0)
  }

  function TruncateFrom(params: seq<nat>, elementBytes: seq<nat>, i: nat): (r: seq<nat>)
    requires i <= |params|
    requires forall k :: 0 <= k <= i ==> WithinBudget(SharedBytes(params[..k], elementBytes))
    ensures i <= |r| <= |params| && r == params[..|r|]
    ensures forall k :: 0 <= k <= |r| ==> WithinBudget(SharedBytes(params[..k], elementBytes))
    ensures |r| < |params| ==> !WithinBudget(SharedBytes(params[..|r| + 1], elementBytes))
    decreases |params| - i
  {
    if i == |params| then
      assert params[..i] == params;
      params
    else
      assert params[..i + 1][..i] == params[..i];
      if !WithinBudget(SharedBytes(params[..i + 1], elementBytes)) then params[..i]
      else TruncateFrom(params, elementBytes, i + 1)
  }

  // ---------------------------------------------------------------------
  // Admission
  // ---------------------------------------------------------------------

  /** The fusion being emitted, as far as shared-memory safety needs it. */
  datatype FusionGraph = FusionGraph(ops: seq<Op>, params: seq<nat>)

  predicate ValidFusion(f: FusionGraph, numOperands: nat) {
    && UsersLater(f.ops)
    && |f.params| >= numOperands
    && forall i :: 0 <= i < |f.params| ==> f.params[i] < |f.ops|
  }

  datatype Admission = Declined | Admitted(reducedDims: seq<int>, params: seq<nat>)

  /** FindTranspose021 reports three reduced extents. */
  predicate ThreeDims(transposes: seq<Option<seq<int>>>) {
    forall i :: 0 <= i < |transposes| && transposes[i].Some? ==> |transposes[i].value| == 3
  }

  /** The agreeing operands that are safe for a shared-memory tile: all of
      them for a copy, the filtered ones for a fusion. */
  function SafeParams(params012: seq<nat>, fusion: Option<FusionGraph>, numOperands: nat): (safe: seq<nat>)
    requires StrictlyIncreasing(params012)
    requires forall k :: 0 <= k < |params012| ==> params012[k] < numOperands
    requires fusion.Some? ==> ValidFusion(fusion.value, numOperands)
    ensures StrictlyIncreasing(safe)
    ensures forall x :: x in safe ==> x in params012
    ensures fusion.Some? ==> forall x :: x in safe ==> IsSafe(fusion.value.ops, fusion.value.params[x])
  {
    if fusion.Some? then FilterInputs(fusion.value.ops, fusion.value.params, params012) else params012
  }

  /** The operands that get a shared-memory tile, out of the agreeing
      ones: for a fusion only the safe ones, then as many as the budget
      allows. */
  function ChooseParams(params012: seq<nat>, fusion: Option<FusionGraph>, elementBytes: seq<nat>): (kept: seq<nat>)
    requires StrictlyIncreasing(params012)
    requires forall k :: 0 <= k < |params012| ==> params012[k] < |elementBytes|
    requires fusion.Some? ==> ValidFusion(fusion.value, |elementBytes|)
    ensures StrictlyIncreasing(kept)
    ensures forall k :: 0 <= k < |kept| ==> kept[k] in params012 && kept[k] < |elementBytes|
    ensures fusion.Some? ==> forall x :: x in kept ==> IsSafe(fusion.value.ops, fusion.value.params[x])
    ensures WithinBudget(SharedBytes(kept, elementBytes))
  {
    var safe := SafeParams(params012, fusion, |elementBytes|);
    var kept := TruncateForShmem(safe, elementBytes);
    KeptFromSafe(params012, safe, kept, |elementBytes|);
    kept
  }

  /** The kept operands are the longest prefix of the safe ones whose tiles
      fit the budget, and some are kept iff the first safe one fits alone. */
  lemma ChooseParamsIsLongestPrefix(params012: seq<nat>, fusion: Option<FusionGraph>, elementBytes: seq<nat>)
    requires StrictlyIncreasing(params012)
    requires forall k :: 0 <= k < |params012| ==> params012[k] < |elementBytes|
    requires fusion.Some? ==> ValidFusion(fusion.value, |elementBytes|)
    ensures var safe := SafeParams(params012, fusion, |elementBytes|);
            var kept := ChooseParams(params012, fusion, elementBytes);
            && |kept| <= |safe| && kept == safe[..|kept|]
            && (|kept| < |safe| ==> !WithinBudget(SharedBytes(safe[..|kept| + 1], elementBytes)))
            && (|kept| > 0 <==> |safe| > 0 && WithinBudget(TileElements * ElementBytes(elementBytes, safe[0])))
  {
    FirstTileDecides(SafeParams(params012, fusion, |elementBytes|), elementBytes);
  }

  /** A prefix of increasing operands drawn from params012 is increasing
      and drawn from params012. */
  lemma KeptFromSafe(params012: seq<nat>, safe: seq<nat>, kept: seq<nat>, numOperands: nat)
    requires forall k :: 0 <= k < |params012| ==> params012[k] < numOperands
    requires StrictlyIncreasing(safe) && forall x :: x in safe ==> x in params012
    requires |kept| <= |safe| && kept == safe[..|kept|]
    ensures StrictlyIncreasing(kept)
    ensures forall k :: 0 <= k < |kept| ==> kept[k] in params012 && kept[k] < numOperands
    ensures forall x :: x in kept ==> x in safe
  {
    forall k | 0 <= k < |kept| ensures kept[k] in params012 && kept[k] < numOperands {
      assert kept[k] == safe[k] && safe[k] in safe;
      var i :| 0 <= i < |params012| && params012[i] == kept[k];
    }
  }

  /** Some operand is kept iff the first one's tile alone fits. */
  lemma FirstTileDecides(safe: seq<nat>, elementBytes: seq<nat>)
    ensures |TruncateForShmem(safe, elementBytes)| > 0 <==>
              |safe| > 0 && WithinBudget(TileElements * ElementBytes(elementBytes, safe[0]))
  {
    if |safe| > 0 {
      assert safe[..1][..0] == [];
      assert SharedBytes(safe[..1], elementBytes) == TileElements * ElementBytes(elementBytes, safe[0]);
    }
  }

  lemma KeptHaveTranspose(transposes: seq<Option<seq<int>>>, params012: seq<nat>, reduced: seq<int>, kept: seq<nat>)
    requires forall x: nat :: x in params012 <==> x < |transposes| && transposes[x].Some?
    requires forall i :: 0 <= i < |transposes| && transposes[i].Some? ==> transposes[i].value == reduced
    requires forall k :: 0 <= k < |kept| ==> kept[k] in params012
    ensures forall k :: 0 <= k < |kept| ==> kept[k] < |transposes| && transposes[kept[k]] == Some(reduced)
  {
    forall k | 0 <= k < |kept| ensures kept[k] < |transposes| && transposes[kept[k]] == Some(reduced) {
      var x: nat := kept[k];
      assert x in params012;
    }
  }

  /** The conditions under which the tiled transpose is emitted: the
      operands with a 0-2-1 transpose agree on it, there is one, its minor
      extents are at least 16, and the first of them that is safe for a
      shared-memory tile (any of them, for a copy) fits the budget alone. */
  predicate AdmitsTile021(transposes: seq<Option<seq<int>>>, fusion: Option<FusionGraph>, elementBytes: seq<nat>)
    requires ThreeDims(transposes) && |elementBytes| == |transposes|
    requires fusion.Some? ==> ValidFusion(fusion.value, |transposes|)
  {
    && AllAgree(transposes, |transposes|)
    && (exists i :: 0 <= i < |transposes| && transposes[i].Some?)
    && (forall i :: 0 <= i < |transposes| && transposes[i].Some? ==>
          transposes[i].value[1] >= MinDimensionToTransposeTiled && transposes[i].value[2] >= MinDimensionToTransposeTiled)
    && var safe := SafeParams(ScanOperands(transposes, |transposes|).params, fusion, |transposes|);
       |safe| > 0 && WithinBudget(TileElements * ElementBytes(elementBytes, safe[0]))
  }

  /** CheckAndEmitHloWithTile021 up to the kernel build: fusion is None for
      a copy. */
  function CheckTile021(transposes: seq<Option<seq<int>>>, fusion: Option<FusionGraph>, elementBytes: seq<nat>): (a: Admission)
    requires ThreeDims(transposes) && |elementBytes| == |transposes|
    requires fusion.Some? ==> ValidFusion(fusion.value, |transposes|)
    ensures !AllAgree(transposes, |transposes|) ==> a == Declined
    ensures (forall i :: 0 <= i < |transposes| ==> transposes[i].None?) ==> a == Declined
    ensures a.Admitted? ==>
              && |a.reducedDims| == 3
              && a.reducedDims[1] >= MinDimensionToTransposeTiled
              && a.reducedDims[2] >= MinDimensionToTransposeTiled
              && |a.params| > 0
              && StrictlyIncreasing(a.params)
              && (forall k :: 0 <= k < |a.params| ==> a.params[k] < |transposes| && transposes[a.params[k]] == Some(a.reducedDims))
              && (forall i :: 0 <= i < |transposes| && transposes[i].Some? ==> transposes[i].value == a.reducedDims)
              && (fusion.Some? ==> forall x :: x in a.params ==> IsSafe(fusion.value.ops, fusion.value.params[x]))
              && WithinBudget(SharedBytes(a.params, elementBytes))
  {
    match ScanOperands(transposes, |transposes|)
    case Conflict => Declined
    case Scanned(reduced, params012) =>
      if reduced.None? then Declined
      else
        assert |reduced.value| == 3 by {
          var i :| 0 <= i < |transposes| && transposes[i].Some?;
        }
        if reduced.value[1] < MinDimensionToTransposeTiled || reduced.value[2] < MinDimensionToTransposeTiled then Declined
        else
          assert forall k :: 0 <= k < |params012| ==> params012[k] in params012;
          var kept := ChooseParams(params012, fusion, elementBytes);
          KeptHaveTranspose(transposes, params012, reduced.value, kept);
          if |kept| == 0 then Declined
          else Admitted(reduced.value, kept)
  }

  /** The admission decision in full: admitted exactly under
      AdmitsTile021, and then with ChooseParams' operands. */
  lemma CheckTile021Decision(transposes: seq<Option<seq<int>>>, fusion: Option<FusionGraph>, elementBytes: seq<nat>)
    requires ThreeDims(transposes) && |elementBytes| == |transposes|
    requires fusion.Some? ==> ValidFusion(fusion.value, |transposes|)
    ensures CheckTile021(transposes, fusion, elementBytes).Admitted? ==> AdmitsTile021(transposes, fusion, elementBytes)
    ensures AdmitsTile021(transposes, fusion, elementBytes) ==> CheckTile021(transposes, fusion, elementBytes).Admitted?
    ensures var a := CheckTile021(transposes, fusion, elementBytes);
            a.Admitted? ==> a.params == ChooseParams(ScanOperands(transposes, |transposes|).params, fusion, elementBytes)
  {
    var scan := ScanOperands(transposes, |transposes|);
    var a := CheckTile021(transposes, fusion, elementBytes);
    if scan.Conflict? {
      assert a == Declined;
    } else if scan.reduced.None? {
      assert a == Declined;
    } else {
      var red := scan.reduced.value;
      var i :| 0 <= i < |transposes| && transposes[i].Some?;
      assert transposes[i].value == red;
      if red[1] >= MinDimensionToTransposeTiled && red[2] >= MinDimensionToTransposeTiled {
        ChooseParamsIsLongestPrefix(scan.params, fusion, elementBytes);
        var kept := ChooseParams(scan.params, fusion, elementBytes);
        assert a == if |kept| == 0 then Declined else Admitted(red, kept);
      } else {
        assert a == Declined;
      }
    }
  }

  /** Too small a minor extent declines the tiled transpose. */
  lemma SmallDimsDecline(transposes: seq<Option<seq<int>>>, fusion: Option<FusionGraph>, elementBytes: seq<nat>, i: nat)
    requires ThreeDims(transposes) && |elementBytes| == |transposes|
    requires fusion.Some? ==> ValidFusion(fusion.value, |transposes|)
    requires i < |transposes| && transposes[i].Some?
    requires transposes[i].value[1] < MinDimensionToTransposeTiled || transposes[i].value[2] < MinDimensionToTransposeTiled
    ensures CheckTile021(transposes, fusion, elementBytes) == Declined
  {
  }

  /** A copy with an agreeing transpose, large enough minor extents and a
      first operand whose tile fits the budget is admitted. */
  lemma CopyAdmitted(transposes: seq<Option<seq<int>>>, elementBytes: seq<nat>, i: nat)
    requires ThreeDims(transposes) && |elementBytes| == |transposes|
    requires AllAgree(transposes, |transposes|)
    requires i < |transposes| && transposes[i].Some?
    requires transposes[i].value[1] >= MinDimensionToTransposeTiled && transposes[i].value[2] >= MinDimensionToTransposeTiled
    requires forall j :: 0 <= j < |transposes| && transposes[j].Some? ==> WithinBudget(TileElements * elementBytes[j])
    ensures CheckTile021(transposes, None, elementBytes).Admitted?
  {
    var s := ScanOperands(transposes, |transposes|);
    assert i in s.params;
    var p := s.params;
    assert p[..1] == [p[0]];
    assert p[..0] == [];
    assert SharedBytes(p[..1], elementBytes) == TileElements * elementBytes[p[0]];
  }
}
