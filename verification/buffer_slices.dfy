/** GetHloBufferSlices and its find_slice_for search: for each sub-buffer
    an instruction touches, a buffer slice plus the tuple indices to
    dereference from it. The buffer assignment is an abstract partial map
    from (instruction, shape index) to the slice it assigns uniquely. */
module BufferSlices {
  import opened Wrappers
  import opened KernelArgs

  /** The facts about one instruction that the search looks at. */
  datatype Instr = Instr(isEffectiveBitcast: bool, isGetTupleElement: bool, tupleIndex: nat, operand: nat)

  type Assignment = map<(nat, seq<nat>), Slice>

  /** Bitcasts and get-tuple-elements read an earlier instruction, so every
      walk up the operand chain ends. */
  predicate WellFormed(g: seq<Instr>) {
    forall p :: 0 <= p < |g| ==>
      && !(g[p].isEffectiveBitcast && g[p].isGetTupleElement)
      && ((g[p].isEffectiveBitcast || g[p].isGetTupleElement) ==> g[p].operand < p)
  }

  /** The buffer that sub-buffer `index` of instruction p really is: a
      bitcast shares its operand's buffer, and sub-buffer idx of
      get-tuple-element i is sub-buffer [i] + idx of its operand. */
  function Canonical(g: seq<Instr>, p: nat, index: seq<nat>): (nat, seq<nat>)
    requires WellFormed(g) && p < |g|
    decreases p
  {
    if g[p].isEffectiveBitcast then Canonical(g, g[p].operand, index)
    else if g[p].isGetTupleElement then Canonical(g, g[p].operand, [g[p].tupleIndex] + index)
    else (p, index)
  }

  /** The outcome of one walk: the instruction whose top-level slice was
      found, or the instruction the walk stopped at; with the gte indices
      collected so far. */
  datatype Walk = Found(owner: nat, gte: seq<nat>) | Stopped(at: nat, gte: seq<nat>)

  /** Walk up effective bitcasts, looking up each parent at the empty index. */
  function BitcastWalk(g: seq<Instr>, assn: Assignment, p: nat): (w: Walk)
    requires WellFormed(g) && p < |g|
    ensures w.gte == []
    ensures w.Found? ==> w.owner < |g| && (w.owner, []) in assn && Canonical(g, w.owner, []) == Canonical(g, p, [])
    ensures w.Stopped? ==> w.at < |g| && !g[w.at].isEffectiveBitcast && Canonical(g, w.at, []) == Canonical(g, p, [])
    ensures w.Stopped? ==> forall idx :: Canonical(g, w.at, idx) == Canonical(g, p, idx)
    decreases p
  {
    if g[p].isEffectiveBitcast then
      var q := g[p].operand;
      if (q, []) in assn then Found(q, []) else BitcastWalk(g, assn, q)
    else Stopped(p, [])
  }

  /** Walk up get-tuple-elements, pushing each tuple index to the front and
      looking up each parent at the empty index. */
  function GteWalk(g: seq<Instr>, assn: Assignment, p: nat, gte: seq<nat>): (w: Walk)
    requires WellFormed(g) && p < |g|
    ensures w.Found? ==> w.owner < |g| && (w.owner, []) in assn && Canonical(g, w.owner, w.gte) == Canonical(g, p, gte)
    ensures w.Stopped? ==> w.at < |g| && !g[w.at].isGetTupleElement && Canonical(g, w.at, w.gte) == Canonical(g, p, gte)
    ensures !g[p].isGetTupleElement ==> w == Stopped(p, gte)
    decreases p
  {
    if g[p].isGetTupleElement then
      var gte' := [g[p].tupleIndex] + gte;
      var q := g[p].operand;
      if (q, []) in assn then Found(q, gte') else GteWalk(g, assn, q, gte')
    else Stopped(p, gte)
  }

  /** Drop the last element of the index, pushing it to the front of the
      gte indices, until the remaining prefix of instr is assigned. The
      result is the longest proper prefix that is assigned. */
  function PrefixWalk(assn: Assignment, instr: nat, index: seq<nat>, gte: seq<nat>): (r: Option<(Slice, seq<nat>)>)
    ensures r.None? <==> forall k :: 0 <= k < |index| ==> (instr, index[..k]) !in assn
    ensures r.Some? ==> exists k :: 0 <= k < |index| && PrefixHit(assn, instr, index, k)
                                    && r.value == (assn[(instr, index[..k])], index[k..] + gte)
    decreases |index|
  {
    if |index| == 0 then None
    else
      var k := |index| - 1;
      var gte' := [index[k]] + gte;
      if (instr, index[..k]) in assn then
        assert PrefixHit(assn, instr, index, k);
        assert index[k..] + gte == gte' by {
          assert index[k..] == [index[k]];
        }
        Some((assn[(instr, index[..k])], gte'))
      else
        var r := PrefixWalk(assn, instr, index[..k], gte');
        assert forall j :: 0 <= j < k ==> index[..k][..j] == index[..j];
        if r.Some? then
          var j :| 0 <= j < k && PrefixHit(assn, instr, index[..k], j) && r.value == (assn[(instr, index[..k][..j])], index[..k][j..] + gte');
          assert PrefixHit(assn, instr, index, j) by {
            assert index[..k][j..] + [index[k]] == index[j..];
            forall i | j < i < |index| ensures (instr, index[..i]) !in assn {
              if i < k { assert index[..k][..i] == index[..i]; }
            }
          }
          assert index[..k][j..] + gte' == index[j..] + gte by {
            assert index[..k][j..] + [index[k]] == index[j..];
          }
          r
        else r
  }

  /** Prefix k of the index is assigned and no longer proper prefix is. */
  predicate PrefixHit(assn: Assignment, instr: nat, index: seq<nat>, k: nat)
    requires k < |index|
  {
    && (instr, index[..k]) in assn
    && forall i :: k < i < |index| ==> (instr, index[..i]) !in assn
  }

  /** find_slice_for: the direct lookup, then the bitcast walk, then the
      get-tuple-element walk, then the index-prefix walk. The gte indices
      the get-tuple-element walk collected are not cleared before the
      prefix walk. */
  function FindSliceFor(g: seq<Instr>, assn: Assignment, instr: nat, index: seq<nat>): (r: Option<(Slice, seq<nat>)>)
    requires WellFormed(g) && instr < |g|
    ensures (instr, index) in assn ==> r == Some((assn[(instr, index)], []))
    ensures r.Some? ==> r.value.0 in assn.Values
  {
    if (instr, index) in assn then Some((assn[(instr, index)], []))
    else
      match BitcastWalk(g, assn, instr)
      case Found(q, gte) => Some((assn[(q, [])], gte))
      case Stopped(p, _) =>
        match GteWalk(g, assn, p, [])
        case Found(q, gte) => Some((assn[(q, [])], gte))
        case Stopped(_, gte) =>
          var r := PrefixWalk(assn, instr, index, gte);
          assert r.Some? ==> r.value.0 in assn.Values by {
            if r.Some? {
              var k :| 0 <= k < |index| && PrefixHit(assn, instr, index, k) && r.value == (assn[(instr, index[..k])], index[k..] + gte);
            }
          }
          r
  }

  /** A result (s, gte) is right when s is the slice assigned to some
      sub-buffer from which dereferencing gte reaches the requested buffer. */
  ghost predicate Justified(g: seq<Instr>, assn: Assignment, instr: nat, index: seq<nat>, s: Slice, gte: seq<nat>)
    requires WellFormed(g) && instr < |g|
  {
    exists q: nat, qi: seq<nat> :: q < |g| && (q, qi) in assn && assn[(q, qi)] == s
                                   && Canonical(g, q, qi + gte) == Canonical(g, instr, index)
  }

  /** Every top-level buffer (shape index {}) that find_slice_for resolves
      is resolved correctly. */
  lemma FindSliceForSoundAtTopLevel(g: seq<Instr>, assn: Assignment, instr: nat)
    requires WellFormed(g) && instr < |g|
    ensures FindSliceFor(g, assn, instr, []).Some? ==>
              Justified(g, assn, instr, [], FindSliceFor(g, assn, instr, []).value.0, FindSliceFor(g, assn, instr, []).value.1)
  {
    var r := FindSliceFor(g, assn, instr, []);
    if (instr, []) in assn {
      var empty: seq<nat> := [];
      assert empty + empty == empty;
    } else {
      match BitcastWalk(g, assn, instr)
      case Found(q, gte) =>
        assert [] + gte == gte;
      case Stopped(p, _) =>
        match GteWalk(g, assn, p, [])
        case Found(q, gte) =>
          assert [] + gte == gte;
        case Stopped(_, gte) =>
      }
  }

  /** For an instruction that is neither a bitcast nor a get-tuple-element,
      every sub-buffer that find_slice_for resolves is resolved correctly. */
  lemma FindSliceForSoundOnPlainInstr(g: seq<Instr>, assn: Assignment, instr: nat, index: seq<nat>)
    requires WellFormed(g) && instr < |g|
    requires !g[instr].isEffectiveBitcast && !g[instr].isGetTupleElement
    ensures FindSliceFor(g, assn, instr, index).Some? ==>
              Justified(g, assn, instr, index, FindSliceFor(g, assn, instr, index).value.0, FindSliceFor(g, assn, instr, index).value.1)
  {
    var r := FindSliceFor(g, assn, instr, index);
    if (instr, index) in assn {
      assert index + [] == index;
    } else if r.Some? {
      assert BitcastWalk(g, assn, instr) == Stopped(instr, []);
      assert GteWalk(g, assn, instr, []) == Stopped(instr, []);
      var k :| 0 <= k < |index| && PrefixHit(assn, instr, index, k) && r.value == (assn[(instr, index[..k])], index[k..] + []);
      assert index[..k] + index[k..] == index;
      assert index[k..] + [] == index[k..];
    }
  }

  /** Neither the bitcast walk nor the get-tuple-element walk finds a
      slice, so the answer, if any, comes from the index-prefix walk. */
  predicate WalksStop(g: seq<Instr>, assn: Assignment, instr: nat)
    requires WellFormed(g) && instr < |g|
  {
    match BitcastWalk(g, assn, instr)
    case Found(_, _) => false
    case Stopped(p, _) => GteWalk(g, assn, p, []).Stopped?
  }

  /** The stale gte indices make a wrong answer. Instruction 1 is
      get-tuple-element 1 of instruction 0, and only its own top-level
      buffer is assigned. The get-tuple-element walk fails with gte
      indices [1]; the prefix walk then pushes the dropped index 0 in front
      of them. Sub-buffer [0] is therefore reported at [0, 1] of that slice
      instead of [0], and no assigned sub-buffer justifies that answer. */
  lemma PrefixWalkKeepsGteIndices(s: Slice)
    ensures var g := [Instr(false, false, 0, 0), Instr(false, true, 1, 0)];
            var assn := map[(1, []) := s];
            && WalksStop(g, assn, 1)
            && FindSliceFor(g, assn, 1, [0]) == Some((s, [0, 1]))
            && !Justified(g, assn, 1, [0], s, [0, 1])
  {
    var g := [Instr(false, false, 0, 0), Instr(false, true, 1, 0)];
    var assn := map[(1, []) := s];
    assert BitcastWalk(g, assn, 1) == Stopped(1, []);
    assert GteWalk(g, assn, 0, [1]) == Stopped(0, [1]);
    assert GteWalk(g, assn, 1, []) == Stopped(0, [1]);
    assert [0][..0] == [];
    assert (1, [0][..0]) in assn;
    assert [0] + [1] == [0, 1];
    assert PrefixWalk(assn, 1, [0], [1]) == Some((s, [0, 1]));
    ZeroOneUnjustified(s);
  }

  /** The answer [0, 1] of PrefixWalkKeepsGteIndices names sub-buffer
      {1, 0, 1} of instruction 0, not the requested {1, 0}. */
  lemma ZeroOneUnjustified(s: Slice)
    ensures var g := [Instr(false, false, 0, 0), Instr(false, true, 1, 0)];
            !Justified(g, map[(1, []) := s], 1, [0], s, [0, 1])
  {
    var g := [Instr(false, false, 0, 0), Instr(false, true, 1, 0)];
    var assn := map[(1, []) := s];
    assert [1] + [0] == [1, 0];
    assert Canonical(g, 1, [0]) == Canonical(g, 0, [1, 0]) == (0, [1, 0]);
    forall q: nat, qi: seq<nat> | q < |g| && (q, qi) in assn && assn[(q, qi)] == s
      ensures Canonical(g, q, qi + [0, 1]) != Canonical(g, 1, [0])
    {
      assert q == 1 && qi == [];
      assert [] + [0, 1] == [0, 1];
      assert [1] + [0, 1] == [1, 0, 1];
      assert Canonical(g, 1, [0, 1]) == Canonical(g, 0, [1, 0, 1]) == (0, [1, 0, 1]);
    }
  }

  /** find_slice_for with the gte indices cleared before the index-prefix
      walk, as the prefix walk's own comment describes: the dropped suffix
      of the index, and nothing else, is dereferenced. */
  function FindSliceForCorrected(g: seq<Instr>, assn: Assignment, instr: nat, index: seq<nat>): (r: Option<(Slice, seq<nat>)>)
    requires WellFormed(g) && instr < |g|
    ensures (instr, index) in assn ==> r == Some((assn[(instr, index)], []))
    ensures !WalksStop(g, assn, instr) && (instr, index) !in assn ==> r == FindSliceFor(g, assn, instr, index)
    ensures r.Some? ==> r.value.0 in assn.Values
  {
    if (instr, index) in assn then Some((assn[(instr, index)], []))
    else if WalksStop(g, assn, instr) then
      var r := PrefixWalk(assn, instr, index, []);
      assert r.Some? ==> r.value.0 in assn.Values by {
        if r.Some? {
          var k :| 0 <= k < |index| && PrefixHit(assn, instr, index, k) && r.value == (assn[(instr, index[..k])], index[k..] + []);
        }
      }
      r
    else FindSliceFor(g, assn, instr, index)
  }

  /** The corrected search is right for every top-level buffer and for
      every sub-buffer it answers through the index-prefix walk, the case
      where the search as written goes wrong. */
  lemma FindSliceForCorrectedSound(g: seq<Instr>, assn: Assignment, instr: nat, index: seq<nat>)
    requires WellFormed(g) && instr < |g|
    ensures var r := FindSliceForCorrected(g, assn, instr, index);
            r.Some? && (index == [] || WalksStop(g, assn, instr)) ==>
              Justified(g, assn, instr, index, r.value.0, r.value.1)
  {
    var r := FindSliceForCorrected(g, assn, instr, index);
    if r.Some? {
      if (instr, index) in assn {
        assert index + [] == index;
      } else if WalksStop(g, assn, instr) {
        var k :| 0 <= k < |index| && PrefixHit(assn, instr, index, k) && r.value == (assn[(instr, index[..k])], index[k..] + []);
        assert index[..k] + (index[k..] + []) == index;
      } else {
        FindSliceForSoundAtTopLevel(g, assn, instr);
      }
    }
  }

  // ---------------------------------------------------------------------
  // Collecting the slices of an instruction and its operands
  // ---------------------------------------------------------------------

  /** HloBufferSlice: which sub-buffer, and where it lives. */
  datatype HloBufferSlice = HloBufferSlice(instr: nat, hloIndex: seq<nat>, bufferSlice: Slice, gteIndex: seq<nat>)

  function Key(h: HloBufferSlice): (nat, seq<nat>) {
    (h.instr, h.hloIndex)
  }

  predicate VisitsInGraph(g: seq<Instr>, visits: seq<(nat, seq<nat>)>) {
    forall v :: v in visits ==> v.0 < |g|
  }

  /** The add_slices_for loop over the sub-buffers of the instruction and
      then of each operand, in `visits` order, with `find` resolving each
      one: a sub-buffer seen before is skipped, an unresolved one is
      dropped. */
  function CollectSlices(visits: seq<(nat, seq<nat>)>, find: ((nat, seq<nat>)) -> Option<(Slice, seq<nat>)>): (r: seq<HloBufferSlice>)
    ensures forall i, j :: 0 <= i < j < |r| ==> Key(r[i]) != Key(r[j])
    ensures forall k :: 0 <= k < |r| ==> Key(r[k]) in visits && find(Key(r[k])) == Some((r[k].bufferSlice, r[k].gteIndex))
    ensures forall v :: v in visits && find(v).Some? ==> exists k :: 0 <= k < |r| && Key(r[k]) == v
    decreases |visits|
  {
    if |visits| == 0 then []
    else
      var n := |visits| - 1;
      var prev := CollectSlices(visits[..n], find);
      var v := visits[n];
      assert visits == visits[..n] + [v];
      var found := find(v);
      if v in visits[..n] || found.None? then prev
      else
        var h := HloBufferSlice(v.0, v.1, found.value.0, found.value.1);
        assert forall k :: 0 <= k < |prev| ==> Key(prev[k]) != Key(h);
        var r := prev + [h];
        assert Key(r[|prev|]) == v;
        assert forall k :: 0 <= k < |prev| ==> r[k] == prev[k];
        r
  }

  /** GetHloBufferSlices: one entry per distinct sub-buffer that
      find_slice_for, as written, resolves, in visiting order. */
  function GetHloBufferSlices(g: seq<Instr>, assn: Assignment, visits: seq<(nat, seq<nat>)>): (r: seq<HloBufferSlice>)
    requires WellFormed(g) && VisitsInGraph(g, visits)
    ensures forall i, j :: 0 <= i < j < |r| ==> Key(r[i]) != Key(r[j])
    ensures forall k :: 0 <= k < |r| ==>
              && Key(r[k]) in visits
              && r[k].instr < |g|
              && FindSliceFor(g, assn, r[k].instr, r[k].hloIndex) == Some((r[k].bufferSlice, r[k].gteIndex))
    ensures forall v :: v in visits && FindSliceFor(g, assn, v.0, v.1).Some? ==>
              exists k :: 0 <= k < |r| && Key(r[k]) == v
  {
    CollectSlices(visits, (v: (nat, seq<nat>)) => if v.0 < |g| then FindSliceFor(g, assn, v.0, v.1) else None)
  }

  /** The same collection over the corrected search, which clears the gte
      indices before the prefix walk: every entry is then justified by an
      assigned sub-buffer. */
  function GetHloBufferSlicesCorrected(g: seq<Instr>, assn: Assignment, visits: seq<(nat, seq<nat>)>): (r: seq<HloBufferSlice>)
    requires WellFormed(g) && VisitsInGraph(g, visits)
    ensures forall i, j :: 0 <= i < j < |r| ==> Key(r[i]) != Key(r[j])
    ensures forall k :: 0 <= k < |r| ==>
              && Key(r[k]) in visits
              && r[k].instr < |g|
              && FindSliceForCorrected(g, assn, r[k].instr, r[k].hloIndex) == Some((r[k].bufferSlice, r[k].gteIndex))
    ensures forall v :: v in visits && FindSliceForCorrected(g, assn, v.0, v.1).Some? ==>
              exists k :: 0 <= k < |r| && Key(r[k]) == v
  {
    CollectSlices(visits, (v: (nat, seq<nat>)) => if v.0 < |g| then FindSliceForCorrected(g, assn, v.0, v.1) else None)
  }

  /** Every top-level entry of the corrected collection, and every entry
      answered through the index-prefix walk, is justified by an assigned
      sub-buffer. */
  lemma GetHloBufferSlicesCorrectedSound(g: seq<Instr>, assn: Assignment, visits: seq<(nat, seq<nat>)>)
    requires WellFormed(g) && VisitsInGraph(g, visits)
    ensures var r := GetHloBufferSlicesCorrected(g, assn, visits);
            forall k :: 0 <= k < |r| && (r[k].hloIndex == [] || WalksStop(g, assn, r[k].instr)) ==>
              Justified(g, assn, r[k].instr, r[k].hloIndex, r[k].bufferSlice, r[k].gteIndex)
  {
    var r := GetHloBufferSlicesCorrected(g, assn, visits);
    forall k | 0 <= k < |r| && (r[k].hloIndex == [] || WalksStop(g, assn, r[k].instr))
      ensures Justified(g, assn, r[k].instr, r[k].hloIndex, r[k].bufferSlice, r[k].gteIndex)
    {
      FindSliceForCorrectedSound(g, assn, r[k].instr, r[k].hloIndex);
    }
  }
}
