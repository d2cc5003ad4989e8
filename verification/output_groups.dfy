/** DivideOutputInstructionsIntoGroups: the outputs of a multi-output
    reduction fusion are split into groups that run in parallel.  Two
    outputs are joined whenever one fused instruction reaches both, except
    that a (broadcast of a) constant or scalar does not join reduce
    outputs.  Groups come out of a hash map, so they form a set. */
module OutputGroups {

  /** The facts IsBroadcastedConstantOrScalar looks at. */
  datatype InstrShape = InstrShape(
    isConstant: bool,
    isScalar: bool,
    isBroadcast: bool,
    operandIsConstant: bool,
    operandIsScalar: bool)

  predicate IsBroadcastedConstantOrScalar(i: InstrShape) {
    i.isConstant || i.isScalar || (i.isBroadcast && (i.operandIsConstant || i.operandIsScalar))
  }

  /** A fused instruction and the set of output ids it reaches in the
      fusion's reachability map. */
  datatype FusedInstr = FusedInstr(shape: InstrShape, reaches: set<nat>)

  /** Whether instr joins output oid: it reaches oid, and it is not a
      broadcast constant or scalar feeding a reduce output. */
  predicate Joins(instr: FusedInstr, outputIsReduce: seq<bool>, oid: nat)
    requires oid < |outputIsReduce|
  {
    !(outputIsReduce[oid] && IsBroadcastedConstantOrScalar(instr.shape)) && oid in instr.reaches
  }

  /** reached_output_ids over the first n outputs, in increasing order. */
  function ReachedPrefix(instr: FusedInstr, outputIsReduce: seq<bool>, n: nat): (r: seq<nat>)
    requires n <= |outputIsReduce|
    ensures forall k :: 0 <= k < |r| ==> r[k] < n
    ensures forall o: nat :: o < n ==> (o in r <==> Joins(instr, outputIsReduce, o))
  {
    if n == 0 then []
    else
      var prev := ReachedPrefix(instr, outputIsReduce, n - 1);
      if Joins(instr, outputIsReduce, n - 1) then prev + [n - 1] else prev
  }

  function Reached(instr: FusedInstr, outputIsReduce: seq<bool>): (r: seq<nat>)
    ensures forall k :: 0 <= k < |r| ==> r[k] < |outputIsReduce|
  {
    ReachedPrefix(instr, outputIsReduce, |outputIsReduce|)
  }

  // The union-find is represented by a label per output; merging two sets
  // relabels every member of the second with the label of the first.

  function Relabel(labels: seq<nat>, from: nat, to: nat): (r: seq<nat>)
    ensures |r| == |labels|
    ensures forall i :: 0 <= i < |r| ==> r[i] == (if labels[i] == from then to else labels[i])
  {
    seq(|labels|, i requires 0 <= i < |labels| => if labels[i] == from then to else labels[i])
  }

  /** disjoint_sets[a].Merge(&disjoint_sets[b]). */
  function Merge(labels: seq<nat>, a: nat, b: nat): (r: seq<nat>)
    requires a < |labels| && b < |labels|
    ensures |r| == |labels|
    ensures r[a] == r[b] && r[a] == labels[a]
    ensures forall i, j :: 0 <= i < |labels| && 0 <= j < |labels| && labels[i] == labels[j] ==> r[i] == r[j]
  {
    Relabel(labels, labels[b], labels[a])
  }

  /** Merges reached[0] with reached[1..n]. */
  function MergeReached(labels: seq<nat>, reached: seq<nat>, n: nat): (r: seq<nat>)
    requires 1 <= n <= |reached|
    requires forall k :: 0 <= k < |reached| ==> reached[k] < |labels|
    ensures |r| == |labels|
    ensures forall k :: 0 <= k < n ==> r[reached[k]] == r[reached[0]]
    ensures forall i, j :: 0 <= i < |labels| && 0 <= j < |labels| && labels[i] == labels[j] ==> r[i] == r[j]
  {
    if n == 1 then labels
    else Merge(MergeReached(labels, reached, n - 1), reached[0], reached[n - 1])
  }

  function JoinInstr(labels: seq<nat>, instr: FusedInstr, outputIsReduce: seq<bool>): (r: seq<nat>)
    requires |labels| == |outputIsReduce|
    ensures |r| == |labels|
  {
    var reached := Reached(instr, outputIsReduce);
    if |reached| == 0 then labels else MergeReached(labels, reached, |reached|)
  }

  /** The labels after visiting the first n fused instructions. */
  function LabelsAfter(outputIsReduce: seq<bool>, instrs: seq<FusedInstr>, n: nat): (r: seq<nat>)
    requires n <= |instrs|
    ensures |r| == |outputIsReduce|
  {
    if n == 0 then seq(|outputIsReduce|, i requires 0 <= i < |outputIsReduce| => i)
    else JoinInstr(LabelsAfter(outputIsReduce, instrs, n - 1), instrs[n - 1], outputIsReduce)
  }

  /** The outputs whose label is that of output o. */
  function GroupOf(labels: seq<nat>, o: nat): set<nat>
    requires o < |labels|
  {
    set i: nat | i < |labels| && labels[i] == labels[o]
  }

  function Groups(labels: seq<nat>): set<set<nat>> {
    set o: nat | o < |labels| :: GroupOf(labels, o)
  }

  /** Whether two outputs are in the same group. */
  predicate Together(groups: set<set<nat>>, i: nat, j: nat) {
    exists g :: g in groups && i in g && j in g
  }

  /** The groups partition the outputs 0..n-1. */
  predicate IsPartition(groups: set<set<nat>>, n: nat) {
    && (forall g :: g in groups ==> g != {} && forall i :: i in g ==> i < n)
    && (forall i: nat :: i < n ==> Together(groups, i, i))
    && (forall g1, g2, i :: g1 in groups && g2 in groups && i in g1 && i in g2 ==> g1 == g2)
  }

  /** A labelling in which the joined outputs of each of the first n fused
      instructions agree. */
  predicate AgreesOnJoins(labels: seq<int>, outputIsReduce: seq<bool>, instrs: seq<FusedInstr>, n: nat)
    requires |labels| == |outputIsReduce| && n <= |instrs|
  {
    forall p, o1: nat, o2: nat ::
      (0 <= p < n && o1 < |labels| && o2 < |labels|
       && Joins(instrs[p], outputIsReduce, o1) && Joins(instrs[p], outputIsReduce, o2)) ==> labels[o1] == labels[o2]
  }

  predicate RespectsJoins(labels: seq<int>, outputIsReduce: seq<bool>, instrs: seq<FusedInstr>)
    requires |labels| == |outputIsReduce|
  {
    AgreesOnJoins(labels, outputIsReduce, instrs, |instrs|)
  }

  /** DivideOutputInstructionsIntoGroups, on output ids. */
  function DivideOutputsIntoGroups(outputIsReduce: seq<bool>, instrs: seq<FusedInstr>): (r: set<set<nat>>)
    requires |outputIsReduce| >= 1
    ensures IsPartition(r, |outputIsReduce|)
    ensures forall p, o1: nat, o2: nat ::
              (0 <= p < |instrs| && o1 < |outputIsReduce| && o2 < |outputIsReduce|
               && Joins(instrs[p], outputIsReduce, o1) && Joins(instrs[p], outputIsReduce, o2)) ==> Together(r, o1, o2)
  {
    if |outputIsReduce| == 1 then
      assert {0} in {{0}};
      {{0}}
    else
      var labels := LabelsAfter(outputIsReduce, instrs, |instrs|);
      GroupsPartition(labels);
      FinalLabelsRespectJoins(outputIsReduce, instrs);
      Groups(labels)
  }

  lemma GroupsPartition(labels: seq<nat>)
    ensures IsPartition(Groups(labels), |labels|)
    ensures forall i: nat, j: nat :: i < |labels| && j < |labels| ==>
              (Together(Groups(labels), i, j) <==> labels[i] == labels[j])
  {
    var gs := Groups(labels);
    forall i: nat | i < |labels| ensures Together(gs, i, i) {
      assert GroupOf(labels, i) in gs;
    }
    forall i: nat, j: nat | i < |labels| && j < |labels|
      ensures Together(gs, i, j) <==> labels[i] == labels[j]
    {
      if labels[i] == labels[j] {
        assert GroupOf(labels, i) in gs && i in GroupOf(labels, i) && j in GroupOf(labels, i);
      }
    }
    forall g | g in gs ensures g != {} {
      var o: nat :| o < |labels| && g == GroupOf(labels, o);
      assert o in g;
    }
  }

  /** Later merges keep earlier joins: the labels of the first n
      instructions' joined outputs agree. */
  lemma {:induction false} LabelsAfterJoin(outputIsReduce: seq<bool>, instrs: seq<FusedInstr>, n: nat)
    requires n <= |instrs|
    ensures AgreesOnJoins(LabelsAfter(outputIsReduce, instrs, n), outputIsReduce, instrs, n)
  {
    if n > 0 {
      LabelsAfterJoin(outputIsReduce, instrs, n - 1);
      var prev := LabelsAfter(outputIsReduce, instrs, n - 1);
      var labels := LabelsAfter(outputIsReduce, instrs, n);
      var reached := Reached(instrs[n - 1], outputIsReduce);
      forall p, o1: nat, o2: nat | 0 <= p < n && o1 < |labels| && o2 < |labels|
        && Joins(instrs[p], outputIsReduce, o1) && Joins(instrs[p], outputIsReduce, o2)
        ensures labels[o1] == labels[o2]
      {
        if p < n - 1 {
          assert prev[o1] == prev[o2];
        } else {
          assert o1 in reached;
          var k1 :| 0 <= k1 < |reached| && reached[k1] == o1;
          var k2 :| 0 <= k2 < |reached| && reached[k2] == o2;
        }
      }
    }
  }

  lemma FinalLabelsRespectJoins(outputIsReduce: seq<bool>, instrs: seq<FusedInstr>)
    ensures RespectsJoins(LabelsAfter(outputIsReduce, instrs, |instrs|), outputIsReduce, instrs)
  {
    LabelsAfterJoin(outputIsReduce, instrs, |instrs|);
  }

  /** Nothing is joined without cause: two outputs with the same label
      agree in every labelling that respects the joins. */
  lemma {:induction false} LabelsAfterFinest(outputIsReduce: seq<bool>, instrs: seq<FusedInstr>, n: nat, other: seq<int>)
    requires n <= |instrs|
    requires |other| == |outputIsReduce|
    requires RespectsJoins(other, outputIsReduce, instrs)
    ensures var labels := LabelsAfter(outputIsReduce, instrs, n);
            forall i, j :: 0 <= i < |labels| && 0 <= j < |labels| && labels[i] == labels[j] ==> other[i] == other[j]
  {
    if n > 0 {
      LabelsAfterFinest(outputIsReduce, instrs, n - 1, other);
      var prev := LabelsAfter(outputIsReduce, instrs, n - 1);
      var reached := Reached(instrs[n - 1], outputIsReduce);
      if |reached| > 0 {
        MergeReachedFinest(prev, reached, |reached|, other);
        forall k | 0 <= k < |reached| ensures other[reached[k]] == other[reached[0]] {
          assert Joins(instrs[n - 1], outputIsReduce, reached[k]);
          assert Joins(instrs[n - 1], outputIsReduce, reached[0]);
        }
      }
    }
  }

  lemma {:induction false} MergeReachedFinest(labels: seq<nat>, reached: seq<nat>, n: nat, other: seq<int>)
    requires 1 <= n <= |reached|
    requires forall k :: 0 <= k < |reached| ==> reached[k] < |labels|
    requires |other| == |labels|
    requires forall i, j :: 0 <= i < |labels| && 0 <= j < |labels| && labels[i] == labels[j] ==> other[i] == other[j]
    requires forall k :: 0 <= k < |reached| ==> other[reached[k]] == other[reached[0]]
    ensures var r := MergeReached(labels, reached, n);
            forall i, j :: 0 <= i < |r| && 0 <= j < |r| && r[i] == r[j] ==> other[i] == other[j]
  {
    if n > 1 {
      MergeReachedFinest(labels, reached, n - 1, other);
    }
  }

  /** The groups are the finest ones joining every fused instruction's
      joined outputs: any labelling that respects the joins is constant on
      each group. */
  lemma GroupsAreFinest(outputIsReduce: seq<bool>, instrs: seq<FusedInstr>, other: seq<int>, i: nat, j: nat)
    requires |outputIsReduce| >= 1
    requires |other| == |outputIsReduce|
    requires RespectsJoins(other, outputIsReduce, instrs)
    requires i < |outputIsReduce| && j < |outputIsReduce|
    requires Together(DivideOutputsIntoGroups(outputIsReduce, instrs), i, j)
    ensures other[i] == other[j]
  {
    if |outputIsReduce| > 1 {
      var labels := LabelsAfter(outputIsReduce, instrs, |instrs|);
      GroupsPartition(labels);
      LabelsAfterFinest(outputIsReduce, instrs, |instrs|, other);
    }
  }
}
