/** The window search of select-and-scatter: for one source coordinate S,
    every window position W gives the operand index I = S*stride + W - pad,
    out-of-bounds indices are skipped, the first in-bounds one is taken,
    and a later one replaces the current choice whenever select(current,
    candidate) is false.  The select computation is an arbitrary relation. */
module SelectAndScatter {
  import opened Wrappers
  import opened Arith

  /** The window attributes of the op: window extents, strides, and the
      elements of the padding attribute, paired with the strides axis by
      axis and subtracted as the low padding of that axis. */
  datatype WindowAttrs = WindowAttrs(dims: seq<nat>, strides: seq<int>, padding: seq<int>)

  /** One entry per operand axis, and every window extent positive (the
      emitter CHECKs the extents). */
  predicate WellFormedWindow(win: WindowAttrs, rank: nat) {
    && |win.dims| == |win.strides| == |win.padding| == rank
    && forall i :: 0 <= i < rank ==> win.dims[i] >= 1
  }

  /** I = S * stride + W - padding on every axis. */
  function OperandIndex(source: seq<int>, window: seq<int>, win: WindowAttrs): (r: seq<int>)
    requires |window| == |win.strides| == |win.padding| == |source|
    ensures |r| == |source|
  {
    seq(|source|, i requires 0 <= i < |source| => source[i] * win.strides[i] + window[i] - win.padding[i])
  }

  /** The emitter's bounds test: one unsigned compare per axis. */
  predicate InBounds(index: seq<int>, operandDims: seq<nat>, w: IndexWidth)
    requires |index| == |operandDims|
  {
    forall i :: 0 <= i < |index| ==> UnsignedLess(index[i], operandDims[i], w)
  }

  /** For indices that fit the index width, the unsigned test is the
      two-sided test 0 <= I < extent on every axis. */
  lemma InBoundsIsRangeCheck(index: seq<int>, operandDims: seq<nat>, w: IndexWidth)
    requires |index| == |operandDims|
    requires forall i :: 0 <= i < |index| ==> -(HalfModulus(w) as int) <= index[i] < HalfModulus(w)
    requires forall i :: 0 <= i < |index| ==> operandDims[i] <= HalfModulus(w)
    ensures InBounds(index, operandDims, w) <==> forall i :: 0 <= i < |index| ==> 0 <= index[i] < operandDims[i]
  {
    forall i | 0 <= i < |index| {
      UnsignedLessIsRangeCheck(index[i], operandDims[i], w);
    }
  }

  // ---------------------------------------------------------------------
  // The window loop nest: row-major order, axis 0 outermost
  // ---------------------------------------------------------------------

  predicate InWindow(w: seq<int>, dims: seq<nat>) {
    |w| == |dims| && forall i :: 0 <= i < |w| ==> 0 <= w[i] < dims[i]
  }

  predicate PositiveExtents(dims: seq<nat>) {
    forall i :: 0 <= i < |dims| ==> dims[i] >= 1
  }

  /** The iteration number at which the loop nest over `dims` reaches the
      window index w: axis 0 varies slowest, the last axis fastest. */
  function Linearize(w: seq<int>, dims: seq<nat>): int
    requires |w| == |dims|
  {
    if |w| == 0 then 0 else w[0] * Product(dims[1..]) + Linearize(w[1..], dims[1..])
  }

  /** How many whole blocks of d fit into p, and what is left over: the
      mixed-radix digit split, by repeated subtraction. */
  function Quot(p: nat, d: nat): nat
    requires d >= 1
    decreases p
  {
    if p < d then 0 else 1 + Quot(p - d, d)
  }

  function Rem(p: nat, d: nat): nat
    requires d >= 1
    decreases p
  {
    if p < d then p else Rem(p - d, d)
  }

  lemma {:induction false} QuotRem(p: nat, d: nat)
    requires d >= 1
    ensures Quot(p, d) * d + Rem(p, d) == p && Rem(p, d) < d
    decreases p
  {
    if p >= d {
      QuotRem(p - d, d);
      assert (1 + Quot(p - d, d)) * d == Quot(p - d, d) * d + d;
    }
  }

  /** The split is the only one with a remainder below d. */
  lemma QuotRemUnique(p: nat, d: nat, q: int, r: int)
    requires d >= 1 && 0 <= r < d && p == q * d + r
    ensures Quot(p, d) == q && Rem(p, d) == r
  {
    QuotRem(p, d);
    DivModUnique(p, d, q, r);
    DivModUnique(p, d, Quot(p, d), Rem(p, d));
  }

  /** p < k * d leaves fewer than k whole blocks of d. */
  lemma QuotBelow(p: nat, d: nat, k: nat)
    requires d >= 1 && p < k * d
    ensures Quot(p, d) < k
  {
    QuotRem(p, d);
    if Quot(p, d) >= k {
      MulMonotone(Quot(p, d), k, d);
    }
  }

  /** The window index the loop nest visits at iteration p. */
  function Delinearize(p: nat, dims: seq<nat>): (w: seq<int>)
    requires PositiveExtents(dims)
    ensures |w| == |dims|
    decreases |dims|
  {
    if |dims| == 0 then []
    else
      ProductPositive(dims[1..]);
      var inner := Product(dims[1..]);
      [Quot(p, inner)] + Delinearize(Rem(p, inner), dims[1..])
  }

  lemma {:induction false} ProductPositive(dims: seq<nat>)
    requires PositiveExtents(dims)
    ensures Product(dims) >= 1
  {
    if |dims| > 0 {
      ProductPositive(dims[1..]);
      MulMonotone(dims[0], 1, Product(dims[1..]));
    }
  }

  /** Iteration p < Product(dims) visits an index inside the window, and
      that index is reached at iteration p. */
  lemma DelinearizeRoundTrip(p: nat, dims: seq<nat>)
    requires PositiveExtents(dims) && p < Product(dims)
    ensures InWindow(Delinearize(p, dims), dims)
    ensures Linearize(Delinearize(p, dims), dims) == p
  {
    DelinearizeInWindow(p, dims);
    DelinearizeLinearize(p, dims);
  }

  lemma {:induction false} DelinearizeInWindow(p: nat, dims: seq<nat>)
    requires PositiveExtents(dims) && p < Product(dims)
    ensures InWindow(Delinearize(p, dims), dims)
    decreases |dims|
  {
    if |dims| > 0 {
      ProductPositive(dims[1..]);
      var inner := Product(dims[1..]);
      var q := Quot(p, inner);
      var m := Rem(p, inner);
      QuotRem(p, inner);
      QuotBelow(p, inner, dims[0]);
      DelinearizeInWindow(m, dims[1..]);
      var tail := Delinearize(m, dims[1..]);
      assert Delinearize(p, dims) == [q] + tail;
      ConsInWindow(q, tail, dims);
    }
  }

  lemma ConsInWindow(x: int, tail: seq<int>, dims: seq<nat>)
    requires |dims| > 0 && 0 <= x < dims[0] && InWindow(tail, dims[1..])
    ensures InWindow([x] + tail, dims)
  {
    var w := [x] + tail;
    forall i | 0 <= i < |w| ensures 0 <= w[i] < dims[i] {
      if i > 0 { assert w[i] == tail[i - 1]; }
    }
  }

  lemma {:induction false} DelinearizeLinearize(p: nat, dims: seq<nat>)
    requires PositiveExtents(dims) && p < Product(dims)
    ensures Linearize(Delinearize(p, dims), dims) == p
    decreases |dims|
  {
    if |dims| > 0 {
      ProductPositive(dims[1..]);
      var inner := Product(dims[1..]);
      var q := Quot(p, inner);
      var m := Rem(p, inner);
      QuotRem(p, inner);
      DelinearizeLinearize(m, dims[1..]);
      var w := Delinearize(p, dims);
      var tail := Delinearize(m, dims[1..]);
      assert w == [q] + tail;
      assert w[1..] == tail;
      assert Linearize(w, dims) == q * inner + m;
    }
  }

  /** Every index inside the window is visited, at an iteration below
      Product(dims), and at no other iteration. */
  lemma LinearizeRoundTrip(w: seq<int>, dims: seq<nat>)
    requires PositiveExtents(dims) && InWindow(w, dims)
    ensures 0 <= Linearize(w, dims) < Product(dims)
    ensures Delinearize(Linearize(w, dims), dims) == w
  {
    LinearizeBelow(w, dims);
    LinearizeDelinearize(w, dims);
  }

  lemma {:induction false} LinearizeBelow(w: seq<int>, dims: seq<nat>)
    requires PositiveExtents(dims) && InWindow(w, dims)
    ensures 0 <= Linearize(w, dims) < Product(dims)
    decreases |w|
  {
    if |w| > 0 {
      ProductPositive(dims[1..]);
      var inner := Product(dims[1..]);
      LinearizeBelow(w[1..], dims[1..]);
      DigitBelow(w[0], dims[0], inner, Linearize(w[1..], dims[1..]));
    }
  }

  lemma {:induction false} LinearizeDelinearize(w: seq<int>, dims: seq<nat>)
    requires PositiveExtents(dims) && InWindow(w, dims)
    ensures Linearize(w, dims) >= 0
    ensures Delinearize(Linearize(w, dims), dims) == w
    decreases |w|
  {
    LinearizeBelow(w, dims);
    if |w| > 0 {
      ProductPositive(dims[1..]);
      var inner := Product(dims[1..]);
      var rest := Linearize(w[1..], dims[1..]);
      LinearizeBelow(w[1..], dims[1..]);
      LinearizeDelinearize(w[1..], dims[1..]);
      var p := Linearize(w, dims);
      QuotRemUnique(p, inner, w[0], rest);
      assert Delinearize(p, dims) == [w[0]] + Delinearize(rest, dims[1..]);
      assert [w[0]] + w[1..] == w;
    }
  }

  /** A leading digit a < d over a remainder below inner stays below
      d * inner. */
  lemma DigitBelow(a: int, d: int, inner: int, rest: int)
    requires 0 <= a < d && 0 <= rest < inner
    ensures 0 <= a * inner + rest < d * inner
  {
    MulMonotone(a, 0, inner);
    MulMonotone(d - 1, a, inner);
    assert (d - 1) * inner + inner == d * inner;
  }

  /** The window positions in the order the loop nest visits them. */
  function WindowOrder(dims: seq<nat>): (r: seq<seq<int>>)
    requires PositiveExtents(dims)
    ensures |r| == Product(dims)
    ensures forall p :: 0 <= p < |r| ==> InWindow(r[p], dims) && Linearize(r[p], dims) == p
  {
    var r := seq(Product(dims), p requires 0 <= p < Product(dims) => Delinearize(p, dims));
    assert forall p :: 0 <= p < |r| ==> r[p] == Delinearize(p, dims);
    forall p | 0 <= p < |r| ensures InWindow(r[p], dims) && Linearize(r[p], dims) == p {
      DelinearizeRoundTrip(p, dims);
    }
    r
  }

  /** Each window index occurs in the visiting order exactly at its
      row-major position. */
  lemma WindowOrderListsEveryIndex(dims: seq<nat>, w: seq<int>)
    requires PositiveExtents(dims) && InWindow(w, dims)
    ensures 0 <= Linearize(w, dims) < |WindowOrder(dims)|
    ensures WindowOrder(dims)[Linearize(w, dims)] == w
  {
    LinearizeRoundTrip(w, dims);
    var p := Linearize(w, dims);
    var v := WindowOrder(dims)[p];
    LinearizeRoundTrip(v, dims);
  }

  /** The operand indices one source coordinate visits, in the order the
      window loop nest visits the window positions. */
  function Candidates(source: seq<int>, win: WindowAttrs): (r: seq<seq<int>>)
    requires WellFormedWindow(win, |source|)
    ensures |r| == Product(win.dims)
    ensures forall w :: InWindow(w, win.dims) ==>
              0 <= Linearize(w, win.dims) < |r| && r[Linearize(w, win.dims)] == OperandIndex(source, w, win)
  {
    var order := WindowOrder(win.dims);
    var r := seq(|order|, p requires 0 <= p < |order| => OperandIndex(source, order[p], win));
    forall w | InWindow(w, win.dims)
      ensures 0 <= Linearize(w, win.dims) < |r| && r[Linearize(w, win.dims)] == OperandIndex(source, w, win)
    {
      WindowOrderListsEveryIndex(win.dims, w);
    }
    r
  }

  // ---------------------------------------------------------------------
  // The selection
  // ---------------------------------------------------------------------

  /** The current choice: its position in the window order, its operand
      index and the operand value read there. */
  datatype Selection<V> = Selection(position: nat, index: seq<int>, value: V)

  predicate Shaped(cands: seq<seq<int>>, operandDims: seq<nat>) {
    forall p :: 0 <= p < |cands| ==> |cands[p]| == |operandDims|
  }

  /** The choice after the first n window positions. */
  function SelectPrefix<V>(cands: seq<seq<int>>, operandDims: seq<nat>, w: IndexWidth,
                           operand: seq<int> -> V, select: (V, V) -> bool, n: nat): (r: Option<Selection<V>>)
    requires n <= |cands| && Shaped(cands, operandDims)
    ensures r.None? <==> forall j :: 0 <= j < n ==> !InBounds(cands[j], operandDims, w)
    ensures r.Some? ==>
              && r.value.position < n
              && InBounds(cands[r.value.position], operandDims, w)
              && r.value.index == cands[r.value.position]
              && r.value.value == operand(r.value.index)
    ensures r.Some? ==>
              forall j :: r.value.position < j < n && InBounds(cands[j], operandDims, w) ==>
                select(r.value.value, operand(cands[j]))
  {
    if n == 0 then None
    else
      var prev := SelectPrefix(cands, operandDims, w, operand, select, n - 1);
      var c := cands[n - 1];
      if !InBounds(c, operandDims, w) then prev
      else if prev.None? then Some(Selection(n - 1, c, operand(c)))
      else if !select(prev.value.value, operand(c)) then Some(Selection(n - 1, c, operand(c)))
      else prev
  }

  /** The operand index the source element at `source` is scattered to, or
      None when no window position lies inside the operand. */
  function SelectedIndex<V>(source: seq<int>, win: WindowAttrs, operandDims: seq<nat>, w: IndexWidth,
                            operand: seq<int> -> V, select: (V, V) -> bool): (r: Option<seq<int>>)
    requires WellFormedWindow(win, |source|) && |operandDims| == |source|
    ensures r.Some? ==> |r.value| == |operandDims| && InBounds(r.value, operandDims, w)
    ensures r.Some? ==> exists v :: InWindow(v, win.dims) && r.value == OperandIndex(source, v, win)
    ensures r.None? <==> forall v :: InWindow(v, win.dims) ==> !InBounds(OperandIndex(source, v, win), operandDims, w)
  {
    var cands := Candidates(source, win);
    var sel := SelectPrefix(cands, operandDims, w, operand, select, |cands|);
    var order := WindowOrder(win.dims);
    if sel.Some? then
      assert InWindow(order[sel.value.position], win.dims);
      assert sel.value.index == OperandIndex(source, order[sel.value.position], win);
      Some(sel.value.index)
    else
      None
  }

  ghost predicate TotalPreorder<V(!new)>(select: (V, V) -> bool) {
    && (forall a, b :: select(a, b) || select(b, a))
    && (forall a, b, c {:trigger select(a, b), select(b, c), select(a, c)} ::
          select(a, b) && select(b, c) ==> select(a, c))
  }

  lemma Transitive<V(!new)>(select: (V, V) -> bool, a: V, b: V, c: V)
    requires TotalPreorder(select)
    ensures select(a, b) && select(b, c) ==> select(a, c)
  {
  }

  /** When select is a total preorder (greater-or-equal, as in max
      pooling), the chosen value is selected over every in-bounds value of
      the window, and no in-bounds value before it is selected over it: the
      first of the best values wins. */
  lemma {:induction false} SelectionIsExtremal<V(!new)>(cands: seq<seq<int>>, operandDims: seq<nat>, w: IndexWidth,
                                     operand: seq<int> -> V, select: (V, V) -> bool, n: nat)
    requires n <= |cands| && Shaped(cands, operandDims)
    requires TotalPreorder(select)
    ensures var r := SelectPrefix(cands, operandDims, w, operand, select, n);
            r.Some? ==> forall j :: 0 <= j < n && InBounds(cands[j], operandDims, w) ==>
                          select(r.value.value, operand(cands[j]))
    ensures var r := SelectPrefix(cands, operandDims, w, operand, select, n);
            r.Some? ==> forall j :: 0 <= j < r.value.position && InBounds(cands[j], operandDims, w) ==>
                          !select(operand(cands[j]), r.value.value)
  {
    SelectionBeatsAll(cands, operandDims, w, operand, select, n);
    SelectionStrictlyBeatsEarlier(cands, operandDims, w, operand, select, n);
  }

  lemma {:induction false} SelectionBeatsAll<V(!new)>(cands: seq<seq<int>>, operandDims: seq<nat>, w: IndexWidth,
                                                      operand: seq<int> -> V, select: (V, V) -> bool, n: nat)
    requires n <= |cands| && Shaped(cands, operandDims)
    requires TotalPreorder(select)
    ensures var r := SelectPrefix(cands, operandDims, w, operand, select, n);
            r.Some? ==> forall j :: 0 <= j < n && InBounds(cands[j], operandDims, w) ==>
                          select(r.value.value, operand(cands[j]))
  {
    if n > 0 {
      SelectionBeatsAll(cands, operandDims, w, operand, select, n - 1);
      var prev := SelectPrefix(cands, operandDims, w, operand, select, n - 1);
      var c := cands[n - 1];
      if InBounds(c, operandDims, w) && prev.Some? && !select(prev.value.value, operand(c)) {
        assert select(operand(c), prev.value.value);
      }
    }
  }

  lemma SelectionBeatsAt<V(!new)>(cands: seq<seq<int>>, operandDims: seq<nat>, w: IndexWidth,
                                   operand: seq<int> -> V, select: (V, V) -> bool, n: nat, j: nat)
    requires n <= |cands| && Shaped(cands, operandDims)
    requires TotalPreorder(select)
    requires j < n && InBounds(cands[j], operandDims, w)
    requires SelectPrefix(cands, operandDims, w, operand, select, n).Some?
    ensures select(SelectPrefix(cands, operandDims, w, operand, select, n).value.value, operand(cands[j]))
  {
    SelectionBeatsAll(cands, operandDims, w, operand, select, n);
  }

  /** A candidate that replaces the previous best is not matched by any
      earlier in-bounds value. */
  lemma NewBestBeatsEarlier<V(!new)>(cands: seq<seq<int>>, operandDims: seq<nat>, w: IndexWidth,
                                     operand: seq<int> -> V, select: (V, V) -> bool, n: nat)
    requires 0 < n <= |cands| && Shaped(cands, operandDims)
    requires TotalPreorder(select)
    requires InBounds(cands[n - 1], operandDims, w)
    requires var prev := SelectPrefix(cands, operandDims, w, operand, select, n - 1);
             prev.Some? && !select(prev.value.value, operand(cands[n - 1]))
    ensures forall j :: 0 <= j < n - 1 && InBounds(cands[j], operandDims, w) ==>
              !select(operand(cands[j]), operand(cands[n - 1]))
  {
    var best := SelectPrefix(cands, operandDims, w, operand, select, n - 1).value.value;
    forall j | 0 <= j < n - 1 && InBounds(cands[j], operandDims, w)
      ensures !select(operand(cands[j]), operand(cands[n - 1]))
    {
      SelectionBeatsAt(cands, operandDims, w, operand, select, n - 1, j);
      Transitive(select, best, operand(cands[j]), operand(cands[n - 1]));
    }
  }

  lemma {:induction false} SelectionStrictlyBeatsEarlier<V(!new)>(cands: seq<seq<int>>, operandDims: seq<nat>, w: IndexWidth,
                                                                  operand: seq<int> -> V, select: (V, V) -> bool, n: nat)
    requires n <= |cands| && Shaped(cands, operandDims)
    requires TotalPreorder(select)
    ensures var r := SelectPrefix(cands, operandDims, w, operand, select, n);
            r.Some? ==> forall j :: 0 <= j < r.value.position && InBounds(cands[j], operandDims, w) ==>
                          !select(operand(cands[j]), r.value.value)
  {
    if n > 0 {
      var prev := SelectPrefix(cands, operandDims, w, operand, select, n - 1);
      var c := cands[n - 1];
      if InBounds(c, operandDims, w) && prev.Some? && !select(prev.value.value, operand(c)) {
        NewBestBeatsEarlier(cands, operandDims, w, operand, select, n);
      } else {
        SelectionStrictlyBeatsEarlier(cands, operandDims, w, operand, select, n - 1);
      }
    }
  }

  /** Window index v is the first of the best: it lies inside the operand,
      its value is selected over every in-bounds value of the window, and
      no in-bounds value the loop nest reaches earlier is selected over it. */
  ghost predicate IsFirstBest<V(!new)>(source: seq<int>, win: WindowAttrs, operandDims: seq<nat>, w: IndexWidth,
                                       operand: seq<int> -> V, select: (V, V) -> bool, v: seq<int>)
    requires WellFormedWindow(win, |source|) && |operandDims| == |source|
  {
    && InWindow(v, win.dims)
    && InBounds(OperandIndex(source, v, win), operandDims, w)
    && (forall u :: InWindow(u, win.dims) && InBounds(OperandIndex(source, u, win), operandDims, w) ==>
          select(operand(OperandIndex(source, v, win)), operand(OperandIndex(source, u, win))))
    && (forall u :: InWindow(u, win.dims) && Linearize(u, win.dims) < Linearize(v, win.dims)
                    && InBounds(OperandIndex(source, u, win), operandDims, w) ==>
          !select(operand(OperandIndex(source, u, win)), operand(OperandIndex(source, v, win))))
  }

  /** Under a total preorder at most one window index is the first of the
      best. */
  lemma FirstBestUnique<V(!new)>(source: seq<int>, win: WindowAttrs, operandDims: seq<nat>, w: IndexWidth,
                                 operand: seq<int> -> V, select: (V, V) -> bool, v1: seq<int>, v2: seq<int>)
    requires WellFormedWindow(win, |source|) && |operandDims| == |source|
    requires TotalPreorder(select)
    requires IsFirstBest(source, win, operandDims, w, operand, select, v1)
    requires IsFirstBest(source, win, operandDims, w, operand, select, v2)
    ensures v1 == v2
  {
    LinearizeRoundTrip(v1, win.dims);
    LinearizeRoundTrip(v2, win.dims);
    var i1 := OperandIndex(source, v1, win);
    var i2 := OperandIndex(source, v2, win);
    assert select(operand(i1), operand(i2)) && select(operand(i2), operand(i1));
  }

  /** Under a total preorder the index scattered to is that of the first
      best window index; with FirstBestUnique this fixes which element of a
      max-pooling window receives the gradient when values tie. */
  lemma SelectedIndexIsFirstBest<V(!new)>(source: seq<int>, win: WindowAttrs, operandDims: seq<nat>, w: IndexWidth,
                                          operand: seq<int> -> V, select: (V, V) -> bool)
    requires WellFormedWindow(win, |source|) && |operandDims| == |source|
    requires TotalPreorder(select)
    ensures var r := SelectedIndex(source, win, operandDims, w, operand, select);
            r.Some? ==> exists v :: IsFirstBest(source, win, operandDims, w, operand, select, v)
                                    && r.value == OperandIndex(source, v, win)
  {
    var cands := Candidates(source, win);
    var sel := SelectPrefix(cands, operandDims, w, operand, select, |cands|);
    SelectionIsExtremal(cands, operandDims, w, operand, select, |cands|);
    if sel.Some? {
      var pos := sel.value.position;
      ProductPositive(win.dims);
      DelinearizeRoundTrip(pos, win.dims);
      var v := Delinearize(pos, win.dims);
      assert cands[pos] == OperandIndex(source, v, win);
      forall u | InWindow(u, win.dims) && InBounds(OperandIndex(source, u, win), operandDims, w)
        ensures select(operand(OperandIndex(source, v, win)), operand(OperandIndex(source, u, win)))
        ensures Linearize(u, win.dims) < Linearize(v, win.dims) ==>
                  !select(operand(OperandIndex(source, u, win)), operand(OperandIndex(source, v, win)))
      {
        var j := Linearize(u, win.dims);
        assert cands[j] == OperandIndex(source, u, win);
      }
      assert IsFirstBest(source, win, operandDims, w, operand, select, v);
    }
  }
}
