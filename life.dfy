/**
 * The Game of Life on grid values: one generation as a function of the previous
 * one (`Generation`), the generations of a run (`Run`), and the neighbour query as
 * written (`NeighborsOf`) and as intended (`AliveNeighbors`).
 */
module Life {
  import opened Grids
  import opened Neighborhood
  import opened Rules

  datatype Error =
    | KernelDoesNotFit  // the 3x3 kernel block does not fit a grid with fewer than 3 rows or columns
    | NoCountMatrix     // the count matrix is read before the first update computed it
    | IndexOutOfRange   // a position outside the grid, even with negative indices counted from the end

  datatype Result<T> = Ok(value: T) | Err(error: Error)

  datatype Outcome = Pass | Fail(error: Error)

  /** Random birth is applied when the configured rate is present and non-zero. */
  predicate BirthEnabled(birthRate: Option<real>)
  {
    birthRate.Some? && birthRate.value != 0.0
  }

  /**
   * The grid one update produces from g. The mask stands for the random draw
   * `rand < birth_rate`; it is only consulted when random birth is enabled.
   */
  function Generation(g: Grid, b: Boundary, birthRate: Option<real>, mask: seq<seq<bool>>): (n: Grid)
    requires Rect(g)
    ensures SameShape(n, g)
  {
    var next := RuleStep(g, Counts(g, b));
    if BirthEnabled(birthRate) then Spawn(next, mask) else next
  }

  /**
   * One generation cell by cell: a cell forced by the birth mask is alive; otherwise
   * it follows B3/S23 on the count of its neighbours in the previous grid. A 0/1 grid
   * stays 0/1.
   */
  lemma GenerationAt(g: Grid, b: Boundary, birthRate: Option<real>, mask: seq<seq<bool>>, i: int, j: int)
    requires Rect(g) && IsBinary(g) && SameShape(g, mask) && InGrid(g, i, j)
    ensures Generation(g, b, birthRate, mask)[i][j] ==
      if BirthEnabled(birthRate) && mask[i][j] then 1
      else if Lives(g[i][j] == 1, Count(g, b, i, j)) then 1 else 0
  {
    assert InGrid(g, i, j);
    RuleStepAt(g, Counts(g, b), i, j);
  }

  /** Every generation of a 0/1 grid is a 0/1 grid of the same shape. */
  lemma GenerationBinary(g: Grid, b: Boundary, birthRate: Option<real>, mask: seq<seq<bool>>)
    requires Rect(g) && IsBinary(g)
    ensures IsShape(Generation(g, b, birthRate, mask), |g|, Cols(g))
    ensures IsBinary(Generation(g, b, birthRate, mask))
  {
    var next := RuleStep(g, Counts(g, b));
    RuleStepBinary(g, Counts(g, b));
    var n := Generation(g, b, birthRate, mask);
    forall i, j | InGrid(n, i, j) ensures n[i][j] in {0, 1} {
      assert InGrid(next, i, j);
    }
  }

  /** With random birth disabled the mask is never drawn: the next grid is determined by g alone. */
  lemma DisabledBirthIgnoresMask(g: Grid, b: Boundary, birthRate: Option<real>, m1: seq<seq<bool>>, m2: seq<seq<bool>>)
    requires Rect(g)
    requires !BirthEnabled(birthRate)
    ensures Generation(g, b, birthRate, m1) == Generation(g, b, birthRate, m2)
    ensures Generation(g, b, birthRate, m1) == RuleStep(g, Counts(g, b))
  {
  }

  /** With random birth enabled and every cell drawn, the whole grid is alive afterwards, so the population is rows*cols. */
  lemma FullMaskFillsGrid(g: Grid, b: Boundary, birthRate: Option<real>, mask: seq<seq<bool>>)
    requires Rect(g) && IsBinary(g) && SameShape(g, mask)
    requires BirthEnabled(birthRate)
    requires forall i, j :: InGrid(mask, i, j) ==> mask[i][j]
    ensures AllAlive(Generation(g, b, birthRate, mask))
    ensures Sum(Generation(g, b, birthRate, mask)) == |g| * Cols(g)
  {
    var n := Generation(g, b, birthRate, mask);
    forall i, j | InGrid(n, i, j) ensures n[i][j] == 1 {
      GenerationAt(g, b, birthRate, mask, i, j);
      assert InGrid(mask, i, j);
    }
    GenerationBinary(g, b, birthRate, mask);
    SumBounds(n, |g|, Cols(g));
  }

  /**
   * The generations of a run: g, then the grid after each update, one mask per
   * update, in order. Entry k is the grid after k updates.
   */
  function Run(g: Grid, b: Boundary, birthRate: Option<real>, masks: seq<seq<seq<bool>>>): (t: seq<Grid>)
    requires Rect(g)
    ensures |t| == |masks| + 1 && t[0] == g
    ensures forall k :: 0 <= k < |t| ==> IsShape(t[k], |g|, Cols(g))
    decreases |masks|
  {
    if masks == [] then [g]
    else
      var t := Run(g, b, birthRate, masks[..|masks| - 1]);
      var last := t[|masks| - 1];
      assert IsShape(last, |g|, Cols(g));
      assert Rect(last) by {
        if |last| > 0 { assert |last[0]| == Cols(g); }
      }
      t + [Generation(last, b, birthRate, masks[|masks| - 1])]
  }

  /** Entry k + 1 of a run is the generation after entry k under mask k. */
  lemma {:induction false} RunStep(g: Grid, b: Boundary, birthRate: Option<real>, masks: seq<seq<seq<bool>>>, k: nat)
    requires Rect(g) && k < |masks|
    ensures Rect(Run(g, b, birthRate, masks)[k])
    ensures Run(g, b, birthRate, masks)[k + 1] == Generation(Run(g, b, birthRate, masks)[k], b, birthRate, masks[k])
  {
    var t := Run(g, b, birthRate, masks);
    var init := masks[..|masks| - 1];
    var s := Run(g, b, birthRate, init);
    assert t[..|masks|] == s;
    if k < |masks| - 1 {
      RunStep(g, b, birthRate, init, k);
      assert init[k] == masks[k];
    }
    var cur := t[k];
    assert IsShape(cur, |g|, Cols(g));
    if |cur| > 0 { assert |cur[0]| == Cols(g); }
  }

  /** Entry k + 1 of the sequence t is the generation after entry k under mask k. */
  ghost predicate Successive(t: seq<Grid>, b: Boundary, birthRate: Option<real>, masks: seq<seq<seq<bool>>>, k: nat)
  {
    k < |masks| && k + 1 < |t| && Rect(t[k]) && t[k + 1] == Generation(t[k], b, birthRate, masks[k])
  }

  /** Consecutive entries of a run are related by one generation each. */
  lemma RunChain(g: Grid, b: Boundary, birthRate: Option<real>, masks: seq<seq<seq<bool>>>)
    requires Rect(g)
    ensures forall k :: 0 <= k < |masks| ==> Successive(Run(g, b, birthRate, masks), b, birthRate, masks, k)
  {
    forall k | 0 <= k < |masks| ensures Successive(Run(g, b, birthRate, masks), b, birthRate, masks, k) {
      RunStep(g, b, birthRate, masks, k);
    }
  }

  /**
   * With random birth disabled a run does not depend on the masks: two runs of the
   * same length from the same grid produce identical generations.
   */
  lemma DisabledBirthRunsAgree(g: Grid, b: Boundary, birthRate: Option<real>, m1: seq<seq<seq<bool>>>, m2: seq<seq<seq<bool>>>)
    requires Rect(g) && !BirthEnabled(birthRate) && |m1| == |m2|
    ensures Run(g, b, birthRate, m1) == Run(g, b, birthRate, m2)
  {
    forall k | 0 <= k <= |m1| ensures Run(g, b, birthRate, m1)[k] == Run(g, b, birthRate, m2)[k] {
      DisabledBirthEntriesAgree(g, b, birthRate, m1, m2, k);
    }
  }

  /** Entry k of the two runs of DisabledBirthRunsAgree, by induction on k. */
  lemma {:induction false} DisabledBirthEntriesAgree(g: Grid, b: Boundary, birthRate: Option<real>,
                                                     m1: seq<seq<seq<bool>>>, m2: seq<seq<seq<bool>>>, k: nat)
    requires Rect(g) && !BirthEnabled(birthRate) && |m1| == |m2| && k <= |m1|
    ensures Run(g, b, birthRate, m1)[k] == Run(g, b, birthRate, m2)[k]
  {
    if k > 0 {
      var t1, t2 := Run(g, b, birthRate, m1), Run(g, b, birthRate, m2);
      DisabledBirthEntriesAgree(g, b, birthRate, m1, m2, k - 1);
      RunStep(g, b, birthRate, m1, k - 1);
      RunStep(g, b, birthRate, m2, k - 1);
      DisabledBirthIgnoresMask(t1[k - 1], b, birthRate, m1[k - 1], m2[k - 1]);
    }
  }

  /** Every generation of a run from a 0/1 grid is a 0/1 grid. */
  lemma {:induction false} RunBinary(g: Grid, b: Boundary, birthRate: Option<real>, masks: seq<seq<seq<bool>>>)
    requires Rect(g) && IsBinary(g)
    ensures forall k :: 0 <= k < |Run(g, b, birthRate, masks)| ==> IsBinary(Run(g, b, birthRate, masks)[k])
  {
    if masks != [] {
      var init := masks[..|masks| - 1];
      RunBinary(g, b, birthRate, init);
      RunStep(g, b, birthRate, masks, |masks| - 1);
      var t := Run(g, b, birthRate, masks);
      assert t[..|masks|] == Run(g, b, birthRate, init);
      GenerationBinary(t[|masks| - 1], b, birthRate, masks[|masks| - 1]);
      forall k | 0 <= k < |t| ensures IsBinary(t[k]) {
        if k < |masks| {
          assert t[k] == Run(g, b, birthRate, init)[k];
        }
      }
    }
  }

  /** A Python index into an axis of length n: negative positions count from the end. */
  function PyIndex(p: int, n: nat): (r: Option<nat>)
    ensures r.Some? <==> -(n as int) <= p < n
    ensures r.Some? ==> r.value < n && (r.value == p || r.value == p + n)
  {
    if 0 <= p < n then Some(p) else if -(n as int) <= p < 0 then Some(p + n) else None
  }

  /**
   * `neighbors` as written: the count-matrix entry at pos minus the cell's own state.
   * The position is checked when the grid is read, before the count matrix is.
   */
  function NeighborsOf(status: Grid, conv: Option<Grid>, pos: (int, int)): (r: Result<int>)
    requires Rect(status) && (conv.Some? ==> SameShape(conv.value, status))
  {
    match (PyIndex(pos.0, |status|), PyIndex(pos.1, Cols(status)))
    case (Some(i), Some(j)) =>
      if conv.None? then Err(NoCountMatrix) else Ok(conv.value[i][j] - status[i][j])
    case _ => Err(IndexOutOfRange)
  }

  /**
   * When the count matrix is that of the same grid, `neighbors` as written gives the
   * neighbour count minus the cell's state: one too few at every live cell.
   */
  lemma NeighborsDoubleSubtracts(g: Grid, b: Boundary, pos: (int, int))
    requires Rect(g) && IsBinary(g)
    ensures var r := NeighborsOf(g, Some(Counts(g, b)), pos);
      && (r.Ok? <==> PyIndex(pos.0, |g|).Some? && PyIndex(pos.1, Cols(g)).Some?)
      && (r.Ok? ==>
           var i, j := PyIndex(pos.0, |g|).value, PyIndex(pos.1, Cols(g)).value;
           r.value == MooreSum(g, b, i, j) - g[i][j] && (g[i][j] == 1 ==> r.value == MooreSum(g, b, i, j) - 1))
  {
    var r := NeighborsOf(g, Some(Counts(g, b)), pos);
    if r.Ok? {
      var i, j := PyIndex(pos.0, |g|).value, PyIndex(pos.1, Cols(g)).value;
      assert InGrid(g, i, j);
      CountIsMooreSum(g, b, i, j);
    }
  }

  /** A live centre with two live neighbours: `neighbors((1, 1))` reports 1, the grid has 2. */
  lemma NeighborsUndercountExample(b: Boundary)
    ensures var g: Grid := [[1, 1, 0], [0, 1, 0], [0, 0, 0]];
      NeighborsOf(g, Some(Counts(g, b)), (1, 1)) == Ok(1) && MooreSum(g, b, 1, 1) == 2
  {
    var g: Grid := [[1, 1, 0], [0, 1, 0], [0, 0, 0]];
    assert Rect(g) && IsBinary(g);
    NeighborsDoubleSubtracts(g, b, (1, 1));
  }

  /** The live-neighbour count at pos as intended: the count-matrix entry itself. */
  function AliveNeighbors(status: Grid, conv: Option<Grid>, pos: (int, int)): (r: Result<int>)
    requires Rect(status) && (conv.Some? ==> SameShape(conv.value, status))
    ensures r.Ok? <==> conv.Some? && PyIndex(pos.0, |status|).Some? && PyIndex(pos.1, Cols(status)).Some?
  {
    match (PyIndex(pos.0, |status|), PyIndex(pos.1, Cols(status)))
    case (Some(i), Some(j)) =>
      if conv.None? then Err(NoCountMatrix) else Ok(conv.value[i][j])
    case _ => Err(IndexOutOfRange)
  }

  /** With the count matrix of the same grid, the corrected query is the number of live Moore neighbours, in [0, 8]. */
  lemma AliveNeighborsCorrect(g: Grid, b: Boundary, pos: (int, int))
    requires Rect(g) && IsBinary(g)
    ensures var r := AliveNeighbors(g, Some(Counts(g, b)), pos);
      r.Ok? ==>
        var i, j := PyIndex(pos.0, |g|).value, PyIndex(pos.1, Cols(g)).value;
        r.value == MooreSum(g, b, i, j) && 0 <= r.value <= 8
  {
    var r := AliveNeighbors(g, Some(Counts(g, b)), pos);
    if r.Ok? {
      var i, j := PyIndex(pos.0, |g|).value, PyIndex(pos.1, Cols(g)).value;
      assert InGrid(g, i, j);
      CountIsMooreSum(g, b, i, j);
      CountBounds(g, b, i, j);
    }
  }
}
