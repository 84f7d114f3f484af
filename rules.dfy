/**
 * The B3/S23 transition as the source writes it: three masked assignments into a
 * buffer that starts as a copy of the current grid, each deciding from the current
 * grid and the count matrix only; then the optional random-birth OR.
 */
module Rules {
  import opened Grids

  /** The three masked assignments of one generation. */
  datatype Rule =
    | Underpopulation  // alive with fewer than 2 neighbours: dies
    | Overpopulation   // alive with more than 3 neighbours: dies
    | Birth            // dead with exactly 3 neighbours: born

  /** The order in which the source applies the masks. */
  const SourceOrder: seq<Rule> := [Underpopulation, Overpopulation, Birth]

  /** The mask of rule r at a cell, decided from the current state and count. */
  predicate Fires(r: Rule, cell: int, count: int)
  {
    match r
    case Underpopulation => count < 2 && cell == 1
    case Overpopulation => count > 3 && cell == 1
    case Birth => count == 3 && cell == 0
  }

  /** The value rule r writes where its mask holds. */
  function Writes(r: Rule): int
  {
    if r == Birth then 1 else 0
  }

  /** One masked assignment at one cell of the next buffer holding v. */
  function ApplyRule(r: Rule, cell: int, count: int, v: int): int
  {
    if Fires(r, cell, count) then Writes(r) else v
  }

  /** Several masked assignments at one cell, in the order given. */
  function ApplyRules(rs: seq<Rule>, cell: int, count: int, v: int): int
  {
    if rs == [] then v else ApplyRules(rs[1..], cell, count, ApplyRule(rs[0], cell, count, v))
  }

  /** The Life rule B3/S23 stated directly: which cells are alive in the next generation. */
  predicate Lives(alive: bool, count: int)
  {
    if alive then count == 2 || count == 3 else count == 3
  }

  /**
   * The three masks in source order, applied to a buffer equal to the current state:
   * a live cell with fewer than 2 or more than 3 neighbours dies, a dead cell with
   * exactly 3 is born, every other cell keeps its state; on 0/1 cells this is B3/S23.
   */
  lemma {:induction false} SourceRulesAt(cell: int, count: int)
    ensures cell == 1 && count < 2 ==> ApplyRules(SourceOrder, cell, count, cell) == 0
    ensures cell == 1 && count > 3 ==> ApplyRules(SourceOrder, cell, count, cell) == 0
    ensures cell == 0 && count == 3 ==> ApplyRules(SourceOrder, cell, count, cell) == 1
    ensures !(cell == 1 && (count < 2 || count > 3)) && !(cell == 0 && count == 3) ==>
      ApplyRules(SourceOrder, cell, count, cell) == cell
    ensures cell == 0 || cell == 1 ==>
      ApplyRules(SourceOrder, cell, count, cell) == (if Lives(cell == 1, count) then 1 else 0)
  {
    var r := ApplyRules(SourceOrder, cell, count, cell);
    assert SourceOrder[1..] == [Overpopulation, Birth];
    assert SourceOrder[1..][1..] == [Birth];
    assert SourceOrder[1..][1..][1..] == [];
    var v1 := ApplyRule(Underpopulation, cell, count, cell);
    var v2 := ApplyRule(Overpopulation, cell, count, v1);
    var v3 := ApplyRule(Birth, cell, count, v2);
    assert ApplyRules([Birth], cell, count, v2) == ApplyRules([], cell, count, v3);
    assert ApplyRules([Overpopulation, Birth], cell, count, v1) == ApplyRules([Birth], cell, count, v2);
    assert r == v3;
  }

  /** No two different masks hold at the same cell. */
  lemma MasksDisjoint(r: Rule, s: Rule, cell: int, count: int)
    requires Fires(r, cell, count) && Fires(s, cell, count)
    ensures r == s
  {
  }

  /**
   * Applying masks in any order leaves the buffer alone where none fires and writes
   * the firing rule's value where one does.
   */
  lemma {:induction false} ApplyRulesOutcome(rs: seq<Rule>, cell: int, count: int, v: int)
    ensures (forall r :: r in rs ==> !Fires(r, cell, count)) ==> ApplyRules(rs, cell, count, v) == v
    ensures forall r :: r in rs && Fires(r, cell, count) ==> ApplyRules(rs, cell, count, v) == Writes(r)
  {
    if rs != [] {
      var w := ApplyRule(rs[0], cell, count, v);
      ApplyRulesOutcome(rs[1..], cell, count, w);
      forall r | r in rs && Fires(r, cell, count) ensures ApplyRules(rs, cell, count, v) == Writes(r) {
        if Fires(rs[0], cell, count) {
          MasksDisjoint(r, rs[0], cell, count);
          forall s | s in rs[1..] && Fires(s, cell, count) ensures Writes(s) == Writes(r) {
            MasksDisjoint(r, s, cell, count);
          }
        } else {
          assert r in rs[1..];
        }
      }
      if forall r :: r in rs ==> !Fires(r, cell, count) {
        assert forall r :: r in rs[1..] ==> r in rs;
      }
    }
  }

  /** One masked assignment over the whole next buffer. */
  function MaskedAssign(r: Rule, next: Grid, status: Grid, conv: Grid): (n: Grid)
    requires SameShape(next, status) && SameShape(next, conv)
    ensures SameShape(n, next)
    ensures forall i, j :: InGrid(next, i, j) ==> n[i][j] == ApplyRule(r, status[i][j], conv[i][j], next[i][j])
  {
    seq(|next|, i requires 0 <= i < |next| =>
      seq(|next[i]|, j requires 0 <= j < |next[i]| => ApplyRule(r, status[i][j], conv[i][j], next[i][j])))
  }

  /** Several masked assignments over the whole buffer, in the order given. */
  function ApplyMasks(rs: seq<Rule>, next: Grid, status: Grid, conv: Grid): (n: Grid)
    requires SameShape(next, status) && SameShape(next, conv)
    ensures SameShape(n, next)
  {
    if rs == [] then next else ApplyMasks(rs[1..], MaskedAssign(rs[0], next, status, conv), status, conv)
  }

  /** Each cell of the buffer after several whole-grid masks is those masks applied to that cell alone. */
  lemma {:induction false} ApplyMasksAt(rs: seq<Rule>, next: Grid, status: Grid, conv: Grid, i: int, j: int)
    requires SameShape(next, status) && SameShape(next, conv) && InGrid(next, i, j)
    ensures ApplyMasks(rs, next, status, conv)[i][j] == ApplyRules(rs, status[i][j], conv[i][j], next[i][j])
  {
    if rs != [] {
      ApplyMasksAt(rs[1..], MaskedAssign(rs[0], next, status, conv), status, conv, i, j);
    }
  }

  /**
   * Every mask is decided from the current grid and the count matrix, never from
   * the buffer being written, and the masks are disjoint: so applying the three in
   * any order gives the same next grid.
   */
  lemma RuleOrderIrrelevant(rs: seq<Rule>, next: Grid, status: Grid, conv: Grid)
    requires multiset(rs) == multiset(SourceOrder)
    requires SameShape(next, status) && SameShape(next, conv)
    ensures ApplyMasks(rs, next, status, conv) == ApplyMasks(SourceOrder, next, status, conv)
  {
    var a, b := ApplyMasks(rs, next, status, conv), ApplyMasks(SourceOrder, next, status, conv);
    forall i, j | InGrid(a, i, j) ensures a[i][j] == b[i][j] {
      ApplyMasksAt(rs, next, status, conv, i, j);
      ApplyMasksAt(SourceOrder, next, status, conv, i, j);
      ApplyRulesOutcome(rs, status[i][j], conv[i][j], next[i][j]);
      ApplyRulesOutcome(SourceOrder, status[i][j], conv[i][j], next[i][j]);
      assert forall r :: r in rs <==> r in multiset(rs);
      assert forall r :: r in SourceOrder <==> r in multiset(SourceOrder);
    }
    GridExt(a, b);
  }

  /** The rule result: the three masks in source order on a buffer that starts as the current grid. */
  function RuleStep(status: Grid, conv: Grid): (n: Grid)
    requires SameShape(status, conv)
    ensures SameShape(n, status)
  {
    ApplyMasks(SourceOrder, status, status, conv)
  }

  /**
   * The rule step cell by cell: under- and overpopulated live cells die, dead cells
   * with three neighbours are born, every other cell keeps its state; a 0/1 grid
   * steps to the B3/S23 successor and stays 0/1.
   */
  lemma RuleStepAt(status: Grid, conv: Grid, i: int, j: int)
    requires SameShape(status, conv) && InGrid(status, i, j)
    ensures var s, c, n := status[i][j], conv[i][j], RuleStep(status, conv)[i][j];
      && (s == 1 && c < 2 ==> n == 0)
      && (s == 1 && c > 3 ==> n == 0)
      && (s == 0 && c == 3 ==> n == 1)
      && (!(s == 1 && (c < 2 || c > 3)) && !(s == 0 && c == 3) ==> n == s)
      && (s == 0 || s == 1 ==> n == if Lives(s == 1, c) then 1 else 0)
  {
    ApplyMasksAt(SourceOrder, status, status, conv, i, j);
    SourceRulesAt(status[i][j], conv[i][j]);
  }

  /** The rule step of a 0/1 grid is a 0/1 grid. */
  lemma RuleStepBinary(status: Grid, conv: Grid)
    requires SameShape(status, conv) && IsBinary(status)
    ensures IsBinary(RuleStep(status, conv))
  {
    forall i, j | InGrid(RuleStep(status, conv), i, j) ensures RuleStep(status, conv)[i][j] in {0, 1} {
      RuleStepAt(status, conv, i, j);
    }
  }

  /** The masked assignment of rule r written at the single cell (i, j). */
  function WriteCell(r: Rule, next: Grid, status: Grid, conv: Grid, i: int, j: int): (n: Grid)
    requires SameShape(next, status) && SameShape(next, conv) && InGrid(next, i, j)
    ensures SameShape(n, next)
  {
    next[i := next[i][j := ApplyRule(r, status[i][j], conv[i][j], next[i][j])]]
  }

  /** Every listed position is a cell of g. */
  predicate CellsIn(g: Grid, cells: seq<(int, int)>)
  {
    forall c :: c in cells ==> InGrid(g, c.0, c.1)
  }

  /** The masked assignment of rule r written one cell at a time, in the order `cells` lists them. */
  function WriteCells(r: Rule, next: Grid, status: Grid, conv: Grid, cells: seq<(int, int)>): (n: Grid)
    requires SameShape(next, status) && SameShape(next, conv) && CellsIn(next, cells)
    ensures SameShape(n, next)
    decreases |cells|
  {
    if cells == [] then next
    else
      assert cells[0] in cells;
      var written := WriteCell(r, next, status, conv, cells[0].0, cells[0].1);
      assert forall c :: c in cells[1..] ==> c in cells;
      WriteCells(r, written, status, conv, cells[1..])
  }

  /** A masked write changes a cell once; writing it again with the same decision leaves it. */
  lemma ApplyRuleIdempotent(r: Rule, cell: int, count: int, v: int)
    ensures ApplyRule(r, cell, count, ApplyRule(r, cell, count, v)) == ApplyRule(r, cell, count, v)
  {
  }

  /** After writing the listed cells one by one, exactly the listed cells carry the rule's decision. */
  lemma {:induction false} WriteCellsAt(r: Rule, next: Grid, status: Grid, conv: Grid, cells: seq<(int, int)>, p: int, q: int)
    requires SameShape(next, status) && SameShape(next, conv) && CellsIn(next, cells)
    requires InGrid(next, p, q)
    ensures WriteCells(r, next, status, conv, cells)[p][q] ==
      if (p, q) in cells then ApplyRule(r, status[p][q], conv[p][q], next[p][q]) else next[p][q]
    decreases |cells|
  {
    if cells != [] {
      var i, j := cells[0].0, cells[0].1;
      assert cells[0] in cells;
      var written := WriteCell(r, next, status, conv, i, j);
      assert forall c :: c in cells[1..] ==> c in cells;
      WriteCellsAt(r, written, status, conv, cells[1..], p, q);
      if (p, q) == (i, j) {
        ApplyRuleIdempotent(r, status[p][q], conv[p][q], next[p][q]);
      }
      assert (p, q) in cells <==> (p, q) == cells[0] || (p, q) in cells[1..];
    }
  }

  /**
   * Because each decision reads the current grid and the count matrix and never the
   * buffer being written, visiting the cells in any order (repeats allowed) that
   * covers the grid gives the whole-grid masked assignment.
   */
  lemma CellOrderIrrelevant(r: Rule, next: Grid, status: Grid, conv: Grid, cells: seq<(int, int)>)
    requires SameShape(next, status) && SameShape(next, conv) && CellsIn(next, cells)
    requires forall i, j :: InGrid(next, i, j) ==> (i, j) in cells
    ensures WriteCells(r, next, status, conv, cells) == MaskedAssign(r, next, status, conv)
  {
    var a, b := WriteCells(r, next, status, conv, cells), MaskedAssign(r, next, status, conv);
    forall i, j | InGrid(a, i, j) ensures a[i][j] == b[i][j] {
      WriteCellsAt(r, next, status, conv, cells, i, j);
    }
    GridExt(a, b);
  }

  /**
   * The random-birth step `next | mask` on 0/1 cells: a masked cell becomes alive,
   * others keep their state (the mask is drawn with the grid's shape).
   */
  function Spawn(next: Grid, mask: seq<seq<bool>>): (n: Grid)
    ensures SameShape(n, next)
  {
    seq(|next|, i requires 0 <= i < |next| =>
      seq(|next[i]|, j requires 0 <= j < |next[i]| => if InGrid(mask, i, j) && mask[i][j] then 1 else next[i][j]))
  }

  /**
   * Random birth only adds life: on a 0/1 grid a cell is alive afterwards iff it was
   * alive or its mask is set; an all-set mask leaves every cell alive, a clear mask
   * changes nothing.
   */
  lemma SpawnOnlyAdds(next: Grid, mask: seq<seq<bool>>)
    requires SameShape(next, mask) && IsBinary(next)
    ensures IsBinary(Spawn(next, mask))
    ensures forall i, j :: InGrid(next, i, j) ==> (Spawn(next, mask)[i][j] == 1 <==> next[i][j] == 1 || mask[i][j])
    ensures (forall i, j :: InGrid(mask, i, j) ==> mask[i][j]) ==> AllAlive(Spawn(next, mask))
    ensures (forall i, j :: InGrid(mask, i, j) ==> !mask[i][j]) ==> Spawn(next, mask) == next
  {
    var n := Spawn(next, mask);
    forall i, j | InGrid(n, i, j) ensures n[i][j] in {0, 1} && (n[i][j] == 1 <==> next[i][j] == 1 || mask[i][j]) {
      assert InGrid(next, i, j) && InGrid(mask, i, j);
    }
    if forall i, j :: InGrid(mask, i, j) ==> mask[i][j] {
      forall i, j | InGrid(n, i, j) ensures n[i][j] == 1 {
        assert InGrid(mask, i, j);
      }
    }
    if forall i, j :: InGrid(mask, i, j) ==> !mask[i][j] {
      forall i, j | InGrid(n, i, j) ensures n[i][j] == next[i][j] {
        assert InGrid(mask, i, j);
      }
      GridExt(n, next);
    }
  }
}
