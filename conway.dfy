/**
 * The World object: a 0/1 grid in `status`, the scratch buffer `next` the rules are
 * written into, the count matrix of the last update and the update counter; and the
 * loop that records snapshots of successive generations.
 */
module Conway {
  import opened Grids
  import opened Neighborhood
  import opened Rules
  import opened Life

  /** A fresh array holding the grid g (the initial grid, which the source draws at random). */
  method FromGrid(g: Grid, rows: nat, cols: nat) returns (a: array2<int>)
    requires IsShape(g, rows, cols)
    ensures fresh(a) && a.Length0 == rows && a.Length1 == cols
    ensures Shows(a, g)
  {
    a := new int[rows, cols];
    for i := 0 to rows
      invariant forall p, q :: 0 <= p < i && 0 <= q < cols ==> a[p, q] == g[p][q]
    {
      for j := 0 to cols
        invariant forall p, q :: 0 <= p < i && 0 <= q < cols ==> a[p, q] == g[p][q]
        invariant forall q :: 0 <= q < j ==> a[i, q] == g[i][q]
      {
        a[i, j] := g[i][j];
      }
    }
  }

  /** A fresh array with the contents of a, as numpy's `copy()`. */
  method CopyGrid(a: array2<int>, ghost g: Grid) returns (b: array2<int>)
    requires Shows(a, g)
    ensures fresh(b) && b.Length0 == a.Length0 && b.Length1 == a.Length1
    ensures Shows(b, g)
  {
    b := new int[a.Length0, a.Length1];
    for i := 0 to a.Length0
      invariant forall p, q :: 0 <= p < i && 0 <= q < a.Length1 ==> b[p, q] == a[p, q]
    {
      for j := 0 to a.Length1
        invariant forall p, q :: 0 <= p < i && 0 <= q < a.Length1 ==> b[p, q] == a[p, q]
        invariant forall q :: 0 <= q < j ==> b[i, q] == a[i, q]
      {
        b[i, j] := a[i, j];
      }
    }
  }

  /**
   * One masked assignment `next[where(mask of r)] = value of r`: the mask is decided
   * from `status` and `conv`, never from the buffer being written.
   */
  method MaskInto(r: Rule, next: array2<int>, status: array2<int>, conv: array2<int>,
                  ghost n: Grid, ghost g: Grid, ghost c: Grid)
    requires next != status && next != conv
    requires Shows(next, n) && Shows(status, g) && Shows(conv, c)
    requires status.Length0 == next.Length0 && status.Length1 == next.Length1
    requires conv.Length0 == next.Length0 && conv.Length1 == next.Length1
    modifies next
    ensures Shows(next, MaskedAssign(r, n, g, c))
  {
    var rows, cols := next.Length0, next.Length1;
    for i := 0 to rows
      invariant forall p, q :: 0 <= p < rows && 0 <= q < cols ==>
        next[p, q] == if p < i then ApplyRule(r, g[p][q], c[p][q], n[p][q]) else n[p][q]
    {
      for j := 0 to cols
        invariant forall p, q :: 0 <= p < rows && 0 <= q < cols ==>
          next[p, q] == if p < i || (p == i && q < j) then ApplyRule(r, g[p][q], c[p][q], n[p][q]) else n[p][q]
      {
        if Fires(r, status[i, j], conv[i, j]) {
          next[i, j] := Writes(r);
        }
      }
    }
  }

  /** The three masked assignments in source order: the buffer, a copy of the grid, becomes the rule step. */
  method RuleInto(next: array2<int>, status: array2<int>, conv: array2<int>, ghost g: Grid, ghost c: Grid)
    requires next != status && next != conv
    requires Shows(next, g) && Shows(status, g) && Shows(conv, c)
    requires status.Length0 == next.Length0 && status.Length1 == next.Length1
    requires conv.Length0 == next.Length0 && conv.Length1 == next.Length1
    modifies next
    ensures Shows(next, RuleStep(g, c))
  {
    MaskInto(Underpopulation, next, status, conv, g, g, c);
    ghost var n1 := MaskedAssign(Underpopulation, g, g, c);
    MaskInto(Overpopulation, next, status, conv, n1, g, c);
    ghost var n2 := MaskedAssign(Overpopulation, n1, g, c);
    MaskInto(Birth, next, status, conv, n2, g, c);
    assert SourceOrder[1..] == [Overpopulation, Birth];
    assert ApplyMasks([Birth], n2, g, c) == MaskedAssign(Birth, n2, g, c);
    assert ApplyMasks([Overpopulation, Birth], n1, g, c) == ApplyMasks([Birth], n2, g, c);
  }

  /** `next | rand` on 0/1 cells: a new array where every masked cell is alive. */
  method SpawnGrid(a: array2<int>, mask: seq<seq<bool>>, ghost g: Grid) returns (n: array2<int>)
    requires Shows(a, g) && IsShape(mask, a.Length0, a.Length1)
    ensures fresh(n) && n.Length0 == a.Length0 && n.Length1 == a.Length1
    ensures Shows(n, Spawn(g, mask))
  {
    n := new int[a.Length0, a.Length1];
    for i := 0 to a.Length0
      invariant forall p, q :: 0 <= p < i && 0 <= q < a.Length1 ==> n[p, q] == if mask[p][q] then 1 else a[p, q]
    {
      for j := 0 to a.Length1
        invariant forall p, q :: 0 <= p < i && 0 <= q < a.Length1 ==> n[p, q] == if mask[p][q] then 1 else a[p, q]
        invariant forall q :: 0 <= q < j ==> n[i, q] == if mask[i][q] then 1 else a[i, q]
      {
        n[i, j] := if mask[i][j] then 1 else a[i, j];
      }
    }
  }

  class World {
    const rows: nat
    const cols: nat
    const birthRate: Option<real>
    /** How the count matrix treats the edges; a property of the convolution, fixed per world. */
    const boundary: Boundary

    var status: array2<int>
    var next: array2<int>
    /** The count matrix of the last update; null until the first one. */
    var conv: array2?<int>
    var loopCount: nat
    /** The grid `status` holds. */
    ghost var grid: Grid
    /** The grid `conv` was computed from: the generation the last update started from. */
    ghost var counted: Grid

    /**
     * Both buffers hold `grid`, a 0/1 grid of the world's shape, in distinct arrays
     * (the scratch buffer is a copy of the grid between updates), and the count
     * matrix, once there is one, holds the neighbour counts of the 0/1 grid `counted`.
     */
    ghost predicate Valid()
      reads this, status, next, conv
    {
      && status.Length0 == rows && status.Length1 == cols
      && next.Length0 == rows && next.Length1 == cols
      && status != next
      && IsShape(grid, rows, cols) && IsBinary(grid)
      && Shows(status, grid) && Shows(next, grid)
      && (conv != null ==> conv.Length0 == rows && conv.Length1 == cols && conv != status && conv != next)
      && (conv != null ==> Counted())
    }

    /** The count matrix holds the neighbour counts of the grid `counted`. */
    ghost predicate Counted()
      reads this, conv
    {
      conv != null && IsShape(counted, rows, cols) && IsBinary(counted) && Shows(conv, Counts(counted, boundary))
    }

    /** A world of the given size whose first grid is init; no update has run yet. */
    constructor (size: (nat, nat), birthRate: Option<real>, boundary: Boundary, init: Grid)
      requires IsShape(init, size.0, size.1) && IsBinary(init)
      ensures Valid() && fresh(status) && fresh(next)
      ensures rows == size.0 && cols == size.1
      ensures this.birthRate == birthRate && this.boundary == boundary
      ensures grid == init && conv == null && loopCount == 0
    {
      rows, cols := size.0, size.1;
      this.birthRate, this.boundary := birthRate, boundary;
      var s := FromGrid(init, size.0, size.1);
      var n := CopyGrid(s, init);
      status, next := s, n;
      conv := null;
      loopCount := 0;
      grid, counted := init, [];
    }

    /**
     * `calc_conv`: builds the kernel (which fails on a grid with fewer than three
     * rows or columns) and stores the neighbour counts of the current grid.
     */
    method CalcConv() returns (ok: bool)
      requires Valid()
      modifies this`conv, this`counted
      ensures Valid()
      ensures ok <==> Kernel(rows, cols).Some?
      ensures ok ==> fresh(conv) && Counted() && counted == grid
      ensures !ok ==> conv == old(conv) && counted == old(counted)
    {
      var k := Kernel(rows, cols);
      if k.None? {
        return false;
      }
      // The convolution of the grid with the kernel, rounded: the count matrix, stored in a new array.
      var g := ToGrid(status);
      ShowsUnique(status, g, grid);
      conv := FromGrid(Counts(g, boundary), rows, cols);
      counted := g;
      ok := true;
    }

    /**
     * `update`: one generation. The grid becomes the B3/S23 successor of the old
     * grid, OR the birth mask when random birth is enabled; the counter goes up by
     * one and the buffer and the grid hold equal contents in distinct arrays. On a
     * grid too small for the kernel the update fails before changing anything.
     */
    method Update(mask: seq<seq<bool>>) returns (outcome: Outcome)
      requires Valid() && IsShape(mask, rows, cols)
      modifies this, next
      ensures Valid()
      ensures outcome == if Kernel(rows, cols).Some? then Pass else Fail(KernelDoesNotFit)
      ensures outcome.Fail? ==>
        && status == old(status) && next == old(next) && conv == old(conv)
        && loopCount == old(loopCount) && grid == old(grid) && counted == old(counted)
      ensures outcome.Pass? ==>
        && grid == Generation(old(grid), boundary, birthRate, mask)
        && loopCount == old(loopCount) + 1
        && fresh(status)
        && (if BirthEnabled(birthRate) then fresh(next) else next == old(next))
        && fresh(conv) && Counted() && counted == old(grid)
    {
      var ok := CalcConv();
      if !ok {
        return Fail(KernelDoesNotFit);
      }
      ghost var g := grid;
      RuleInto(next, status, conv, g, Counts(g, boundary));
      if BirthEnabled(birthRate) {
        next := SpawnGrid(next, mask, RuleStep(g, Counts(g, boundary)));
      }
      GenerationBinary(g, boundary, birthRate, mask);
      grid := Generation(g, boundary, birthRate, mask);
      loopCount := loopCount + 1;
      status := CopyGrid(next, grid);
      outcome := Pass;
    }

    /** The stored count matrix as a value, None before the first update; it has the grid's shape. */
    ghost function StoredCounts(): (c: Option<Grid>)
      reads this, status, next, conv
      requires Valid()
      ensures Rect(grid) && Cols(grid) == (if rows == 0 then 0 else cols)
      ensures c.Some? <==> conv != null
      ensures c.Some? ==> SameShape(c.value, grid)
    {
      assert Rect(grid) by { if |grid| > 0 { assert |grid[0]| == cols; } }
      if conv == null then None
      else
        assert Rect(counted) by { if |counted| > 0 { assert |counted[0]| == cols; } }
        Some(Counts(counted, boundary))
    }

    /** `population`: the number of live cells, between 0 and rows*cols, and rows*cols exactly when all are alive. */
    function Population(): (p: int)
      reads this, status, next, conv
      requires Valid()
      ensures p == Sum(grid)
      ensures 0 <= p <= rows * cols
      ensures p == rows * cols <==> AllAlive(grid)
    {
      ShowsUnique(status, ToGrid(status), grid);
      SumBounds(grid, rows, cols);
      Sum(ToGrid(status))
    }

    /**
     * `neighbors` as written: the stored count at pos, which is the neighbour count
     * of the grid the last update started from, minus the cell's current state.
     * Read before any update it fails.
     */
    function Neighbors(pos: (int, int)): (r: Result<int>)
      reads this, status, next, conv
      requires Valid()
      ensures r.Ok? <==> conv != null && PyIndex(pos.0, rows).Some? && PyIndex(pos.1, cols).Some?
      ensures r.Ok? ==>
        var i, j := PyIndex(pos.0, rows).value, PyIndex(pos.1, cols).value;
        r.value == Count(counted, boundary, i, j) - grid[i][j]
    {
      match (PyIndex(pos.0, rows), PyIndex(pos.1, cols))
      case (Some(i), Some(j)) =>
        if conv == null then Err(NoCountMatrix) else Ok(conv[i, j] - status[i, j])
      case _ => Err(IndexOutOfRange)
    }

    /**
     * The neighbour query as intended: the stored count at pos itself, without
     * subtracting the cell's state again, so it lies in [0, 8].
     */
    function AliveNeighbors(pos: (int, int)): (r: Result<int>)
      reads this, status, next, conv
      requires Valid()
      ensures r.Ok? <==> conv != null && PyIndex(pos.0, rows).Some? && PyIndex(pos.1, cols).Some?
      ensures r.Ok? ==>
        var i, j := PyIndex(pos.0, rows).value, PyIndex(pos.1, cols).value;
        r.value == Count(counted, boundary, i, j) && 0 <= r.value <= 8
    {
      match (PyIndex(pos.0, rows), PyIndex(pos.1, cols))
      case (Some(i), Some(j)) =>
        if conv == null then Err(NoCountMatrix)
        else
          assert 0 <= Count(counted, boundary, i, j) <= 8 by {
            assert Rect(counted) by { if |counted| > 0 { assert |counted[0]| == cols; } }
            assert InGrid(counted, i, j);
            CountBounds(counted, boundary, i, j);
          }
          Ok(conv[i, j])
      case _ => Err(IndexOutOfRange)
    }

    /** The corrected query on the object is the value-level corrected query, on its grid and stored count matrix. */
    lemma AliveNeighborsAsIntended(pos: (int, int))
      requires Valid()
      ensures AliveNeighbors(pos) == Life.AliveNeighbors(grid, StoredCounts(), pos)
    {
    }
  }

  /**
   * One `world.update()` of a run whose generations are `run`, when the grid is
   * entry i: on success the grid is entry i + 1.
   */
  method Step(world: World, ghost run: seq<Grid>, masks: seq<seq<seq<bool>>>, i: nat) returns (outcome: Outcome)
    requires world.Valid() && i < |masks| && i + 1 < |run| && IsShape(masks[i], world.rows, world.cols)
    requires world.grid == run[i] && Successive(run, world.boundary, world.birthRate, masks, i)
    modifies world, world.next
    ensures world.Valid()
    ensures world.next == old(world.next) || fresh(world.next)
    ensures outcome == if Kernel(world.rows, world.cols).Some? then Pass else Fail(KernelDoesNotFit)
    ensures outcome.Fail? ==> world.loopCount == old(world.loopCount) && world.grid == run[i]
    ensures outcome.Pass? ==> world.loopCount == old(world.loopCount) + 1 && fresh(world.status)
    ensures outcome.Pass? ==> world.grid == run[i + 1]
    ensures outcome.Pass? ==> world.conv != null && world.counted == run[i]
    ensures outcome.Fail? ==> world.conv == old(world.conv) && world.counted == old(world.counted)
  {
    outcome := world.Update(masks[i]);
  }

  /** The first loop of `make_a_movie`: the updates for masks[lo..hi], no snapshots taken. */
  method Advance(world: World, ghost run: seq<Grid>, masks: seq<seq<seq<bool>>>, lo: nat, hi: nat) returns (outcome: Outcome)
    requires world.Valid() && lo <= hi <= |masks| && hi < |run|
    requires forall k :: lo <= k < hi ==> IsShape(masks[k], world.rows, world.cols)
    requires forall k :: lo <= k < hi ==> Successive(run, world.boundary, world.birthRate, masks, k)
    requires world.grid == run[lo]
    modifies world, world.next
    ensures world.Valid()
    ensures world.next == old(world.next) || fresh(world.next)
    ensures outcome.Fail? <==> lo < hi && Kernel(world.rows, world.cols).None?
    ensures outcome.Fail? ==> outcome.error == KernelDoesNotFit && world.loopCount == old(world.loopCount)
    ensures outcome.Fail? ==> world.grid == run[lo]
    ensures outcome.Pass? ==> world.loopCount == old(world.loopCount) + (hi - lo)
    ensures outcome.Pass? ==> world.grid == run[hi]
    ensures outcome.Pass? && lo < hi ==> world.conv != null && world.counted == run[hi - 1]
    ensures outcome.Fail? || lo == hi ==> world.conv == old(world.conv) && world.counted == old(world.counted)
  {
    for i := lo to hi
      invariant world.Valid()
      invariant world.next == old(world.next) || fresh(world.next)
      invariant i > lo ==> Kernel(world.rows, world.cols).Some?
      invariant world.loopCount == old(world.loopCount) + (i - lo)
      invariant world.grid == run[i]
      invariant i > lo ==> world.conv != null && world.counted == run[i - 1]
      invariant i == lo ==> world.conv == old(world.conv) && world.counted == old(world.counted)
    {
      outcome := Step(world, run, masks, i);
      if outcome.Fail? {
        return;
      }
    }
    outcome := Pass;
  }

  /** Snapshot k holds run entry lo + k, for every snapshot taken. */
  ghost predicate Album(photos: seq<array2<int>>, run: seq<Grid>, lo: nat)
    reads set k | 0 <= k < |photos| :: photos[k]
  {
    lo + |photos| <= |run| && forall k :: 0 <= k < |photos| ==> Shows(photos[k], run[lo + k])
  }

  /** Appending the array that holds the next run entry extends an album. */
  lemma AlbumSnoc(photos: seq<array2<int>>, a: array2<int>, run: seq<Grid>, lo: nat)
    requires Album(photos, run, lo) && lo + |photos| < |run| && Shows(a, run[lo + |photos|])
    ensures Album(photos + [a], run, lo)
  {
  }

  /**
   * One round of the second loop of `make_a_movie`: the grid array is appended to
   * the snapshots, then the world is updated. Earlier snapshots are untouched, since
   * an update only writes the scratch buffer and arrays it allocates.
   */
  method Shoot(world: World, ghost run: seq<Grid>, masks: seq<seq<seq<bool>>>, lo: nat, i: nat, photos: seq<array2<int>>)
    returns (outcome: Outcome, shots: seq<array2<int>>)
    requires world.Valid() && i < |masks| && i + 1 < |run| && IsShape(masks[i], world.rows, world.cols)
    requires world.grid == run[i] && Successive(run, world.boundary, world.birthRate, masks, i)
    requires lo + |photos| == i
    requires Album(photos, run, lo) && world.next !in photos
    modifies world, world.next
    ensures world.Valid()
    ensures world.next == old(world.next) || fresh(world.next)
    ensures outcome == if Kernel(world.rows, world.cols).Some? then Pass else Fail(KernelDoesNotFit)
    ensures outcome.Fail? ==> world.loopCount == old(world.loopCount) && world.grid == run[i]
    ensures outcome.Pass? ==> world.loopCount == old(world.loopCount) + 1 && world.grid == run[i + 1]
    ensures |shots| == |photos| + 1
    ensures Album(shots, run, lo) && world.next !in shots
    ensures outcome.Pass? ==> world.conv != null && world.counted == run[i]
    ensures outcome.Fail? ==> world.conv == old(world.conv) && world.counted == old(world.counted)
  {
    AlbumSnoc(photos, world.status, run, lo);
    shots := photos + [world.status];
    outcome := Step(world, run, masks, i);
  }

  /**
   * The second loop of `make_a_movie`: before each update for masks[lo..hi] the
   * grid array is appended to the snapshots.
   */
  method Film(world: World, ghost run: seq<Grid>, masks: seq<seq<seq<bool>>>, lo: nat, hi: nat) returns (outcome: Outcome, photos: seq<array2<int>>)
    requires world.Valid() && lo <= hi <= |masks| && hi < |run|
    requires forall k :: lo <= k < hi ==> IsShape(masks[k], world.rows, world.cols)
    requires forall k :: lo <= k < hi ==> Successive(run, world.boundary, world.birthRate, masks, k)
    requires world.grid == run[lo]
    modifies world, world.next
    ensures world.Valid()
    ensures outcome.Fail? <==> lo < hi && Kernel(world.rows, world.cols).None?
    ensures outcome.Fail? ==> outcome.error == KernelDoesNotFit && world.loopCount == old(world.loopCount)
    ensures outcome.Fail? ==> world.grid == run[lo]
    ensures outcome.Pass? ==> |photos| == hi - lo && world.loopCount == old(world.loopCount) + (hi - lo)
    ensures outcome.Pass? ==> forall k :: 0 <= k < |photos| ==> Shows(photos[k], run[lo + k])
    ensures outcome.Pass? ==> world.grid == run[hi]
    ensures outcome.Pass? && lo < hi ==> world.conv != null && world.counted == run[hi - 1]
    ensures outcome.Fail? || lo == hi ==> world.conv == old(world.conv) && world.counted == old(world.counted)
  {
    photos := [];
    for i := lo to hi
      invariant world.Valid()
      invariant world.next == old(world.next) || fresh(world.next)
      invariant i > lo ==> Kernel(world.rows, world.cols).Some?
      invariant world.loopCount == old(world.loopCount) + (i - lo)
      invariant world.grid == run[i]
      invariant i > lo ==> world.conv != null && world.counted == run[i - 1]
      invariant i == lo ==> world.conv == old(world.conv) && world.counted == old(world.counted)
      invariant lo + |photos| == i
      invariant Album(photos, run, lo) && world.next !in photos
    {
      outcome, photos := Shoot(world, run, masks, lo, i, photos);
      if outcome.Fail? {
        return;
      }
    }
    outcome := Pass;
  }

  /**
   * `make_a_movie`: `start` updates, then `n` rounds of taking a snapshot of the grid
   * and updating. Snapshot k is entry start + k of the run, the grid after start + k
   * updates. The snapshots are the grid arrays themselves; they stay intact because
   * every update installs a fresh grid array. Fails as soon as an update does.
   */
  method MakeAMovie(world: World, start: nat, n: nat, masks: seq<seq<seq<bool>>>) returns (res: Result<seq<array2<int>>>)
    requires world.Valid()
    requires |masks| == start + n
    requires forall k :: 0 <= k < |masks| ==> IsShape(masks[k], world.rows, world.cols)
    modifies world, world.next
    ensures world.Valid()
    ensures res.Err? <==> start + n > 0 && Kernel(world.rows, world.cols).None?
    ensures res.Err? ==> res.error == KernelDoesNotFit && world.loopCount == old(world.loopCount)
    ensures res.Err? ==> world.grid == old(world.grid)
    ensures res.Ok? ==> |res.value| == n && world.loopCount == old(world.loopCount) + start + n
    ensures res.Ok? ==> forall k :: 0 <= k < n ==>
      Shows(res.value[k], Run(old(world.grid), world.boundary, world.birthRate, masks)[start + k])
    ensures res.Ok? ==> world.grid == Run(old(world.grid), world.boundary, world.birthRate, masks)[start + n]
    ensures res.Ok? && start + n > 0 ==>
      world.conv != null && world.counted == Run(old(world.grid), world.boundary, world.birthRate, masks)[start + n - 1]
    ensures res.Err? || start + n == 0 ==> world.conv == old(world.conv) && world.counted == old(world.counted)
  {
    ghost var run := Run(world.grid, world.boundary, world.birthRate, masks);
    RunChain(world.grid, world.boundary, world.birthRate, masks);
    var outcome := Advance(world, run, masks, 0, start);
    if outcome.Fail? {
      return Err(outcome.error);
    }
    var photos;
    outcome, photos := Film(world, run, masks, start, start + n);
    res := if outcome.Fail? then Err(outcome.error) else Ok(photos);
  }
}
