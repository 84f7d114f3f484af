/**
 * Live-neighbour counting. The count matrix is the grid correlated with the 3x3
 * stencil of ones with a zero centre; the source convolves through a helper whose
 * edge handling is not part of this model, so the edge rule is a parameter.
 */
module Neighborhood {
  import opened Grids

  /** How a position just outside the grid is read. */
  datatype Boundary =
    | ZeroPadded  // outside cells count as dead
    | Toroidal    // rows and columns wrap around

  /** The convolution kernel's 3x3 block: ones around a zero centre. */
  const Stencil: Grid := [[1, 1, 1], [1, 0, 1], [1, 1, 1]]

  /** One of the eight Moore offsets around a cell. */
  predicate IsNeighborOffset(di: int, dj: int)
  {
    -1 <= di <= 1 && -1 <= dj <= 1 && !(di == 0 && dj == 0)
  }

  /** The state read at position (i, j), which may lie one step outside the grid. */
  function At(g: Grid, b: Boundary, i: int, j: int): int
    requires Rect(g) && |g| > 0 && Cols(g) > 0
  {
    match b
    case ZeroPadded => if 0 <= i < |g| && 0 <= j < Cols(g) then g[i][j] else 0
    case Toroidal => g[i % |g|][j % Cols(g)]
  }

  /** The stencil-weighted sum over stencil positions k..8 (position k is row k / 3, column k % 3). */
  function Weighted(g: Grid, b: Boundary, i: int, j: int, k: nat): int
    requires Rect(g) && |g| > 0 && Cols(g) > 0 && k <= 9
    decreases 9 - k
  {
    if k == 9 then 0
    else Stencil[k / 3][k % 3] * At(g, b, i + k / 3 - 1, j + k % 3 - 1) + Weighted(g, b, i, j, k + 1)
  }

  /** The count-matrix entry of cell (i, j): the stencil centred on the cell. */
  function Count(g: Grid, b: Boundary, i: int, j: int): int
    requires Rect(g) && InGrid(g, i, j)
  {
    Weighted(g, b, i, j, 0)
  }

  /** The sum of the eight Moore neighbours, written out term by term. */
  function MooreSum(g: Grid, b: Boundary, i: int, j: int): int
    requires Rect(g) && InGrid(g, i, j)
  {
    At(g, b, i - 1, j - 1) + At(g, b, i - 1, j) + At(g, b, i - 1, j + 1) +
    At(g, b, i, j - 1) + At(g, b, i, j + 1) +
    At(g, b, i + 1, j - 1) + At(g, b, i + 1, j) + At(g, b, i + 1, j + 1)
  }

  /** The stencil count is exactly the direct sum of the eight neighbours. */
  lemma CountIsMooreSum(g: Grid, b: Boundary, i: int, j: int)
    requires Rect(g) && InGrid(g, i, j)
    ensures Count(g, b, i, j) == MooreSum(g, b, i, j)
  {
    assert Weighted(g, b, i, j, 8) == At(g, b, i + 1, j + 1);
    assert Weighted(g, b, i, j, 7) == At(g, b, i + 1, j) + At(g, b, i + 1, j + 1);
    assert Weighted(g, b, i, j, 6) == At(g, b, i + 1, j - 1) + Weighted(g, b, i, j, 7);
    assert Weighted(g, b, i, j, 5) == At(g, b, i, j + 1) + Weighted(g, b, i, j, 6);
    assert Weighted(g, b, i, j, 4) == Weighted(g, b, i, j, 5);
    assert Weighted(g, b, i, j, 3) == At(g, b, i, j - 1) + Weighted(g, b, i, j, 4);
    assert Weighted(g, b, i, j, 2) == At(g, b, i - 1, j + 1) + Weighted(g, b, i, j, 3);
    assert Weighted(g, b, i, j, 1) == At(g, b, i - 1, j) + Weighted(g, b, i, j, 2);
  }

  /** On a 0/1 grid every neighbour count lies in [0, 8]. */
  lemma CountBounds(g: Grid, b: Boundary, i: int, j: int)
    requires Rect(g) && IsBinary(g) && InGrid(g, i, j)
    ensures 0 <= Count(g, b, i, j) <= 8
  {
    CountIsMooreSum(g, b, i, j);
    forall p, q ensures 0 <= At(g, b, p, q) <= 1 {
      match b
      case ZeroPadded =>
        if 0 <= p < |g| && 0 <= q < Cols(g) { assert InGrid(g, p, q); }
      case Toroidal =>
        assert InGrid(g, p % |g|, q % Cols(g));
    }
  }

  /** Position p read toroidally from cell i lands on i only for a zero offset, when the extent is 2 or more. */
  lemma WrapMovesAway(i: int, d: int, n: nat)
    requires 2 <= n && 0 <= i < n && -1 <= d <= 1 && d != 0
    ensures (i + d) % n != i
  {
  }

  /**
   * The count of a cell does not depend on the cell's own state: the stencil's
   * centre is zero. Under wrap-around this needs at least two rows and two
   * columns, since otherwise a neighbour offset wraps back onto the cell.
   */
  lemma CountIgnoresOwnCell(g: Grid, b: Boundary, i: int, j: int, v: int)
    requires Rect(g) && InGrid(g, i, j)
    requires b == Toroidal ==> |g| >= 2 && Cols(g) >= 2
    ensures Count(g[i := g[i][j := v]], b, i, j) == Count(g, b, i, j)
  {
    var h := g[i := g[i][j := v]];
    assert Rect(h);
    forall di, dj | IsNeighborOffset(di, dj) ensures At(h, b, i + di, j + dj) == At(g, b, i + di, j + dj) {
      if b == Toroidal {
        if di != 0 { WrapMovesAway(i, di, |g|); } else { WrapMovesAway(j, dj, Cols(g)); }
      }
    }
    CountIsMooreSum(g, b, i, j);
    CountIsMooreSum(h, b, i, j);
    assert MooreSum(h, b, i, j) == MooreSum(g, b, i, j) by {
      assert IsNeighborOffset(-1, -1) && IsNeighborOffset(-1, 0) && IsNeighborOffset(-1, 1);
      assert IsNeighborOffset(0, -1) && IsNeighborOffset(0, 1);
      assert IsNeighborOffset(1, -1) && IsNeighborOffset(1, 0) && IsNeighborOffset(1, 1);
    }
  }

  /** A one-cell torus is the exception: every offset wraps back onto the cell, so its own state is counted eight times. */
  lemma ThinTorusCountsOwnCell()
    ensures Count([[1]], Toroidal, 0, 0) == 8
  {
    CountIsMooreSum([[1]], Toroidal, 0, 0);
  }

  /** The whole count matrix, as `calc_conv` stores it in `conv_matrix`. */
  function Counts(g: Grid, b: Boundary): (c: Grid)
    requires Rect(g)
    ensures SameShape(c, g)
    ensures forall i, j {:trigger Count(g, b, i, j)} :: InGrid(g, i, j) ==> c[i][j] == Count(g, b, i, j)
  {
    seq(|g|, i requires 0 <= i < |g| => seq(|g[i]|, j requires 0 <= j < |g[i]| => Count(g, b, i, j)))
  }

  /** Every entry of the count matrix of a 0/1 grid lies in [0, 8]. */
  lemma CountsBounds(g: Grid, b: Boundary)
    requires Rect(g) && IsBinary(g)
    ensures forall i, j :: InGrid(g, i, j) ==> 0 <= Counts(g, b)[i][j] <= 8
  {
    forall i, j | InGrid(g, i, j) ensures 0 <= Counts(g, b)[i][j] <= 8 {
      CountBounds(g, b, i, j);
    }
  }

  /**
   * The full-size kernel of `calc_conv`: an m x n matrix of zeros with the stencil
   * written at rows m//2-1 .. m//2+1 and columns n//2-1 .. n//2+1. Writing a 3x3 block
   * into a slice with fewer than three rows or columns raises, so small shapes give None.
   */
  function Kernel(m: nat, n: nat): (k: Option<Grid>)
    ensures k.None? <==> m < 3 || n < 3
    ensures k.Some? ==> IsShape(k.value, m, n)
    ensures k.Some? ==> forall p, q :: 0 <= p < m && 0 <= q < n ==>
      k.value[p][q] == (if IsNeighborOffset(p - m / 2, q - n / 2) then 1 else 0)
  {
    if m < 3 || n < 3 then None
    else
      Some(seq(m, p requires 0 <= p < m =>
        seq(n, q requires 0 <= q < n =>
          if m / 2 - 1 <= p <= m / 2 + 1 && n / 2 - 1 <= q <= n / 2 + 1
          then Stencil[p - (m / 2 - 1)][q - (n / 2 - 1)]
          else 0)))
  }
}
