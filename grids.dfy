/** Cell matrices as values: shapes, the 0/1 invariant, sums, and the value held by a 2-D array. */
module Grids {

  datatype Option<T> = None | Some(value: T)

  /** A rectangular matrix of cell states, row-major: g[i][j] is row i, column j. */
  type Grid = seq<seq<int>>

  /** True when `g` has `rows` rows of `cols` entries each. */
  predicate IsShape<T>(g: seq<seq<T>>, rows: nat, cols: nat)
  {
    |g| == rows && forall i :: 0 <= i < rows ==> |g[i]| == cols
  }

  /** True when `a` and `b` have the same rows and the same row lengths. */
  predicate SameShape<A, B>(a: seq<seq<A>>, b: seq<seq<B>>)
  {
    |a| == |b| && forall i :: 0 <= i < |a| ==> |a[i]| == |b[i]|
  }

  function Cols<T>(g: seq<seq<T>>): nat
  {
    if |g| == 0 then 0 else |g[0]|
  }

  /** A matrix whose rows all have the length of the first one. */
  predicate Rect<T>(g: seq<seq<T>>)
  {
    IsShape(g, |g|, Cols(g))
  }

  predicate InGrid<T>(g: seq<seq<T>>, i: int, j: int)
  {
    0 <= i < |g| && 0 <= j < |g[i]|
  }

  /** Every cell is dead (0) or alive (1). */
  ghost predicate IsBinary(g: Grid)
  {
    forall i, j :: InGrid(g, i, j) ==> g[i][j] == 0 || g[i][j] == 1
  }

  ghost predicate AllAlive(g: Grid)
  {
    forall i, j :: InGrid(g, i, j) ==> g[i][j] == 1
  }

  function RowSum(r: seq<int>): int
  {
    if r == [] then 0 else RowSum(r[..|r| - 1]) + r[|r| - 1]
  }

  /** The sum of all entries, as numpy's `sum()` over the whole array. */
  function Sum(g: Grid): int
  {
    if g == [] then 0 else Sum(g[..|g| - 1]) + RowSum(g[|g| - 1])
  }

  /** A row of 0/1 cells sums to at most its length, and to exactly its length iff all are alive. */
  lemma {:induction false} RowSumBounds(r: seq<int>)
    requires forall j :: 0 <= j < |r| ==> r[j] == 0 || r[j] == 1
    ensures 0 <= RowSum(r) <= |r|
    ensures RowSum(r) == |r| <==> forall j :: 0 <= j < |r| ==> r[j] == 1
  {
    if r != [] {
      var init := r[..|r| - 1];
      RowSumBounds(init);
      assert forall j :: 0 <= j < |init| ==> init[j] == r[j];
    }
  }

  /** The population of a 0/1 grid lies in [0, rows*cols] and reaches rows*cols iff every cell is alive. */
  lemma {:induction false} SumBounds(g: Grid, rows: nat, cols: nat)
    requires IsShape(g, rows, cols) && IsBinary(g)
    ensures 0 <= Sum(g) <= rows * cols
    ensures Sum(g) == rows * cols <==> AllAlive(g)
  {
    if g != [] {
      var init, last := g[..rows - 1], g[rows - 1];
      assert IsBinary(init) by {
        forall i, j | InGrid(init, i, j) ensures init[i][j] == 0 || init[i][j] == 1 {
          assert InGrid(g, i, j);
        }
      }
      SumBounds(init, rows - 1, cols);
      forall j | 0 <= j < |last| ensures last[j] == 0 || last[j] == 1 {
        assert InGrid(g, rows - 1, j);
      }
      RowSumBounds(last);
      assert (rows - 1) * cols + cols == rows * cols;
      if AllAlive(g) {
        assert AllAlive(init) by {
          forall i, j | InGrid(init, i, j) ensures init[i][j] == 1 {
            assert InGrid(g, i, j);
          }
        }
      }
      if Sum(g) == rows * cols {
        forall i, j | InGrid(g, i, j) ensures g[i][j] == 1 {
          if i < rows - 1 {
            assert InGrid(init, i, j);
          } else {
            assert last[j] == 1;
          }
        }
      }
    }
  }

  /** The 2-D array a holds exactly the grid g. */
  ghost predicate Shows(a: array2<int>, g: Grid)
    reads a
  {
    IsShape(g, a.Length0, a.Length1) &&
    forall i, j :: 0 <= i < a.Length0 && 0 <= j < a.Length1 ==> a[i, j] == g[i][j]
  }

  /** The contents of a 2-D array as a grid value. */
  function ToGrid(a: array2<int>): (g: Grid)
    reads a
    ensures Shows(a, g) && Rect(g)
  {
    seq(a.Length0, i requires 0 <= i < a.Length0 reads a =>
      seq(a.Length1, j requires 0 <= j < a.Length1 reads a => a[i, j]))
  }

  /** An array holds one grid only. */
  lemma ShowsUnique(a: array2<int>, g: Grid, h: Grid)
    requires Shows(a, g) && Shows(a, h)
    ensures g == h
  {
    GridExt(g, h);
  }

  /** Two grids of the same shape that agree on every cell are equal. */
  lemma GridExt<T>(a: seq<seq<T>>, b: seq<seq<T>>)
    requires SameShape(a, b)
    requires forall i, j :: InGrid(a, i, j) ==> a[i][j] == b[i][j]
    ensures a == b
  {
    forall i | 0 <= i < |a| ensures a[i] == b[i] {
      assert forall j :: 0 <= j < |a[i]| ==> InGrid(a, i, j);
    }
  }
}
