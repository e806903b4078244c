/** Boards as values and as the jagged `bool[][]` arrays the service passes around. */
module Grids {

  /** One generation of a board, row-major: `g[r][c]` is the cell in row `r`, column `c`. */
  type Grid = seq<seq<bool>>

  /** At least one row, and every row as long as the first (the column count may be zero). */
  predicate Rectangular(g: Grid) {
    |g| > 0 && forall r :: 0 <= r < |g| ==> |g[r]| == |g[0]|
  }

  /** What board creation accepts: rectangular with at least one column. */
  predicate IsBoard(g: Grid) {
    Rectangular(g) && |g[0]| > 0
  }

  /** Two rectangular grids with the same number of rows and columns. */
  predicate SameShape(a: Grid, b: Grid) {
    Rectangular(a) && Rectangular(b) && |a| == |b| && |a[0]| == |b[0]|
  }

  /** The value held by a jagged array: row `r` is `a[r][..]`. */
  function Cells(a: array<array<bool>>): (g: Grid)
    reads a, a[..]
    ensures |g| == a.Length
    ensures forall r :: 0 <= r < a.Length ==> g[r] == a[r][..]
  {
    seq(a.Length, r requires 0 <= r < a.Length reads a, a[..] => a[r][..])
  }
}
