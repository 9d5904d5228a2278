/** The n-by-n board of tower heights and the Latin-square discipline on it. */
module Grids {
  import opened Permutations

  /** A (row, column) pair; the keys of the solver's `grid` dictionary. */
  datatype Coord = Coord(row: nat, col: nat)

  /** A board, row by row: `g[i][j]` is the height in row i, column j. */
  type Grid = seq<seq<int>>

  predicate Shaped(g: Grid, n: nat) {
    |g| == n && forall i | 0 <= i < n :: |g[i]| == n
  }

  predicate InGrid(c: Coord, n: nat) {
    c.row < n && c.col < n
  }

  /** The height at a coordinate; 0 off the board (never read on a shaped board). */
  function CellValue(g: Grid, c: Coord): int {
    if c.row < |g| && c.col < |g[c.row]| then g[c.row][c.col] else 0
  }

  function Row(g: Grid, n: nat, i: nat): seq<int> {
    seq(n, j requires 0 <= j < n => CellValue(g, Coord(i, j)))
  }

  function Column(g: Grid, n: nat, j: nat): seq<int> {
    seq(n, i requires 0 <= i < n => CellValue(g, Coord(i, j)))
  }

  /** Every row and every column is a permutation of 1..n. */
  predicate IsLatinSquare(g: Grid, n: nat) {
    && Shaped(g, n)
    && (forall i | 0 <= i < n :: IsPermutationOf1ToN(Row(g, n, i), n))
    && (forall j | 0 <= j < n :: IsPermutationOf1ToN(Column(g, n, j), n))
  }
}
