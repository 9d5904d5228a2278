/** A Skyscraper puzzle instance and what it means for a board to solve it,
    stated without reference to any solver encoding. */
module Puzzle {
  import opened Grids
  import opened Directions
  import opened Visibility

  /** The four clue sequences; entry i is the clue for line i, 0 meaning "no clue". */
  datatype Clues = Clues(top: seq<nat>, left: seq<nat>, right: seq<nat>, bottom: seq<nat>)

  function ClueList(clues: Clues, d: Direction): seq<nat> {
    match d
    case Top => clues.top
    case Left => clues.left
    case Right => clues.right
    case Bottom => clues.bottom
  }

  /** A given cell: the board must hold `value` at (`row`, `col`). */
  datatype FixedCell = FixedCell(row: nat, col: nat, value: nat) {
    function At(): Coord {
      Coord(row, col)
    }
  }

  /** Every non-zero clue equals the number of towers visible along its line. */
  ghost predicate CluesHold(g: Grid, n: nat, clues: Clues) {
    forall d: Direction, i: nat | i < n && i < |ClueList(clues, d)| && ClueList(clues, d)[i] != 0 ::
      VisibleCount(Line(g, n, d, i)) == ClueList(clues, d)[i]
  }

  ghost predicate FixedCellsHold(g: Grid, fixed: seq<FixedCell>) {
    forall t | 0 <= t < |fixed| :: CellValue(g, fixed[t].At()) == fixed[t].value
  }

  /** A solution: a Latin square meeting every clue and every given cell. */
  ghost predicate IsSolution(g: Grid, n: nat, clues: Clues, fixed: seq<FixedCell>) {
    IsLatinSquare(g, n) && CluesHold(g, n, clues) && FixedCellsHold(g, fixed)
  }
}
