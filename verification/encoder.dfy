/** The puzzle-to-model transformation of `main` and `set_up_booleans`:
    which variables are created and which constraints are posted, in the
    order the original program posts them. */
module Encoder {
  import opened Wrappers
  import opened Seqs
  import opened Grids
  import opened Directions
  import opened Puzzle
  import opened CpSat

  /** Why model construction raises: a clue list shorter than the board
      (an index error on the clue lookup), or a given cell whose row or
      column is off the board (a missing key in the cell dictionary). */
  datatype EncodeError =
    | ClueListTooShort(dir: Direction)
    | FixedCellOffBoard(index: nat)

  /** One variable with domain 1..n per cell, row by row. */
  function GridVariables(n: nat): (vs: seq<IntVar>)
    ensures forall v | v in vs :: InGrid(v.at, n) && v.lo == 1 && v.hi == n
    ensures forall c: Coord | InGrid(c, n) :: IntVar(c, 1, n) in vs
  {
    var rows := seq(n, i requires 0 <= i < n => seq(n, j requires 0 <= j < n => IntVar(Coord(i, j), 1, n)));
    assert forall c: Coord | InGrid(c, n) :: IntVar(c, 1, n) in rows[c.row] by {
      forall c: Coord | InGrid(c, n) ensures IntVar(c, 1, n) in rows[c.row] {
        assert rows[c.row][c.col] == IntVar(c, 1, n);
      }
    }
    Flatten(rows)
  }

  function RowCells(n: nat, i: nat): seq<Coord> {
    seq(n, j requires 0 <= j < n => Coord(i, j))
  }

  function ColumnCells(n: nat, j: nat): seq<Coord> {
    seq(n, i requires 0 <= i < n => Coord(i, j))
  }

  /** All-different over every row, then over every column. */
  function LatinConstraints(n: nat): seq<Constraint> {
    seq(n, i requires 0 <= i < n => Constraint(AllDifferent(RowCells(n, i)), Always))
    + seq(n, j requires 0 <= j < n => Constraint(AllDifferent(ColumnCells(n, j)), Always))
  }

  /** The body of the innermost loop of `set_up_booleans`, for nearer position k. */
  function NearerFragment(d: Direction, i: nat, j: nat, k: nat): Fragment {
    var visible := Visible(i, j, d);
    var blocking := Blocking(i, j, k, d);
    var cellK := CellOf(d, i, k);
    var cellJ := CellOf(d, i, j);
    Fragment(
      [blocking],
      [ Constraint(CellLess(cellK, cellJ), OnlyIf(Pos(visible))),
        Constraint(CellGreater(cellK, cellJ), OnlyIf(Pos(blocking))),
        Constraint(CellLess(cellK, cellJ), OnlyIf(Neg(blocking))) ])
  }

  /** The blocking booleans of position j, one per nearer position. */
  function Blockers(n: nat, d: Direction, i: nat, j: nat): seq<BoolVar>
    requires j < n
  {
    var ks := NearerPositions(n, d, j);
    seq(|ks|, t requires 0 <= t < |ks| => Blocking(i, j, ks[t], d))
  }

  /** The per-k fragments of position j, in `range_k` order. */
  function NearerFragments(n: nat, d: Direction, i: nat, j: nat): seq<Fragment>
    requires j < n
  {
    var ks := NearerPositions(n, d, j);
    seq(|ks|, t requires 0 <= t < |ks| => NearerFragment(d, i, j, ks[t]))
  }

  /** "At least one blocker is true", enforced only when j is not visible. */
  function BlockerSum(n: nat, d: Direction, i: nat, j: nat): Constraint
    requires j < n
  {
    Constraint(SumGreater(Blockers(n, d, i, j), 0), OnlyIf(Neg(Visible(i, j, d))))
  }

  /** One iteration of the `j` loop: the visibility boolean, the per-k
      fragments, and the blocker sum. */
  function PositionFragment(n: nat, d: Direction, i: nat, j: nat): Fragment
    requires j < n
  {
    var perK := Join(NearerFragments(n, d, i, j));
    Fragment([Visible(i, j, d)] + perK.bools, perK.constraints + [BlockerSum(n, d, i, j)])
  }

  /** The fragments of the `j` loop for line i, in `range_j` order. */
  function PositionFragments(n: nat, d: Direction, i: nat): seq<Fragment> {
    var js := ScanPositions(n, d);
    seq(|js|, t requires 0 <= t < |js| => PositionFragment(n, d, i, js[t]))
  }

  /** The fragments of the `i` loop, one per line. */
  function LineFragments(n: nat, d: Direction): seq<Fragment> {
    seq(n, i requires 0 <= i < n => Join(PositionFragments(n, d, i)))
  }

  /** `set_up_booleans` for one direction. */
  function SetUpBooleans(n: nat, d: Direction): Fragment {
    Join(LineFragments(n, d))
  }

  /** The visibility booleans summed for line i. */
  function ClueVariables(n: nat, d: Direction, i: nat): seq<BoolVar> {
    var cp := CluePositions(n, d);
    seq(|cp|, t requires 0 <= t < |cp| => Visible(i, cp[t], d))
  }

  /** "The visible booleans of line i sum to v - 1" for a clue v. */
  function ClueSum(n: nat, d: Direction, i: nat, v: nat): Constraint {
    Constraint(SumEquals(ClueVariables(n, d, i), v - 1), Always)
  }

  /** What each line's clue posts: nothing for a 0 clue. */
  function ClueLines(n: nat, d: Direction, clue: seq<nat>): seq<seq<Constraint>>
    requires |clue| >= n
  {
    seq(n, i requires 0 <= i < n => if clue[i] == 0 then [] else [ClueSum(n, d, i, clue[i])])
  }

  function ClueConstraints(n: nat, d: Direction, clue: seq<nat>): seq<Constraint>
    requires |clue| >= n
  {
    Flatten(ClueLines(n, d, clue))
  }

  /** One pass of the direction loop in `main`. */
  function DirectionFragment(n: nat, d: Direction, clue: seq<nat>): Fragment
    requires |clue| >= n
  {
    var booleans := SetUpBooleans(n, d);
    Fragment(booleans.bools, booleans.constraints + ClueConstraints(n, d, clue))
  }

  /** The direction loop of `main`: one fragment per edge, in visiting order. */
  function PerDirection(n: nat, clues: Clues): seq<Fragment>
    requires forall d: Direction :: |ClueList(clues, d)| >= n
  {
    seq(|AllDirections|, a requires 0 <= a < |AllDirections| =>
      DirectionFragment(n, AllDirections[a], ClueList(clues, AllDirections[a])))
  }

  function FixedConstraints(fixed: seq<FixedCell>): seq<Constraint> {
    seq(|fixed|, t requires 0 <= t < |fixed| => Constraint(CellEquals(fixed[t].At(), fixed[t].value), Always))
  }

  /** The first given cell, from index `from` on, that lies off the board. */
  function FirstOffBoard(n: nat, fixed: seq<FixedCell>, from: nat): (r: Option<nat>)
    decreases |fixed| - from
    ensures r.Some? ==> from <= r.value < |fixed| && !InGrid(fixed[r.value].At(), n)
    ensures r.Some? ==> forall t | from <= t < r.value :: InGrid(fixed[t].At(), n)
    ensures r.None? <==> forall t | from <= t < |fixed| :: InGrid(fixed[t].At(), n)
  {
    if from >= |fixed| then None
    else if !InGrid(fixed[from].At(), n) then Some(from)
    else FirstOffBoard(n, fixed, from + 1)
  }

  /** Builds the whole model, or reports the first input the original program
      would raise on. Directions are visited top, left, right, bottom. */
  function Encode(n: nat, clues: Clues, fixed: seq<FixedCell>): (r: Result<CpModel, EncodeError>)
    ensures r.Success? <==>
      (forall d: Direction :: |ClueList(clues, d)| >= n) && (forall t | 0 <= t < |fixed| :: InGrid(fixed[t].At(), n))
    ensures r.Success? ==> r.value.n == n
    ensures r.Failure? && r.error.ClueListTooShort? ==>
      && |ClueList(clues, r.error.dir)| < n
      && forall a | 0 <= a < |AllDirections| && AllDirections[a] == r.error.dir ::
           forall b | 0 <= b < a :: |ClueList(clues, AllDirections[b])| >= n
    ensures r.Failure? && r.error.FixedCellOffBoard? ==>
      && (forall d: Direction :: |ClueList(clues, d)| >= n)
      && r.error.index < |fixed|
      && !InGrid(fixed[r.error.index].At(), n)
      && forall t | 0 <= t < r.error.index :: InGrid(fixed[t].At(), n)
  {
    if |clues.top| < n then Failure(ClueListTooShort(Top))
    else if |clues.left| < n then Failure(ClueListTooShort(Left))
    else if |clues.right| < n then Failure(ClueListTooShort(Right))
    else if |clues.bottom| < n then Failure(ClueListTooShort(Bottom))
    else
      match FirstOffBoard(n, fixed, 0)
      case Some(t) => Failure(FixedCellOffBoard(t))
      case None =>
        var body := Join(PerDirection(n, clues));
        Success(CpModel(n, GridVariables(n), body.bools, LatinConstraints(n) + body.constraints + FixedConstraints(fixed)))
  }
}
