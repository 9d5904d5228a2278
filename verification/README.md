# Skyscraper solver: a Dafny model of the encoding

The Skyscraper puzzle asks for an n-by-n board of tower heights 1..n in
which every row and every column holds each height once (a Latin square), a
clue on an edge says how many towers an observer at that edge sees along its
row or column (a tower is seen when every tower nearer the observer is
shorter), and some cells may be given in advance.

The original program does not search for solutions itself. It translates the
puzzle into a constraint model for a CP-SAT solver and lets a callback show
the first five solutions. This project models that translation and the
callback:

- `Directions` maps the four edge orientations (`"top"`, `"left"`, `"right"`,
  `"bottom"`) to the index ranges and cell coordinates of `set_up_booleans`.
- `Visibility` and `Puzzle` state the puzzle's rules without any solver:
  `VisibleCount` is the reference count of visible towers and
  `Puzzle.IsSolution` is what a solution is.
- `CpSat` represents a constraint model as data. A model holds integer cell
  variables, booleans keyed like the program's `visible` and `blocking`
  dictionaries, and guarded constraints (`OnlyEnforceIf`). `Solves` says when
  an assignment satisfies all of it.
- `Encoder` builds the model in the order `main` and `set_up_booleans` post
  it. It returns the error the program would raise instead: an index error
  for a clue list shorter than the board, or a key error for a given cell off
  the board.
- `Correctness` proves the central theorem, `EncodingCorrect`. A board
  extends to a feasible assignment of the model exactly when it solves the
  puzzle. It also proves that every boolean is forced to its intended
  meaning (`BooleansDetermined`).
- `Properties` proves that the encoder only mentions cells on the board.
  It also shows what one more given cell does to the solution set, and what
  happens on the one-cell board.
- `Enumerator` models the solution callback. It numbers each reported
  solution, counts it, and asks the solver to stop once the count reaches the
  cap.

The solver's search is an oracle. It is represented by the sequence of
assignments it reports, each assumed to satisfy `CpSat.Solves`.

## Model

| member | source | states |
|---|---|---|
| Directions.ScanPositions | streamlit_app.py:77-81 | the positions scanned for line visibility are n-1 in number, and the t-th is t+1 steps from the observer's edge, so the edge position is never given a boolean |
| Directions.ScanPositionsMembers | streamlit_app.py:77-81 | a position gets a visibility boolean exactly when it is not at the observer's edge: 1..n-1 for left and top, 0..n-2 for right and bottom |
| Directions.NearerPositions | streamlit_app.py:90-94 | the inner loop runs over exactly the positions nearer the observer than position j; there are as many as j's distance from the edge |
| Directions.CluePositions | streamlit_app.py:157-160 | the positions summed for a clue are exactly the positions that received visibility booleans, in the same number |
| Directions.Line | streamlit_app.py:98-107 | the line seen from an edge is the row (left), the column (top), the reversed row (right) or the reversed column (bottom) |
| Directions.LineAt | streamlit_app.py:98-107 | the cell `set_up_booleans` addresses for (i, j) sits at position Mirror(j) of the line read from the observer's edge |
| Encoder.GridVariables | streamlit_app.py:133-136 | every board cell gets a variable with domain 1..n, and no variable addresses a cell off the board |
| Encoder.FirstOffBoard | streamlit_app.py:171-173 | finds the first given cell that lies off the board, so the cells before it are all on the board; it finds none exactly when every given cell is on the board |
| Encoder.Encode | streamlit_app.py:153-173 | a model is built exactly when all four clue lists cover the board and all given cells are on it; otherwise the error names the first failing input in the program's order (top, left, right, bottom, then the given cells) |
| Encoder.LatinConstraints | streamlit_app.py:138-143 | one all-different constraint per row, then one per column; `Correctness.LatinConstraintsSemantics` and `Correctness.GridSemantics` give their meaning |
| Encoder.NearerFragment | streamlit_app.py:109-117 | the blocking boolean for (j, k) and the three guarded comparisons of cell k against cell j; `Correctness.NearerFragmentHolds`, `Correctness.PositionForcesBooleans` and `Correctness.IntendedBooleansSatisfyPosition` give their meaning |
| Encoder.BlockerSum | streamlit_app.py:119-120 | the sum of position j's blocking booleans exceeds 0 unless j is visible; `Correctness.BlockerSumSemantics` gives its meaning |
| Encoder.PositionFragment | streamlit_app.py:86-120 | one pass of the j loop: the visibility boolean, the per-k fragments and the blocker sum; `Correctness.PositionForcesBooleans` and `Correctness.IntendedBooleansSatisfyPosition` give its meaning |
| Encoder.SetUpBooleans | streamlit_app.py:72-120 | one call for one direction; `Correctness.SetUpBooleansDeclares` says which booleans it creates and `Properties.ModelOnBoard` that its cells are on the board |
| Encoder.ClueSum | streamlit_app.py:167-168 | the line's visibility booleans sum to the clue minus one; `Correctness.ClueConstraintsSemantics` and `Correctness.ClueSumCountsVisible` give its meaning |
| Encoder.ClueConstraints | streamlit_app.py:162-168 | one clue sum per line with a non-zero clue; `Correctness.ClueConstraintsSemantics` gives their meaning |
| Encoder.FixedConstraints | streamlit_app.py:171-173 | one equality per given cell; `Correctness.FixedConstraintsSemantics` and `Properties.FixedCellRestricts` give their meaning |
| Enumerator.OnSolution | streamlit_app.py:190-210 | one callback call increments the count, delivers the board under the new count, and requests a stop exactly when the count reaches `Cap` of the limit; `Enumerator.Feed` states what repeated calls deliver |
| Enumerator.Cap | streamlit_app.py:208 | the number of solutions delivered before a stop is at least 1 and at least the cap, and equals the cap when the cap is positive |
| Seqs.CountTrue | streamlit_app.py:120 | a sum of booleans is at most their number, and is positive exactly when one of them is true |
| Permutations.DistinctInRangeIsPermutation | streamlit_app.py:136-143 | n pairwise-different values in 1..n are exactly a permutation of 1..n |
| Visibility.EdgeTowerVisible | streamlit_app.py:167-168 | the tower at the edge is always visible, so the other positions account for the clue minus one |
| Visibility.SightCountIsVisibleCount | streamlit_app.py:162-168 | the reference count agrees with the usual running-maximum count of visible towers |
| Correctness.VisibleIffNearerLower | streamlit_app.py:109-110 | position j is visible along the line exactly when every cell the inner loop visits is lower than cell j |
| Correctness.BlockerSumSemantics | streamlit_app.py:119-120 | the blocker-sum constraint holds when j is visible, or when at least one blocking boolean is true |
| Correctness.PositionForcesBooleans | streamlit_app.py:109-120 | any assignment satisfying position j's constraints has visible = "j is seen" and blocking(k) = "cell k is taller than cell j" |
| Correctness.IntendedBooleansSatisfyPosition | streamlit_app.py:109-120 | conversely, on a line of distinct heights, giving the booleans those intended values satisfies every constraint of position j |
| Correctness.SetUpBooleansDeclares | streamlit_app.py:72-113 | the booleans one call creates are exactly the visibility booleans of non-edge positions plus one blocking boolean per nearer position |
| Correctness.BooleansDeclared | streamlit_app.py:153-155 | across the four directions, the model's booleans are exactly the declared ones |
| Correctness.NoBooleansOnTinyBoard | streamlit_app.py:78-81 | with n at most 1 no boolean of either kind is created |
| Correctness.ClueSumCountsVisible | streamlit_app.py:157-168 | when the booleans take their intended values, the clue sum plus one is the number of visible towers on the line |
| Correctness.ClueConstraintsSemantics | streamlit_app.py:162-168 | a zero clue posts nothing; otherwise the line's visibility booleans sum to the clue minus one |
| Correctness.LatinConstraintsSemantics | streamlit_app.py:138-143 | the all-different constraints hold exactly when every row and every column has pairwise-different values |
| Correctness.FixedConstraintsSemantics | streamlit_app.py:171-173 | the given-cell constraints hold exactly when the board carries every given value |
| Correctness.GridSemantics | streamlit_app.py:133-143 | the domains 1..n together with the all-different constraints hold exactly when the board is a Latin square |
| Correctness.EncodingSound | streamlit_app.py:133-173 | every feasible assignment of the model carries a board that solves the puzzle |
| Correctness.EncodingComplete | streamlit_app.py:133-173 | every solution of the puzzle, with its booleans set to their intended meaning, is a feasible assignment |
| Correctness.EncodingCorrect | streamlit_app.py:133-173 | a board extends to a feasible assignment exactly when it is a Latin square meeting every non-zero clue and every given cell |
| Correctness.BooleansDetermined | streamlit_app.py:109-120 | in every feasible assignment each visible and blocking boolean equals its intended meaning |
| Properties.ModelOnBoard | streamlit_app.py:98-107 | every cell the model mentions, in every constraint family, lies in [0, n) x [0, n) |
| Properties.FixedCellRestricts | streamlit_app.py:171-173 | one more given cell keeps exactly the boards of the smaller puzzle that already hold that value there |
| Properties.OutOfRangeGivenIsInfeasible | streamlit_app.py:171-173 | a given value outside 1..n does not stop the model from being built, but no assignment satisfies the model |
| Properties.SingleCellBoard | streamlit_app.py:153-173 | on the one-cell board the only solution is the tower of height 1, so it requires every non-zero clue and every given value to be 1 |
| Enumerator.Feed | streamlit_app.py:190-210 | a callback that has counted c solutions delivers the next ones numbered c+1, c+2, ..., and asks to stop once the count reaches the cap; it delivers them all without a stop if the stream ends first |
| Enumerator.Enumerate | streamlit_app.py:183-210 | a fresh callback delivers the first max(cap, 1) solutions, numbered from 1, in the solver's order; it requests a stop exactly when that many exist |
| Enumerator.ShowFirstSolutions | streamlit_app.py:216-219 | with the program's cap of 5: at most five boards, numbered 1 to 5, with a stop request exactly when a fifth solution exists |
| Enumerator.DeliveredAreSolutions | streamlit_app.py:190-219 | if the solver reports only feasible assignments, every board the callback delivers solves the puzzle |

## Left out

- The Streamlit page: the input widgets, the data editors, and the conversion of the editor tables into the clue lists and the given-cell list. The model starts from those lists. Table cells holding 0 are not given cells; only non-zero entries become `FixedCell`s, and that filter is not modelled.
- Rendering a solution as an HTML table, and the "Solution k" / "Stop search" messages. `Delivery` carries the number and the board they show.
- The solver's search, its parameters (`linearization_level`, `enumerate_all_solutions`) and the order it finds solutions in. The search is an oracle: a sequence of assignments, each of which satisfies `Solves`.
- Variable names given to `NewIntVar`/`NewBoolVar`. They have no effect on the model's meaning.
- Clues and given-cell coordinates are natural numbers. Negative inputs from the editor are not modelled.
- Given values outside 1..n are accepted by the program, and the model accepts them too. They only make the model infeasible (`Properties.OutOfRangeGivenIsInfeasible`). Clues above n are accepted in the same way; no line can meet them, because at most n towers are visible (`Visibility.EdgeTowerVisible`).
- The cap is compared after the count is incremented, so a cap below 1 still delivers one solution. `Enumerator.Cap` models this, and `main` always passes 5.
- When an input error is raised, the model returns only the error. Any part of the model the program had built before raising is not kept.
