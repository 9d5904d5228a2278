/** Soundness and completeness of the encoding: a board extends to an
    assignment satisfying every constraint the encoder posts exactly when it
    solves the puzzle in the sense of `Puzzle.IsSolution`. */
module Correctness {
  import opened Seqs
  import opened Permutations
  import opened Grids
  import opened Directions
  import opened Visibility
  import opened Puzzle
  import opened CpSat
  import opened Encoder
  import opened Wrappers

  /** Position j of a line is visible exactly when every nearer cell is lower,
      whichever way the line is scanned. */
  lemma VisibleIffNearerLower(g: Grid, n: nat, d: Direction, i: nat, j: nat)
    requires j < n
    ensures VisibleAt(Line(g, n, d, i), Mirror(n, d, j)) <==>
      forall k: nat | k in NearerPositions(n, d, j) :: CellValue(g, CellOf(d, i, k)) < CellValue(g, CellOf(d, i, j))
  {
    var line := Line(g, n, d, i);
    var p := Mirror(n, d, j);
    var ks := NearerPositions(n, d, j);
    LineAt(g, n, d, i, j);
    if VisibleAt(line, p) {
      forall k: nat | k in ks
        ensures CellValue(g, CellOf(d, i, k)) < CellValue(g, CellOf(d, i, j))
      {
        LineAt(g, n, d, i, k);
      }
    }
    if forall k: nat | k in ks :: CellValue(g, CellOf(d, i, k)) < CellValue(g, CellOf(d, i, j)) {
      forall q | 0 <= q < p
        ensures line[q] < line[p]
      {
        var k := Mirror(n, d, q);
        MirrorInvolution(n, d, q);
        LineAt(g, n, d, i, k);
        assert k in ks;
      }
    }
  }

  lemma NearerFragmentsSemantics(asg: Assignment, n: nat, d: Direction, i: nat, j: nat)
    requires j < n
    ensures SatisfiesAll(asg, Join(NearerFragments(n, d, i, j)).constraints) <==>
      forall k: nat | k in NearerPositions(n, d, j) :: SatisfiesAll(asg, NearerFragment(d, i, j, k).constraints)
  {
    var ks := NearerPositions(n, d, j);
    var fs := NearerFragments(n, d, i, j);
    SatisfiesAllJoin(asg, fs);
    forall k: nat | k in ks && (forall t | 0 <= t < |fs| :: SatisfiesAll(asg, fs[t].constraints))
      ensures SatisfiesAll(asg, NearerFragment(d, i, j, k).constraints)
    {
      var t :| 0 <= t < |ks| && ks[t] == k;
      assert fs[t] == NearerFragment(d, i, j, k);
    }
  }

  lemma BlockerSumSemantics(asg: Assignment, n: nat, d: Direction, i: nat, j: nat)
    requires j < n
    ensures Holds(asg, BlockerSum(n, d, i, j)) <==>
      (!BoolValue(asg, Visible(i, j, d)) ==> exists k: nat :: k in NearerPositions(n, d, j) && BoolValue(asg, Blocking(i, j, k, d)))
  {
    var ks := NearerPositions(n, d, j);
    var blockers := Blockers(n, d, i, j);
    var flags := seq(|blockers|, t requires 0 <= t < |blockers| => BoolValue(asg, blockers[t]));
    assert SumOf(asg, blockers) == CountTrue(flags);
    if exists t :: 0 <= t < |flags| && flags[t] {
      var t :| 0 <= t < |flags| && flags[t];
      assert ks[t] in ks && BoolValue(asg, Blocking(i, j, ks[t], d));
    }
    if exists k: nat :: k in ks && BoolValue(asg, Blocking(i, j, k, d)) {
      var k: nat :| k in ks && BoolValue(asg, Blocking(i, j, k, d));
      var t :| 0 <= t < |ks| && ks[t] == k;
      assert flags[t];
    }
  }

  /** The constraints of one position, split into its per-k triples and its
      "some blocker unless visible" sum. */
  lemma PositionConstraints(asg: Assignment, n: nat, d: Direction, i: nat, j: nat)
    requires j < n
    ensures SatisfiesAll(asg, PositionFragment(n, d, i, j).constraints) <==>
      && (forall k: nat | k in NearerPositions(n, d, j) :: SatisfiesAll(asg, NearerFragment(d, i, j, k).constraints))
      && (!BoolValue(asg, Visible(i, j, d)) ==> exists k: nat :: k in NearerPositions(n, d, j) && BoolValue(asg, Blocking(i, j, k, d)))
  {
    var triples := Join(NearerFragments(n, d, i, j)).constraints;
    var sum := BlockerSum(n, d, i, j);
    assert PositionFragment(n, d, i, j).constraints == triples + [sum];
    SatisfiesAllConcat(asg, triples, [sum]);
    assert SatisfiesAll(asg, [sum]) <==> Holds(asg, sum);
    NearerFragmentsSemantics(asg, n, d, i, j);
    BlockerSumSemantics(asg, n, d, i, j);
  }

  /** Whatever satisfies a position's constraints has its visible boolean equal
      to "all nearer cells are lower" and each blocking boolean equal to
      "the nearer cell is higher". */
  lemma PositionForcesBooleans(asg: Assignment, n: nat, d: Direction, i: nat, j: nat)
    requires j < n
    requires SatisfiesAll(asg, PositionFragment(n, d, i, j).constraints)
    ensures BoolValue(asg, Visible(i, j, d)) == VisibleAt(Line(asg.grid, n, d, i), Mirror(n, d, j))
    ensures forall k: nat | k in NearerPositions(n, d, j) ::
      BoolValue(asg, Blocking(i, j, k, d)) == (CellValue(asg.grid, CellOf(d, i, k)) > CellValue(asg.grid, CellOf(d, i, j)))
  {
    var g := asg.grid;
    var ks := NearerPositions(n, d, j);
    PositionConstraints(asg, n, d, i, j);
    VisibleIffNearerLower(g, n, d, i, j);
    forall k: nat | k in ks
      ensures BoolValue(asg, Blocking(i, j, k, d)) == (CellValue(g, CellOf(d, i, k)) > CellValue(g, CellOf(d, i, j)))
      ensures BoolValue(asg, Visible(i, j, d)) ==> CellValue(g, CellOf(d, i, k)) < CellValue(g, CellOf(d, i, j))
    {
      var cs := NearerFragment(d, i, j, k).constraints;
      assert Holds(asg, cs[0]) && Holds(asg, cs[1]) && Holds(asg, cs[2]);
    }
  }

  /** The three guarded comparisons for one nearer position hold when the two
      cells differ, the blocking boolean says which is taller, and visibility
      is only claimed over a lower cell. */
  lemma NearerFragmentHolds(asg: Assignment, d: Direction, i: nat, j: nat, k: nat)
    requires CellValue(asg.grid, CellOf(d, i, k)) != CellValue(asg.grid, CellOf(d, i, j))
    requires BoolValue(asg, Blocking(i, j, k, d)) == (CellValue(asg.grid, CellOf(d, i, k)) > CellValue(asg.grid, CellOf(d, i, j)))
    requires BoolValue(asg, Visible(i, j, d)) ==> CellValue(asg.grid, CellOf(d, i, k)) < CellValue(asg.grid, CellOf(d, i, j))
    ensures SatisfiesAll(asg, NearerFragment(d, i, j, k).constraints)
  {
  }

  lemma NearerCellsDiffer(g: Grid, n: nat, d: Direction, i: nat, j: nat)
    requires j < n
    requires Distinct(Line(g, n, d, i))
    ensures forall k: nat | k in NearerPositions(n, d, j) :: CellValue(g, CellOf(d, i, k)) != CellValue(g, CellOf(d, i, j))
  {
    var line := Line(g, n, d, i);
    LineAt(g, n, d, i, j);
    forall k: nat | k in NearerPositions(n, d, j)
      ensures CellValue(g, CellOf(d, i, k)) != CellValue(g, CellOf(d, i, j))
    {
      LineAt(g, n, d, i, k);
      assert line[Mirror(n, d, k)] != line[Mirror(n, d, j)];
    }
  }

  /** On a line of distinct heights, the booleans with their intended meaning
      satisfy the position's constraints. */
  lemma IntendedBooleansSatisfyPosition(asg: Assignment, n: nat, d: Direction, i: nat, j: nat)
    requires j < n
    requires Distinct(Line(asg.grid, n, d, i))
    requires BoolValue(asg, Visible(i, j, d)) == VisibleAt(Line(asg.grid, n, d, i), Mirror(n, d, j))
    requires forall k: nat | k in NearerPositions(n, d, j) ::
      BoolValue(asg, Blocking(i, j, k, d)) == (CellValue(asg.grid, CellOf(d, i, k)) > CellValue(asg.grid, CellOf(d, i, j)))
    ensures SatisfiesAll(asg, PositionFragment(n, d, i, j).constraints)
  {
    var g := asg.grid;
    var ks := NearerPositions(n, d, j);
    VisibleIffNearerLower(g, n, d, i, j);
    NearerCellsDiffer(g, n, d, i, j);
    forall k: nat | k in ks
      ensures SatisfiesAll(asg, NearerFragment(d, i, j, k).constraints)
    {
      NearerFragmentHolds(asg, d, i, j, k);
    }
    if !BoolValue(asg, Visible(i, j, d)) {
      var k: nat :| k in ks && !(CellValue(g, CellOf(d, i, k)) < CellValue(g, CellOf(d, i, j)));
      assert BoolValue(asg, Blocking(i, j, k, d));
    }
    PositionConstraints(asg, n, d, i, j);
  }

  /** `set_up_booleans` for one direction is satisfied exactly when every
      non-edge position of every line is. */
  lemma LineSemantics(asg: Assignment, n: nat, d: Direction, i: nat)
    ensures SatisfiesAll(asg, Join(PositionFragments(n, d, i)).constraints) <==>
      forall j: nat | j < n && j in ScanPositions(n, d) :: SatisfiesAll(asg, PositionFragment(n, d, i, j).constraints)
  {
    var js := ScanPositions(n, d);
    var ps := PositionFragments(n, d, i);
    SatisfiesAllJoin(asg, ps);
    forall j: nat | j < n && j in js && (forall t | 0 <= t < |ps| :: SatisfiesAll(asg, ps[t].constraints))
      ensures SatisfiesAll(asg, PositionFragment(n, d, i, j).constraints)
    {
      var t :| 0 <= t < |js| && js[t] == j;
      assert ps[t] == PositionFragment(n, d, i, j);
    }
  }

  lemma SetUpBooleansSemantics(asg: Assignment, n: nat, d: Direction)
    ensures SatisfiesAll(asg, SetUpBooleans(n, d).constraints) <==>
      forall i: nat, j: nat | i < n && j < n && j in ScanPositions(n, d) :: SatisfiesAll(asg, PositionFragment(n, d, i, j).constraints)
  {
    var lines := LineFragments(n, d);
    var js := ScanPositions(n, d);
    SatisfiesAllJoin(asg, lines);
    if SatisfiesAll(asg, SetUpBooleans(n, d).constraints) {
      forall i: nat, j: nat | i < n && j < n && j in js
        ensures SatisfiesAll(asg, PositionFragment(n, d, i, j).constraints)
      {
        assert SatisfiesAll(asg, lines[i].constraints);
        LineSemantics(asg, n, d, i);
      }
    }
    if forall i: nat, j: nat | i < n && j < n && j in js :: SatisfiesAll(asg, PositionFragment(n, d, i, j).constraints) {
      forall t | 0 <= t < |lines|
        ensures SatisfiesAll(asg, lines[t].constraints)
      {
        LineSemantics(asg, n, d, t);
      }
    }
  }

  /** Flags read from position 1 onward, or from the far end back to
      position 1, count the same as the flags after the first. */
  lemma CountAfterEdge(vals: seq<bool>, flags: seq<bool>, ascending: bool)
    requires |flags| >= 1 && |vals| == |flags| - 1
    requires ascending ==> forall t | 0 <= t < |vals| :: vals[t] == flags[t + 1]
    requires !ascending ==> forall t | 0 <= t < |vals| :: vals[t] == flags[|flags| - 1 - t]
    ensures CountTrue(vals) == CountTrue(flags[1..])
  {
    var tail := flags[1..];
    if ascending {
      assert vals == tail;
    } else {
      assert forall t | 0 <= t < |vals| :: vals[t] == tail[|tail| - 1 - t];
      CountTrueReversed(vals, tail);
    }
  }

  /** The value of each boolean a clue sums, read off the assignment. */
  function ClueValues(asg: Assignment, n: nat, d: Direction, i: nat): seq<bool> {
    var vars := ClueVariables(n, d, i);
    seq(|vars|, t requires 0 <= t < |vars| => BoolValue(asg, vars[t]))
  }

  /** With intended values, the t-th summed boolean is the visibility flag
      t+1 steps from the edge. */
  lemma ClueValuesAreFlags(asg: Assignment, n: nat, d: Direction, i: nat)
    requires i < n
    requires forall j: nat | j < n && j in ScanPositions(n, d) ::
      BoolValue(asg, Visible(i, j, d)) == VisibleAt(Line(asg.grid, n, d, i), Mirror(n, d, j))
    ensures |ClueValues(asg, n, d, i)| == n - 1
    ensures forall t | 0 <= t < n - 1 ::
      ClueValues(asg, n, d, i)[t] == VisibilityFlags(Line(asg.grid, n, d, i))[if Ascending(d) then t + 1 else n - 1 - t]
  {
    var line := Line(asg.grid, n, d, i);
    var cp := CluePositions(n, d);
    var vars := ClueVariables(n, d, i);
    var vals := ClueValues(asg, n, d, i);
    forall t | 0 <= t < n - 1
      ensures vals[t] == VisibilityFlags(line)[if Ascending(d) then t + 1 else n - 1 - t]
    {
      var j := cp[t];
      assert vars[t] == Visible(i, j, d);
      assert j in cp;
      assert vals[t] == VisibleAt(line, Mirror(n, d, j));
    }
  }

  /** The visible booleans summed for a clue, when they carry their intended
      meaning, total one less than the reference count: the edge tower is
      visible and has no boolean. */
  lemma ClueSumCountsVisible(asg: Assignment, n: nat, d: Direction, i: nat)
    requires i < n
    requires forall j: nat | j < n && j in ScanPositions(n, d) ::
      BoolValue(asg, Visible(i, j, d)) == VisibleAt(Line(asg.grid, n, d, i), Mirror(n, d, j))
    ensures SumOf(asg, ClueVariables(n, d, i)) + 1 == VisibleCount(Line(asg.grid, n, d, i))
  {
    var line := Line(asg.grid, n, d, i);
    var vals := ClueValues(asg, n, d, i);
    assert SumOf(asg, ClueVariables(n, d, i)) == CountTrue(vals);
    ClueValuesAreFlags(asg, n, d, i);
    EdgeTowerVisible(line);
    CountAfterEdge(vals, VisibilityFlags(line), Ascending(d));
  }

  lemma ClueConstraintsSemantics(asg: Assignment, n: nat, d: Direction, clue: seq<nat>)
    requires |clue| >= n
    ensures SatisfiesAll(asg, ClueConstraints(n, d, clue)) <==>
      forall i | 0 <= i < n && clue[i] != 0 :: SumOf(asg, ClueVariables(n, d, i)) == clue[i] - 1
  {
    var perLine := ClueLines(n, d, clue);
    var cs := ClueConstraints(n, d, clue);
    if SatisfiesAll(asg, cs) {
      forall i | 0 <= i < n && clue[i] != 0
        ensures SumOf(asg, ClueVariables(n, d, i)) == clue[i] - 1
      {
        assert ClueSum(n, d, i, clue[i]) in perLine[i];
        assert Holds(asg, ClueSum(n, d, i, clue[i]));
      }
    }
    if forall i | 0 <= i < n && clue[i] != 0 :: SumOf(asg, ClueVariables(n, d, i)) == clue[i] - 1 {
      forall c | c in cs
        ensures Holds(asg, c)
      {
        var i :| 0 <= i < |perLine| && c in perLine[i];
        assert clue[i] != 0 && c == ClueSum(n, d, i, clue[i]);
      }
    }
  }

  lemma FixedConstraintsSemantics(asg: Assignment, fixed: seq<FixedCell>)
    ensures SatisfiesAll(asg, FixedConstraints(fixed)) <==> FixedCellsHold(asg.grid, fixed)
  {
    var cs := FixedConstraints(fixed);
    if FixedCellsHold(asg.grid, fixed) {
      forall c | c in cs ensures Holds(asg, c) {
        var t :| 0 <= t < |cs| && cs[t] == c;
      }
    }
    if SatisfiesAll(asg, cs) {
      forall t | 0 <= t < |fixed| ensures CellValue(asg.grid, fixed[t].At()) == fixed[t].value {
        assert Holds(asg, cs[t]);
      }
    }
  }

  lemma LatinConstraintsSemantics(asg: Assignment, n: nat)
    ensures SatisfiesAll(asg, LatinConstraints(n)) <==>
      && (forall i | 0 <= i < n :: Distinct(Row(asg.grid, n, i)))
      && (forall j | 0 <= j < n :: Distinct(Column(asg.grid, n, j)))
  {
    var g := asg.grid;
    var rows := seq(n, i requires 0 <= i < n => Constraint(AllDifferent(RowCells(n, i)), Always));
    var cols := seq(n, j requires 0 <= j < n => Constraint(AllDifferent(ColumnCells(n, j)), Always));
    assert LatinConstraints(n) == rows + cols;
    forall i | 0 <= i < n
      ensures Holds(asg, rows[i]) <==> Distinct(Row(g, n, i))
      ensures Holds(asg, cols[i]) <==> Distinct(Column(g, n, i))
    {
      var rc := RowCells(n, i);
      var cc := ColumnCells(n, i);
      assert seq(|rc|, t requires 0 <= t < |rc| => CellValue(g, rc[t])) == Row(g, n, i);
      assert seq(|cc|, t requires 0 <= t < |cc| => CellValue(g, cc[t])) == Column(g, n, i);
    }
  }

  ghost predicate CellsInDomain(g: Grid, n: nat) {
    forall c: Coord | InGrid(c, n) :: 1 <= CellValue(g, c) <= n
  }

  lemma DomainSemantics(asg: Assignment, n: nat)
    ensures (forall v | v in GridVariables(n) :: v.lo <= CellValue(asg.grid, v.at) <= v.hi) <==> CellsInDomain(asg.grid, n)
  {
    if forall v | v in GridVariables(n) :: v.lo <= CellValue(asg.grid, v.at) <= v.hi {
      forall c: Coord | InGrid(c, n) ensures 1 <= CellValue(asg.grid, c) <= n {
        assert IntVar(c, 1, n) in GridVariables(n);
      }
    }
  }

  lemma DomainByLines(g: Grid, n: nat)
    ensures CellsInDomain(g, n) <==> forall i | 0 <= i < n :: InRange(Row(g, n, i), 1, n)
    ensures CellsInDomain(g, n) <==> forall j | 0 <= j < n :: InRange(Column(g, n, j), 1, n)
  {
    if forall i | 0 <= i < n :: InRange(Row(g, n, i), 1, n) {
      forall c: Coord | InGrid(c, n) ensures 1 <= CellValue(g, c) <= n {
        assert Row(g, n, c.row)[c.col] == CellValue(g, c);
      }
    }
    if forall j | 0 <= j < n :: InRange(Column(g, n, j), 1, n) {
      forall c: Coord | InGrid(c, n) ensures 1 <= CellValue(g, c) <= n {
        assert Column(g, n, c.col)[c.row] == CellValue(g, c);
      }
    }
  }

  /** The cell domains together with the all-different constraints say
      exactly that the board is a Latin square. */
  lemma GridSemantics(asg: Assignment, n: nat)
    requires Shaped(asg.grid, n)
    ensures
      ((forall v | v in GridVariables(n) :: v.lo <= CellValue(asg.grid, v.at) <= v.hi)
       && SatisfiesAll(asg, LatinConstraints(n)))
      <==> IsLatinSquare(asg.grid, n)
  {
    var g := asg.grid;
    LatinConstraintsSemantics(asg, n);
    DomainSemantics(asg, n);
    DomainByLines(g, n);
    forall i | 0 <= i < n
      ensures IsPermutationOf1ToN(Row(g, n, i), n) <==> Distinct(Row(g, n, i)) && InRange(Row(g, n, i), 1, n)
      ensures IsPermutationOf1ToN(Column(g, n, i), n) <==> Distinct(Column(g, n, i)) && InRange(Column(g, n, i), 1, n)
    {
      DistinctInRangeIsPermutation(Row(g, n, i), n);
      DistinctInRangeIsPermutation(Column(g, n, i), n);
    }
  }

  /** What a successful `Encode` builds, piece by piece. */
  lemma ModelShape(n: nat, clues: Clues, fixed: seq<FixedCell>, m: CpModel)
    requires Encode(n, clues, fixed) == Success(m)
    ensures forall d: Direction :: |ClueList(clues, d)| >= n
    ensures m.ints == GridVariables(n)
    ensures m.bools == Join(PerDirection(n, clues)).bools
    ensures m.constraints == LatinConstraints(n) + Join(PerDirection(n, clues)).constraints + FixedConstraints(fixed)
  {
  }

  lemma DirectionFragmentSemantics(asg: Assignment, n: nat, clues: Clues, a: nat)
    requires forall d: Direction :: |ClueList(clues, d)| >= n
    requires a < |AllDirections|
    ensures SatisfiesAll(asg, PerDirection(n, clues)[a].constraints) <==>
      && SatisfiesAll(asg, SetUpBooleans(n, AllDirections[a]).constraints)
      && SatisfiesAll(asg, ClueConstraints(n, AllDirections[a], ClueList(clues, AllDirections[a])))
  {
    var d := AllDirections[a];
    SatisfiesAllConcat(asg, SetUpBooleans(n, d).constraints, ClueConstraints(n, d, ClueList(clues, d)));
  }

  lemma PerDirectionSemantics(asg: Assignment, n: nat, clues: Clues)
    requires forall d: Direction :: |ClueList(clues, d)| >= n
    ensures SatisfiesAll(asg, Join(PerDirection(n, clues)).constraints) <==>
      forall d: Direction ::
        && SatisfiesAll(asg, SetUpBooleans(n, d).constraints)
        && SatisfiesAll(asg, ClueConstraints(n, d, ClueList(clues, d)))
  {
    var per := PerDirection(n, clues);
    SatisfiesAllJoin(asg, per);
    if SatisfiesAll(asg, Join(per).constraints) {
      forall d: Direction
        ensures SatisfiesAll(asg, SetUpBooleans(n, d).constraints)
        ensures SatisfiesAll(asg, ClueConstraints(n, d, ClueList(clues, d)))
      {
        DirectionFragmentSemantics(asg, n, clues, IndexOf(d));
      }
    }
    if forall d: Direction ::
         && SatisfiesAll(asg, SetUpBooleans(n, d).constraints)
         && SatisfiesAll(asg, ClueConstraints(n, d, ClueList(clues, d)))
    {
      forall a | 0 <= a < |per|
        ensures SatisfiesAll(asg, per[a].constraints)
      {
        DirectionFragmentSemantics(asg, n, clues, a);
      }
    }
  }

  /** The constraints of the whole model, family by family. */
  lemma ModelConstraints(n: nat, clues: Clues, fixed: seq<FixedCell>, m: CpModel, asg: Assignment)
    requires Encode(n, clues, fixed) == Success(m)
    ensures SatisfiesAll(asg, m.constraints) <==>
      && SatisfiesAll(asg, LatinConstraints(n))
      && (forall d: Direction ::
            && SatisfiesAll(asg, SetUpBooleans(n, d).constraints)
            && SatisfiesAll(asg, ClueConstraints(n, d, ClueList(clues, d))))
      && SatisfiesAll(asg, FixedConstraints(fixed))
  {
    ModelShape(n, clues, fixed, m);
    var body := Join(PerDirection(n, clues)).constraints;
    SatisfiesAllConcat(asg, LatinConstraints(n) + body, FixedConstraints(fixed));
    SatisfiesAllConcat(asg, LatinConstraints(n), body);
    PerDirectionSemantics(asg, n, clues);
  }

  /** Every line of a Latin square holds distinct heights, in either scan order. */
  lemma LinesDistinct(g: Grid, n: nat, d: Direction, i: nat)
    requires IsLatinSquare(g, n) && i < n
    ensures Distinct(Line(g, n, d, i))
  {
    var line := Line(g, n, d, i);
    var s := if Transposed(d) then Column(g, n, i) else Row(g, n, i);
    assert IsPermutationOf1ToN(s, n);
    DistinctInRangeIsPermutation(s, n);
    if Ascending(d) {
      assert line == s;
    } else {
      DistinctReversed(s, line);
    }
  }

  /** Which booleans `set_up_booleans` creates: a visible boolean for each
      non-edge position of each line, and a blocking boolean for each
      position nearer the edge than it. */
  ghost predicate IsDeclared(n: nat, b: BoolVar) {
    match b
    case Visible(i, j, d) => i < n && j < n && 1 <= Mirror(n, d, j)
    case Blocking(i, j, k, d) =>
      i < n && j < n && 1 <= Mirror(n, d, j) && k < n && Mirror(n, d, k) < Mirror(n, d, j)
  }

  lemma PositionDeclares(n: nat, d: Direction, i: nat, j: nat)
    requires j < n
    ensures forall b :: b in PositionFragment(n, d, i, j).bools <==>
      b == Visible(i, j, d) || (b.Blocking? && b == Blocking(i, j, b.k, d) && b.k in NearerPositions(n, d, j))
  {
    var ks := NearerPositions(n, d, j);
    var fs := NearerFragments(n, d, i, j);
    forall b: BoolVar | b.Blocking? && b == Blocking(i, j, b.k, d) && b.k in ks
      ensures b in Join(fs).bools
    {
      var t :| 0 <= t < |ks| && ks[t] == b.k;
      assert b in fs[t].bools;
    }
  }

  lemma LineDeclaresOnly(n: nat, d: Direction, i: nat, b: BoolVar)
    requires i < n
    requires b in Join(PositionFragments(n, d, i)).bools
    ensures IsDeclared(n, b) && b.dir == d && b.i == i
  {
    var js := ScanPositions(n, d);
    var ps := PositionFragments(n, d, i);
    var t :| 0 <= t < |ps| && b in ps[t].bools;
    var j := js[t];
    assert j < n && Mirror(n, d, j) == t + 1;
    assert ps[t] == PositionFragment(n, d, i, j);
    PositionDeclares(n, d, i, j);
    if b.Blocking? {
      assert b.k in NearerPositions(n, d, j);
    }
  }

  lemma LineDeclaresAll(n: nat, d: Direction, i: nat, b: BoolVar)
    requires i < n
    requires IsDeclared(n, b) && b.dir == d && b.i == i
    ensures b in Join(PositionFragments(n, d, i)).bools
  {
    ScanPositionsMembers(n, d);
    var js := ScanPositions(n, d);
    var ps := PositionFragments(n, d, i);
    var t :| 0 <= t < |js| && js[t] == b.j;
    PositionDeclares(n, d, i, b.j);
    assert b in ps[t].bools;
  }

  lemma LineDeclares(n: nat, d: Direction, i: nat)
    requires i < n
    ensures forall b :: b in Join(PositionFragments(n, d, i)).bools <==> IsDeclared(n, b) && b.dir == d && b.i == i
  {
    forall b | b in Join(PositionFragments(n, d, i)).bools
      ensures IsDeclared(n, b) && b.dir == d && b.i == i
    {
      LineDeclaresOnly(n, d, i, b);
    }
    forall b | IsDeclared(n, b) && b.dir == d && b.i == i
      ensures b in Join(PositionFragments(n, d, i)).bools
    {
      LineDeclaresAll(n, d, i, b);
    }
  }

  lemma SetUpBooleansDeclares(n: nat, d: Direction)
    ensures forall b :: b in SetUpBooleans(n, d).bools <==> IsDeclared(n, b) && b.dir == d
  {
    var lines := LineFragments(n, d);
    forall b | b in SetUpBooleans(n, d).bools
      ensures IsDeclared(n, b) && b.dir == d
    {
      var i :| 0 <= i < |lines| && b in lines[i].bools;
      LineDeclares(n, d, i);
    }
    forall b | IsDeclared(n, b) && b.dir == d
      ensures b in SetUpBooleans(n, d).bools
    {
      LineDeclares(n, d, b.i);
      assert b in lines[b.i].bools;
    }
  }

  /** The model's booleans are exactly the declared ones. */
  lemma BooleansDeclared(n: nat, clues: Clues, fixed: seq<FixedCell>, m: CpModel)
    requires Encode(n, clues, fixed) == Success(m)
    ensures forall b :: b in m.bools <==> IsDeclared(n, b)
  {
    ModelShape(n, clues, fixed, m);
    var per := PerDirection(n, clues);
    forall b | b in m.bools
      ensures IsDeclared(n, b)
    {
      var a :| 0 <= a < |per| && b in per[a].bools;
      SetUpBooleansDeclares(n, AllDirections[a]);
    }
    forall b | IsDeclared(n, b)
      ensures b in m.bools
    {
      var a := IndexOf(b.dir);
      SetUpBooleansDeclares(n, b.dir);
      assert b in per[a].bools;
    }
  }

  /** A board with one cell or none gets no booleans at all. */
  lemma NoBooleansOnTinyBoard(n: nat, clues: Clues, fixed: seq<FixedCell>, m: CpModel)
    requires Encode(n, clues, fixed) == Success(m)
    requires n <= 1
    ensures forall b :: b !in m.bools
  {
    BooleansDeclared(n, clues, fixed, m);
  }

  /** The value each boolean is meant to carry on board g. */
  function IntendedValue(g: Grid, n: nat, b: BoolVar): bool {
    match b
    case Visible(i, j, d) => j < n && VisibleAt(Line(g, n, d, i), Mirror(n, d, j))
    case Blocking(i, j, k, d) => CellValue(g, CellOf(d, i, k)) > CellValue(g, CellOf(d, i, j))
  }

  /** Board g with every model boolean set to its intended value. */
  function IntendedAssignment(m: CpModel, g: Grid): Assignment {
    Assignment(g, map b | b in m.bools :: IntendedValue(g, m.n, b))
  }

  /** Soundness: every feasible assignment of the model is a puzzle solution. */
  lemma EncodingSound(n: nat, clues: Clues, fixed: seq<FixedCell>, m: CpModel, asg: Assignment)
    requires Encode(n, clues, fixed) == Success(m)
    requires Solves(m, asg)
    ensures IsSolution(asg.grid, n, clues, fixed)
  {
    ModelConstraints(n, clues, fixed, m, asg);
    GridSemantics(asg, n);
    FixedConstraintsSemantics(asg, fixed);
    forall d: Direction, i: nat | i < n && i < |ClueList(clues, d)| && ClueList(clues, d)[i] != 0
      ensures VisibleCount(Line(asg.grid, n, d, i)) == ClueList(clues, d)[i]
    {
      SetUpBooleansSemantics(asg, n, d);
      forall j: nat | j < n && j in ScanPositions(n, d)
        ensures BoolValue(asg, Visible(i, j, d)) == VisibleAt(Line(asg.grid, n, d, i), Mirror(n, d, j))
      {
        PositionForcesBooleans(asg, n, d, i, j);
      }
      ClueSumCountsVisible(asg, n, d, i);
      ClueConstraintsSemantics(asg, n, d, ClueList(clues, d));
    }
  }

  lemma PositionComplete(m: CpModel, g: Grid, d: Direction, i: nat, j: nat)
    requires forall b :: b in m.bools <==> IsDeclared(m.n, b)
    requires IsLatinSquare(g, m.n)
    requires i < m.n && j < m.n && 1 <= Mirror(m.n, d, j)
    ensures SatisfiesAll(IntendedAssignment(m, g), PositionFragment(m.n, d, i, j).constraints)
  {
    var n := m.n;
    var asg := IntendedAssignment(m, g);
    LinesDistinct(g, n, d, i);
    assert IsDeclared(n, Visible(i, j, d));
    assert BoolValue(asg, Visible(i, j, d)) == IntendedValue(g, n, Visible(i, j, d));
    forall k: nat | k in NearerPositions(n, d, j)
      ensures BoolValue(asg, Blocking(i, j, k, d)) == IntendedValue(g, n, Blocking(i, j, k, d))
    {
      assert IsDeclared(n, Blocking(i, j, k, d));
    }
    IntendedBooleansSatisfyPosition(asg, n, d, i, j);
  }

  lemma ClueLineComplete(m: CpModel, g: Grid, d: Direction, i: nat)
    requires forall b :: b in m.bools <==> IsDeclared(m.n, b)
    requires i < m.n
    ensures SumOf(IntendedAssignment(m, g), ClueVariables(m.n, d, i)) + 1 == VisibleCount(Line(g, m.n, d, i))
  {
    var n := m.n;
    var asg := IntendedAssignment(m, g);
    ScanPositionsMembers(n, d);
    forall j: nat | j < n && j in ScanPositions(n, d)
      ensures BoolValue(asg, Visible(i, j, d)) == VisibleAt(Line(g, n, d, i), Mirror(n, d, j))
    {
      assert Visible(i, j, d) in m.bools;
    }
    ClueSumCountsVisible(asg, n, d, i);
  }

  lemma DirectionComplete(n: nat, clues: Clues, fixed: seq<FixedCell>, m: CpModel, g: Grid, d: Direction)
    requires Encode(n, clues, fixed) == Success(m)
    requires IsSolution(g, n, clues, fixed)
    ensures SatisfiesAll(IntendedAssignment(m, g), SetUpBooleans(n, d).constraints)
    ensures SatisfiesAll(IntendedAssignment(m, g), ClueConstraints(n, d, ClueList(clues, d)))
  {
    var asg := IntendedAssignment(m, g);
    BooleansDeclared(n, clues, fixed, m);
    ScanPositionsMembers(n, d);
    SetUpBooleansSemantics(asg, n, d);
    forall i: nat, j: nat | i < n && j < n && j in ScanPositions(n, d)
      ensures SatisfiesAll(asg, PositionFragment(n, d, i, j).constraints)
    {
      PositionComplete(m, g, d, i, j);
    }
    ClueConstraintsSemantics(asg, n, d, ClueList(clues, d));
    forall i | 0 <= i < n && ClueList(clues, d)[i] != 0
      ensures SumOf(asg, ClueVariables(n, d, i)) == ClueList(clues, d)[i] - 1
    {
      ClueLineComplete(m, g, d, i);
    }
  }

  /** Completeness: every puzzle solution, with its intended booleans, is a
      feasible assignment of the model. */
  lemma EncodingComplete(n: nat, clues: Clues, fixed: seq<FixedCell>, m: CpModel, g: Grid)
    requires Encode(n, clues, fixed) == Success(m)
    requires IsSolution(g, n, clues, fixed)
    ensures Solves(m, IntendedAssignment(m, g))
  {
    var asg := IntendedAssignment(m, g);
    ModelShape(n, clues, fixed, m);
    GridSemantics(asg, n);
    FixedConstraintsSemantics(asg, fixed);
    forall d: Direction
      ensures SatisfiesAll(asg, SetUpBooleans(n, d).constraints)
      ensures SatisfiesAll(asg, ClueConstraints(n, d, ClueList(clues, d)))
    {
      DirectionComplete(n, clues, fixed, m, g, d);
    }
    ModelConstraints(n, clues, fixed, m, asg);
  }

  /** The key theorem: a board can be completed with booleans that satisfy
      every constraint the encoder posts if and only if it solves the puzzle. */
  lemma EncodingCorrect(n: nat, clues: Clues, fixed: seq<FixedCell>, m: CpModel, g: Grid)
    requires Encode(n, clues, fixed) == Success(m)
    ensures (exists bs: map<BoolVar, bool> :: Solves(m, Assignment(g, bs))) <==> IsSolution(g, n, clues, fixed)
  {
    if exists bs: map<BoolVar, bool> :: Solves(m, Assignment(g, bs)) {
      var bs: map<BoolVar, bool> :| Solves(m, Assignment(g, bs));
      EncodingSound(n, clues, fixed, m, Assignment(g, bs));
    }
    if IsSolution(g, n, clues, fixed) {
      EncodingComplete(n, clues, fixed, m, g);
      assert Solves(m, Assignment(g, IntendedAssignment(m, g).booleans));
    }
  }

  /** The reification is exact: in any feasible assignment every boolean
      carries its intended value. */
  lemma BooleansDetermined(n: nat, clues: Clues, fixed: seq<FixedCell>, m: CpModel, asg: Assignment)
    requires Encode(n, clues, fixed) == Success(m)
    requires Solves(m, asg)
    ensures forall b | b in m.bools :: asg.booleans[b] == IntendedValue(asg.grid, n, b)
  {
    BooleansDeclared(n, clues, fixed, m);
    ModelConstraints(n, clues, fixed, m, asg);
    forall b | b in m.bools
      ensures asg.booleans[b] == IntendedValue(asg.grid, n, b)
    {
      DeclaredBooleanDetermined(asg, n, b);
    }
  }

  lemma DeclaredBooleanDetermined(asg: Assignment, n: nat, b: BoolVar)
    requires IsDeclared(n, b) && b in asg.booleans
    requires SatisfiesAll(asg, SetUpBooleans(n, b.dir).constraints)
    ensures asg.booleans[b] == IntendedValue(asg.grid, n, b)
  {
    SetUpBooleansSemantics(asg, n, b.dir);
    ScanPositionsMembers(n, b.dir);
    PositionForcesBooleans(asg, n, b.dir, b.i, b.j);
  }
}
