/** Further properties of the encoding: it only ever mentions cells of the
    board, a given cell narrows the solution set by exactly its own equation,
    and the one-cell board behaves as the puzzle rules say. */
module Properties {
  import opened Seqs
  import opened Permutations
  import opened Grids
  import opened Directions
  import opened Visibility
  import opened Puzzle
  import opened CpSat
  import opened Encoder
  import opened Correctness
  import opened Wrappers

  /** Every cell a constraint mentions lies on the n-by-n board. */
  ghost predicate OnBoard(c: Constraint, n: nat) {
    match c.rel
    case CellLess(a, b) => InGrid(a, n) && InGrid(b, n)
    case CellGreater(a, b) => InGrid(a, n) && InGrid(b, n)
    case CellEquals(at, _) => InGrid(at, n)
    case AllDifferent(cells) => forall x | x in cells :: InGrid(x, n)
    case SumGreater(_, _) => true
    case SumEquals(_, _) => true
  }

  lemma NearerFragmentOnBoard(n: nat, d: Direction, i: nat, j: nat, k: nat)
    requires i < n && j < n && k < n
    ensures forall c | c in NearerFragment(d, i, j, k).constraints :: OnBoard(c, n)
  {
    CellOfInGrid(n, d, i, k);
    CellOfInGrid(n, d, i, j);
  }

  lemma PositionOnBoard(n: nat, d: Direction, i: nat, j: nat)
    requires i < n && j < n
    ensures forall c | c in PositionFragment(n, d, i, j).constraints :: OnBoard(c, n)
  {
    var ks := NearerPositions(n, d, j);
    var fs := NearerFragments(n, d, i, j);
    forall c | c in Join(fs).constraints
      ensures OnBoard(c, n)
    {
      var t :| 0 <= t < |fs| && c in fs[t].constraints;
      assert ks[t] in ks;
      assert fs[t] == NearerFragment(d, i, j, ks[t]);
      NearerFragmentOnBoard(n, d, i, j, ks[t]);
    }
    assert OnBoard(BlockerSum(n, d, i, j), n);
  }

  lemma LineOnBoard(n: nat, d: Direction, i: nat)
    requires i < n
    ensures forall c | c in Join(PositionFragments(n, d, i)).constraints :: OnBoard(c, n)
  {
    var js := ScanPositions(n, d);
    var ps := PositionFragments(n, d, i);
    forall c | c in Join(ps).constraints
      ensures OnBoard(c, n)
    {
      var t :| 0 <= t < |ps| && c in ps[t].constraints;
      assert ps[t] == PositionFragment(n, d, i, js[t]);
      PositionOnBoard(n, d, i, js[t]);
    }
  }

  lemma SetUpBooleansOnBoard(n: nat, d: Direction)
    ensures forall c | c in SetUpBooleans(n, d).constraints :: OnBoard(c, n)
  {
    var lines := LineFragments(n, d);
    forall c | c in Join(lines).constraints
      ensures OnBoard(c, n)
    {
      var i :| 0 <= i < |lines| && c in lines[i].constraints;
      assert lines[i] == Join(PositionFragments(n, d, i));
      LineOnBoard(n, d, i);
    }
  }

  lemma ClueConstraintsOnBoard(n: nat, d: Direction, clue: seq<nat>)
    requires |clue| >= n
    ensures forall c | c in ClueConstraints(n, d, clue) :: OnBoard(c, n)
  {
    var cls := ClueLines(n, d, clue);
    forall c: Constraint | c in Flatten(cls)
      ensures c.rel.SumEquals?
    {
      var i :| 0 <= i < |cls| && c in cls[i];
      assert cls[i] == if clue[i] == 0 then [] else [ClueSum(n, d, i, clue[i])];
    }
  }

  lemma DirectionOnBoard(n: nat, d: Direction, clue: seq<nat>)
    requires |clue| >= n
    ensures forall c | c in DirectionFragment(n, d, clue).constraints :: OnBoard(c, n)
  {
    SetUpBooleansOnBoard(n, d);
    ClueConstraintsOnBoard(n, d, clue);
    assert DirectionFragment(n, d, clue).constraints == SetUpBooleans(n, d).constraints + ClueConstraints(n, d, clue);
  }

  lemma LatinOnBoard(n: nat)
    ensures forall c | c in LatinConstraints(n) :: OnBoard(c, n)
  {
    var rows := seq(n, i requires 0 <= i < n => Constraint(AllDifferent(RowCells(n, i)), Always));
    var cols := seq(n, j requires 0 <= j < n => Constraint(AllDifferent(ColumnCells(n, j)), Always));
    assert LatinConstraints(n) == rows + cols;
    forall c | c in rows + cols
      ensures OnBoard(c, n)
    {
      if c in rows {
        var i :| 0 <= i < n && rows[i] == c;
      } else {
        var j :| 0 <= j < n && cols[j] == c;
      }
    }
  }

  lemma FixedOnBoard(n: nat, fixed: seq<FixedCell>)
    requires forall t | 0 <= t < |fixed| :: InGrid(fixed[t].At(), n)
    ensures forall c | c in FixedConstraints(fixed) :: OnBoard(c, n)
  {
    forall c | c in FixedConstraints(fixed)
      ensures OnBoard(c, n)
    {
      var t :| 0 <= t < |fixed| && FixedConstraints(fixed)[t] == c;
    }
  }

  /** Every (row, column) pair the encoder generates, in every constraint
      family, lies in [0, n) x [0, n). */
  lemma ModelOnBoard(n: nat, clues: Clues, fixed: seq<FixedCell>, m: CpModel)
    requires Encode(n, clues, fixed) == Success(m)
    ensures forall v | v in m.ints :: InGrid(v.at, n)
    ensures forall c | c in m.constraints :: OnBoard(c, n)
  {
    ModelShape(n, clues, fixed, m);
    var per := PerDirection(n, clues);
    LatinOnBoard(n);
    FixedOnBoard(n, fixed);
    forall c | c in Join(per).constraints
      ensures OnBoard(c, n)
    {
      var a :| 0 <= a < |per| && c in per[a].constraints;
      DirectionOnBoard(n, AllDirections[a], ClueList(clues, AllDirections[a]));
    }
  }

  /** Giving one more cell keeps exactly the boards of the smaller puzzle
      that already hold that value there. */
  lemma FixedCellRestricts(n: nat, clues: Clues, fixed: seq<FixedCell>, f: FixedCell, m: CpModel, m': CpModel, g: Grid)
    requires Encode(n, clues, fixed) == Success(m)
    requires Encode(n, clues, fixed + [f]) == Success(m')
    ensures (exists bs: map<BoolVar, bool> :: Solves(m', Assignment(g, bs))) <==>
      (exists bs: map<BoolVar, bool> :: Solves(m, Assignment(g, bs))) && CellValue(g, f.At()) == f.value
  {
    EncodingCorrect(n, clues, fixed, m, g);
    EncodingCorrect(n, clues, fixed + [f], m', g);
    var more := fixed + [f];
    assert more[|fixed|] == f;
    assert forall t | 0 <= t < |fixed| :: more[t] == fixed[t];
  }

  lemma LatinSquareOfOne(g: Grid)
    ensures IsLatinSquare(g, 1) <==> g == [[1]]
  {
    if IsLatinSquare(g, 1) {
      assert Row(g, 1, 0)[0] in Values(Row(g, 1, 0));
      assert g[0] == [g[0][0]];
    }
    if g == [[1]] {
      assert Row(g, 1, 0) == [1] && Column(g, 1, 0) == [1];
      assert Values([1]) == {1} == OneToN(1);
    }
  }

  lemma SingleTowerSeen(d: Direction)
    ensures VisibleCount(Line([[1]], 1, d, 0)) == 1
  {
    EdgeTowerVisible(Line([[1]], 1, d, 0));
  }

  /** On the one-cell board the only solution is the single tower of height 1,
      so every non-zero clue must be 1 and every given value must be 1. */
  lemma SingleCellBoard(clues: Clues, fixed: seq<FixedCell>, g: Grid)
    requires Encode(1, clues, fixed).Success?
    ensures IsSolution(g, 1, clues, fixed) <==>
      && g == [[1]]
      && (forall d: Direction :: ClueList(clues, d)[0] <= 1)
      && (forall t | 0 <= t < |fixed| :: fixed[t].value == 1)
  {
    LatinSquareOfOne(g);
    if IsSolution(g, 1, clues, fixed) {
      forall d: Direction
        ensures ClueList(clues, d)[0] <= 1
      {
        SingleTowerSeen(d);
      }
      forall t | 0 <= t < |fixed|
        ensures fixed[t].value == 1
      {
        assert fixed[t].At() == Coord(0, 0);
      }
    }
    if && g == [[1]]
       && (forall d: Direction :: ClueList(clues, d)[0] <= 1)
       && (forall t | 0 <= t < |fixed| :: fixed[t].value == 1)
    {
      forall d: Direction, i: nat | i < 1 && i < |ClueList(clues, d)| && ClueList(clues, d)[i] != 0
        ensures VisibleCount(Line(g, 1, d, i)) == ClueList(clues, d)[i]
      {
        SingleTowerSeen(d);
      }
      assert CluesHold(g, 1, clues);
      forall t | 0 <= t < |fixed|
        ensures CellValue(g, fixed[t].At()) == fixed[t].value
      {
        assert fixed[t].At() == Coord(0, 0);
      }
      assert FixedCellsHold(g, fixed);
    }
  }

  /** Every cell of a Latin square holds a height in 1..n. */
  lemma LatinSquareHeights(g: Grid, n: nat, c: Coord)
    requires IsLatinSquare(g, n)
    requires InGrid(c, n)
    ensures 1 <= CellValue(g, c) <= n
  {
    var row := Row(g, n, c.row);
    assert row[c.col] == CellValue(g, c);
    assert row[c.col] in Values(row);
  }

  /** A given value outside 1..n is passed to the solver, not rejected: the
      model is built, and no assignment satisfies it. */
  lemma OutOfRangeGivenIsInfeasible(n: nat, clues: Clues, fixed: seq<FixedCell>, m: CpModel, asg: Assignment, t: nat)
    requires Encode(n, clues, fixed) == Success(m)
    requires t < |fixed| && !(1 <= fixed[t].value <= n)
    ensures !Solves(m, asg)
  {
    if Solves(m, asg) {
      EncodingSound(n, clues, fixed, m, asg);
      LatinSquareHeights(asg.grid, n, fixed[t].At());
      assert false;
    }
  }
}
