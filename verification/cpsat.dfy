/** The part of the constraint solver's interface the encoder uses, as data,
    together with what it means for an assignment to satisfy it. The solver's
    search is not modelled: it is an oracle that yields assignments for
    which `Solves` holds. */
module CpSat {
  import opened Seqs
  import opened Permutations
  import opened Grids
  import opened Directions

  /** Boolean solver variables, keyed as the encoder's two dictionaries key them:
      `visible[(i, j, angle)]` and `blocking[(i, j, k, angle)]`. */
  datatype BoolVar =
    | Visible(i: nat, j: nat, dir: Direction)
    | Blocking(i: nat, j: nat, k: nat, dir: Direction)

  datatype Literal = Pos(v: BoolVar) | Neg(v: BoolVar)

  /** `OnlyEnforceIf(lit)`, or no guard at all. */
  datatype Enforcement = Always | OnlyIf(lit: Literal)

  datatype Relation =
    | CellLess(a: Coord, b: Coord)
    | CellGreater(a: Coord, b: Coord)
    | CellEquals(at: Coord, value: int)
    | AllDifferent(cells: seq<Coord>)
    | SumGreater(vars: seq<BoolVar>, bound: int)
    | SumEquals(vars: seq<BoolVar>, target: int)

  /** One `model.Add(...)` (or `AddAllDifferent`) call with its guard. */
  datatype Constraint = Constraint(rel: Relation, enforce: Enforcement)

  /** `NewIntVar(lo, hi, ...)` for the cell at `at`. */
  datatype IntVar = IntVar(at: Coord, lo: int, hi: int)

  datatype CpModel = CpModel(n: nat, ints: seq<IntVar>, bools: seq<BoolVar>, constraints: seq<Constraint>)

  /** Booleans created and constraints posted by one stretch of the encoder. */
  datatype Fragment = Fragment(bools: seq<BoolVar>, constraints: seq<Constraint>)

  /** The fragments of consecutive loop iterations, in order. */
  function Join(fs: seq<Fragment>): (r: Fragment)
    ensures forall b :: b in r.bools <==> exists t :: 0 <= t < |fs| && b in fs[t].bools
    ensures forall c :: c in r.constraints <==> exists t :: 0 <= t < |fs| && c in fs[t].constraints
  {
    var bss := seq(|fs|, t requires 0 <= t < |fs| => fs[t].bools);
    var css := seq(|fs|, t requires 0 <= t < |fs| => fs[t].constraints);
    assert forall t | 0 <= t < |fs| :: bss[t] == fs[t].bools && css[t] == fs[t].constraints;
    Fragment(Flatten(bss), Flatten(css))
  }

  /** Values for every variable: the board for the cells, a map for the booleans. */
  datatype Assignment = Assignment(grid: Grid, booleans: map<BoolVar, bool>)

  function BoolValue(asg: Assignment, v: BoolVar): bool {
    v in asg.booleans && asg.booleans[v]
  }

  predicate LiteralHolds(asg: Assignment, lit: Literal) {
    match lit
    case Pos(v) => BoolValue(asg, v)
    case Neg(v) => !BoolValue(asg, v)
  }

  predicate Enforced(asg: Assignment, e: Enforcement) {
    match e
    case Always => true
    case OnlyIf(lit) => LiteralHolds(asg, lit)
  }

  /** The value of a linear sum of boolean variables. */
  function SumOf(asg: Assignment, vars: seq<BoolVar>): nat {
    CountTrue(seq(|vars|, t requires 0 <= t < |vars| => BoolValue(asg, vars[t])))
  }

  predicate RelationHolds(asg: Assignment, r: Relation) {
    match r
    case CellLess(a, b) => CellValue(asg.grid, a) < CellValue(asg.grid, b)
    case CellGreater(a, b) => CellValue(asg.grid, a) > CellValue(asg.grid, b)
    case CellEquals(a, v) => CellValue(asg.grid, a) == v
    case AllDifferent(cells) => Distinct(seq(|cells|, t requires 0 <= t < |cells| => CellValue(asg.grid, cells[t])))
    case SumGreater(vars, bound) => SumOf(asg, vars) > bound
    case SumEquals(vars, target) => SumOf(asg, vars) == target
  }

  /** A guarded constraint holds when its guard is false or its relation is true. */
  predicate Holds(asg: Assignment, c: Constraint) {
    Enforced(asg, c.enforce) ==> RelationHolds(asg, c.rel)
  }

  predicate SatisfiesAll(asg: Assignment, cs: seq<Constraint>) {
    forall c | c in cs :: Holds(asg, c)
  }

  /** A feasible assignment of the whole model: every variable has a value in
      its domain and every posted constraint holds. */
  predicate Solves(m: CpModel, asg: Assignment) {
    && Shaped(asg.grid, m.n)
    && (forall v | v in m.ints :: v.lo <= CellValue(asg.grid, v.at) <= v.hi)
    && (forall b | b in m.bools :: b in asg.booleans)
    && SatisfiesAll(asg, m.constraints)
  }

  lemma SatisfiesAllConcat(asg: Assignment, a: seq<Constraint>, b: seq<Constraint>)
    ensures SatisfiesAll(asg, a + b) <==> SatisfiesAll(asg, a) && SatisfiesAll(asg, b)
  {
  }

  /** Joined fragments are satisfied exactly when each fragment is. */
  lemma SatisfiesAllJoin(asg: Assignment, fs: seq<Fragment>)
    ensures SatisfiesAll(asg, Join(fs).constraints) <==> forall t | 0 <= t < |fs| :: SatisfiesAll(asg, fs[t].constraints)
  {
  }
}
