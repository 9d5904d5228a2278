/** The solution callback of `main`: it numbers each solution the solver
    reports, hands it on, and asks the solver to stop once the cap is
    reached. The solver is an oracle: the sequence of assignments it would
    report, in order. */
module Enumerator {
  import opened Grids
  import opened CpSat
  import opened Puzzle
  import opened Encoder
  import opened Correctness
  import opened Wrappers

  /** The callback object's state: solutions counted so far and the cap. */
  datatype Printer = Printer(count: nat, limit: int)

  /** A solution handed to the presentation, with its 1-based number. */
  datatype Delivery = Delivery(index: nat, solution: Grid)

  /** What one enumeration produced, and whether it ended because the
      callback requested a stop (rather than because the solver ran out). */
  datatype Outcome = Outcome(delivered: seq<Delivery>, capReached: bool)

  /** How many solutions are delivered before a stop is requested: the count
      is incremented before it is compared with the cap, so a cap below 1
      still lets one solution through. */
  function Cap(limit: int): (r: nat)
    ensures r >= 1 && r >= limit
    ensures limit >= 1 ==> r == limit
  {
    if limit < 1 then 1 else limit
  }

  function Min(a: nat, b: nat): nat {
    if a < b then a else b
  }

  /** One call of the callback: count the solution, copy its board out under
      its number, and say whether to stop the search. */
  function OnSolution(p: Printer, asg: Assignment): (r: (Printer, Delivery, bool))
    ensures r.0 == Printer(p.count + 1, p.limit)
    ensures r.1 == Delivery(r.0.count, asg.grid)
    ensures r.2 <==> r.0.count >= Cap(p.limit)
  {
    var count := p.count + 1;
    (Printer(count, p.limit), Delivery(count, asg.grid), count >= p.limit)
  }

  /** The solver feeding `stream` to a callback that has not yet asked to stop. */
  function Feed(p: Printer, stream: seq<Assignment>): (r: Outcome)
    requires p.count < Cap(p.limit)
    ensures |r.delivered| == Min(|stream|, Cap(p.limit) - p.count)
    ensures forall t | 0 <= t < |r.delivered| :: r.delivered[t] == Delivery(p.count + t + 1, stream[t].grid)
    ensures r.capReached <==> |stream| >= Cap(p.limit) - p.count
    decreases |stream|
  {
    if |stream| == 0 then Outcome([], false)
    else
      var (next, delivery, stop) := OnSolution(p, stream[0]);
      if stop then Outcome([delivery], true)
      else
        var rest := Feed(next, stream[1..]);
        Outcome([delivery] + rest.delivered, rest.capReached)
  }

  /** A whole enumeration from a fresh callback: the first `Cap(limit)`
      solutions, numbered from 1, or all of them when there are fewer. */
  function Enumerate(stream: seq<Assignment>, limit: int): (r: Outcome)
    ensures |r.delivered| == Min(|stream|, Cap(limit))
    ensures forall t | 0 <= t < |r.delivered| :: r.delivered[t] == Delivery(t + 1, stream[t].grid)
    ensures r.capReached <==> |stream| >= Cap(limit)
  {
    Feed(Printer(0, limit), stream)
  }

  /** The cap `main` passes to the callback. */
  const SolutionLimit: int := 5

  /** The search `main` runs: at most five boards, numbered 1 to 5, and a stop
      request exactly when the solver has a fifth one to report. */
  function ShowFirstSolutions(stream: seq<Assignment>): (r: Outcome)
    ensures |r.delivered| <= 5 && |r.delivered| <= |stream|
    ensures |r.delivered| == 5 || |r.delivered| == |stream|
    ensures forall t | 0 <= t < |r.delivered| :: r.delivered[t].index == t + 1 && r.delivered[t].solution == stream[t].grid
    ensures r.capReached <==> |stream| >= 5
  {
    Enumerate(stream, SolutionLimit)
  }

  /** When the solver reports only feasible assignments of the encoded model,
      every delivered board solves the puzzle. */
  lemma DeliveredAreSolutions(n: nat, clues: Clues, fixed: seq<FixedCell>, m: CpModel, stream: seq<Assignment>, limit: int)
    requires Encode(n, clues, fixed) == Success(m)
    requires forall t | 0 <= t < |stream| :: Solves(m, stream[t])
    ensures forall t | 0 <= t < |Enumerate(stream, limit).delivered| ::
      IsSolution(Enumerate(stream, limit).delivered[t].solution, n, clues, fixed)
  {
    var r := Enumerate(stream, limit);
    forall t | 0 <= t < |r.delivered|
      ensures IsSolution(r.delivered[t].solution, n, clues, fixed)
    {
      EncodingSound(n, clues, fixed, m, stream[t]);
    }
  }
}
