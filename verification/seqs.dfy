/** Sequence helpers shared by the model: counting true flags (the value a
    sum of booleans takes in the solver) and flattening nested loops. */
module Seqs {

  /** Number of `true` entries: what `sum([...])` over boolean variables evaluates to. */
  function CountTrue(bs: seq<bool>): (r: nat)
    ensures r <= |bs|
    ensures r > 0 <==> exists t :: 0 <= t < |bs| && bs[t]
  {
    if |bs| == 0 then 0
    else
      var rest := CountTrue(bs[1..]);
      assert forall t :: 1 <= t < |bs| ==> bs[t] == bs[1..][t - 1];
      (if bs[0] then 1 else 0) + rest
  }

  lemma {:induction false} CountTrueAppend(bs: seq<bool>, b: bool)
    ensures CountTrue(bs + [b]) == CountTrue(bs) + (if b then 1 else 0)
  {
    if |bs| == 0 {
      assert bs + [b] == [b];
    } else {
      assert (bs + [b])[1..] == bs[1..] + [b];
      CountTrueAppend(bs[1..], b);
    }
  }

  /** Reading the flags in the opposite order does not change their count. */
  lemma {:induction false} CountTrueReversed(a: seq<bool>, b: seq<bool>)
    requires |a| == |b|
    requires forall t :: 0 <= t < |a| ==> a[t] == b[|b| - 1 - t]
    ensures CountTrue(a) == CountTrue(b)
  {
    if |a| > 0 {
      var front := b[..|b| - 1];
      assert forall t :: 0 <= t < |a| - 1 ==> a[1..][t] == front[|front| - 1 - t];
      CountTrueReversed(a[1..], front);
      assert b == front + [b[|b| - 1]];
      CountTrueAppend(front, b[|b| - 1]);
    }
  }

  /** Concatenation of the inner sequences, in order: the output of nested loops. */
  function Flatten<T(!new)>(xss: seq<seq<T>>): (r: seq<T>)
    ensures forall x :: x in r <==> exists t :: 0 <= t < |xss| && x in xss[t]
  {
    if |xss| == 0 then []
    else
      var rest := Flatten(xss[1..]);
      assert forall t :: 1 <= t < |xss| ==> xss[t] == xss[1..][t - 1];
      xss[0] + rest
  }
}
