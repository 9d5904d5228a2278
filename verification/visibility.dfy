/** The puzzle's own notion of visibility along one line, independent of
    any solver encoding. A line lists heights nearest-the-edge first. */
module Visibility {
  import opened Seqs

  /** The tower at position p is seen from the edge: every nearer tower is shorter. */
  predicate VisibleAt(line: seq<int>, p: nat)
    requires p < |line|
  {
    forall q | 0 <= q < p :: line[q] < line[p]
  }

  function VisibilityFlags(line: seq<int>): seq<bool> {
    seq(|line|, p requires 0 <= p < |line| => VisibleAt(line, p))
  }

  /** Reference count: the positions whose height exceeds every nearer height. */
  function VisibleCount(line: seq<int>): nat {
    CountTrue(VisibilityFlags(line))
  }

  /** Walks away from the edge from position p on, remembering the tallest tower passed. */
  function CountTaller(line: seq<int>, p: nat, tallest: int): nat
    decreases |line| - p
  {
    if p >= |line| then 0
    else if line[p] > tallest then 1 + CountTaller(line, p + 1, line[p])
    else CountTaller(line, p + 1, tallest)
  }

  /** How a solver of the puzzle counts by eye: the first tower, then every
      tower taller than all before it. */
  function SightCount(line: seq<int>): nat {
    if |line| == 0 then 0 else 1 + CountTaller(line, 1, line[0])
  }

  /** The tower nearest the edge is always visible, so it accounts for one of
      the count and the rest come from the positions behind it. */
  lemma EdgeTowerVisible(line: seq<int>)
    requires |line| > 0
    ensures VisibilityFlags(line)[0]
    ensures VisibleCount(line) == 1 + CountTrue(VisibilityFlags(line)[1..])
    ensures 1 <= VisibleCount(line) <= |line|
  {
    var flags := VisibilityFlags(line);
    assert flags[0];
  }

  lemma {:induction false} CountTallerMatches(line: seq<int>, p: nat, tallest: int)
    requires 1 <= p <= |line|
    requires forall q | 0 <= q < p :: line[q] <= tallest
    requires exists q | 0 <= q < p :: line[q] == tallest
    ensures CountTaller(line, p, tallest) == CountTrue(VisibilityFlags(line)[p..])
    decreases |line| - p
  {
    var flags := VisibilityFlags(line);
    if p < |line| {
      assert flags[p..][1..] == flags[p + 1..];
      assert flags[p] == VisibleAt(line, p);
      if line[p] > tallest {
        CountTallerMatches(line, p + 1, line[p]);
      } else {
        var q :| 0 <= q < p && line[q] == tallest;
        assert !VisibleAt(line, p);
        CountTallerMatches(line, p + 1, tallest);
      }
    }
  }

  /** The running-maximum count agrees with the reference count. */
  lemma SightCountIsVisibleCount(line: seq<int>)
    ensures SightCount(line) == VisibleCount(line)
  {
    if |line| > 0 {
      EdgeTowerVisible(line);
      CountTallerMatches(line, 1, line[0]);
    }
  }
}
