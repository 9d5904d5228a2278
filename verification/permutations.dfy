/** What "each row is a permutation of 1..n" means, and why pairwise
    distinct values drawn from 1..n are exactly such a permutation. */
module Permutations {

  /** No value occurs twice: what an all-different constraint demands. */
  predicate Distinct(s: seq<int>) {
    forall a, b | 0 <= a < b < |s| :: s[a] != s[b]
  }

  predicate InRange(s: seq<int>, lo: int, hi: int) {
    forall t | 0 <= t < |s| :: lo <= s[t] <= hi
  }

  function Values(s: seq<int>): set<int> {
    set x | x in s
  }

  function OneToN(n: nat): (r: set<int>)
    ensures forall v :: v in r <==> 1 <= v <= n
    ensures |r| == n
  {
    if n == 0 then {} else OneToN(n - 1) + {n}
  }

  /** Each of 1..n exactly once: what every row and column of a Latin square holds. */
  predicate IsPermutationOf1ToN(s: seq<int>, n: nat) {
    |s| == n && Values(s) == OneToN(n)
  }

  /** A sequence has at most as many values as entries, and exactly as many
      precisely when no value repeats. */
  lemma {:induction false} CardValues(s: seq<int>)
    ensures |Values(s)| <= |s|
    ensures |Values(s)| == |s| <==> Distinct(s)
  {
    if |s| > 0 {
      var tail := s[1..];
      CardValues(tail);
      assert Values(s) == {s[0]} + Values(tail);
      if s[0] in Values(tail) {
        var b :| 0 <= b < |tail| && tail[b] == s[0];
        assert s[0] == s[b + 1];
        assert !Distinct(s);
      } else {
        assert |Values(s)| == |Values(tail)| + 1;
        if Distinct(tail) {
          forall a, b | 0 <= a < b < |s|
            ensures s[a] != s[b]
          {
            if a > 0 {
              assert s[a] == tail[a - 1] && s[b] == tail[b - 1];
            } else {
              assert s[b] in Values(tail) by { assert s[b] == tail[b - 1]; }
            }
          }
        } else {
          var a, b :| 0 <= a < b < |tail| && tail[a] == tail[b];
          assert s[a + 1] == s[b + 1];
        }
      }
    }
  }

  lemma SubsetOfEqualSize(a: set<int>, b: set<int>)
    requires a <= b && |a| == |b|
    ensures a == b
  {
    assert b == a + (b - a);
    assert a * (b - a) == {};
    assert |b - a| == 0;
  }

  /** All-different over values in 1..n, on n entries, is a permutation of 1..n, and conversely. */
  lemma DistinctInRangeIsPermutation(s: seq<int>, n: nat)
    ensures IsPermutationOf1ToN(s, n) <==> |s| == n && Distinct(s) && InRange(s, 1, n)
  {
    CardValues(s);
    if |s| == n && Distinct(s) && InRange(s, 1, n) {
      assert Values(s) <= OneToN(n);
      SubsetOfEqualSize(Values(s), OneToN(n));
    }
    if IsPermutationOf1ToN(s, n) {
      forall t | 0 <= t < |s|
        ensures 1 <= s[t] <= n
      {
        assert s[t] in Values(s);
      }
    }
  }

  /** Reading a sequence backwards keeps its values distinct. */
  lemma DistinctReversed(s: seq<int>, r: seq<int>)
    requires |r| == |s| && Distinct(s)
    requires forall p | 0 <= p < |r| :: r[p] == s[|s| - 1 - p]
    ensures Distinct(r)
  {
    forall a, b | 0 <= a < b < |r|
      ensures r[a] != r[b]
    {
      assert r[a] == s[|s| - 1 - a] && r[b] == s[|s| - 1 - b];
    }
  }
}
