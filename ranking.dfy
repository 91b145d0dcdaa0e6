/** `scores.rank(ascending=False).astype(int)` (topsis.py:94): pandas'
    default `average` rank of each score in descending order, truncated to
    an integer. */
module Ranking {

  /** How many scores are strictly greater than `x`. */
  function CountGreater(s: seq<real>, x: real): (k: nat)
    ensures k <= |s|
  {
    if |s| == 0 then 0 else (if s[0] > x then 1 else 0) + CountGreater(s[1..], x)
  }

  /** How many scores equal `x`. */
  function CountEqual(s: seq<real>, x: real): (k: nat)
    ensures k <= |s|
  {
    if |s| == 0 then 0 else (if s[0] == x then 1 else 0) + CountEqual(s[1..], x)
  }

  /** A score present in the series is counted among the equal ones, and
      the greater and the equal ones never outnumber the series. */
  lemma {:induction false} CountsBounded(s: seq<real>, x: real)
    ensures CountGreater(s, x) + CountEqual(s, x) <= |s|
    ensures x in s ==> CountEqual(s, x) >= 1
  {
    if |s| > 0 {
      CountsBounded(s[1..], x);
      if x != s[0] {
        assert x in s ==> x in s[1..];
      }
    }
  }

  /** Scores strictly above `y` include everything at or above a larger
      `x`. */
  lemma {:induction false} CountsOrdered(s: seq<real>, x: real, y: real)
    requires y < x
    ensures CountGreater(s, x) + CountEqual(s, x) <= CountGreater(s, y)
  {
    if |s| > 0 {
      CountsOrdered(s[1..], x, y);
    }
  }

  /** `lo + (lo + 1) + ... + (lo + k - 1)`. */
  function SumRange(lo: int, k: nat): int
    decreases k
  {
    if k == 0 then 0 else lo + SumRange(lo + 1, k - 1)
  }

  /** Gauss' formula for a run of consecutive positions. */
  lemma {:induction false} SumRangeClosed(lo: int, k: nat)
    ensures 2 * SumRange(lo, k) == k * (2 * lo + k - 1)
    decreases k
  {
    if k > 0 {
      SumRangeClosed(lo + 1, k - 1);
    }
  }

  /** pandas' `average` rank of `s[i]` in descending order: the tied scores
      would occupy positions `g + 1 .. g + k` (1-based), where `g` scores
      are greater and `k` are equal, and each gets the mean of those
      positions. */
  function AverageRank(s: seq<real>, i: nat): (avg: real)
    requires i < |s|
    ensures 2.0 * avg == (2 * CountGreater(s, s[i]) + CountEqual(s, s[i]) + 1) as real
  {
    var g, k := CountGreater(s, s[i]), CountEqual(s, s[i]);
    CountsBounded(s, s[i]);
    SumRangeClosed(g + 1, k);
    Mean(SumRange(g + 1, k), k, 2 * g + k + 1);
    SumRange(g + 1, k) as real / k as real
  }

  lemma Mean(total: int, k: nat, twiceMean: int)
    requires k > 0 && 2 * total == k * twiceMean
    ensures 2.0 * (total as real / k as real) == twiceMean as real
  {
    assert 2.0 * total as real == k as real * twiceMean as real;
  }

  /** `astype(int)`: truncation toward zero. */
  function Truncate(x: real): (n: int)
    ensures 0.0 <= x ==> n as real <= x < n as real + 1.0
    ensures x < 0.0 ==> n as real - 1.0 < x <= n as real
  {
    if x >= 0.0 then x.Floor else -((-x).Floor)
  }

  /** The rank the program writes for the `i`-th score: the number of
      greater scores plus half (rounded down) of one more than the number of
      equal scores. */
  function Rank(s: seq<real>, i: nat): (rank: int)
    requires i < |s|
    ensures rank == CountGreater(s, s[i]) + (CountEqual(s, s[i]) + 1) / 2
  {
    Truncate(AverageRank(s, i))
  }

  /** The ranks of the whole series, in row order. */
  function Ranks(s: seq<real>): (ranks: seq<int>)
    ensures |ranks| == |s|
    ensures forall i :: 0 <= i < |s| ==> ranks[i] == Rank(s, i)
  {
    seq(|s|, i requires 0 <= i < |s| => Rank(s, i))
  }

  /** Ranks lie between 1 and the number of scores. */
  lemma RankBounds(s: seq<real>, i: nat)
    requires i < |s|
    ensures 1 <= Rank(s, i) <= |s|
  {
    CountsBounded(s, s[i]);
  }

  /** Equal scores get equal ranks. */
  lemma RankTies(s: seq<real>, i: nat, j: nat)
    requires i < |s| && j < |s| && s[i] == s[j]
    ensures Rank(s, i) == Rank(s, j)
  {
  }

  /** A strictly higher score gets a strictly better (smaller) rank. */
  lemma RankOrder(s: seq<real>, i: nat, j: nat)
    requires i < |s| && j < |s| && s[i] > s[j]
    ensures Rank(s, i) < Rank(s, j)
  {
    CountsOrdered(s, s[i], s[j]);
    CountsBounded(s, s[j]);
  }

  /** A score greater than every other is ranked 1. */
  lemma RankTop(s: seq<real>, i: nat)
    requires i < |s|
    requires forall j :: 0 <= j < |s| && j != i ==> s[j] < s[i]
    ensures Rank(s, i) == 1
  {
    NoneGreater(s, s[i]);
    OnlyOneEqual(s, i);
  }

  lemma {:induction false} NoneGreater(s: seq<real>, x: real)
    requires forall j :: 0 <= j < |s| ==> s[j] <= x
    ensures CountGreater(s, x) == 0
  {
    if |s| > 0 {
      NoneGreater(s[1..], x);
    }
  }

  lemma {:induction false} OnlyOneEqual(s: seq<real>, i: nat)
    requires i < |s|
    requires forall j :: 0 <= j < |s| && j != i ==> s[j] != s[i]
    ensures CountEqual(s, s[i]) == 1
  {
    if i == 0 {
      NoneEqual(s[1..], s[0]);
    } else {
      assert s[1..][i - 1] == s[i];
      OnlyOneEqual(s[1..], i - 1);
    }
  }

  lemma {:induction false} NoneEqual(s: seq<real>, x: real)
    requires forall j :: 0 <= j < |s| ==> s[j] != x
    ensures CountEqual(s, x) == 0
  {
    if |s| > 0 {
      NoneEqual(s[1..], x);
    }
  }

  /** When every score is the same, every alternative gets rank
      `(n + 1) / 2`, not rank 1. */
  lemma RankAllTied(s: seq<real>, i: nat)
    requires i < |s|
    requires forall j :: 0 <= j < |s| ==> s[j] == s[0]
    ensures Rank(s, i) == (|s| + 1) / 2
  {
    NoneGreater(s, s[i]);
    AllEqual(s, s[i]);
  }

  lemma {:induction false} AllEqual(s: seq<real>, x: real)
    requires forall j :: 0 <= j < |s| ==> s[j] == x
    ensures CountEqual(s, x) == |s|
  {
    if |s| > 0 {
      AllEqual(s[1..], x);
    }
  }

  /** Ranks need not cover 1 .. K for K distinct scores: two tied leaders
      share rank 1 and the next score gets rank 3, so rank 2 is never
      written. */
  lemma RanksSkipPositions()
    ensures Ranks([2.0, 2.0, 1.0]) == [1, 1, 3]
  {
    var s := [2.0, 2.0, 1.0];
    assert s[1..] == [2.0, 1.0] && s[1..][1..] == [1.0] && s[1..][1..][1..] == [];
    assert CountGreater(s, 2.0) == 0 && CountEqual(s, 2.0) == 2;
    assert CountGreater(s, 1.0) == 2 && CountEqual(s, 1.0) == 1;
  }
}
