/** Distances to the ideal points and the closeness score
    (topsis.py:85-90). */
module Scoring {
  import opened Vectors

  /** `np.sqrt(np.sum((row - ideal) ** 2))`: the Euclidean distance from an
      alternative to an ideal point. */
  function Distance(sqrt: real -> real, row: Vector, ideal: Vector): real
    requires |row| == |ideal|
  {
    sqrt(SumSq(Diff(row, ideal)))
  }

  /** With a true square root, a distance is never negative and is zero
      exactly when the alternative is the ideal point itself. */
  lemma DistanceZeroIff(sqrt: real -> real, row: Vector, ideal: Vector)
    requires IsSqrt(sqrt) && |row| == |ideal|
    ensures 0.0 <= Distance(sqrt, row, ideal)
    ensures Distance(sqrt, row, ideal) == 0.0 <==> row == ideal
  {
    var d := Diff(row, ideal);
    SqrtZeroIff(sqrt, SumSq(d));
    if SumSq(d) == 0.0 {
      assert forall i :: 0 <= i < |row| ==> row[i] == ideal[i];
    }
  }

  /** `np.divide(dist_worst, total_dist, out=zeros, where=total_dist != 0)`:
      the share of the worst distance in the total, or zero when the total
      is zero. */
  function Closeness(distBest: real, distWorst: real): (s: real)
    ensures distBest + distWorst == 0.0 ==> s == 0.0
    ensures distBest + distWorst != 0.0 ==> s * (distBest + distWorst) == distWorst
  {
    if distBest + distWorst == 0.0 then 0.0 else distWorst / (distBest + distWorst)
  }

  /** For distances, the score lies in [0, 1]; it is 0 exactly when the
      alternative is at the ideal worst, and 1 exactly when it is at the
      ideal best and not also at the ideal worst. */
  lemma ClosenessRange(distBest: real, distWorst: real)
    requires 0.0 <= distBest && 0.0 <= distWorst
    ensures 0.0 <= Closeness(distBest, distWorst) <= 1.0
    ensures Closeness(distBest, distWorst) == 0.0 <==> distWorst == 0.0
    ensures Closeness(distBest, distWorst) == 1.0 <==> distBest == 0.0 && distWorst != 0.0
  {
    if distBest + distWorst != 0.0 {
      ShareBounds(distBest, distWorst);
    }
  }

  lemma ShareBounds(a: real, b: real)
    requires 0.0 <= a && 0.0 <= b && a + b != 0.0
    ensures 0.0 <= b / (a + b) <= 1.0
    ensures b / (a + b) == 0.0 <==> b == 0.0
    ensures b / (a + b) == 1.0 <==> a == 0.0
  {
  }

  /** The score of every alternative (one per row of the weighted matrix). */
  function Scores(sqrt: real -> real, wm: Matrix, best: Vector, worst: Vector): (scores: seq<real>)
    requires |best| == |worst| && IsMatrix(wm, |best|)
    ensures |scores| == |wm|
    ensures forall r :: 0 <= r < |wm| ==>
      scores[r] == Closeness(Distance(sqrt, wm[r], best), Distance(sqrt, wm[r], worst))
  {
    seq(|wm|, r requires 0 <= r < |wm| =>
      Closeness(Distance(sqrt, wm[r], best), Distance(sqrt, wm[r], worst)))
  }

  /** Every score lies in [0, 1]; a score is 0 exactly for an alternative
      at the ideal worst point, and 1 exactly for one at the ideal best point
      that is not also at the ideal worst point. */
  lemma ScoresRange(sqrt: real -> real, wm: Matrix, best: Vector, worst: Vector)
    requires IsSqrt(sqrt) && |best| == |worst| && IsMatrix(wm, |best|)
    ensures forall r :: 0 <= r < |wm| ==>
      var s := Scores(sqrt, wm, best, worst)[r];
      && 0.0 <= s <= 1.0
      && (s == 0.0 <==> wm[r] == worst)
      && (s == 1.0 <==> wm[r] == best && wm[r] != worst)
  {
    forall r | 0 <= r < |wm|
      ensures var s := Scores(sqrt, wm, best, worst)[r];
        && 0.0 <= s <= 1.0
        && (s == 0.0 <==> wm[r] == worst)
        && (s == 1.0 <==> wm[r] == best && wm[r] != worst)
    {
      DistanceZeroIff(sqrt, wm[r], best);
      DistanceZeroIff(sqrt, wm[r], worst);
      ClosenessRange(Distance(sqrt, wm[r], best), Distance(sqrt, wm[r], worst));
    }
  }
}
