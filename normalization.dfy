/** Vector normalisation and weighting (topsis.py:67-69): every criterion
    column is divided by its Euclidean norm, then multiplied by its
    weight. */
module Normalization {
  import opened Vectors

  /** `data / rss`: each entry divided by its column's norm. */
  function Normalize(data: Matrix, norms: Vector): (m: Matrix)
    requires IsMatrix(data, |norms|)
    requires forall c :: 0 <= c < |norms| ==> norms[c] != 0.0
    ensures |m| == |data| && IsMatrix(m, |norms|)
    ensures forall r, c :: 0 <= r < |data| && 0 <= c < |norms| ==> m[r][c] == data[r][c] / norms[c]
  {
    seq(|data|, r requires 0 <= r < |data| =>
      seq(|norms|, c requires 0 <= c < |norms| => data[r][c] / norms[c]))
  }

  /** `normalized_data * weights`: each entry multiplied by its column's
      weight. */
  function Weigh(m: Matrix, weights: Vector): (w: Matrix)
    requires IsMatrix(m, |weights|)
    ensures |w| == |m| && IsMatrix(w, |weights|)
    ensures forall r, c :: 0 <= r < |m| && 0 <= c < |weights| ==> w[r][c] == m[r][c] * weights[c]
  {
    seq(|m|, r requires 0 <= r < |m| =>
      seq(|weights|, c requires 0 <= c < |weights| => m[r][c] * weights[c]))
  }

  /** Normalisation gives every criterion column a sum of squares of one,
      when each norm is the square root of its column's sum of squares. */
  lemma NormalizedColumns(sqrt: real -> real, data: Matrix, norms: Vector)
    requires IsSqrt(sqrt) && IsMatrix(data, |norms|)
    requires forall c :: 0 <= c < |norms| ==> norms[c] == sqrt(SumSq(Column(data, c))) && norms[c] != 0.0
    ensures forall c :: 0 <= c < |norms| ==> SumSq(Column(Normalize(data, norms), c)) == 1.0
  {
    var m := Normalize(data, norms);
    forall c | 0 <= c < |norms|
      ensures SumSq(Column(m, c)) == 1.0
    {
      assert Column(m, c) == Quotient(Column(data, c), norms[c]);
      UnitAfterDivision(sqrt, Column(data, c));
    }
  }

  /** Norms are positive, so within a criterion column normalising and
      weighting keep the order of the raw values when the weight is
      positive, and reverse it when the weight is negative. */
  lemma WeighingKeepsOrder(data: Matrix, norms: Vector, weights: Vector, c: nat, r: nat, s: nat)
    requires IsMatrix(data, |norms|) && |weights| == |norms|
    requires forall j :: 0 <= j < |norms| ==> 0.0 < norms[j]
    requires c < |norms| && r < |data| && s < |data|
    requires data[r][c] <= data[s][c]
    ensures var w := Weigh(Normalize(data, norms), weights);
      && (0.0 < weights[c] ==> w[r][c] <= w[s][c])
      && (weights[c] < 0.0 ==> w[s][c] <= w[r][c])
      && (weights[c] == 0.0 ==> w[r][c] == w[s][c] == 0.0)
  {
    var m := Normalize(data, norms);
    assert m[r][c] == data[r][c] / norms[c] && m[s][c] == data[s][c] / norms[c];
    DivideKeepsOrder(data[r][c], data[s][c], norms[c]);
    if 0.0 < weights[c] {
      MultiplyKeepsOrder(m[r][c], m[s][c], weights[c]);
    } else if weights[c] < 0.0 {
      MultiplyReversesOrder(m[r][c], m[s][c], weights[c]);
    }
  }

  lemma DivideKeepsOrder(a: real, b: real, n: real)
    requires 0.0 < n && a <= b
    ensures a / n <= b / n
  {
  }

  lemma MultiplyKeepsOrder(a: real, b: real, w: real)
    requires 0.0 < w && a <= b
    ensures a * w <= b * w
  {
  }

  lemma MultiplyReversesOrder(a: real, b: real, w: real)
    requires w < 0.0 && a <= b
    ensures b * w <= a * w
  {
  }
}
