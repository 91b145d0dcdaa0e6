/** Real vectors and matrices as the program's numpy arrays hold them, with
    the reductions it applies to them (`np.sum` of squares, `np.max`,
    `np.min`) and the law of the square root it takes from numpy. */
module Vectors {

  type Vector = seq<real>
  type Matrix = seq<seq<real>>

  /** Every row of `m` has exactly `cols` entries. */
  predicate IsMatrix(m: Matrix, cols: nat)
  {
    forall r :: 0 <= r < |m| ==> |m[r]| == cols
  }

  /** Column `c` of `m` (numpy's `m[:, c]`). */
  function Column(m: Matrix, c: nat): (col: Vector)
    requires forall r :: 0 <= r < |m| ==> c < |m[r]|
    ensures |col| == |m|
    ensures forall r :: 0 <= r < |m| ==> col[r] == m[r][c]
  {
    seq(|m|, r requires 0 <= r < |m| => m[r][c])
  }

  /** `v / n`, elementwise. */
  function Quotient(v: Vector, n: real): (q: Vector)
    requires n != 0.0
    ensures |q| == |v|
    ensures forall i :: 0 <= i < |v| ==> q[i] * n == v[i]
  {
    seq(|v|, i requires 0 <= i < |v| => v[i] / n)
  }

  /** `u - v`, elementwise. */
  function Diff(u: Vector, v: Vector): (d: Vector)
    requires |u| == |v|
    ensures |d| == |u|
    ensures forall i :: 0 <= i < |u| ==> d[i] + v[i] == u[i]
  {
    seq(|u|, i requires 0 <= i < |u| => u[i] - v[i])
  }

  /** The square `a ** 2`: never negative, and zero only for zero. */
  function Sq(a: real): (r: real)
    ensures 0.0 <= r
    ensures r == 0.0 <==> a == 0.0
  {
    Reciprocal(a);
    a * a
  }

  /** A non-zero number has a reciprocal, so its square is not zero. */
  lemma Reciprocal(a: real)
    ensures a != 0.0 ==> (a * a) * ((1.0 / a) * (1.0 / a)) == 1.0
  {
  }

  /** The square root numpy supplies: for every non-negative argument, a
      non-negative number whose square is that argument. */
  ghost predicate IsSqrt(sqrt: real -> real)
  {
    forall x: real :: 0.0 <= x ==> 0.0 <= sqrt(x) && Sq(sqrt(x)) == x
  }

  /** The square root of a non-negative number is never negative, and it is
      zero exactly when the number is. */
  lemma SqrtZeroIff(sqrt: real -> real, x: real)
    requires IsSqrt(sqrt) && 0.0 <= x
    ensures 0.0 <= sqrt(x)
    ensures sqrt(x) == 0.0 <==> x == 0.0
  {
    assert Sq(sqrt(x)) == x;
  }

  /** `np.sum(v ** 2)`: it is never negative, and it is zero exactly when
      every entry is zero. */
  function SumSq(v: Vector): (s: real)
    ensures 0.0 <= s
    ensures s == 0.0 <==> forall i :: 0 <= i < |v| ==> v[i] == 0.0
  {
    if |v| == 0 then 0.0
    else
      assert forall i :: 1 <= i < |v| ==> v[i] == v[1..][i - 1];
      Sq(v[0]) + SumSq(v[1..])
  }

  /** Dividing a vector by `n` divides its sum of squares by `n ** 2`. */
  lemma {:induction false} SumSqQuotient(v: Vector, n: real)
    requires n != 0.0
    ensures SumSq(Quotient(v, n)) == SumSq(v) / Sq(n)
  {
    if |v| > 0 {
      var q := Quotient(v, n);
      assert q[1..] == Quotient(v[1..], n);
      SumSqQuotient(v[1..], n);
      SqQuotient(v[0], n);
      AddQuotients(Sq(v[0]), SumSq(v[1..]), Sq(n));
    }
  }

  lemma SqQuotient(a: real, n: real)
    requires n != 0.0
    ensures Sq(a / n) == Sq(a) / Sq(n)
  {
  }

  lemma AddQuotients(x: real, y: real, d: real)
    requires d != 0.0
    ensures x / d + y / d == (x + y) / d
  {
  }

  /** Dividing a vector by the square root of its own sum of squares (when
      that is not zero) leaves a vector whose sum of squares is one. */
  lemma UnitAfterDivision(sqrt: real -> real, v: Vector)
    requires IsSqrt(sqrt)
    requires sqrt(SumSq(v)) != 0.0
    ensures SumSq(Quotient(v, sqrt(SumSq(v)))) == 1.0
  {
    var s := SumSq(v);
    var n := sqrt(s);
    assert Sq(n) == s;
    SumSqQuotient(v, n);
    SelfQuotient(Sq(n));
  }

  lemma SelfQuotient(x: real)
    requires x != 0.0
    ensures x / x == 1.0
  {
  }

  /** `np.max(v)`: an entry of `v` no smaller than any other. */
  function Max(v: Vector): (m: real)
    requires |v| > 0
    ensures m in v
    ensures forall i :: 0 <= i < |v| ==> v[i] <= m
  {
    if |v| == 1 then v[0]
    else
      var rest := Max(v[1..]);
      assert forall i :: 1 <= i < |v| ==> v[i] == v[1..][i - 1];
      if v[0] >= rest then v[0] else rest
  }

  /** `np.min(v)`: an entry of `v` no larger than any other. */
  function Min(v: Vector): (m: real)
    requires |v| > 0
    ensures m in v
    ensures forall i :: 0 <= i < |v| ==> m <= v[i]
  {
    if |v| == 1 then v[0]
    else
      var rest := Min(v[1..]);
      assert forall i :: 1 <= i < |v| ==> v[i] == v[1..][i - 1];
      if v[0] <= rest then v[0] else rest
  }
}
