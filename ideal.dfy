/** The ideal best and ideal worst points (topsis.py:71-83): per criterion,
    the most and the least preferred weighted value, according to whether
    the criterion is a benefit (`+`) or a cost (`-`). */
module Ideal {
  import opened Vectors
  import opened Validation

  /** The most preferred value of a column: its maximum for a benefit, its
      minimum for a cost. */
  function BestOf(col: Vector, impact: Impact): (b: real)
    requires |col| > 0
    ensures b in col
    ensures impact == Benefit ==> forall r :: 0 <= r < |col| ==> col[r] <= b
    ensures impact == Cost ==> forall r :: 0 <= r < |col| ==> b <= col[r]
  {
    if impact == Benefit then Max(col) else Min(col)
  }

  /** The least preferred value of a column: its minimum for a benefit, its
      maximum for a cost. */
  function WorstOf(col: Vector, impact: Impact): (w: real)
    requires |col| > 0
    ensures w in col
    ensures impact == Benefit ==> forall r :: 0 <= r < |col| ==> w <= col[r]
    ensures impact == Cost ==> forall r :: 0 <= r < |col| ==> col[r] <= w
  {
    if impact == Benefit then Min(col) else Max(col)
  }

  /** The ideal best point of a weighted matrix. */
  function IdealBest(wm: Matrix, impacts: seq<Impact>): (best: Vector)
    requires |wm| > 0 && IsMatrix(wm, |impacts|)
    ensures |best| == |impacts|
  {
    seq(|impacts|, c requires 0 <= c < |impacts| => BestOf(Column(wm, c), impacts[c]))
  }

  /** The ideal worst point of a weighted matrix. */
  function IdealWorst(wm: Matrix, impacts: seq<Impact>): (worst: Vector)
    requires |wm| > 0 && IsMatrix(wm, |impacts|)
    ensures |worst| == |impacts|
  {
    seq(|impacts|, c requires 0 <= c < |impacts| => WorstOf(Column(wm, c), impacts[c]))
  }

  /** Every coordinate of the ideal points is a value some alternative
      attains, and every alternative lies between the ideal worst and the
      ideal best on every criterion, on the side its impact prescribes. */
  lemma IdealBounds(wm: Matrix, impacts: seq<Impact>)
    requires |wm| > 0 && IsMatrix(wm, |impacts|)
    ensures forall c :: 0 <= c < |impacts| ==>
      ColumnBounds(wm, impacts, IdealBest(wm, impacts), IdealWorst(wm, impacts), c)
  {
    forall c | 0 <= c < |impacts|
      ensures ColumnBounds(wm, impacts, IdealBest(wm, impacts), IdealWorst(wm, impacts), c)
    {
      IdealColumnBounds(wm, impacts, c);
    }
  }

  /** Column `c` of the weighted matrix attains both ideal coordinates and
      lies between them on the side its impact prescribes. */
  predicate ColumnBounds(wm: Matrix, impacts: seq<Impact>, best: Vector, worst: Vector, c: nat)
    requires IsMatrix(wm, |impacts|) && |best| == |worst| == |impacts| && c < |impacts|
  {
    && (exists r :: 0 <= r < |wm| && wm[r][c] == best[c])
    && (exists r :: 0 <= r < |wm| && wm[r][c] == worst[c])
    && (forall r :: 0 <= r < |wm| ==>
          if impacts[c] == Benefit then worst[c] <= wm[r][c] <= best[c]
          else best[c] <= wm[r][c] <= worst[c])
  }

  lemma IdealColumnBounds(wm: Matrix, impacts: seq<Impact>, c: nat)
    requires |wm| > 0 && IsMatrix(wm, |impacts|) && c < |impacts|
    ensures ColumnBounds(wm, impacts, IdealBest(wm, impacts), IdealWorst(wm, impacts), c)
  {
    var best, worst := IdealBest(wm, impacts), IdealWorst(wm, impacts);
    var col := Column(wm, c);
    assert best[c] == BestOf(col, impacts[c]) && worst[c] == WorstOf(col, impacts[c]);
    var rb :| 0 <= rb < |col| && col[rb] == best[c];
    var rw :| 0 <= rw < |col| && col[rw] == worst[c];
    assert wm[rb][c] == best[c] && wm[rw][c] == worst[c];
    assert forall r :: 0 <= r < |wm| ==> col[r] == wm[r][c];
  }

  /** The loop of topsis.py:74-80: one pass over the criteria, appending
      the best and the worst value of each weighted column. */
  method IdealPoints(wm: Matrix, impacts: seq<Impact>) returns (best: Vector, worst: Vector)
    requires |wm| > 0 && IsMatrix(wm, |impacts|)
    ensures best == IdealBest(wm, impacts)
    ensures worst == IdealWorst(wm, impacts)
  {
    best, worst := [], [];
    for c := 0 to |impacts|
      invariant best == IdealBest(wm, impacts)[..c]
      invariant worst == IdealWorst(wm, impacts)[..c]
    {
      var col := Column(wm, c);
      if impacts[c] == Benefit {
        best := best + [Max(col)];
        worst := worst + [Min(col)];
      } else {
        best := best + [Min(col)];
        worst := worst + [Max(col)];
      }
      assert IdealBest(wm, impacts)[..c + 1] == IdealBest(wm, impacts)[..c] + [BestOf(col, impacts[c])];
      assert IdealWorst(wm, impacts)[..c + 1] == IdealWorst(wm, impacts)[..c] + [WorstOf(col, impacts[c])];
    }
  }
}
