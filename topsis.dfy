/** The body of `main` from reading the table to writing the result
    (topsis.py:32-94): validation, then normalisation, weighting, ideal
    points, distances, scores and ranks, written back into the table as two
    columns. */
module Topsis {
  import opened Wrappers
  import opened Vectors
  import opened Frame
  import opened Validation
  import opened Normalization
  import opened Ideal
  import opened Scoring
  import opened Ranking

  const ScoreColumn: string := "Topsis Score"
  const RankColumn: string := "Rank"

  /** A column of float cells. */
  function FloatCells(xs: seq<real>): (cells: seq<Cell>)
    ensures |cells| == |xs|
    ensures forall i :: 0 <= i < |xs| ==> cells[i] == Float(xs[i])
  {
    seq(|xs|, i requires 0 <= i < |xs| => Float(xs[i]))
  }

  /** A column of integer cells. */
  function IntCells(ns: seq<int>): (cells: seq<Cell>)
    ensures |cells| == |ns|
    ensures forall i :: 0 <= i < |ns| ==> cells[i] == Int(ns[i])
  {
    seq(|ns|, i requires 0 <= i < |ns| => Int(ns[i]))
  }

  /** What the checks guarantee about the criteria they hand on. */
  predicate Checked(k: Criteria)
  {
    && |k.data| > 0
    && IsMatrix(k.data, |k.norms|)
    && |k.weights| == |k.norms|
    && |k.impacts| == |k.norms|
    && (forall c :: 0 <= c < |k.norms| ==> k.norms[c] != 0.0)
  }

  /** `weighted_data` (topsis.py:67-69). */
  function Weighted(k: Criteria): (wm: Matrix)
    requires Checked(k)
    ensures |wm| == |k.data| && IsMatrix(wm, |k.norms|)
  {
    Weigh(Normalize(k.data, k.norms), k.weights)
  }

  /** `score` (topsis.py:71-90): the closeness of every alternative. */
  function ScoresOf(sqrt: real -> real, k: Criteria): (scores: seq<real>)
    requires Checked(k)
    ensures |scores| == |k.data|
  {
    var wm := Weighted(k);
    Scores(sqrt, wm, IdealBest(wm, k.impacts), IdealWorst(wm, k.impacts))
  }

  /** The whole of topsis.py:32-94 as a value: the error the first failing
      check reports, or the table with the score column and then the rank
      column assigned. */
  function Run(t: Table, weightsText: string, impactsText: string, parse: Parser, sqrt: real -> real)
    : (r: Result<Table, Error>)
    requires WellFormed(t) && IsSqrt(sqrt)
  {
    var v := Validate(t, weightsText, impactsText, parse, sqrt);
    if v.Failure? then Failure(v.error)
    else
      ValidateSuccess(t, weightsText, impactsText, parse, sqrt);
      Success(Output(t, ScoresOf(sqrt, v.value)))
  }

  /** `df['Topsis Score'] = score` then `df['Rank'] = ...` (topsis.py:92-94). */
  function Output(t: Table, scores: seq<real>): (u: Table)
    requires WellFormed(t) && |scores| == |t.rows|
  {
    var scored := Assign(t, ScoreColumn, FloatCells(scores));
    Assign(scored, RankColumn, IntCells(Ranks(scores)))
  }

  /** The output keeps every row and every other column's cells; when the
      table has neither column yet, exactly the score column and then the
      rank column are appended; the two columns read back as the scores and
      their ranks. */
  lemma OutputShape(t: Table, scores: seq<real>)
    requires WellFormed(t) && |scores| == |t.rows|
    ensures var u := Output(t, scores);
      && WellFormed(u)
      && |u.rows| == |t.rows|
      && ScoreColumn in u.columns && RankColumn in u.columns
      && Get(u, ScoreColumn) == FloatCells(scores)
      && Get(u, RankColumn) == IntCells(Ranks(scores))
      && (ScoreColumn !in t.columns && RankColumn !in t.columns ==>
            u.columns == t.columns + [ScoreColumn, RankColumn])
      && (forall r, c ::
            (0 <= r < |t.rows| && 0 <= c < |t.columns| &&
             t.columns[c] != ScoreColumn && t.columns[c] != RankColumn) ==>
            u.rows[r][c] == t.rows[r][c])
  {
    var scored := Assign(t, ScoreColumn, FloatCells(scores));
    GetAssign(t, ScoreColumn, FloatCells(scores));
    GetAssign(scored, RankColumn, IntCells(Ranks(scores)));
    GetAssignOther(scored, RankColumn, IntCells(Ranks(scores)), ScoreColumn);
  }

  /** The program's steps in its own order: the checks, the normalised and
      weighted matrix, the loop over the criteria for the ideal points, the
      two distance vectors, the guarded division, and the two column
      assignments. */
  method Execute(t: Table, weightsText: string, impactsText: string, parse: Parser, sqrt: real -> real)
    returns (result: Result<Table, Error>)
    requires WellFormed(t) && IsSqrt(sqrt)
    ensures result == Run(t, weightsText, impactsText, parse, sqrt)
  {
    var checked := Validate(t, weightsText, impactsText, parse, sqrt);
    if checked.Failure? {
      return Failure(checked.error);
    }
    ValidateSuccess(t, weightsText, impactsText, parse, sqrt);
    var k := checked.value;
    var normalized := Normalize(k.data, k.norms);
    var weighted := Weigh(normalized, k.weights);
    var best, worst := IdealPoints(weighted, k.impacts);
    var distBest := seq(|weighted|, r requires 0 <= r < |weighted| => Distance(sqrt, weighted[r], best));
    var distWorst := seq(|weighted|, r requires 0 <= r < |weighted| => Distance(sqrt, weighted[r], worst));
    var score := seq(|weighted|, r requires 0 <= r < |weighted| => Closeness(distBest[r], distWorst[r]));
    assert score == ScoresOf(sqrt, k);
    var df := Assign(t, ScoreColumn, FloatCells(score));
    df := Assign(df, RankColumn, IntCells(Ranks(score)));
    result := Success(df);
  }

  /** A run fails exactly when a check fails, with that check's error. */
  lemma RunFailure(t: Table, weightsText: string, impactsText: string, parse: Parser, sqrt: real -> real)
    requires WellFormed(t) && IsSqrt(sqrt)
    ensures Run(t, weightsText, impactsText, parse, sqrt).Failure? <==>
      Validate(t, weightsText, impactsText, parse, sqrt).Failure?
    ensures Run(t, weightsText, impactsText, parse, sqrt).Failure? ==>
      Run(t, weightsText, impactsText, parse, sqrt).error == Validate(t, weightsText, impactsText, parse, sqrt).error
  {
  }

  /** On success the output is the input table with the score and rank
      columns assigned, so everything `OutputShape` states holds of it. */
  lemma RunOutput(t: Table, weightsText: string, impactsText: string, parse: Parser, sqrt: real -> real)
    requires WellFormed(t) && IsSqrt(sqrt)
    requires Run(t, weightsText, impactsText, parse, sqrt).Success?
    ensures var k := Validate(t, weightsText, impactsText, parse, sqrt).value;
      && Checked(k) && |k.data| == |t.rows|
      && Run(t, weightsText, impactsText, parse, sqrt).value == Output(t, ScoresOf(sqrt, k))
  {
    ValidateSuccess(t, weightsText, impactsText, parse, sqrt);
  }

  /** The score column holds a number in [0, 1] for every row, the rank
      column a number in 1 .. n; a higher score means a smaller rank and
      equal scores share a rank. */
  lemma OutputScoresAndRanks(t: Table, scores: seq<real>)
    requires WellFormed(t) && |scores| == |t.rows|
    requires forall r :: 0 <= r < |scores| ==> 0.0 <= scores[r] <= 1.0
    ensures var u := Output(t, scores);
      && WellFormed(u) && ScoreColumn in u.columns && RankColumn in u.columns
      && var sc, rk := Get(u, ScoreColumn), Get(u, RankColumn);
      && (forall r :: 0 <= r < |t.rows| ==>
            && sc[r].Float? && 0.0 <= sc[r].x <= 1.0
            && rk[r].Int? && 1 <= rk[r].n <= |t.rows|)
      && (forall i, j :: 0 <= i < |t.rows| && 0 <= j < |t.rows| && sc[i].x > sc[j].x ==>
            rk[i].n < rk[j].n)
      && (forall i, j :: 0 <= i < |t.rows| && 0 <= j < |t.rows| && sc[i].x == sc[j].x ==>
            rk[i].n == rk[j].n)
  {
    OutputShape(t, scores);
    var s := scores;
    forall r | 0 <= r < |s|
      ensures 1 <= Ranks(s)[r] <= |s|
    {
      RankBounds(s, r);
    }
    forall i, j | 0 <= i < |s| && 0 <= j < |s| && s[i] > s[j]
      ensures Ranks(s)[i] < Ranks(s)[j]
    {
      RankOrder(s, i, j);
    }
    forall i, j | 0 <= i < |s| && 0 <= j < |s| && s[i] == s[j]
      ensures Ranks(s)[i] == Ranks(s)[j]
    {
      RankTies(s, i, j);
    }
  }

  /** Every score lies in [0, 1]. */
  lemma ScoresOfRange(sqrt: real -> real, k: Criteria)
    requires IsSqrt(sqrt) && Checked(k)
    ensures forall r :: 0 <= r < |k.data| ==> 0.0 <= ScoresOf(sqrt, k)[r] <= 1.0
  {
    var wm := Weighted(k);
    ScoresRange(sqrt, wm, IdealBest(wm, k.impacts), IdealWorst(wm, k.impacts));
  }

  /** End to end: a successful run writes a score in [0, 1] and a rank in
      1 .. n into every row, ordered as the scores are. */
  lemma RunScoresAndRanks(t: Table, weightsText: string, impactsText: string, parse: Parser, sqrt: real -> real)
    requires WellFormed(t) && IsSqrt(sqrt)
    requires Run(t, weightsText, impactsText, parse, sqrt).Success?
    ensures var u := Run(t, weightsText, impactsText, parse, sqrt).value;
      && WellFormed(u) && ScoreColumn in u.columns && RankColumn in u.columns
      && var sc, rk := Get(u, ScoreColumn), Get(u, RankColumn);
      && (forall r :: 0 <= r < |t.rows| ==>
            && sc[r].Float? && 0.0 <= sc[r].x <= 1.0
            && rk[r].Int? && 1 <= rk[r].n <= |t.rows|)
      && (forall i, j :: 0 <= i < |t.rows| && 0 <= j < |t.rows| && sc[i].x > sc[j].x ==>
            rk[i].n < rk[j].n)
  {
    RunOutput(t, weightsText, impactsText, parse, sqrt);
    var k := Validate(t, weightsText, impactsText, parse, sqrt).value;
    ScoresOfRange(sqrt, k);
    OutputScoresAndRanks(t, ScoresOf(sqrt, k));
  }

  /** When all alternatives have the same criterion values, each one is at
      once the ideal best and the ideal worst, so both distances are zero,
      their total is zero, and the guarded division writes 0. */
  lemma ScoresOfIdentical(sqrt: real -> real, k: Criteria)
    requires IsSqrt(sqrt) && Checked(k)
    requires forall r :: 0 <= r < |k.data| ==> k.data[r] == k.data[0]
    ensures var wm := Weighted(k);
      forall r :: 0 <= r < |k.data| ==>
        && Distance(sqrt, wm[r], IdealBest(wm, k.impacts)) == 0.0
        && Distance(sqrt, wm[r], IdealWorst(wm, k.impacts)) == 0.0
    ensures forall r :: 0 <= r < |k.data| ==> ScoresOf(sqrt, k)[r] == 0.0
  {
    var wm := Weighted(k);
    var best, worst := IdealBest(wm, k.impacts), IdealWorst(wm, k.impacts);
    assert forall r :: 0 <= r < |wm| ==> wm[r] == wm[0];
    forall c | 0 <= c < |k.norms|
      ensures best[c] == wm[0][c] && worst[c] == wm[0][c]
    {
      var col := Column(wm, c);
      assert forall r :: 0 <= r < |col| ==> col[r] == wm[0][c];
    }
    assert best == wm[0] && worst == wm[0];
    forall r | 0 <= r < |wm|
      ensures Distance(sqrt, wm[r], best) == 0.0 && Distance(sqrt, wm[r], worst) == 0.0
    {
      DistanceZeroIff(sqrt, wm[r], best);
      DistanceZeroIff(sqrt, wm[r], worst);
    }
  }

  /** All-zero scores are written as 0 with rank (n + 1) / 2 (rounded down)
      in every row: pandas' average rank of an n-way tie, not rank 1. */
  lemma OutputAllTied(t: Table, scores: seq<real>)
    requires WellFormed(t) && |scores| == |t.rows|
    requires forall r :: 0 <= r < |scores| ==> scores[r] == 0.0
    ensures var u := Output(t, scores);
      && WellFormed(u) && ScoreColumn in u.columns && RankColumn in u.columns
      && forall r :: 0 <= r < |t.rows| ==>
           Get(u, ScoreColumn)[r] == Float(0.0) && Get(u, RankColumn)[r] == Int((|t.rows| + 1) / 2)
  {
    OutputShape(t, scores);
    forall r | 0 <= r < |scores|
      ensures Ranks(scores)[r] == (|scores| + 1) / 2
    {
      RankAllTied(scores, r);
    }
  }

  /** Every row has the same cells as the first one in every criterion
      column. */
  predicate IdenticalCriteria(t: Table)
    requires WellFormed(t)
  {
    forall r, c :: 0 <= r < |t.rows| && 1 <= c < |t.columns| ==> t.rows[r][c] == t.rows[0][c]
  }

  /** The criteria parsed from rows whose criterion cells agree agree too. */
  lemma IdenticalRowsParse(t: Table, weightsText: string, impactsText: string, parse: Parser, sqrt: real -> real)
    requires WellFormed(t) && IsSqrt(sqrt)
    requires Validate(t, weightsText, impactsText, parse, sqrt).Success?
    requires IdenticalCriteria(t)
    ensures var k := Validate(t, weightsText, impactsText, parse, sqrt).value;
      Checked(k) && forall r :: 0 <= r < |k.data| ==> k.data[r] == k.data[0]
  {
    ValidateSuccess(t, weightsText, impactsText, parse, sqrt);
    var k := Validate(t, weightsText, impactsText, parse, sqrt).value;
    forall r | 0 <= r < |k.data|
      ensures k.data[r] == k.data[0]
    {
      forall c | 0 <= c < |k.norms|
        ensures k.data[r][c] == k.data[0][c]
      {
        assert CellToFloat(parse, t.rows[r][c + 1]) == Some(k.data[r][c]);
        assert CellToFloat(parse, t.rows[0][c + 1]) == Some(k.data[0][c]);
      }
    }
  }

  /** End to end: when every row has the same criterion cells, every row
      gets score 0 and rank (n + 1) / 2 (rounded down). */
  lemma RunIdenticalRows(t: Table, weightsText: string, impactsText: string, parse: Parser, sqrt: real -> real)
    requires WellFormed(t) && IsSqrt(sqrt)
    requires Run(t, weightsText, impactsText, parse, sqrt).Success?
    requires IdenticalCriteria(t)
    ensures var u := Run(t, weightsText, impactsText, parse, sqrt).value;
      && WellFormed(u) && ScoreColumn in u.columns && RankColumn in u.columns
      && |u.rows| == |t.rows|
      && forall r :: 0 <= r < |u.rows| ==>
           Get(u, ScoreColumn)[r] == Float(0.0) && Get(u, RankColumn)[r] == Int((|t.rows| + 1) / 2)
  {
    RunOutput(t, weightsText, impactsText, parse, sqrt);
    IdenticalRowsParse(t, weightsText, impactsText, parse, sqrt);
    var k := Validate(t, weightsText, impactsText, parse, sqrt).value;
    ScoresOfIdentical(sqrt, k);
    OutputAllTied(t, ScoresOf(sqrt, k));
  }
}
