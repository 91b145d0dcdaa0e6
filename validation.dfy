/** The guard clauses of `main` (topsis.py:32-65): each turns a bad input
    into one error, checked in the program's order, so the first failing
    check decides the error. The remaining computation only ever sees input
    that passed every check. */
module Validation {
  import opened Wrappers
  import opened Tokens
  import opened Vectors
  import opened Frame

  /** A criterion's preference direction: `+` (higher is better) or `-`. */
  datatype Impact = Benefit | Cost

  /** One constructor per `Error:` message the checks print before exiting.
      `UnparsableWeight` is the `ValueError` of `float(w)`, which the
      catch-all handler reports. */
  datatype Error =
    | TooFewColumns
    | NonNumericData
    | UnparsableWeight
    | WeightCountMismatch(weights: nat, criteria: nat)
    | ImpactCountMismatch(impacts: nat, criteria: nat)
    | InvalidImpact
    | ZeroColumn

  /** What passes the checks: the criteria matrix (every column after the
      first), one weight and one impact per criterion, and the Euclidean
      norm `rss` of each criterion column. */
  datatype Criteria = Criteria(data: Matrix, weights: seq<real>, impacts: seq<Impact>, norms: seq<real>)

  /** Python's `float(s)`: the number a string denotes, if any. */
  type Parser = string -> Option<real>

  /** All of `xs`, when none is missing. */
  function AllSome<T>(xs: seq<Option<T>>): (r: Option<seq<T>>)
    ensures r.Some? <==> forall i :: 0 <= i < |xs| ==> xs[i].Some?
    ensures r.Some? ==> |r.value| == |xs| && forall i :: 0 <= i < |xs| ==> r.value[i] == xs[i].value
  {
    if |xs| == 0 then Some([])
    else
      assert forall i :: 1 <= i < |xs| ==> xs[i] == xs[1..][i - 1];
      match (xs[0], AllSome(xs[1..]))
      case (Some(x), Some(rest)) => Some([x] + rest)
      case _ => None
  }

  /** `float(cell)`: numbers convert, text goes through the parser. */
  function CellToFloat(parse: Parser, cell: Cell): (r: Option<real>)
    ensures cell.Float? ==> r == Some(cell.x)
    ensures cell.Int? ==> r == Some(cell.n as real)
    ensures cell.Text? ==> r == parse(cell.text)
  {
    match cell
    case Float(x) => Some(x)
    case Int(n) => Some(n as real)
    case Text(s) => parse(s)
  }

  /** One row of `df.iloc[:, 1:].values.astype(float)`: every cell after
      the first, converted, or nothing when one of them does not convert. */
  function CoerceRow(parse: Parser, cells: seq<Cell>): (r: Option<seq<real>>)
    requires |cells| > 0
    ensures r.Some? <==> forall j :: 1 <= j < |cells| ==> CellToFloat(parse, cells[j]).Some?
    ensures r.Some? ==>
      && |r.value| == |cells| - 1
      && (forall j :: 1 <= j < |cells| ==> Some(r.value[j - 1]) == CellToFloat(parse, cells[j]))
  {
    var converted := seq(|cells| - 1, j requires 0 <= j < |cells| - 1 => CellToFloat(parse, cells[j + 1]));
    assert forall j :: 1 <= j < |cells| ==> converted[j - 1] == CellToFloat(parse, cells[j]);
    AllSome(converted)
  }

  /** `df.iloc[:, 1:].values.astype(float)`: every cell after the first of
      every row, converted, or nothing when one cell does not convert. */
  function CoerceData(parse: Parser, rows: seq<seq<Cell>>): (r: Option<Matrix>)
    requires forall i :: 0 <= i < |rows| ==> |rows[i]| > 0
    ensures r.Some? <==> forall i :: 0 <= i < |rows| ==> CoerceRow(parse, rows[i]).Some?
    ensures r.Some? ==>
      && |r.value| == |rows|
      && (forall i :: 0 <= i < |rows| ==> CoerceRow(parse, rows[i]) == Some(r.value[i]))
  {
    var converted := seq(|rows|, i requires 0 <= i < |rows| => CoerceRow(parse, rows[i]));
    assert forall i :: 0 <= i < |rows| ==> converted[i] == CoerceRow(parse, rows[i]);
    AllSome(converted)
  }

  /** `[float(w) for w in tokens]`: every token parsed, or nothing when one
      token does not parse. */
  function ParseAll(parse: Parser, tokens: seq<string>): (r: Option<seq<real>>)
    ensures r.Some? <==> forall i :: 0 <= i < |tokens| ==> parse(tokens[i]).Some?
    ensures r.Some? ==>
      && |r.value| == |tokens|
      && (forall i :: 0 <= i < |tokens| ==> parse(tokens[i]) == Some(r.value[i]))
  {
    var parsed := seq(|tokens|, i requires 0 <= i < |tokens| => parse(tokens[i]));
    assert forall i :: 0 <= i < |tokens| ==> parsed[i] == parse(tokens[i]);
    AllSome(parsed)
  }

  /** The only impact tokens the program accepts. */
  function ImpactOf(token: string): (r: Option<Impact>)
    ensures r == Some(Benefit) <==> token == "+"
    ensures r == Some(Cost) <==> token == "-"
    ensures r.None? <==> token != "+" && token != "-"
  {
    if token == "+" then Some(Benefit)
    else if token == "-" then Some(Cost)
    else None
  }

  /** The impact of every token, or nothing when one is neither `+` nor `-`. */
  function ParseImpacts(tokens: seq<string>): (r: Option<seq<Impact>>)
    ensures r.Some? <==> forall i :: 0 <= i < |tokens| ==> tokens[i] == "+" || tokens[i] == "-"
    ensures r.Some? ==>
      && |r.value| == |tokens|
      && (forall i :: 0 <= i < |tokens| ==> r.value[i] == if tokens[i] == "+" then Benefit else Cost)
  {
    var parsed := seq(|tokens|, i requires 0 <= i < |tokens| => ImpactOf(tokens[i]));
    assert forall i :: 0 <= i < |tokens| ==> parsed[i] == ImpactOf(tokens[i]);
    AllSome(parsed)
  }

  /** `np.sqrt(np.sum(data ** 2, axis=0))`: the Euclidean norm of each of
      the `n` columns. */
  function ColumnNorms(sqrt: real -> real, data: Matrix, n: nat): (norms: seq<real>)
    requires IsMatrix(data, n)
    ensures |norms| == n
    ensures forall c :: 0 <= c < n ==> norms[c] == sqrt(SumSq(Column(data, c)))
  {
    seq(n, c requires 0 <= c < n => sqrt(SumSq(Column(data, c))))
  }

  /** The weight tokens: `weights_str.split(',')`. */
  function WeightTokens(weightsText: string): seq<string>
  {
    Split(weightsText, ',')
  }

  /** The impact tokens: `impacts_str.split(',')`. */
  function ImpactTokens(impactsText: string): seq<string>
  {
    Split(impactsText, ',')
  }

  /** The checks of topsis.py:32-65, in order. */
  function Validate(t: Table, weightsText: string, impactsText: string, parse: Parser, sqrt: real -> real)
    : (r: Result<Criteria, Error>)
    requires WellFormed(t)
    ensures r.Success? ==>
      && |t.columns| >= 3
      && |r.value.data| == |t.rows|
      && IsMatrix(r.value.data, |t.columns| - 1)
      && |r.value.weights| == |t.columns| - 1
      && |r.value.impacts| == |t.columns| - 1
      && |r.value.norms| == |t.columns| - 1
      && (forall c :: 0 <= c < |r.value.norms| ==> r.value.norms[c] != 0.0)
  {
    if |t.columns| < 3 then Failure(TooFewColumns)
    else
      var n := |t.columns| - 1;
      match CoerceData(parse, t.rows)
      case None => Failure(NonNumericData)
      case Some(data) =>
        match ParseAll(parse, WeightTokens(weightsText))
        case None => Failure(UnparsableWeight)
        case Some(weights) =>
          var tokens := ImpactTokens(impactsText);
          if |weights| != n then Failure(WeightCountMismatch(|weights|, n))
          else if |tokens| != n then Failure(ImpactCountMismatch(|tokens|, n))
          else
            match ParseImpacts(tokens)
            case None => Failure(InvalidImpact)
            case Some(impacts) =>
              var norms := ColumnNorms(sqrt, data, n);
              if exists c :: 0 <= c < n && norms[c] == 0.0 then Failure(ZeroColumn)
              else Success(Criteria(data, weights, impacts, norms))
  }

  /** The data and the weights are read: the point where the count checks
      start (topsis.py:47). */
  predicate ReachesCounts(t: Table, weightsText: string, parse: Parser)
    requires WellFormed(t)
  {
    && |t.columns| >= 3
    && CoerceData(parse, t.rows).Some?
    && ParseAll(parse, WeightTokens(weightsText)).Some?
  }

  /** Both counts match the number of criteria. */
  predicate CountsMatch(t: Table, weightsText: string, impactsText: string)
  {
    |WeightTokens(weightsText)| == |t.columns| - 1 && |ImpactTokens(impactsText)| == |t.columns| - 1
  }

  /** Fewer than three columns is reported first, whatever else is wrong. */
  lemma TooFewColumnsFirst(t: Table, weightsText: string, impactsText: string, parse: Parser, sqrt: real -> real)
    requires WellFormed(t)
    ensures Validate(t, weightsText, impactsText, parse, sqrt) == Failure(TooFewColumns) <==> |t.columns| < 3
  {
  }

  /** The data is rejected exactly when the table is wide enough and some
      criterion cell does not convert to a float. */
  lemma NonNumericIff(t: Table, weightsText: string, impactsText: string, parse: Parser, sqrt: real -> real)
    requires WellFormed(t)
    ensures Validate(t, weightsText, impactsText, parse, sqrt) == Failure(NonNumericData) <==>
      |t.columns| >= 3 &&
      exists i, j :: 0 <= i < |t.rows| && 1 <= j < |t.columns| && CellToFloat(parse, t.rows[i][j]).None?
  {
    if |t.columns| >= 3 && CoerceData(parse, t.rows).None? {
      var i :| 0 <= i < |t.rows| && CoerceRow(parse, t.rows[i]).None?;
      var j :| 1 <= j < |t.rows[i]| && CellToFloat(parse, t.rows[i][j]).None?;
    }
  }

  /** A weight token that does not parse is reported before any count is
      compared. */
  lemma UnparsableWeightIff(t: Table, weightsText: string, impactsText: string, parse: Parser, sqrt: real -> real)
    requires WellFormed(t)
    ensures Validate(t, weightsText, impactsText, parse, sqrt) == Failure(UnparsableWeight) <==>
      && |t.columns| >= 3
      && CoerceData(parse, t.rows).Some?
      && exists i :: 0 <= i < |WeightTokens(weightsText)| && parse(WeightTokens(weightsText)[i]).None?
  {
  }

  /** The weight count is compared first, and its error carries both
      numbers. */
  lemma WeightCountIff(t: Table, weightsText: string, impactsText: string, parse: Parser, sqrt: real -> real)
    requires WellFormed(t)
    ensures var r := Validate(t, weightsText, impactsText, parse, sqrt);
      r.Failure? && r.error.WeightCountMismatch? <==>
      ReachesCounts(t, weightsText, parse) && |WeightTokens(weightsText)| != |t.columns| - 1
    ensures var r := Validate(t, weightsText, impactsText, parse, sqrt);
      r.Failure? && r.error.WeightCountMismatch? ==>
      r.error == WeightCountMismatch(|WeightTokens(weightsText)|, |t.columns| - 1)
  {
  }

  /** The impact count is compared only once the weight count matches. */
  lemma ImpactCountIff(t: Table, weightsText: string, impactsText: string, parse: Parser, sqrt: real -> real)
    requires WellFormed(t)
    ensures var r := Validate(t, weightsText, impactsText, parse, sqrt);
      r.Failure? && r.error.ImpactCountMismatch? <==>
      && ReachesCounts(t, weightsText, parse)
      && |WeightTokens(weightsText)| == |t.columns| - 1
      && |ImpactTokens(impactsText)| != |t.columns| - 1
    ensures var r := Validate(t, weightsText, impactsText, parse, sqrt);
      r.Failure? && r.error.ImpactCountMismatch? ==>
      r.error == ImpactCountMismatch(|ImpactTokens(impactsText)|, |t.columns| - 1)
  {
  }

  /** An impact token other than `+` or `-` is reported only once both
      counts match. */
  lemma InvalidImpactIff(t: Table, weightsText: string, impactsText: string, parse: Parser, sqrt: real -> real)
    requires WellFormed(t)
    ensures Validate(t, weightsText, impactsText, parse, sqrt) == Failure(InvalidImpact) <==>
      && ReachesCounts(t, weightsText, parse)
      && CountsMatch(t, weightsText, impactsText)
      && exists i :: 0 <= i < |ImpactTokens(impactsText)| &&
           ImpactTokens(impactsText)[i] != "+" && ImpactTokens(impactsText)[i] != "-"
  {
  }

  /** Every earlier check passes: data and weights are read, both counts
      match and every impact token is `+` or `-`. */
  predicate PassesTokenChecks(t: Table, weightsText: string, impactsText: string, parse: Parser)
    requires WellFormed(t)
  {
    && ReachesCounts(t, weightsText, parse)
    && CountsMatch(t, weightsText, impactsText)
    && ParseImpacts(ImpactTokens(impactsText)).Some?
  }

  /** Criterion column `c` of the table converts to nothing but zeros. */
  predicate AllZero(parse: Parser, t: Table, c: nat)
    requires WellFormed(t) && c < |t.columns|
  {
    forall r :: 0 <= r < |t.rows| ==> CellToFloat(parse, t.rows[r][c]) == Some(0.0)
  }

  /** With a true square root, the norm of a converted criterion column is
      zero exactly when the column converts to nothing but zeros. */
  lemma ZeroNormIff(t: Table, parse: Parser, sqrt: real -> real, data: Matrix, c: nat)
    requires WellFormed(t) && IsSqrt(sqrt) && 1 <= c < |t.columns|
    requires CoerceData(parse, t.rows) == Some(data)
    ensures IsMatrix(data, |t.columns| - 1)
    ensures sqrt(SumSq(Column(data, c - 1))) == 0.0 <==> AllZero(parse, t, c)
  {
    var col := Column(data, c - 1);
    SqrtZeroIff(sqrt, SumSq(col));
    assert forall r :: 0 <= r < |t.rows| ==> CellToFloat(parse, t.rows[r][c]) == Some(col[r]);
  }

  /** With a true square root, the zero-norm check fires exactly when some
      criterion column holds nothing but zeros; in particular for a table
      with no rows. */
  lemma ZeroColumnIff(t: Table, weightsText: string, impactsText: string, parse: Parser, sqrt: real -> real)
    requires WellFormed(t) && IsSqrt(sqrt)
    ensures Validate(t, weightsText, impactsText, parse, sqrt) == Failure(ZeroColumn) <==>
      && PassesTokenChecks(t, weightsText, impactsText, parse)
      && exists c :: 1 <= c < |t.columns| && AllZero(parse, t, c)
  {
    if PassesTokenChecks(t, weightsText, impactsText, parse) {
      var data := CoerceData(parse, t.rows).value;
      SomeNormZeroIff(t, parse, sqrt, data);
    }
  }

  /** Some criterion column's norm is zero exactly when some criterion
      column converts to nothing but zeros. */
  lemma SomeNormZeroIff(t: Table, parse: Parser, sqrt: real -> real, data: Matrix)
    requires WellFormed(t) && IsSqrt(sqrt) && |t.columns| >= 1
    requires CoerceData(parse, t.rows) == Some(data)
    ensures IsMatrix(data, |t.columns| - 1)
    ensures var norms := ColumnNorms(sqrt, data, |t.columns| - 1);
      (exists c :: 0 <= c < |t.columns| - 1 && norms[c] == 0.0) <==>
      (exists c :: 1 <= c < |t.columns| && AllZero(parse, t, c))
  {
    var n := |t.columns| - 1;
    assert IsMatrix(data, n) by {
      forall r | 0 <= r < |data|
        ensures |data[r]| == n
      {
        assert CoerceRow(parse, t.rows[r]) == Some(data[r]);
      }
    }
    var norms := ColumnNorms(sqrt, data, n);
    forall c | 1 <= c < |t.columns|
      ensures norms[c - 1] == 0.0 <==> AllZero(parse, t, c)
    {
      ZeroNormIff(t, parse, sqrt, data, c);
    }
    if exists c :: 0 <= c < n && norms[c] == 0.0 {
      var c :| 0 <= c < n && norms[c] == 0.0;
      assert AllZero(parse, t, c + 1);
    }
    if exists c :: 1 <= c < |t.columns| && AllZero(parse, t, c) {
      var c :| 1 <= c < |t.columns| && AllZero(parse, t, c);
      assert norms[c - 1] == 0.0;
    }
  }

  /** What the computation receives: the converted cells, the parsed
      weights, the impacts in token order, and each column's norm, none of
      them zero; there is at least one row. */
  lemma ValidateSuccess(t: Table, weightsText: string, impactsText: string, parse: Parser, sqrt: real -> real)
    requires WellFormed(t) && IsSqrt(sqrt)
    requires Validate(t, weightsText, impactsText, parse, sqrt).Success?
    ensures var k := Validate(t, weightsText, impactsText, parse, sqrt).value;
      && PassesTokenChecks(t, weightsText, impactsText, parse)
      && |t.rows| > 0
      && (forall r, c :: 0 <= r < |t.rows| && 0 <= c < |t.columns| - 1 ==>
            CellToFloat(parse, t.rows[r][c + 1]) == Some(k.data[r][c]))
      && (forall i :: 0 <= i < |k.weights| ==> parse(WeightTokens(weightsText)[i]) == Some(k.weights[i]))
      && (forall i :: 0 <= i < |k.impacts| ==>
            k.impacts[i] == if ImpactTokens(impactsText)[i] == "+" then Benefit else Cost)
      && (forall c :: 0 <= c < |k.norms| ==> k.norms[c] == sqrt(SumSq(Column(k.data, c))))
  {
    var k := Validate(t, weightsText, impactsText, parse, sqrt).value;
    SqrtZeroIff(sqrt, SumSq(Column(k.data, 0)));
  }
}
