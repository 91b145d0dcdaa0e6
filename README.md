# TOPSIS ranking, modelled in Dafny

`topsis.py` ranks alternatives with TOPSIS (Technique for Order Preference
by Similarity to Ideal Solution). The input is a table. Its first column
names the alternatives and every later column is a numeric criterion. The
program also takes a comma-separated list of weights and a comma-separated
list of impacts (`+` for a benefit, `-` for a cost). It appends a
"Topsis Score" column and a "Rank" column to the table.

This project models the body of `main` from the point where the table has
been read up to the assignment of the two output columns (topsis.py:32-94):

- the guard clauses, in the program's order;
- normalisation of each criterion column by its Euclidean norm, then
  weighting;
- the loop that builds the ideal best and ideal worst points;
- the Euclidean distances to both points;
- the closeness score, with its guard against division by zero;
- pandas' `rank(ascending=False)` followed by `astype(int)`;
- the two column assignments on the table.

Modules:

- `Wrappers`: `Option` and `Result`.
- `Tokens`: `str.split(',')` on the weights and impacts arguments.
- `Vectors`: columns, element-wise quotient and difference, squares, sums of
  squares, maximum and minimum, and the law a square root must obey
  (`IsSqrt`).
- `Frame`: the pandas table as column names plus rows of cells (text,
  float or integer). `Assign` is `df[name] = values`: it overwrites an
  existing column or appends a new one.
- `Validation`: the checks and the error each one reports.
- `Normalization`: `data / rss` and `normalized_data * weights`.
- `Ideal`: the ideal points, as specification functions and as the
  imperative loop of the source.
- `Scoring`: distances and closeness.
- `Ranking`: average rank of tied scores, then truncation.
- `Topsis`: the whole pipeline as one function, `Run`. `Execute` is the
  same pipeline as a method in the program's step order, proved equal to
  `Run`. The remaining lemmas state end-to-end properties.

Arithmetic on floats is modelled on exact reals. The square root and the
conversion of a string to a float are parameters: `sqrt` and `parse`.
Wherever a property depends on the square root, the lemma requires
`IsSqrt(sqrt)`: `sqrt` maps every non-negative real to a non-negative real
whose square is that real.

### Where the code and the project's own documentation differ

The model follows the code in both cases.

- **Ranks of tied scores.** The documentation describes competition ranking
  ("ties share the minimum rank"). It also says that when all rows are
  identical, every row gets rank 1. The code calls `rank(ascending=False)`,
  whose default method in pandas is `average`, and then truncates with
  `astype(int)`. A score with `g` strictly greater scores and `k` equal
  scores (itself included) therefore gets rank `g + (k + 1) / 2`, rounded
  down (`Ranking.Rank`). Consequences:
  - when all `n` rows are tied, every row gets `(n + 1) / 2`
    (`Ranking.RankAllTied`, `Topsis.RunIdenticalRows`);
  - ranks need not cover `1 .. K`, where `K` is the number of distinct
    scores: the scores 2, 2, 1 get ranks 1, 1, 3
    (`Ranking.RanksSkipPositions`).

  What does hold, and is proved:
  - every rank lies in `1 .. n`;
  - equal scores share a rank;
  - a strictly higher score gets a strictly smaller rank;
  - a unique maximum gets rank 1.
- **Order of the weight checks.** `float(w)` runs on every weight token
  (topsis.py:44) before either count is compared. A weight that does not
  parse is therefore reported first (by the catch-all handler,
  topsis.py:102-104), even when the counts are also wrong.

## Model

| member | source | states |
|---|---|---|
| Tokens.Split | topsis.py:44-45 | the tokens number one more than the commas and none contains a comma, as with `str.split(',')` |
| Tokens.JoinSplit | topsis.py:44-45 | joining the tokens with commas gives back the argument, so splitting loses nothing |
| Tokens.SplitJoin | topsis.py:44-45 | splitting a comma-join of comma-free tokens gives back exactly those tokens |
| Vectors.Quotient | topsis.py:67 | each entry of the quotient times the divisor gives back the original entry |
| Vectors.Diff | topsis.py:85-86 | each entry of the difference plus the subtrahend gives back the minuend |
| Vectors.Sq | topsis.py:61 | a square is non-negative and is zero exactly when its base is zero |
| Vectors.SqrtZeroIff | topsis.py:61-63 | a square root is non-negative and is zero exactly at zero |
| Vectors.SumSq | topsis.py:61 | `np.sum(x**2)` is non-negative and is zero exactly when every entry is zero |
| Vectors.SumSqQuotient | topsis.py:67 | dividing a vector by `n` divides its sum of squares by `n*n` |
| Vectors.UnitAfterDivision | topsis.py:61-67 | a vector divided by its own nonzero Euclidean norm has sum of squares 1 |
| Vectors.Max | topsis.py:76 | `np.max` is an entry of the column and bounds every entry from above |
| Vectors.Min | topsis.py:77 | `np.min` is an entry of the column and bounds every entry from below |
| Frame.Assign | topsis.py:92-94 | `df[name] = values` keeps every row and every other column, overwrites an existing column, or appends the name and one cell per row |
| Frame.GetAssign | topsis.py:92-94 | after `df[name] = values`, reading `df[name]` gives exactly `values` |
| Frame.GetAssignOther | topsis.py:92-94 | assigning one column leaves every other column's cells unchanged |
| Validation.AllSome | topsis.py:39 | the conversion succeeds exactly when every element converts, and yields the converted elements in order |
| Validation.CoerceRow | topsis.py:36-39 | the criterion cells of a row (all but the first) convert exactly when each one does |
| Validation.CoerceData | topsis.py:36-39 | `df.iloc[:, 1:].values.astype(float)` succeeds exactly when every criterion cell converts, keeping the row count and each converted value |
| Validation.ParseAll | topsis.py:44 | `[float(w) for w in ...]` succeeds exactly when every token parses, giving the parsed values in order |
| Validation.ImpactOf | topsis.py:57 | a token is accepted exactly when it is `+` (benefit) or `-` (cost) |
| Validation.ParseImpacts | topsis.py:57-59 | the impacts are accepted exactly when every token is `+` or `-`, and keep their order |
| Validation.Validate | topsis.py:32-65 | on success there are at least 3 columns, and one weight, one impact and one nonzero norm per criterion column |
| Validation.TooFewColumnsFirst | topsis.py:32-34 | fewer than 3 columns is reported exactly when it holds, whatever else is wrong |
| Validation.NonNumericIff | topsis.py:38-42 | the non-numeric error is reported exactly when the table is wide enough and some criterion cell does not convert |
| Validation.UnparsableWeightIff | topsis.py:44 | a weight that does not parse is reported exactly when the data converts, before any count is compared |
| Validation.WeightCountIff | topsis.py:49-51 | the weight-count error is reported exactly when the data and the weights are read and the counts differ, and it carries both counts |
| Validation.ImpactCountIff | topsis.py:53-55 | the impact-count error is reported exactly when the weight count matched and the impact count differs, and it carries both counts |
| Validation.InvalidImpactIff | topsis.py:57-59 | a bad impact token is reported exactly when both counts match and some token is neither `+` nor `-` |
| Validation.ZeroNormIff | topsis.py:61-63 | a criterion column's norm is zero exactly when the column converts to nothing but zeros |
| Validation.SomeNormZeroIff | topsis.py:61-63 | `(rss == 0).any()` holds exactly when some criterion column converts to nothing but zeros |
| Validation.ZeroColumnIff | topsis.py:61-65 | the all-zero error is reported exactly when every earlier check passes and some criterion column is all zeros; this includes a table with no rows |
| Validation.ValidateSuccess | topsis.py:36-65 | on success: every earlier check passed, there is a row, the data are the converted cells, the weights are the parsed tokens, the impacts follow the tokens, and each norm is the column's Euclidean norm |
| Normalization.NormalizedColumns | topsis.py:61-67 | after normalisation every criterion column has sum of squares 1 |
| Normalization.WeighingKeepsOrder | topsis.py:67-69 | within a column, normalising and weighting keep the order of raw values for a positive weight, reverse it for a negative one, and make them equal for a zero weight |
| Ideal.BestOf | topsis.py:75-79 | the best value of a column is one of its values, the maximum for `+` and the minimum for `-` |
| Ideal.WorstOf | topsis.py:75-80 | the worst value of a column is one of its values, the minimum for `+` and the maximum for `-` |
| Ideal.IdealBest | topsis.py:71-82 | the ideal best point has one coordinate per criterion |
| Ideal.IdealWorst | topsis.py:71-83 | the ideal worst point has one coordinate per criterion |
| Ideal.IdealBounds | topsis.py:71-83 | each ideal coordinate is attained by some alternative, and every alternative lies between the worst and the best on the side its impact prescribes |
| Ideal.IdealColumnBounds | topsis.py:74-80 | for one criterion: both ideal coordinates are attained by some alternative, and every alternative lies between them on the side the impact prescribes |
| Ideal.IdealPoints | topsis.py:71-83 | the loop over the criteria appends exactly the best and the worst value of each weighted column |
| Scoring.DistanceZeroIff | topsis.py:85-86 | a distance is non-negative and is zero exactly when the alternative is the ideal point |
| Scoring.Closeness | topsis.py:88-90 | the score times the total distance is the distance to the worst point, and the score is 0 when the total is 0 |
| Scoring.ClosenessRange | topsis.py:88-90 | the score lies in [0, 1]; it is 0 exactly when the distance to the worst point is 0, and 1 exactly when only the distance to the best point is 0 |
| Scoring.ScoresRange | topsis.py:85-90 | every score lies in [0, 1]; it is 0 exactly for an alternative at the ideal worst point, and 1 exactly for one at the ideal best point that is not also at the ideal worst point |
| Ranking.CountsBounded | topsis.py:94 | the greater scores and the equal scores together never outnumber the series, and a present score counts itself |
| Ranking.CountsOrdered | topsis.py:94 | every score at or above a higher value is strictly above a lower one |
| Ranking.SumRangeClosed | topsis.py:94 | the positions `lo .. lo+k-1` sum to `k(2lo+k-1)/2` |
| Ranking.AverageRank | topsis.py:94 | pandas' average rank in descending order is the mean of the tied positions `g+1 .. g+k`, that is `g + (k+1)/2` |
| Ranking.Truncate | topsis.py:94 | `astype(int)` truncates toward zero |
| Ranking.Rank | topsis.py:94 | the written rank is the count of greater scores plus half, rounded down, of one more than the count of equal scores |
| Ranking.RankBounds | topsis.py:94 | every rank lies in 1 .. n |
| Ranking.RankTies | topsis.py:94 | equal scores get equal ranks |
| Ranking.RankOrder | topsis.py:94 | a strictly higher score gets a strictly smaller rank |
| Ranking.RankTop | topsis.py:94 | a unique highest score gets rank 1 |
| Ranking.RanksSkipPositions | topsis.py:94 | the scores 2, 2, 1 are ranked 1, 1, 3: rank 2 is never written, so ranks need not cover 1 .. K for K distinct scores |
| Ranking.RankAllTied | topsis.py:94 | when all scores are equal, every rank is `(n+1)/2`, rounded down |
| Topsis.Weighted | topsis.py:67-69 | the weighted matrix keeps the data's shape |
| Topsis.ScoresOf | topsis.py:71-90 | one score per alternative |
| Topsis.OutputShape | topsis.py:92-94 | the output keeps every row and every other column's cells; when neither column exists yet, exactly "Topsis Score" and then "Rank" are appended; the two columns read back as the scores and their ranks |
| Topsis.Execute | topsis.py:32-94 | the program's steps in order, including the ideal-point loop, give exactly `Run`'s result |
| Topsis.RunFailure | topsis.py:32-65 | a run fails exactly when a check fails, and reports that check's error |
| Topsis.RunOutput | topsis.py:67-94 | a successful run writes the scores of the checked criteria into the input table |
| Topsis.OutputScoresAndRanks | topsis.py:92-94 | for scores in [0, 1], the written cells are floats in [0, 1] and integer ranks in 1 .. n; higher scores get smaller ranks, and equal scores share a rank |
| Topsis.ScoresOfRange | topsis.py:85-90 | every score of a checked input lies in [0, 1] |
| Topsis.RunScoresAndRanks | topsis.py:32-94 | end to end, every row gets a score in [0, 1] and a rank in 1 .. n, and a higher score gets a smaller rank |
| Topsis.ScoresOfIdentical | topsis.py:71-90 | when all alternatives are equal on every criterion, both distances of every row are 0, so the total is 0 and the guarded division writes 0 as every score |
| Topsis.OutputAllTied | topsis.py:92-94 | all-zero scores are written as 0 with rank `(n+1)/2` in every row |
| Topsis.IdenticalRowsParse | topsis.py:36-39 | rows whose criterion cells agree convert to equal criterion vectors |
| Topsis.RunIdenticalRows | topsis.py:32-94 | end to end, when all rows agree on every criterion, every row gets score 0 and rank `(n+1)/2`, rounded down |

## Left out

- Command-line handling is not modelled: the argument count check and the
  usage message (topsis.py:6-17).
- Reading and writing files is not modelled: the existence check, the
  CSV/Excel choice, `read_csv`, `read_excel` and `to_csv`
  (topsis.py:19-30, 96). The model starts from the table already in memory
  and ends with the augmented table.
- `print`, `sys.exit` and the two exception handlers are modelled only as
  an `Error` value. `FileNotFoundError` (topsis.py:99-101) cannot occur
  once the table is in memory. Of the failures that reach the catch-all
  handler, only a weight that does not parse is modelled
  (`UnparsableWeight`).
- Floating point: real arithmetic replaces IEEE doubles, so rounding,
  overflow, NaN and infinities are not modelled. A weight token such as
  `nan` or `inf` is whatever `parse` says it is.
- An empty criterion cell is not modelled. pandas reads it as NaN, which
  passes `astype(float)` (topsis.py:39). The NaN then spreads through the
  norms, the distances and the scores, `astype(int)` raises at
  topsis.py:94, and the catch-all handler (topsis.py:102-104) reports the
  error. In the model every criterion cell is text, a float or an
  integer, so this failure has no counterpart.
- `np.sqrt` and Python's `float(str)` are parameters. Their
  implementations are not part of this model. Properties that need the
  square root require `IsSqrt`.
- pandas' dtype inference is not modelled: which cells arrive as text,
  integers or floats is taken as given in the `Cell` values.
- Boolean cells are not modelled. `astype(float)` converts `True` and
  `False` to 1.0 and 0.0 (topsis.py:39), but `Cell` has no boolean
  constructor.
- `Frame.WellFormed` requires distinct column names. pandas allows
  duplicate names, and assigning to one then writes every column of that
  name.
- Normalization.NormalizedColumns: stated for the normalised matrix only.
  That the weighted column of weight `w` has sum of squares `w*w` is not
  stated.
- Ranking.Truncate: the negative branch is never used, since every average
  rank is at least 1.
- The documentation's claim that ranks cover `1 .. K` for `K` distinct
  scores, and that identical rows all get rank 1, is not true of the code
  (see above). The model proves what the code does.
- The worked example with four rows and three criteria is not checked
  numerically, because the square root is a parameter.
