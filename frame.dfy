/** The pandas DataFrame the program reads its alternatives from and writes
    its result into: named columns over rows of cells. */
module Frame {

  /** A cell as pandas holds it after reading the file: text, a float or an
      integer. */
  datatype Cell = Text(text: string) | Float(x: real) | Int(n: int)

  /** A DataFrame: column names (the header) and rows of cells. */
  datatype Table = Table(columns: seq<string>, rows: seq<seq<Cell>>)

  /** Every row has one cell per column, and no column name repeats. */
  predicate WellFormed(t: Table)
  {
    && (forall r :: 0 <= r < |t.rows| ==> |t.rows[r]| == |t.columns|)
    && (forall i, j :: 0 <= i < j < |t.columns| ==> t.columns[i] != t.columns[j])
  }

  /** Position of a column name in the header. */
  function IndexOf(names: seq<string>, name: string): (i: nat)
    requires name in names
    ensures i < |names| && names[i] == name
    ensures forall j :: 0 <= j < i ==> names[j] != name
  {
    if names[0] == name then 0 else 1 + IndexOf(names[1..], name)
  }

  /** `df[name]`: the cells of the named column, one per row. */
  function Get(t: Table, name: string): (cells: seq<Cell>)
    requires WellFormed(t) && name in t.columns
    ensures |cells| == |t.rows|
    ensures forall r :: 0 <= r < |t.rows| ==> cells[r] == t.rows[r][IndexOf(t.columns, name)]
  {
    var c := IndexOf(t.columns, name);
    seq(|t.rows|, r requires 0 <= r < |t.rows| => t.rows[r][c])
  }

  /** `df[name] = cells`: an existing column of that name is overwritten
      in place, otherwise a new column is appended on the right. The rows
      stay the same rows, in the same order. */
  function Assign(t: Table, name: string, cells: seq<Cell>): (u: Table)
    requires WellFormed(t) && |cells| == |t.rows|
    ensures WellFormed(u)
    ensures |u.rows| == |t.rows|
    ensures name in t.columns ==> u.columns == t.columns
    ensures name !in t.columns ==> u.columns == t.columns + [name]
    ensures forall r, c :: 0 <= r < |t.rows| && 0 <= c < |t.columns| ==>
              u.rows[r][c] == if t.columns[c] == name then cells[r] else t.rows[r][c]
    ensures name !in t.columns ==>
              forall r :: 0 <= r < |t.rows| ==> u.rows[r][|t.columns|] == cells[r]
  {
    if name in t.columns then
      var c := IndexOf(t.columns, name);
      Table(t.columns, seq(|t.rows|, r requires 0 <= r < |t.rows| => t.rows[r][c := cells[r]]))
    else
      Table(t.columns + [name], seq(|t.rows|, r requires 0 <= r < |t.rows| => t.rows[r] + [cells[r]]))
  }

  /** Reading back an assigned column gives exactly the assigned cells. */
  lemma GetAssign(t: Table, name: string, cells: seq<Cell>)
    requires WellFormed(t) && |cells| == |t.rows|
    ensures name in Assign(t, name, cells).columns
    ensures Get(Assign(t, name, cells), name) == cells
  {
    var u := Assign(t, name, cells);
    if name !in t.columns {
      assert u.columns[|t.columns|] == name;
      assert IndexOf(u.columns, name) == |t.columns|;
    }
  }

  /** Assigning one column leaves every other column as it was. */
  lemma GetAssignOther(t: Table, name: string, cells: seq<Cell>, other: string)
    requires WellFormed(t) && |cells| == |t.rows|
    requires other in t.columns && other != name
    ensures other in Assign(t, name, cells).columns
    ensures Get(Assign(t, name, cells), other) == Get(t, other)
  {
    var u := Assign(t, name, cells);
    var c := IndexOf(t.columns, other);
    assert u.columns[c] == other;
    assert IndexOf(u.columns, other) == c;
  }
}
