/**
 * Tables as the matcher sees them: a pandas DataFrame with the default
 * positional row index, a list of column labels and one list of cells per
 * row. Cells are text, numbers or the missing value.
 */
module Frames {

  datatype Cell = Text(s: string) | Number(n: int) | Null

  datatype DataFrame = DataFrame(columns: seq<string>, rows: seq<seq<Cell>>) {

    /** Column labels are distinct and every row has one cell per column. */
    ghost predicate Valid() {
      && (forall i, j | 0 <= i < j < |columns| :: columns[i] != columns[j])
      && (forall i | 0 <= i < |rows| :: |rows[i]| == |columns|)
    }
  }

  /** The position of the column labelled `name`. */
  function IndexOf(columns: seq<string>, name: string): (k: nat)
    requires name in columns
    ensures k < |columns| && columns[k] == name
    ensures forall j | 0 <= j < k :: columns[j] != name
  {
    if columns[0] == name then 0 else 1 + IndexOf(columns[1..], name)
  }

  /** The cells of column `k`, in row order (`df[col]`). */
  function Column(df: DataFrame, k: nat): (cells: seq<Cell>)
    requires forall i | 0 <= i < |df.rows| :: k < |df.rows[i]|
    ensures |cells| == |df.rows|
    ensures forall i | 0 <= i < |df.rows| :: cells[i] == df.rows[i][k]
  {
    seq(|df.rows|, i requires 0 <= i < |df.rows| => df.rows[i][k])
  }

  /** The labels after assigning column `name`: unchanged if it exists, else appended. */
  function WithColumn(columns: seq<string>, name: string): seq<string>
  {
    if name in columns then columns else columns + [name]
  }

  /**
   * `df[name] = None`: every cell of column `name` becomes missing; the
   * column is overwritten where it exists and appended as the last column
   * otherwise. No other cell changes.
   */
  function AddNullColumn(df: DataFrame, name: string): (r: DataFrame)
    requires df.Valid()
    ensures r.Valid()
    ensures r.columns == WithColumn(df.columns, name)
    ensures forall k | 0 <= k < |df.columns| :: r.columns[k] == df.columns[k]
    ensures |r.rows| == |df.rows|
    ensures forall i, k | 0 <= i < |r.rows| && 0 <= k < |r.columns| ::
      r.rows[i][k] == if r.columns[k] == name then Null else df.rows[i][k]
  {
    if name in df.columns then
      var k := IndexOf(df.columns, name);
      var rows := seq(|df.rows|, i requires 0 <= i < |df.rows| => df.rows[i][k := Null]);
      DataFrame(df.columns, rows)
    else
      var rows := seq(|df.rows|, i requires 0 <= i < |df.rows| => df.rows[i] + [Null]);
      DataFrame(df.columns + [name], rows)
  }
}
