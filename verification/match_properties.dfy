/**
 * What the matching step promises, stated about `Matcher.Run`: which
 * inputs stop it and with which error, that the source table keeps its
 * rows and cells, and that every row's `Distance` is the least edit
 * distance from its key to the target keys and its `Matched` the first
 * target key at that distance.
 */
module MatchProperties {
  import opened EditDistance
  import opened Selection
  import opened Frames
  import opened Matcher

  /** The inputs get past the three checks that precede the loop. */
  predicate Accepted(f: Fields, read1: Option<DataFrame>, read2: Option<DataFrame>) {
    Filled(f) && read1.Some? && read2.Some? &&
    f.col1 in read1.value.columns && f.col2 in read2.value.columns
  }

  /** The key cell of source row `i`. */
  function SourceKey(df1: DataFrame, col1: string, i: nat): Cell
    requires df1.Valid() && col1 in df1.columns && i < |df1.rows|
  {
    df1.rows[i][IndexOf(df1.columns, col1)]
  }

  /** Adding a column keeps the position of every existing column. */
  lemma IndexOfWithColumn(columns: seq<string>, name: string, c: string)
    requires c in columns
    ensures c in WithColumn(columns, name)
    ensures IndexOf(WithColumn(columns, name), c) == IndexOf(columns, c)
  {
    var k := IndexOf(columns, c);
    var cols := WithColumn(columns, name);
    assert cols[..|columns|] == columns;
    var k' := IndexOf(cols, c);
    assert k' <= k;
  }

  /**
   * The prepared source table keeps the source columns at their places,
   * with every source cell as loaded except in a column named like a
   * result column, which is now missing.
   */
  lemma PreparedCells(df1: DataFrame)
    requires df1.Valid()
    ensures var df := Prepared(df1);
      && |df.rows| == |df1.rows| && |df1.columns| <= |df.columns|
      && (forall k | 0 <= k < |df1.columns| :: df.columns[k] == df1.columns[k])
      && (forall i, k | 0 <= i < |df1.rows| && 0 <= k < |df1.columns| ::
            df.rows[i][k] == if df1.columns[k] == MatchedColumn || df1.columns[k] == DistanceColumn
                             then Null else df1.rows[i][k])
  {
    var df0 := AddNullColumn(df1, MatchedColumn);
    var df := AddNullColumn(df0, DistanceColumn);
    forall i, k | 0 <= i < |df1.rows| && 0 <= k < |df1.columns|
      ensures df.rows[i][k] == if df1.columns[k] == MatchedColumn || df1.columns[k] == DistanceColumn
                               then Null else df1.rows[i][k]
    {
      assert df0.columns[k] == df1.columns[k];
      assert df.rows[i][k] == if df0.columns[k] == DistanceColumn then Null else df0.rows[i][k];
    }
  }

  /** Every source column keeps its position in the prepared table. */
  lemma PreparedIndex(df1: DataFrame, c: string)
    requires df1.Valid() && c in df1.columns
    ensures c in Prepared(df1).columns && IndexOf(Prepared(df1).columns, c) == IndexOf(df1.columns, c)
  {
    IndexOfWithColumn(df1.columns, MatchedColumn, c);
    IndexOfWithColumn(WithColumn(df1.columns, MatchedColumn), DistanceColumn, c);
  }

  /** The key cell the loop reads for row `i`: missing when the key column is a result column. */
  lemma PreparedKey(df1: DataFrame, col1: string, i: nat)
    requires df1.Valid() && col1 in df1.columns && i < |df1.rows|
    ensures var df := Prepared(df1);
      col1 in df.columns && i < |df.rows| &&
      df.rows[i][IndexOf(df.columns, col1)] ==
        if col1 == MatchedColumn || col1 == DistanceColumn then Null else SourceKey(df1, col1, i)
  {
    PreparedCells(df1);
    PreparedIndex(df1, col1);
  }

  /** The key cells the loop reads, row by row. */
  lemma PreparedKeys(df1: DataFrame, col1: string)
    requires df1.Valid() && col1 in df1.columns
    ensures var df := Prepared(df1);
      && col1 in df.columns && |df.rows| == |df1.rows|
      && forall i | 0 <= i < |df1.rows| ::
           df.rows[i][IndexOf(df.columns, col1)] ==
             if col1 == MatchedColumn || col1 == DistanceColumn then Null else SourceKey(df1, col1, i)
  {
    var df := Prepared(df1);
    forall i | 0 <= i < |df1.rows|
      ensures df.rows[i][IndexOf(df.columns, col1)] ==
        if col1 == MatchedColumn || col1 == DistanceColumn then Null else SourceKey(df1, col1, i)
    {
      PreparedKey(df1, col1, i);
    }
  }

  /** The loop succeeds exactly when every key and every target is text and, unless there is no row, a target exists. */
  lemma MatchAllOutcome(rows: seq<seq<Cell>>, key: nat, mcol: nat, dcol: nat, targets: seq<Cell>)
    requires Fits(rows, key, mcol, dcol)
    ensures MatchAll(rows, key, mcol, dcol, targets) == Failure(EmptyTarget) <==>
      |rows| > 0 && |targets| == 0
    ensures MatchAll(rows, key, mcol, dcol, targets).Success? <==>
      (|rows| == 0 ||
       (|targets| > 0 && AllText(targets) && forall i | 0 <= i < |rows| :: rows[i][key].Text?))
    ensures MatchAll(rows, key, mcol, dcol, targets).Success? ||
      MatchAll(rows, key, mcol, dcol, targets).error in {EmptyTarget, NotText}
  {
    if |rows| > 0 && !(|targets| > 0 && AllText(targets)) {
      assert !Matchable(rows[0], key, targets);
    }
  }

  /** A text cell among cells that are all text gives its string among their strings. */
  lemma TextIn(cells: seq<Cell>, v: string)
    requires AllText(cells) && Text(v) in cells
    ensures v in Texts(cells)
  {
    var j :| 0 <= j < |cells| && cells[j] == Text(v);
    assert Texts(cells)[j] == v;
  }

  /** A successful loop gives every row matched, in order. */
  lemma MatchAllRows(rows: seq<seq<Cell>>, key: nat, mcol: nat, dcol: nat, targets: seq<Cell>)
    requires Fits(rows, key, mcol, dcol) && MatchAll(rows, key, mcol, dcol, targets).Success?
    ensures var out := MatchAll(rows, key, mcol, dcol, targets).value;
      && |out| == |rows|
      && forall i | 0 <= i < |rows| ::
           Matchable(rows[i], key, targets) && out[i] == MatchRow(rows[i], key, mcol, dcol, targets)
  {
  }

  /** A matched row: the two result cells written, every other cell as it was. */
  lemma MatchRowCells(row: seq<Cell>, key: nat, mcol: nat, dcol: nat, targets: seq<Cell>)
    requires Matchable(row, key, targets) && mcol < |row| && dcol < |row| && mcol != dcol
    ensures var r, m := MatchRow(row, key, mcol, dcol, targets), BestMatch(row[key].s, Texts(targets));
      && |r| == |row|
      && r[mcol] == Text(m.matched) && r[dcol] == Number(m.distance)
      && forall k | 0 <= k < |row| && k != mcol && k != dcol :: r[k] == row[k]
  {
  }

  /** A successful loop changes no cell outside the two result columns. */
  lemma MatchAllKeepsCells(rows: seq<seq<Cell>>, key: nat, mcol: nat, dcol: nat, targets: seq<Cell>)
    requires Fits(rows, key, mcol, dcol) && mcol != dcol
    requires MatchAll(rows, key, mcol, dcol, targets).Success?
    ensures var out := MatchAll(rows, key, mcol, dcol, targets).value;
      && |out| == |rows|
      && (forall i | 0 <= i < |rows| :: |out[i]| == |rows[i]|)
      && (forall i, k | 0 <= i < |rows| && 0 <= k < |rows[i]| && k != mcol && k != dcol ::
            out[i][k] == rows[i][k])
  {
    MatchAllRows(rows, key, mcol, dcol, targets);
    forall i | 0 <= i < |rows| {
      MatchRowCells(rows[i], key, mcol, dcol, targets);
    }
  }

  /**
   * The checks in order: an empty form entry stops the run whatever the
   * files hold, then a failed read, then a missing key column; past them
   * the run is the matching step.
   */
  lemma RunChecks(f: Fields, read1: Option<DataFrame>, read2: Option<DataFrame>)
    requires read1.Some? ==> read1.value.Valid()
    requires read2.Some? ==> read2.value.Valid()
    ensures Run(f, read1, read2) == Failure(MissingField) <==>
      f.file1Path == "" || f.file2Path == "" || f.col1 == "" || f.col2 == ""
    ensures Run(f, read1, read2) == Failure(ReadFailed) <==>
      Filled(f) && (read1.None? || read2.None?)
    ensures Run(f, read1, read2) == Failure(InvalidColumn) <==>
      Filled(f) && read1.Some? && read2.Some? &&
      (f.col1 !in read1.value.columns || f.col2 !in read2.value.columns)
    ensures Accepted(f, read1, read2) ==>
      Run(f, read1, read2) == MatchStep(read1.value, read2.value, f.col1, f.col2)
  {
    if Accepted(f, read1, read2) {
      StepErrors(read1.value, read2.value, f.col1, f.col2);
    }
  }

  /**
   * Past the checks, the run fails only in the loop: with no target rows
   * when there is a source row (`idxmin` of nothing), or on a key or
   * target value that is not text, which includes a key column that
   * `Matched` or `Distance` has just overwritten with missing values.
   */
  lemma StepErrors(df1: DataFrame, df2: DataFrame, col1: string, col2: string)
    requires df1.Valid() && df2.Valid() && col1 in df1.columns && col2 in df2.columns
    ensures MatchStep(df1, df2, col1, col2) == Failure(EmptyTarget) <==>
      |df1.rows| > 0 && |df2.rows| == 0
    ensures MatchStep(df1, df2, col1, col2).Success? <==>
      (|df1.rows| == 0 ||
       (|df2.rows| > 0 && AllText(Targets(df2, col2)) &&
        col1 != MatchedColumn && col1 != DistanceColumn &&
        forall i | 0 <= i < |df1.rows| :: SourceKey(df1, col1, i).Text?))
    ensures MatchStep(df1, df2, col1, col2).Success? ||
      MatchStep(df1, df2, col1, col2).error in {EmptyTarget, NotText}
  {
    var df := Prepared(df1);
    PreparedKeys(df1, col1);
    var key := IndexOf(df.columns, col1);
    var mcol := IndexOf(df.columns, MatchedColumn);
    var dcol := IndexOf(df.columns, DistanceColumn);
    MatchAllOutcome(df.rows, key, mcol, dcol, Targets(df2, col2));
    if |df1.rows| > 0 && col1 in {MatchedColumn, DistanceColumn} {
      assert !df.rows[0][key].Text?;
    }
  }

  /** A successful step is the prepared table with the rows the loop produced. */
  lemma StepValue(df1: DataFrame, df2: DataFrame, col1: string, col2: string)
    requires df1.Valid() && df2.Valid() && col1 in df1.columns && col2 in df2.columns
    requires MatchStep(df1, df2, col1, col2).Success?
    ensures var df := Prepared(df1);
      var key, mcol, dcol :=
        IndexOf(df.columns, col1), IndexOf(df.columns, MatchedColumn), IndexOf(df.columns, DistanceColumn);
      && col1 in df.columns && mcol != dcol && Fits(df.rows, key, mcol, dcol)
      && MatchAll(df.rows, key, mcol, dcol, Targets(df2, col2)).Success?
      && MatchStep(df1, df2, col1, col2).value ==
           DataFrame(df.columns, MatchAll(df.rows, key, mcol, dcol, Targets(df2, col2)).value)
  {
  }

  /**
   * The source table keeps its rows, in order; the result columns are
   * appended when the source has no column of that name and overwritten
   * in place when it has.
   */
  lemma StepColumns(df1: DataFrame, df2: DataFrame, col1: string, col2: string)
    requires df1.Valid() && df2.Valid() && col1 in df1.columns && col2 in df2.columns
    requires MatchStep(df1, df2, col1, col2).Success?
    ensures var out := MatchStep(df1, df2, col1, col2).value;
      && out.Valid()
      && |out.rows| == |df1.rows|
      && out.columns == WithColumn(WithColumn(df1.columns, MatchedColumn), DistanceColumn)
    ensures var out := MatchStep(df1, df2, col1, col2).value;
      MatchedColumn !in df1.columns && DistanceColumn !in df1.columns ==>
        out.columns == df1.columns + [MatchedColumn, DistanceColumn]
  {
    var df := Prepared(df1);
    StepValue(df1, df2, col1, col2);
    var key := IndexOf(df.columns, col1);
    var mcol := IndexOf(df.columns, MatchedColumn);
    var dcol := IndexOf(df.columns, DistanceColumn);
    MatchAllKeepsCells(df.rows, key, mcol, dcol, Targets(df2, col2));
  }

  /** Every cell of the source table outside the two result columns keeps its value. */
  lemma StepKeepsSourceCells(df1: DataFrame, df2: DataFrame, col1: string, col2: string)
    requires df1.Valid() && df2.Valid() && col1 in df1.columns && col2 in df2.columns
    requires MatchStep(df1, df2, col1, col2).Success?
    ensures var out := MatchStep(df1, df2, col1, col2).value;
      forall i, k | 0 <= i < |df1.rows| && 0 <= k < |df1.columns| &&
        df1.columns[k] != MatchedColumn && df1.columns[k] != DistanceColumn ::
        i < |out.rows| && k < |out.rows[i]| && out.rows[i][k] == df1.rows[i][k]
  {
    var df := Prepared(df1);
    PreparedCells(df1);
    StepValue(df1, df2, col1, col2);
    var key := IndexOf(df.columns, col1);
    var mcol := IndexOf(df.columns, MatchedColumn);
    var dcol := IndexOf(df.columns, DistanceColumn);
    var rows := MatchAll(df.rows, key, mcol, dcol, Targets(df2, col2)).value;
    MatchAllKeepsCells(df.rows, key, mcol, dcol, Targets(df2, col2));
    forall i, k | 0 <= i < |df1.rows| && 0 <= k < |df1.columns| &&
      df1.columns[k] != MatchedColumn && df1.columns[k] != DistanceColumn
      ensures rows[i][k] == df1.rows[i][k]
    {
      assert df.columns[k] == df1.columns[k];
    }
  }

  /**
   * Row `i` of the result: its key is text, the targets are non-empty
   * text, and `Matched` holds the target key at the first position whose
   * distance from the key is the least, `Distance` that least distance.
   */
  lemma StepRowIsNearest(df1: DataFrame, df2: DataFrame, col1: string, col2: string, i: nat)
    requires df1.Valid() && df2.Valid() && col1 in df1.columns && col2 in df2.columns
    requires MatchStep(df1, df2, col1, col2).Success? && i < |df1.rows|
    ensures var out, targets := MatchStep(df1, df2, col1, col2).value, Targets(df2, col2);
      && SourceKey(df1, col1, i).Text? && |targets| > 0 && AllText(targets)
      && out.Valid() && MatchedColumn in out.columns && DistanceColumn in out.columns
      && i < |out.rows|
      && exists k: nat ::
           && IsFirstNearest(SourceKey(df1, col1, i).s, Texts(targets), k)
           && out.rows[i][IndexOf(out.columns, MatchedColumn)] == Text(Texts(targets)[k])
           && out.rows[i][IndexOf(out.columns, DistanceColumn)] ==
                Number(Lev(SourceKey(df1, col1, i).s, Texts(targets)[k]))
  {
    StepErrors(df1, df2, col1, col2);
    StepColumns(df1, df2, col1, col2);
    StepValue(df1, df2, col1, col2);
    var df := Prepared(df1);
    var targets := Targets(df2, col2);
    PreparedKey(df1, col1, i);
    var key := IndexOf(df.columns, col1);
    var mcol := IndexOf(df.columns, MatchedColumn);
    var dcol := IndexOf(df.columns, DistanceColumn);
    MatchAllRows(df.rows, key, mcol, dcol, targets);
    var out := MatchStep(df1, df2, col1, col2).value;
    assert out.rows[i] == MatchRow(df.rows[i], key, mcol, dcol, targets);
    MatchRowCells(df.rows[i], key, mcol, dcol, targets);
    var value := SourceKey(df1, col1, i).s;
    var m := BestMatch(value, Texts(targets));
    var k: nat :| IsFirstNearest(value, Texts(targets), k) && Texts(targets)[k] == m.matched;
    assert out.rows[i][mcol] == Text(Texts(targets)[k]);
  }

  /**
   * A source key that occurs verbatim in the target column is matched to
   * itself at distance 0.
   */
  lemma StepExactMatch(df1: DataFrame, df2: DataFrame, col1: string, col2: string, i: nat)
    requires df1.Valid() && df2.Valid() && col1 in df1.columns && col2 in df2.columns
    requires MatchStep(df1, df2, col1, col2).Success? && i < |df1.rows|
    requires SourceKey(df1, col1, i) in Targets(df2, col2)
    ensures var out := MatchStep(df1, df2, col1, col2).value;
      && out.Valid() && MatchedColumn in out.columns && DistanceColumn in out.columns
      && i < |out.rows|
      && out.rows[i][IndexOf(out.columns, MatchedColumn)] == SourceKey(df1, col1, i)
      && out.rows[i][IndexOf(out.columns, DistanceColumn)] == Number(0)
  {
    StepRowIsNearest(df1, df2, col1, col2, i);
    var out := MatchStep(df1, df2, col1, col2).value;
    var value := SourceKey(df1, col1, i).s;
    var ts := Texts(Targets(df2, col2));
    var mcell := out.rows[i][IndexOf(out.columns, MatchedColumn)];
    var dcell := out.rows[i][IndexOf(out.columns, DistanceColumn)];
    var k: nat :| IsFirstNearest(value, ts, k) && mcell == Text(ts[k]) && dcell == Number(Lev(value, ts[k]));
    TextIn(Targets(df2, col2), value);
    NearestOfMember(value, ts, k);
  }
}
