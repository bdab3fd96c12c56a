/**
 * `CSVMatcherApp.match_files`: check the four form entries, load the two
 * tables, check the two key columns, add the `Matched` and `Distance`
 * columns to the source table and fill them row by row with the nearest
 * target key value and its edit distance.
 *
 * `Run` is the whole step as a function of its inputs; `MatchFiles` does
 * it step by step on a `Frame` that it updates in place, and is proved to
 * agree with `Run`. What `Run` promises is stated in `MatchProperties`.
 */
module Matcher {
  import opened EditDistance
  import opened Selection
  import opened Frames

  const MatchedColumn: string := "Matched"
  const DistanceColumn: string := "Distance"

  /** The four entries of the form: the two file paths and the two key column labels. */
  datatype Fields = Fields(file1Path: string, file2Path: string, col1: string, col2: string)

  datatype Option<T> = None | Some(value: T)

  datatype Error =
    | MissingField   // a form entry is empty ("Please fill all fields")
    | ReadFailed     // a table could not be loaded ("Error reading files")
    | InvalidColumn  // a key column label is not a column ("Invalid column names")
    | EmptyTarget    // `idxmin` of an empty distance series raises
    | NotText        // the edit distance of a value that is not text raises

  datatype Result<T> = Success(value: T) | Failure(error: Error)

  datatype Outcome = Pass | Fail(error: Error)

  predicate Filled(f: Fields) {
    f.file1Path != "" && f.file2Path != "" && f.col1 != "" && f.col2 != ""
  }

  predicate AllText(cells: seq<Cell>) {
    forall c | c in cells :: c.Text?
  }

  /** The strings held by cells that are all text. */
  function Texts(cells: seq<Cell>): (ts: seq<string>)
    requires AllText(cells)
    ensures |ts| == |cells|
    ensures forall i | 0 <= i < |cells| :: cells[i] == Text(ts[i])
  {
    assert forall i | 0 <= i < |cells| :: cells[i] in cells;
    seq(|cells|, i requires 0 <= i < |cells| => cells[i].s)
  }

  /** The loop body can process this row: its key is text and the targets are non-empty text. */
  predicate Matchable(row: seq<Cell>, key: nat, targets: seq<Cell>) {
    key < |row| && row[key].Text? && |targets| > 0 && AllText(targets)
  }

  /** A source row after one round of the loop: its `Matched` and `Distance` cells are written. */
  function MatchRow(row: seq<Cell>, key: nat, mcol: nat, dcol: nat, targets: seq<Cell>): seq<Cell>
    requires Matchable(row, key, targets) && mcol < |row| && dcol < |row|
  {
    var m := BestMatch(row[key].s, Texts(targets));
    row[mcol := Text(m.matched)][dcol := Number(m.distance)]
  }

  /** Every cell position the loop uses exists in every row. */
  predicate Fits(rows: seq<seq<Cell>>, key: nat, mcol: nat, dcol: nat) {
    forall i | 0 <= i < |rows| :: key < |rows[i]| && mcol < |rows[i]| && dcol < |rows[i]|
  }

  /**
   * The whole loop: every row matched, or the error the first row that
   * cannot be processed raises. No target raises `EmptyTarget` before any
   * distance is computed; otherwise a non-text key or target raises
   * `NotText`.
   */
  function MatchAll(rows: seq<seq<Cell>>, key: nat, mcol: nat, dcol: nat, targets: seq<Cell>)
    : Result<seq<seq<Cell>>>
    requires Fits(rows, key, mcol, dcol)
  {
    if forall i | 0 <= i < |rows| :: Matchable(rows[i], key, targets) then
      Success(seq(|rows|, i requires 0 <= i < |rows| => MatchRow(rows[i], key, mcol, dcol, targets)))
    else if |targets| == 0 then Failure(EmptyTarget)
    else Failure(NotText)
  }

  /** The source table after the two result columns are added, all missing. */
  function Prepared(df1: DataFrame): (df: DataFrame)
    requires df1.Valid()
    ensures df.Valid()
    ensures MatchedColumn in df.columns && DistanceColumn in df.columns
    ensures |df.rows| == |df1.rows| && forall c | c in df1.columns :: c in df.columns
  {
    AddNullColumn(AddNullColumn(df1, MatchedColumn), DistanceColumn)
  }

  /** The key values of the target table. */
  function Targets(df2: DataFrame, col2: string): (targets: seq<Cell>)
    requires df2.Valid() && col2 in df2.columns
    ensures |targets| == |df2.rows|
  {
    var k := IndexOf(df2.columns, col2);
    Column(df2, k)
  }

  /**
   * Lines 67-76 on loaded tables whose key columns exist: the two result
   * columns are added to the source table and filled by the loop.
   */
  function MatchStep(df1: DataFrame, df2: DataFrame, col1: string, col2: string): Result<DataFrame>
    requires df1.Valid() && df2.Valid() && col1 in df1.columns && col2 in df2.columns
  {
    var df := Prepared(df1);
    assert col1 in df.columns;
    var key := IndexOf(df.columns, col1);
    var mcol := IndexOf(df.columns, MatchedColumn);
    var dcol := IndexOf(df.columns, DistanceColumn);
    assert Fits(df.rows, key, mcol, dcol);
    match MatchAll(df.rows, key, mcol, dcol, Targets(df2, col2))
    case Success(rows) => Success(DataFrame(df.columns, rows))
    case Failure(e) => Failure(e)
  }

  /**
   * The matching step: its result is the source table with the two result
   * columns filled, or the error that ends the run. `read1` and `read2`
   * are what loading the two files gives (`None` when loading fails).
   */
  function Run(f: Fields, read1: Option<DataFrame>, read2: Option<DataFrame>): Result<DataFrame>
    requires read1.Some? ==> read1.value.Valid()
    requires read2.Some? ==> read2.value.Valid()
  {
    if !Filled(f) then Failure(MissingField)
    else if read1.None? || read2.None? then Failure(ReadFailed)
    else if f.col1 !in read1.value.columns || f.col2 !in read2.value.columns then Failure(InvalidColumn)
    else MatchStep(read1.value, read2.value, f.col1, f.col2)
  }

  /** Rows before `f` are matched, rows from `f` on are as they were. */
  ghost predicate MatchedBefore(before: seq<seq<Cell>>, after: seq<seq<Cell>>, f: nat,
                                key: nat, mcol: nat, dcol: nat, targets: seq<Cell>)
  {
    && f <= |before| == |after|
    && (forall j | 0 <= j < f ::
          Matchable(before[j], key, targets) && mcol < |before[j]| && dcol < |before[j]| &&
          after[j] == MatchRow(before[j], key, mcol, dcol, targets))
    && (forall j | f <= j < |before| :: after[j] == before[j])
  }

  /** The loop stopped at row `f`, which it cannot process, after matching the rows before it. */
  ghost predicate StoppedAt(before: seq<seq<Cell>>, after: seq<seq<Cell>>, f: nat,
                            key: nat, mcol: nat, dcol: nat, targets: seq<Cell>)
  {
    f < |before| && !Matchable(before[f], key, targets) &&
    MatchedBefore(before, after, f, key, mcol, dcol, targets)
  }

  /** One more round of the loop keeps `MatchedBefore`. */
  lemma MatchedBeforeStep(before: seq<seq<Cell>>, after: seq<seq<Cell>>, i: nat,
                          key: nat, mcol: nat, dcol: nat, targets: seq<Cell>)
    requires MatchedBefore(before, after, i, key, mcol, dcol, targets) && i < |before|
    requires Matchable(before[i], key, targets) && mcol < |before[i]| && dcol < |before[i]|
    ensures MatchedBefore(before, after[i := MatchRow(before[i], key, mcol, dcol, targets)], i + 1,
                          key, mcol, dcol, targets)
  {
  }

  /** After the last round every row is matched, as `MatchAll` says. */
  lemma MatchedBeforeDone(before: seq<seq<Cell>>, after: seq<seq<Cell>>,
                          key: nat, mcol: nat, dcol: nat, targets: seq<Cell>)
    requires Fits(before, key, mcol, dcol)
    requires MatchedBefore(before, after, |before|, key, mcol, dcol, targets)
    ensures MatchAll(before, key, mcol, dcol, targets) == Success(after)
  {
    assert forall i | 0 <= i < |before| :: Matchable(before[i], key, targets);
    var matched := seq(|before|, i requires 0 <= i < |before| => MatchRow(before[i], key, mcol, dcol, targets));
    assert matched == after;
  }

  /** Rows that are matched or as they were keep their widths. */
  lemma MatchedBeforeWidths(before: seq<seq<Cell>>, after: seq<seq<Cell>>, f: nat,
                            key: nat, mcol: nat, dcol: nat, targets: seq<Cell>)
    requires MatchedBefore(before, after, f, key, mcol, dcol, targets)
    ensures |after| == |before|
    ensures forall j | 0 <= j < |after| :: |after[j]| == |before[j]|
  {
    forall j | 0 <= j < f
      ensures |after[j]| == |before[j]|
    {
      assert after[j] == MatchRow(before[j], key, mcol, dcol, targets);
    }
  }

  /** A row the loop cannot process makes the whole loop fail with the error of that row. */
  lemma UnmatchableFails(before: seq<seq<Cell>>, i: nat, key: nat, mcol: nat, dcol: nat, targets: seq<Cell>)
    requires Fits(before, key, mcol, dcol) && i < |before| && !Matchable(before[i], key, targets)
    ensures MatchAll(before, key, mcol, dcol, targets) ==
      Failure(if |targets| == 0 then EmptyTarget else NotText)
  {
  }

  /** The source table, which the loop updates in place. */
  class Frame {
    var columns: seq<string>
    const rows: array<seq<Cell>>

    function Value(): DataFrame
      reads this, rows
    {
      DataFrame(columns, rows[..])
    }

    ghost predicate Valid()
      reads this, rows
    {
      Value().Valid()
    }

    /** The table `pd.read_csv` gives. */
    constructor (df: DataFrame)
      requires df.Valid()
      ensures Valid() && Value() == df && fresh(rows)
    {
      columns := df.columns;
      rows := new seq<Cell>[|df.rows|](i requires 0 <= i < |df.rows| => df.rows[i]);
      new;
      assert rows[..] == df.rows;
    }

    /** `df1[name] = None`. */
    method SetNullColumn(name: string)
      requires Valid()
      modifies this, rows
      ensures Valid()
      ensures Value() == AddNullColumn(old(Value()), name)
    {
      if name in columns {
        var k := IndexOf(columns, name);
        forall i | 0 <= i < rows.Length {
          rows[i] := rows[i][k := Null];
        }
      } else {
        forall i | 0 <= i < rows.Length {
          rows[i] := rows[i] + [Null];
        }
        columns := columns + [name];
      }
      assert Value() == AddNullColumn(old(Value()), name);
    }

    /**
     * One round of the loop: the distances from the key of row `i` to
     * every target, their minimum and the first target attaining it; the
     * target is written to column `mcol` and the minimum to column `dcol`
     * of row `i`, and no other row changes.
     */
    method MatchOne(i: nat, key: nat, mcol: nat, dcol: nat, targets: seq<Cell>)
      requires i < rows.Length && Matchable(rows[i], key, targets)
      requires mcol < |rows[i]| && dcol < |rows[i]|
      modifies rows
      ensures rows[..] == old(rows[..])[i := MatchRow(old(rows[i]), key, mcol, dcol, targets)]
    {
      var value1 := rows[i][key].s;
      var candidates := Texts(targets);
      var distances := Distances(value1, candidates);
      var minDistance := Min(distances);
      var bestMatch := candidates[IdxMin(distances)];
      rows[i] := rows[i][mcol := Text(bestMatch)];
      rows[i] := rows[i][dcol := Number(minDistance)];
    }

    /**
     * The loop over the source rows: row `i` gets the nearest target key
     * value in column `mcol` and its distance in column `dcol`, in round
     * `i` and in no other. On an error the rows before the failing one
     * are already written and the rest are untouched.
     */
    method MatchRows(key: nat, mcol: nat, dcol: nat, targets: seq<Cell>) returns (outcome: Outcome)
      requires Valid() && key < |columns| && mcol < |columns| && dcol < |columns|
      modifies rows
      ensures Valid() && Fits(old(rows[..]), key, mcol, dcol)
      ensures outcome.Pass? ==> MatchAll(old(rows[..]), key, mcol, dcol, targets) == Success(rows[..])
      ensures outcome.Fail? ==> MatchAll(old(rows[..]), key, mcol, dcol, targets) == Failure(outcome.error)
      ensures outcome.Fail? ==> exists f: nat :: StoppedAt(old(rows[..]), rows[..], f, key, mcol, dcol, targets)
    {
      ghost var before := rows[..];
      assert Fits(before, key, mcol, dcol);
      var i := 0;
      while i < rows.Length
        invariant 0 <= i <= rows.Length
        invariant MatchedBefore(before, rows[..], i, key, mcol, dcol, targets)
      {
        if |targets| == 0 {
          UnmatchableFails(before, i, key, mcol, dcol, targets);
          assert StoppedAt(before, rows[..], i, key, mcol, dcol, targets);
          MatchedBeforeWidths(before, rows[..], i, key, mcol, dcol, targets);
          return Fail(EmptyTarget);
        }
        var value1 := rows[i][key];
        if !value1.Text? || !AllText(targets) {
          UnmatchableFails(before, i, key, mcol, dcol, targets);
          assert StoppedAt(before, rows[..], i, key, mcol, dcol, targets);
          MatchedBeforeWidths(before, rows[..], i, key, mcol, dcol, targets);
          return Fail(NotText);
        }
        ghost var done := rows[..];
        MatchOne(i, key, mcol, dcol, targets);
        MatchedBeforeStep(before, done, i, key, mcol, dcol, targets);
        i := i + 1;
      }
      MatchedBeforeDone(before, rows[..], key, mcol, dcol, targets);
      MatchedBeforeWidths(before, rows[..], i, key, mcol, dcol, targets);
      return Pass;
    }
  }

  /**
   * `match_files` up to the save dialog: the same checks in the same order,
   * then the two new columns and the loop, on a table updated in place.
   */
  method MatchFiles(f: Fields, read1: Option<DataFrame>, read2: Option<DataFrame>) returns (r: Result<DataFrame>)
    requires read1.Some? ==> read1.value.Valid()
    requires read2.Some? ==> read2.value.Valid()
    ensures r == Run(f, read1, read2)
  {
    if f.file1Path == "" || f.file2Path == "" || f.col1 == "" || f.col2 == "" {
      return Failure(MissingField);
    }
    if read1.None? || read2.None? {
      return Failure(ReadFailed);
    }
    var df1 := new Frame(read1.value);
    var df2 := read2.value;
    if f.col1 !in df1.columns || f.col2 !in df2.columns {
      return Failure(InvalidColumn);
    }
    df1.SetNullColumn(MatchedColumn);
    df1.SetNullColumn(DistanceColumn);
    assert df1.Value() == Prepared(read1.value);
    var outcome := df1.MatchRows(IndexOf(df1.columns, f.col1), IndexOf(df1.columns, MatchedColumn),
                                 IndexOf(df1.columns, DistanceColumn), Targets(df2, f.col2));
    if outcome.Fail? {
      return Failure(outcome.error);
    }
    return Success(df1.Value());
  }
}
