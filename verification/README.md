# Title matcher: the matching step

`title-match.py` is a small Tk desktop tool. The user picks two CSV files
and names a key column in each. The tool loads both tables and gives every
row of the first (source) table two new columns: `Matched` and `Distance`.
`Matched` holds the key value of the nearest row of the second (target)
table. `Distance` holds the Levenshtein edit distance to that value. Then
it offers to save the result.

This project models `CSVMatcherApp.match_files` from the end of form input
up to the save dialog, and proves what it does:

- the three checks that stop a run, in their order: an empty form entry,
  a table that cannot be loaded, a key column that does not exist;
- the preparation of the source table. `df1['Matched'] = None` and
  `df1['Distance'] = None` append a column, or overwrite the column of that
  name if the table already has one;
- the loop over the source rows. It computes the distance from the row's
  key to every target key, takes their minimum (`Series.min`) and the
  first position attaining it (`Series.idxmin`). It then writes the target
  key at that position and the minimum into the row;
- the two errors the loop can raise. `idxmin` of an empty series raises
  when the target table has no rows. `Levenshtein.distance` raises on a
  value that is not text. That includes a key column which the two
  assignments above have just overwritten with missing values.
- `Levenshtein.distance` itself, as the standard edit distance. It is
  defined by recursion (`EditDistance.Lev`) and also computed by the usual
  row-by-row dynamic programme (`EditDistance.Distance`), which is proved
  equal to it.

Modules:

- `EditDistance` (edit_distance.dfy): the distance and its properties.
- `Selection` (selection.dfy): the per-row minimum and first-minimum
  position, and the nearest-target property.
- `Frames` (frames.dfy): the table as a value: column labels, rows of
  cells, column assignment.
- `Matcher` (matcher.dfy): `Run` (the whole step as a function) and
  `MatchFiles`. `MatchFiles` performs the step on a `Frame` object whose
  rows are updated in place and is proved equal to `Run`.
- `MatchProperties` (match_properties.dfy): what `Run` promises.

Cells are `Text`, `Number` or `Null`. A loaded table has distinct column
labels and a positional row index, so a row's label is its position; this
is how `pd.read_csv` builds it. An uncaught exception inside the loop ends
`match_files` without the save dialog; it is modelled as a `Failure`
result.

`match_files` has no text normalisation, distance threshold or tie dialog:
every source row gets the nearest target, however far away it is, and a
tie goes to the earliest target row.

## Model

| member | source | states |
|---|---|---|
| EditDistance.LevSelf | title-match.py:71 | every string is at distance 0 from itself |
| EditDistance.LevZeroIff | title-match.py:71 | distance 0 holds exactly between equal strings (both directions) |
| EditDistance.LevSymmetric | title-match.py:71 | the distance does not depend on argument order |
| EditDistance.LevBounds | title-match.py:71 | the distance is at least the length difference and at most the longer length |
| EditDistance.LevStep | title-match.py:71 | the dynamic-programming recurrence: one cell from its upper, left and diagonal neighbours |
| EditDistance.NextRow | title-match.py:71 | from the distances of a string `x` to every prefix of `b`, computes those of `x` followed by one more character |
| EditDistance.Distance | title-match.py:71 | the row-by-row dynamic programme returns exactly the edit distance |
| Selection.Min | title-match.py:72 | `distances.min()`: an element of the series no greater than any element |
| Selection.IdxMin | title-match.py:73 | `distances.idxmin()`: a position holding a least element, strictly smaller than every element before it |
| Selection.IdxMinHoldsMin | title-match.py:72-73 | the two separate passes agree: the value at `idxmin` is `min` |
| Selection.FirstNearestUnique | title-match.py:73 | at most one position is the first nearest target |
| Selection.BestMatch | title-match.py:71-73 | the chosen target is among the targets; its distance is the chosen distance, no greater than the distance to any target; it sits at the first nearest position |
| Selection.ExactMatchWins | title-match.py:71-75 | a value present among the targets is matched to itself at distance 0 |
| Selection.BestMatchIsFirstNearest | title-match.py:71-73 | the chosen target and distance are those of the first nearest target, whichever way that target is described |
| Frames.IndexOf | title-match.py:67-76 | the position of a column label that exists: it holds the label and no earlier column does |
| Frames.AddNullColumn | title-match.py:67-68 | `df[name] = None`: the same rows, the column overwritten where it exists and appended otherwise, every cell in it missing and every other cell unchanged |
| Matcher.Prepared | title-match.py:67-68 | the source table with both result columns present, the same number of rows and every source column kept |
| Matcher.MatchedBeforeStep | title-match.py:70-76 | one more round of the loop extends "rows before `i` matched, the rest as they were" to `i + 1` |
| Matcher.MatchedBeforeDone | title-match.py:70-76 | after the last round the rows are exactly those the whole loop yields |
| Matcher.UnmatchableFails | title-match.py:71-73 | a row whose key or targets cannot be processed makes the loop raise `EmptyTarget` (no targets) or `NotText` |
| Matcher.Frame.constructor | title-match.py:57 | the loaded table as a mutable frame holding exactly that table |
| Matcher.Frame.SetNullColumn | title-match.py:67-68 | assigning a missing-valued column in place gives the table `AddNullColumn` describes, still well formed |
| Matcher.Frame.MatchOne | title-match.py:71-76 | one round writes the nearest target and its distance into row `i` and changes no other row |
| Matcher.Frame.MatchRows | title-match.py:70-76 | the frame stays well formed; the loop ends with exactly the rows `MatchAll` gives or with its error; on an error, the rows before the failing one are written and the rest untouched |
| Matcher.MatchFiles | title-match.py:46-76 | the checks, the column assignments and the loop performed on a frame updated in place give exactly `Run` |
| MatchProperties.IndexOfWithColumn | title-match.py:67-68 | assigning a column keeps the position of every existing column |
| MatchProperties.PreparedCells | title-match.py:67-68 | the source columns keep their places; source cells are unchanged except in a column named `Matched` or `Distance`, which is now missing |
| MatchProperties.PreparedKey | title-match.py:67-70 | the key cell the loop reads is the loaded one, or missing when the key column is `Matched` or `Distance` |
| MatchProperties.MatchAllOutcome | title-match.py:70-73 | the loop succeeds exactly when there is no source row or the targets are non-empty text and every key is text; otherwise it raises `EmptyTarget` exactly when there are no targets |
| MatchProperties.MatchAllKeepsCells | title-match.py:75-76 | a successful loop changes no cell outside the two result columns |
| MatchProperties.RunChecks | title-match.py:52-65 | an empty form entry stops the run first; then a failed load; then a missing key column (each an if-and-only-if); past them the run is the matching step |
| MatchProperties.StepErrors | title-match.py:67-76 | the matching step fails with `EmptyTarget` exactly when there are source rows and no target rows; it succeeds exactly when there are no source rows, or the targets are non-empty text, the key column is not a result column and every key is text; otherwise it fails with `NotText` |
| MatchProperties.StepColumns | title-match.py:67-68 | the result keeps the source rows in order and count; the result columns are appended as `Matched`, `Distance` when absent and overwritten in place when present |
| MatchProperties.StepKeepsSourceCells | title-match.py:67-76 | every source cell outside the two result columns is unchanged in the result |
| MatchProperties.StepRowIsNearest | title-match.py:70-76 | every result row holds in `Matched` the target key at the first position with the least distance from its key, and that distance in `Distance` |
| MatchProperties.StepExactMatch | title-match.py:71-76 | a key present verbatim in the target column is matched to itself with `Distance` 0 |

## Left out

- The Tk window, its widgets, the file browsers, the message boxes and the main loop (title-match.py:8-44, 83-86): user interface only. Errors are returned as `Error` values instead of being shown.
- Loading the CSV files (title-match.py:56-61): what `pd.read_csv` gives is a parameter, `None` when it raises. The parser and pandas type inference are not modelled; cells are text, an integer number or missing, and floating-point cells are not distinguished from other non-text cells.
- The save dialog and `to_csv` (title-match.py:78-81): the model returns the finished table; nothing is written.
- Column labels are assumed distinct (`DataFrame.Valid`), as `pd.read_csv` makes them. Rows are a sequence, so a row's label is its position: the model assumes the default positional index that `pd.read_csv` gives, and other index kinds are not modelled.
- The internals of the C `Levenshtein` library are not part of this model; it is replaced by the standard definition of the edit distance.
- `MatchFiles` and `MatchOne` use the recursive `Lev` for each distance rather than the dynamic-programming `Distance` method, which is proved equal to it.
- The triangle inequality of the edit distance is not proved; the matching step does not depend on it.
- After an exception in the loop the partly written frame is discarded; `MatchRows` states what it holds, but `Run` reports only the error.
