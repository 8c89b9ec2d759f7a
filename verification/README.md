# Course-projects dashboard: loader and dynamic filter engine

This project models the two pieces of logic in the DataTalksClub course-projects
dashboard (`app.py`) that do real work once the Streamlit widgets are replaced by
plain parameters, and proves properties of them.

- **Loader** (`load_data`). For each selected course (outer loop) and each
  selected year (inner loop), it builds the path `./Data/{course}/{year}/data.csv`.
  If that file exists it is read and appended; if not, the pair is logged as not
  found and skipped. The tables that were read are concatenated in load order.
  When no file existed the result is `None`. The filesystem is given as two
  parameters: `pathExists` stands for `os.path.exists` and `readCsv` for
  `pd.read_csv`. The two `print` calls become a returned log of `Loading` and
  `NotFound` events.
- **Dynamic filter engine** (`filter_dataframe`). It visits the selected columns
  in order and narrows the working table `df_filtered` one column at a time.
  A column whose values cannot be put in a set (judged on the original table)
  is passed over. Otherwise the column is classified on the current working
  table:
  - categorical if its dtype is `category` or it has fewer than 10 distinct
    non-missing values;
  - else numeric if its dtype is numeric;
  - else free text.

  The row tests are: membership in the chosen value set, the inclusive slider
  range `lo <= v <= hi`, and a substring match (case-insensitive unless the box
  is ticked). An empty pattern keeps every row. In a column that still holds a
  string, missing and non-string values never match (`na=False`). A column whose
  non-missing values include no string makes pandas' `.str` accessor raise
  `AttributeError` (app.py:113), and `filter_dataframe` then raises as a whole. The widget answers are parameters of type `Filter.Input`, one
  per column. An answer left at its default (`None` or an empty pattern) means
  what the widget shows first: every distinct value, the column's `(min, max)`,
  no text, case-insensitive.

A table is a `Frames.Frame`: a map from column to dtype, plus a sequence of rows.
Each row maps column names to a `Value`: `Str`, `Num`, `Missing` (NaN) or
`Unhashable` (a list or dict cell). Tables are values, so the input table is
never changed: `df.copy()` is modelled by value semantics.

`Filter.FilterDataframe` is the loop over the selected columns. Its body,
`Filter.FilterColumn`, keeps the source's branches: `continue`, the categorical
test, `elif` numeric, else text with `if user_text_input`. The text branch
returns `None` where `str.contains` raises. The loop returns `None` as soon as a
column raises, and otherwise the specification fold `Filter.FilterUpTo`. When
the result is `None` is stated by `Filter.RaisesUpTo`. That fold is built
from an explicit classification function `Filter.Classify`, which returns a
`Kind`, and one row test `Filter.Admits` per kind. The properties are proved
about the fold, which is the result whenever no column raises. `Loader.LoadData` (nested `while` loops) is proved against
`Loader.Attempts`, `Loader.Trace` and `Loader.Loaded` in the same way.

Three consequences of the code are worth stating outright:

- The filters are not order-independent. Each column is classified on the
  already-filtered table (app.py:85-86, 94). Filtering an earlier column can
  therefore turn a numeric or free-text column into a categorical one, and the
  categorical default keeps missing values that the numeric default would drop.
  `Filter.ClassifyUnderFiltering` states exactly which changes of kind can
  happen. No order-independence is claimed.
- A numeric column's default slider range is never a single point. The numeric
  branch needs at least 10 distinct values, so `min < max`
  (`Filter.NumericRangeIsProper`).
- An exception from `pd.read_csv` leaves `load_data` altogether (app.py:33), so
  one unreadable file stops the whole load. The model treats reading as total
  (see Left out).

## Model

| member | source | states |
|---|---|---|
| `Loader.DataPath` | app.py:30 | The f-string path `./Data/{course}/{year}/data.csv`. `Loader.AttemptAt` proves it is the path tried for each pair. |
| `Loader.Attempts` | app.py:28-30 | The paths in try order, courses outer and years inner. `Loader.AttemptsLength`, `Loader.AttemptAt` and `Loader.AttemptsOnlySelected` establish its length, its positions and that it holds only selected pairs. |
| `Loader.Trace` | app.py:31-35 | One `Loading` or `NotFound` line per tried path. `Loader.LogAt` establishes the line for each pair. |
| `Loader.Loaded` | app.py:31-36 | The existing files' tables concatenated in load order, or `None`. `Loader.LoadedNoneIff` and `Loader.LoadedRowCount` establish when it is `None` and how many rows it has. |
| `Loader.LoadData` | app.py:26-36 | The log has one `Loading`/`NotFound` line per tried path, in try order. The result is the row-wise concatenation of the existing files' tables in load order, or `None` when no table was loaded. |
| `Loader.TryOne` | app.py:31-35 | Trying one more path adds exactly one log line. It adds that file's table to the loaded tables iff the path exists. |
| `Loader.AttemptsLength` | app.py:28-29 | The loops try `|courses| * |years|` paths. |
| `Loader.AttemptAt` | app.py:28-30 | The pair `(courses[i], years[j])` is tried at position `i * |years| + j` (courses outer, years inner), with path `./Data/{course}/{year}/data.csv`. |
| `Loader.AttemptsOnlySelected` | app.py:28-30 | Every tried path is the path of some selected course and selected year. |
| `Loader.LogAt` | app.py:31-35 | The log line at pair `(i, j)` is `Loading(path)` if the file exists and `NotFound(path)` otherwise. A missing file is skipped and later pairs are still tried. |
| `Loader.LoadedNoneIff` | app.py:36 | The loader returns `None` iff no selected pair's path exists. |
| `Loader.LoadedRowCount` | app.py:33-36 | A loaded table's row count is the sum of the row counts of the files that existed. |
| `Seqs.Flatten` | app.py:36 | `pd.concat(dfs, ignore_index=True)`: the tables' rows one after another, in load order. `Seqs.FlattenLength` and `Loader.LoadedRowCount` establish its row count. |
| `Seqs.FlattenLength` | app.py:36 | Concatenating tables yields as many rows as they hold together. |
| `Seqs.Keep` | app.py:93 | Applying a boolean mask (`df[mask]`) never yields more rows than it was given. |
| `Seqs.KeepMembers` | app.py:105 | A row is in the masked table iff it is in the table and passes the mask. |
| `Seqs.KeepIsSubsequence` | app.py:116 | The masked table is a subsequence of the table: order kept, rows unchanged. |
| `Seqs.SubsequenceTransitive` | app.py:74-116 | Subsequences compose across successive narrowings of `df_filtered`. |
| `Seqs.SubsequenceMembers` | app.py:74-116 | A subsequence is no longer than the original and holds only its rows. |
| `Seqs.KeepAll` | app.py:88-93 | A mask that every row passes returns the table unchanged. |
| `Seqs.KeepCongruent` | app.py:93 | Two masks that agree on every row select the same rows. |
| `Seqs.SubsequenceChain` | app.py:76-116 | In a chain of successive narrowings, every later table is a subsequence of every earlier one. |
| `Seqs.KeepChainMembers` | app.py:76-116 | Masks applied one after another compose by conjunction: an element survives the first `n` masks iff it is in the first table and passes each of them. |
| `Seqs.KeepKeep` | app.py:93-116 | Two masks applied in turn select the same rows as one mask asking for both. |
| `Seqs.KeepChainAll` | app.py:76-116 | After `n` successive masks, the table is the first table under the single mask "passes all `n`", so order and duplicates follow from it. |
| `Seqs.KeepAppend` | app.py:31-33 | Masking distributes over concatenation, as when one more path is tried. |
| `Frames.Unique` | app.py:90-91 | `unique()` of a column. `Frames.UniqueMembers` proves it holds exactly the column's values. |
| `Frames.NUnique` | app.py:86 | `nunique()` of a column. `Frames.NUniqueCounts` proves it counts the distinct non-missing values. |
| `Frames.AnyText` | app.py:113 | Some row holds a string in the column. `Frames.AnyTextMembers` proves it. |
| `Frames.AnyTextMembers` | app.py:113 | The recursive test holds iff some row's cell in the column is a string. |
| `Frames.Hashable` | app.py:77-80 | Building the set of a column raises no `TypeError`. `Frames.HashableInherited` and `Frames.NumericColumnHashable` establish when it holds. |
| `Frames.UniqueMembers` | app.py:90-91 | `unique()` holds exactly the values that the column's rows hold, missing included. |
| `Frames.NUniqueCounts` | app.py:86 | `nunique()` is the number of distinct values other than the missing marker. |
| `Frames.UniqueShrinks` | app.py:85-86 | Deleting rows can only remove distinct values, so `nunique()` cannot grow. |
| `Frames.HashableInherited` | app.py:77-80 | If the original table's column is hashable, so is the column of every table filtered from it. |
| `Frames.WellTypedInherited` | app.py:74-116 | Deleting rows while keeping the dtypes preserves well-typedness: a numeric column still holds only numbers and missing markers. |
| `Frames.NumericColumnHashable` | app.py:77-80 | A numeric-dtype column of a well-typed table is hashable, so it is never passed over. |
| `Frames.NumbersInMembers` | app.py:95-96 | The numbers whose extremes `min()`/`max()` take are exactly the column's numeric cells. |
| `Filter.PresentAreNumbers` | app.py:94-96 | In a well-typed numeric column, every distinct value other than the missing marker is a number among those `min()`/`max()` range over. |
| `Frames.MinOf` | app.py:95 | The minimum is one of the numbers and no number is below it. |
| `Frames.MaxOf` | app.py:96 | The maximum is one of the numbers and no number is above it. |
| `Text.SubstringAt` | app.py:113-115 | The substring search succeeds iff the pattern occurs at some position of the text. |
| `Text.SensitiveImpliesInsensitive` | app.py:108-115 | A case-sensitive match is also a case-insensitive match. |
| `Text.InsensitiveIgnoresCase` | app.py:113-114 | Without case sensitivity, the letter case of the pattern and of the text make no difference. |
| `Filter.InputFor` | app.py:88-110 | A column's widget answers, or `DefaultInput` when none is given. `DefaultInput` is what the widgets show first: every distinct value (app.py:91), the range `(_min, _max)` (app.py:102), an empty text box (app.py:107) and an unticked case box (app.py:109). `Filter.StepDefaults`, `Filter.DefaultsKeepCompleteRows` and `Filter.IdempotentDefaults` establish what the defaults keep. |
| `Filter.Classify` | app.py:77-94 | Which branch a column takes. `Filter.ClassifyUnderFiltering` and `Filter.NumericStaysNumeric` establish how its verdict moves as the table is filtered. |
| `Filter.ChosenValues` | app.py:88-92 | The multiselect answer, by default every distinct value of the working column. `Filter.StepDefaults` proves the default keeps every row. |
| `Filter.Bounds` | app.py:95-96 | The working column's `(min, max)`. `Filter.NumericRangeIsProper` proves `min < max` whenever the numeric branch is taken. |
| `Filter.RangeOf` | app.py:98-104 | The slider answer, by default `Bounds`. `Filter.StepDefaults` proves the default keeps exactly the numeric rows. |
| `Filter.Between` | app.py:105 | `between(lo, hi)`, inclusive at both ends and false for a missing value. `Filter.StepKeeps` states it as the numeric branch's row test. |
| `Filter.TextMatches` | app.py:113-115 | `str.contains(pattern, case=..., na=False)`, where only strings match. `Filter.StepKeeps` states it as the text branch's row test. |
| `Text.Contains` | app.py:113-114 | The substring test, lower-casing both sides when not case-sensitive. `Text.SubstringAt`, `Text.SensitiveImpliesInsensitive` and `Text.InsensitiveIgnoresCase` establish its meaning. |
| `Filter.Admits` | app.py:93-116 | The row test of each kind: `isin` of the chosen values (app.py:93), `between` of the slider range (app.py:105), and for free text no test when the pattern is empty, else `str.contains(..., na=False)` (app.py:112-116). `Filter.StepKeeps` and `Filter.FilterMembership` establish it as the test a pass applies. |
| `Filter.Step` | app.py:76-116 | One pass of the loop for one column. `Filter.StepShrinks`, `Filter.StepKeeps` and `Filter.StepDefaults` establish what it keeps. |
| `Filter.FilterUpTo` | app.py:74-118 | The working table after the first `n` selected columns. `Filter.FilterDataframe` returns it whenever no column raises, and the lemmas below establish its properties. |
| `Filter.StrAccessorRejects` | app.py:113 | pandas' `.str` accessor refuses the column: some value is present but none is a string. `Filter.StepRaisesIff` states this in terms of the rows. |
| `Filter.StepRaises` | app.py:106-116 | The pass for a column raises: free text, a non-empty pattern, and a column the accessor refuses. `Filter.StepRaisesIff` proves this holds iff the column holds some non-missing value and no string cell. |
| `Filter.StepRaisesIff` | app.py:106-116 | A pass raises iff the column is free text, the pattern is non-empty, some row has a non-missing value and no row has a string. |
| `Filter.RaisesUpTo` | app.py:76-116 | One of the first `n` passes raises. `Filter.RaisesAt` and `Filter.RaisesMonotone` establish what it means. |
| `Filter.RaisesAt` | app.py:76-116 | The first `n` passes raise iff some pass among them raises on the table it is given. |
| `Filter.RaisesMonotone` | app.py:76-116 | An exception leaves the loop: once a pass has raised, the whole function has raised, whatever columns follow. |
| `Filter.FilterResult` | app.py:65-118 | What `filter_dataframe` yields: `None` if a pass raises, else the fold. `Filter.FilterDataframe` is proved equal to it. |
| `Filter.DefaultsNeverRaise` | app.py:112 | With every text box empty, no pass raises, so the result is the fold. |
| `Filter.FilterDataframe` | app.py:65-118 | The loop returns `None` iff some pass raises, and otherwise the fold over all selected columns. A returned table keeps the dtypes, and its rows are a subsequence of the input's. |
| `Filter.FilterColumn` | app.py:77-116 | One loop body, with the source's branches. It returns `None` iff the pass raises, and otherwise exactly that pass's rows. |
| `Filter.RaisedResult` | app.py:76-116 | An exception in any pass leaves the loop: once one column's pass raises, `filter_dataframe` yields `None`, whatever columns follow. |
| `Filter.StepShrinks` | app.py:84-116 | One column's pass keeps the dtypes, yields a subsequence of the current rows and never adds rows. |
| `Filter.StepKeeps` | app.py:76-116 | Per kind. Unhashable: the table is unchanged. Categorical: a row is kept iff its value is in the chosen set. Numeric: kept iff the value is a number with `lo <= v <= hi`. Free text: an empty pattern keeps all; otherwise kept iff the value is a string containing the pattern under the case flag, so missing never matches. |
| `Filter.FilterChain` | app.py:74-116 | Each working table is a subsequence of every earlier one and has no more rows. |
| `Filter.FilterMembership` | app.py:76-118 | A row survives iff it is an input row and passes the test of every selected column, each test taken on the table it was applied to. |
| `Filter.FilterIsOneMask` | app.py:74-118 | The result is the input under one mask, the conjunction of every selected column's test. Order is kept, and duplicate input rows are kept or dropped together. |
| `Filter.FilterWellTyped` | app.py:74-116 | Every working table of a well-typed input is well-typed. |
| `Filter.ClassifiedColumnsAreHashable` | app.py:77-91 | A column that is not passed over is hashable in the working table too, so its `unique()` set is well-formed. |
| `Filter.OnlySelectedColumnsMatter` | app.py:71-76 | Two input rows that agree on the selected columns both survive or both go: unselected columns add no constraint. |
| `Filter.AdmitsReadsOneCell` | app.py:93-116 | Each column's row test reads only that column's cell of the row. |
| `Filter.StepDefaults` | app.py:88-116 | With default widgets, a categorical, free-text or unhashable column keeps every row. A numeric column keeps exactly the rows holding a number, which in a well-typed table means the non-missing rows. |
| `Filter.DefaultsKeepCompleteRows` | app.py:71-118 | With every widget at its default, a well-typed table with no missing cell in the selected columns comes back unchanged. |
| `Filter.IdempotentDefaults` | app.py:65-118 | With every widget at its default, filtering a well-typed table's result a second time returns it unchanged. |
| `Filter.DefaultStepFixes` | app.py:84-116 | One default pass of any selected column over the filtered result leaves it unchanged. |
| `Filter.NumericStaysNumeric` | app.py:84-94 | A column numeric on the filtered result was classified numeric when the first pass reached it, and `nunique()` on the result is no larger than it was then. |
| `Filter.ClassifyUnderFiltering` | app.py:77-94 | Under further filtering the unhashable verdict never changes and categorical stays categorical. Numeric or free text keeps its kind or becomes categorical. |
| `Filter.NumericRangeIsProper` | app.py:94-104 | A column that reaches the numeric branch has a default slider range with `min < max`. |

## Left out

- Streamlit calls are not modelled: page setup, the multiselects, slider, text box, checkbox, layout columns, table display, download button and sidebar HTML. They are UI; their results are the parameters `courses`, `years`, `selected` and `inputs`.
- The dashboard's top-level flow is not modelled: the guard on empty selections, the `project_title` preprocessing, word frequencies, the word cloud, the bar charts and their `try/except` reporting. The text-analysis code lives in `src/eda_analysis.py`, and src/eda_analysis.py is not part of this model. The charts are visualization glue.
- Filesystem access and CSV parsing are not modelled: `os.path.exists` and `pd.read_csv` are the parameters `pathExists` and `readCsv`. Reading is total, so a file that fails to parse, which in the code raises out of `load_data`, is not represented.
- `pd.concat` column alignment is not modelled: the dtypes of a concatenated table are not computed. A row that lacks a column reads as missing (`Frames.Cell`), which matches the NaN filling for values.
- Regular expressions are not modelled: `str.contains` treats the pattern as a regular expression, while the model matches it as a literal substring. Case folding covers ASCII letters only.
- The slider step `(_max - _min) / 100` and floating point are not modelled: numbers are `real`, and the step only affects how the slider is displayed.
- The `datetime` dtype is not modelled: `read_csv` without `parse_dates` never produces it. The dtypes are `category`, numeric and `object`.
- Widget-imposed limits are not modelled. The chosen set need not lie within the offered values and the slider range need not lie within `(min, max)`. The filter's rules apply to any answer.
- Idempotence is proved only with default widgets (`Filter.IdempotentDefaults`). With arbitrary answers it does not hold: a numeric column narrowed by the slider to fewer than 10 distinct values is categorical on the second pass, and the second pass then applies the multiselect answer instead of the range.
- pandas' type inference behind the `.str` accessor is modelled only for the value kinds of the model. A column with some string passes, and a column whose present values are all numbers is refused. Booleans and bytes are not represented.
- Duplicate selected columns are not modelled: Streamlit's multiselect returns each column once, and the model applies a repeated column twice.
- `Filter.FilterDataframe` requires every selected column to be a column of the table. Streamlit offers only `df.columns`, and `df[column]` would raise `KeyError` otherwise.
