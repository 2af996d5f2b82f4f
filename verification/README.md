# ETL_Designer in Dafny

A model of the core of ETL_Designer, a small web tool that takes an uploaded
CSV file through a fixed hierarchy of steps: clean, functional dependencies
(FD), First, Second and Third Normal Form, and an entity-relationship (ER)
diagram. The model covers the server's steps:

- `clean_data`: names normalised, numbered copies merged, text trimmed,
  duplicates dropped, missing values dropped or filled.
- `FunctionalDependencyChecker`: `check_fd` and `find_all_fds`.
- `to_first_nf`: exploding multi-valued columns.
- `SecondNFChecker`: `is_2nf` and `get_violations`.
- `Semantic3NFPrefixDecomposer`, in both of its variants: combining numbered
  columns, grouping by name prefix, primary and foreign keys.
- `generate_er_diagram`, as the graph it hands to Graphviz.
- The `run_etl` handler with its `step_order` hierarchy and request checks.

It also covers the browser side in `ETL_UI.js`: arrow colours, hiding results
after a backward arrow, and the step list the sidebar buttons build.

A table is a list of distinct column names and rows of cells. A cell is
`None` for a missing value (NaN) or `Some(s)` for the value's string form.
Every operation is a pure function. Randomness, the clock, pandas' type
inference and the file system are parameters.

Modules, one per source file, plus shared helpers:

| module | models |
|---|---|
| `Wrappers`, `Seqs`, `Text`, `Tables`, `Grouping` | results, sequence facts, `str` operations, the DataFrame, dict-of-lists grouping |
| `FdChecker` | `utils/fd_checker.py` |
| `SecondNF` | `utils/2NF_Checker.py` |
| `FirstNF` | `utils/1NF_Checker.py` |
| `ColumnRoots`, `DataCleaning` | `utils/data_cleaning.py` |
| `ColumnCombining`, `Decomposer` | `utils/3NF_Checker.py` (`Strategy.TrimAll`) and `utils/nf_checker.py` (`Strategy.CombineCollisions`) |
| `ErGenerator` | `utils/er_generator.py` |
| `StepGate` | `app/app.py` |
| `EtlUi` | `static/js/ETL_UI.js` |

## Model

| member | source | states |
|---|---|---|
| FdChecker.CheckFd | utils/fd_checker.py:8-10 | `check_fd(x, [y])` is true exactly when any two rows with equal, fully present `x` values have equal `y` cells; a missing `y` counts as a value |
| FdChecker.CheckFdIff | utils/fd_checker.py:9-10 | "every group has at most one distinct `y`" is equivalent to the pairwise dependency definition |
| FdChecker.AllMissingRhsPasses | utils/fd_checker.py:9 | under `nunique(dropna=False)`, a column missing in every row is determined by any left-hand side |
| FdChecker.MissingLhsRowIgnored | utils/fd_checker.py:9 | adding a row with a missing left-hand value never changes the verdict, because `groupby` drops NaN keys |
| FdChecker.Combinations | utils/fd_checker.py:17 | `combinations(s, 0)` is the single empty combination |
| FdChecker.CombinationsIff | utils/fd_checker.py:17 | the `r`-combinations are exactly the sub-sequences of length `r` |
| FdChecker.CombinationsNoDup | utils/fd_checker.py:17 | over distinct columns, no combination is produced twice |
| FdChecker.RhsFdsSpec | utils/fd_checker.py:18-21 | for one left-hand side, `x -> y` is reported exactly for the columns `y` outside `x` that it determines, each once |
| FdChecker.LhsFdsSpec | utils/fd_checker.py:17-21 | over a list of left-hand sides, a dependency is reported exactly when its left side is listed and it holds |
| FdChecker.FdsFromSizeOrder | utils/fd_checker.py:16-21 | the outer loop reports dependencies by non-decreasing left-hand size, starting at the given size |
| FdChecker.FdsFromSizeNoDup | utils/fd_checker.py:16-21 | the outer loop reports no dependency twice |
| FdChecker.FindAllFds | utils/fd_checker.py:12-22 | reports exactly the dependencies that hold with a left side of 1 to `min(max_lhs_size, #columns)` columns and one right column outside it; ordered by left size; no repeats |
| FdChecker.FindAllFdsEmpty | utils/fd_checker.py:16 | with at most one column, or a size bound below one, the result is empty |
| FdChecker.FindAllFdsNoRows | utils/fd_checker.py:9-21 | on a table with no rows, every candidate dependency is reported |
| SecondNF.IsSubset | utils/2NF_Checker.py:4-5 | true exactly when every element of the first list occurs in the second |
| SecondNF.ViolationIff | utils/2NF_Checker.py:21-23 | a dependency violates 2NF exactly when some right column is a non-key column, every left column is in the key, and the left side is not the whole key as a set |
| SecondNF.IsSecondNF | utils/2NF_Checker.py:13-25 | `is_2nf()` is true exactly when no listed dependency is a violation |
| SecondNF.GetViolations | utils/2NF_Checker.py:27-43 | the violating dependencies, in input order, each as often as the input lists it, and nothing else |
| SecondNF.IsSecondNFIffNoViolations | utils/2NF_Checker.py:13-43 | `is_2nf()` is true exactly when `get_violations()` is empty |
| SecondNF.WholeKeyOrPrimeRhsNotFlagged | utils/2NF_Checker.py:21-23 | a dependency on the whole key, or one with only key columns on the right, is never flagged |
| SecondNF.EmptyLhsFlagged | utils/2NF_Checker.py:21-23 | with a non-empty key, an empty left side determining a non-key column is flagged |
| SecondNF.PartialDependencyExample | utils/2NF_Checker.py:27-43 | with key (A, B), `A -> C` is reported and `A, B -> C` is not |
| FirstNF.SplitSeps | utils/1NF_Checker.py:16 | `re.split("[;,]")` gives one piece more than there are separators |
| FirstNF.SplitSepsSpec | utils/1NF_Checker.py:16 | no piece contains a separator, and the pieces put back together give the string without its separators |
| FirstNF.EmptyPiecesKept | utils/1NF_Checker.py:16 | "a,,b" splits into "a", "" and "b" |
| FirstNF.ColumnHasSepIff | utils/1NF_Checker.py:13 | a column is detected as multi-valued exactly when some row's cell, as a string (missing is "nan"), holds `;` or `,` |
| FirstNF.ExplodeRowFacts | utils/1NF_Checker.py:15-19 | exploding a row gives one copy per piece; each copy has the row's width, keeps every other cell, and holds the trimmed piece |
| FirstNF.DetectionKept | utils/1NF_Checker.py:11-18 | exploding some columns leaves the separator test of every other column unchanged, so the loop's later tests see the input's answer |
| FirstNF.LoopInvariant | utils/1NF_Checker.py:11-19 | after the first `k` columns, the rows are the reference explosion on the detected columns below `k`, and the summary has one line per detected column |
| FirstNF.ToFirstNF | utils/1NF_Checker.py:3-21 | keeps the columns; the rows are each input row exploded on every detected column, in row order; one summary line per split column, in column order; the summary is empty exactly when nothing splits |
| FirstNF.RowCount | utils/1NF_Checker.py:18 | the output has, for each input row, the product of its piece counts over the split columns |
| FirstNF.UnsplitColumnsCopied | utils/1NF_Checker.py:18 | every output row agrees with some input row on each column that is not split |
| FirstNF.NoSeparatorLeft | utils/1NF_Checker.py:15-19 | no cell of the result contains a separator |
| FirstNF.Idempotent | utils/1NF_Checker.py:3-21 | applying the step to its own output changes nothing and gives an empty summary |
| ColumnRoots.CleanName | utils/data_cleaning.py:9 | `strip().lower()` never lengthens a name |
| ColumnRoots.CleanNameShape | utils/data_cleaning.py:9 | a cleaned name has no capital letter and no whitespace at either end |
| ColumnRoots.CleanNameIdempotent | utils/data_cleaning.py:9 | cleaning a cleaned name changes nothing |
| ColumnRoots.StemSplits | utils/data_cleaning.py:15-17 | the name reads as the stem, then a run of `[._\s]`, then a run of digits |
| ColumnRoots.StemShortest | utils/data_cleaning.py:15-17 | no reading of the name has a shorter first part than the stem, so the stem is what the lazy `(.*?)` captures |
| ColumnRoots.NumberedCopyRoot | utils/data_cleaning.py:15-18 | "price_1", "price.2" and "price 3" have the root of "price" |
| DataCleaning.StackedValues | utils/data_cleaning.py:24-25 | the stacked list holds exactly the non-empty trimmed values found in the member columns |
| DataCleaning.MergeGroupNewRows | utils/data_cleaning.py:24-28 | one merge appends one row per stacked value, in order: the value under the root, and every other column missing |
| DataCleaning.MergeGroupOtherColumn | utils/data_cleaning.py:26-28 | a column outside the group, other than the root, keeps its values; the appended rows are missing in it |
| DataCleaning.MergeAllRoot | utils/data_cleaning.py:21-28 | through the whole merge loop, a root whose group holds no other merged root's name, and that no column outside its group is named after, ends up holding exactly its stacked values, each in an appended row of its own; the rows before are missing in it |
| DataCleaning.CleanDataMergedColumn | utils/data_cleaning.py:14-28 | the same on `clean_data`'s input: the merged column's values are its members' trimmed, non-empty values in column order, each in an appended row missing in every other column |
| DataCleaning.StripTextIdempotent | utils/data_cleaning.py:32-35 | stripping the text columns twice is stripping them once |
| DataCleaning.DropDuplicatesMembers | utils/data_cleaning.py:38 | de-duplication keeps the same set of rows |
| DataCleaning.DropNaComplete | utils/data_cleaning.py:44 | after `dropna()` no cell is missing |
| DataCleaning.FillNaCells | utils/data_cleaning.py:47 | `fillna(v)` replaces exactly the missing cells with `v` and leaves none missing |
| DataCleaning.CleanDataFails | utils/data_cleaning.py:8-24 | `clean_data` raises exactly when a name's stem holds a line break, so the root pattern does not match, or when two names clean to the same name |
| DataCleaning.CleanDataNames | utils/data_cleaning.py:8-12 | the report lists the original names and their cleaned forms, position by position |
| DataCleaning.CleanDataMergedGroups | utils/data_cleaning.py:20-30 | `merged_column_groups` is present exactly when some root is shared by two or more columns, and then lists those roots in order of first occurrence |
| DataCleaning.CleanDataKeepsUnmerged | utils/data_cleaning.py:20-28 | a column outside every merged group survives the merge with its original cells in the original rows |
| DataCleaning.CleanDataDropsMerged | utils/data_cleaning.py:26 | a member of a merged group is gone afterwards, unless some merged root has its name |
| DataCleaning.TextAfterMergeMembers | utils/data_cleaning.py:28-32 | `select_dtypes` on the merged frame picks the merged roots, the input's text columns, and its bool columns once a merge has padded them with NaN |
| DataCleaning.CleanDataStripped | utils/data_cleaning.py:32-35 | `stripped_string_columns` lists, in frame order, the merged frame's columns that are merged roots, text columns of the input, or bool columns a merge has padded |
| DataCleaning.CleanDataStrippedCells | utils/data_cleaning.py:33-34 | every cell of a stripped column holds a value with no edge whitespace, and a cell left missing by the merge reads "nan" |
| DataCleaning.CleanDataDedup | utils/data_cleaning.py:37-40 | `duplicates_removed` is the number of rows de-duplication dropped, and the same rows remain |
| DataCleaning.CleanDataDropNa | utils/data_cleaning.py:42-50 | with `dropna`, exactly the rows with a missing cell go, in order; `rows_dropped_due_to_na` is the count of missing cells before; nothing is missing afterwards |
| DataCleaning.CleanDataFillNa | utils/data_cleaning.py:42-50 | with a fill value, exactly the missing cells take it, the row count stays, and `na_filled_with` is reported |
| DataCleaning.CleanDataKeepNa | utils/data_cleaning.py:42-50 | with neither option, the de-duplicated frame is returned and the missing count is unchanged |
| DataCleaning.CleanDataWf | utils/data_cleaning.py:5-53 | a successful run returns a table with distinct column names and full rows |
| ColumnCombining.Normalize | utils/3NF_Checker.py:19 | the key has no capital letter and does not end in a digit or underscore |
| ColumnCombining.NormalizeNumbered | utils/3NF_Checker.py:19 | "Price_1", "price2" and "PRICE__3" all have the key "price" |
| ColumnCombining.NormalizeIdempotent | utils/3NF_Checker.py:19 | normalising a key again changes nothing, for names without line breaks |
| ColumnCombining.NormalizeBreakDigit | utils/3NF_Checker.py:19 | `$` also matches before a final line break: "a1\n" becomes "a\n" |
| ColumnCombining.NormalizeBreakUnderscore | utils/3NF_Checker.py:19 | "a1\n_" becomes "a1\n" |
| ColumnCombining.VisitKeys | utils/3NF_Checker.py:18-31 | the corrected loop combines each key once, exactly the keys of columns not yet seen |
| ColumnCombining.VisitAsWrittenAgrees | utils/3NF_Checker.py:18-31 | when normalising is idempotent on the keys, the loop as written (which also marks the member names as processed) combines the same keys as the corrected loop |
| ColumnCombining.NormalizedVisitAgrees | utils/3NF_Checker.py:18-31 | for column names without line breaks, the loop as written and the corrected loop agree |
| ColumnCombining.LineBreakColumnLost | utils/3NF_Checker.py:19-31 | for the columns "a1\n" and "a1\n_", the loop as written never combines the second column's key; the corrected loop does |
| ColumnCombining.MarkedNameHidesKey | utils/3NF_Checker.py:30-31 | whenever one column's key equals another column's original name, the loop as written skips that key |
| ColumnCombining.CombinedKeysOrder | utils/3NF_Checker.py:18-31 | the combined keys are the distinct keys in order of first occurrence, starting with the first column's key |
| ColumnCombining.GroupValuesStacked | utils/3NF_Checker.py:23-26 | `pd.concat(..., ignore_index=True)` stacks the present values of the member columns, column after column, row order within each |
| ColumnCombining.CombinedStacked | utils/3NF_Checker.py:22-29 | the combined values keep the stacked order. Under `TrimAll` each value is trimmed and those lower-casing to "nan" are dropped. Under `CombineCollisions`, a shared key keeps values untrimmed, dropping those whose trimmed lower case is "nan"; a lone column keeps its present values |
| ColumnCombining.CombinedTrimAll | utils/3NF_Checker.py:23-29 | a value is in the combined series exactly when it is the trimmed form of some present member cell and does not lower-case to "nan" |
| ColumnCombining.CombinedShared | utils/nf_checker.py:22-28 | for a shared key, a value is kept exactly as some present member cell holds it, unless its trimmed lower-case form is "nan" |
| ColumnCombining.CombinedLone | utils/nf_checker.py:29-31 | a key with one column keeps that column's name and its present values, unchanged |
| ColumnCombining.PutAllFresh | utils/3NF_Checker.py:29 | storing series under distinct names overwrites nothing and appends them in order |
| ColumnCombining.SeriesNamesDistinct | utils/nf_checker.py:26-31 | the stored series have distinct names: keys under `TrimAll`, and keys or unchanged lone names under `CombineCollisions` when no name has a line break |
| ColumnCombining.FrameColumns | utils/3NF_Checker.py:33-35 | each frame column reads back its series with missing cells padded at the end, and no row is entirely missing |
| ColumnCombining.CombineColumns | utils/3NF_Checker.py:15-36 | fails exactly on a table with no columns (`max()` of an empty sequence); otherwise gives a well-formed, non-empty frame |
| ColumnCombining.CombineColumnsFrame | utils/3NF_Checker.py:29-35 | the frame's columns are the series names in key order, and each column's present cells are its series |
| ColumnCombining.CombineColumnsPadded | utils/3NF_Checker.py:33-35 | cell `i` of a series' column is its `i`-th value, or missing past the series' end |
| ColumnCombining.CombineColumnsFirst | utils/3NF_Checker.py:18-29 | the frame's first column is the input's first column: its key, or its own name when `nf_checker` leaves it alone |
| Decomposer.PrimaryKey | utils/3NF_Checker.py:49-51 | the key is the group's columns containing "id" (any case), in order, or the group's first column when there are none |
| Decomposer.TableNamesDiffer | utils/3NF_Checker.py:54 | names with different prefixes give different table names |
| Decomposer.EntityTablesShape | utils/3NF_Checker.py:38-59 | one table per prefix, in order of first occurrence; each holds its prefix's columns in frame order, is named after the first of them, and has the distinct rows of those columns |
| Decomposer.EntityNamesDistinct | utils/3NF_Checker.py:54 | different tables have different names |
| Decomposer.ColumnInOneTable | utils/3NF_Checker.py:38-52 | each frame column belongs to exactly the table of its prefix |
| Decomposer.BasePoolValues | utils/3NF_Checker.py:80 | the sampling pool holds each present value of the base key column exactly once |
| Decomposer.Sample | utils/3NF_Checker.py:84-87 | `n` draws, each taken from the pool |
| Decomposer.AssignForeignKeys | utils/3NF_Checker.py:75-94 | fails exactly when the pool is empty and a later table with rows lacks the base key; otherwise every table stays valid and the count is kept |
| Decomposer.AssignForeignKeysLinks | utils/3NF_Checker.py:82-94 | each later table keeps its name and key, gains the base key column at the end (with sampled pool values) when it lacked it, and gets one foreign key to the base table |
| Decomposer.AssignForeignKeysBase | utils/3NF_Checker.py:78-94 | the base table is left as it is |
| Decomposer.BaseKeyOnlyInBase | utils/3NF_Checker.py:79-83 | the base key lies in the first group only, so every later table receives a sampled key column |
| Decomposer.Decompose | utils/3NF_Checker.py:45-73 | a table with no columns fails; every table of a success is valid |
| Decomposer.DecomposeFails | utils/3NF_Checker.py:33-87 | on a table with columns, decomposition fails exactly when the base pool is empty and some later table has rows |
| Decomposer.DecomposeLinks | utils/3NF_Checker.py:75-94 | in a success, every later table links to the base table through the base key |
| Decomposer.DecomposeBase | utils/3NF_Checker.py:45-59 | the base table is the group of the frame's first column, named after it, and has no foreign key |
| ErGenerator.ErGraphCounts | utils/er_generator.py:23-100 | one box per table, one ellipse and one edge per column, and one diamond and two edges per foreign key whose target is drawn |
| ErGenerator.ErGraphTable | utils/er_generator.py:23-61 | table `j` is a box at `j/n` of a turn, with an ellipse and an edge for each of its columns |
| ErGenerator.ErGraphDiamonds | utils/er_generator.py:64-100 | a foreign key gets its diamond exactly when its target table is drawn; each diamond is wired to both tables, after all column edges |
| ErGenerator.EntityPartCounts | utils/er_generator.py:23-61 | the first loop draws boxes and ellipses only |
| ErGenerator.TableDiamondsHas | utils/er_generator.py:66-100 | within one table, a key with an unknown target is skipped and every other key gets its diamond |
| ErGenerator.EntityAnglesOrdered | utils/er_generator.py:25 | tables sit at distinct angles within one turn, in list order |
| ErGenerator.AttributeFan | utils/er_generator.py:45 | several columns fan out in column order over the half turn starting at their table's angle |
| ErGenerator.LoneAttributeAngle | utils/er_generator.py:45 | a single column's ellipse points the same way as its table |
| ErGenerator.DiamondLabel | utils/er_generator.py:83-85 | the label starts with `{column} → {ref_table}`; it adds `.{ref_column}` exactly when the result is at most 30 characters |
| ErGenerator.OutputPath | utils/er_generator.py:103-105 | the returned path is the folder, "/", the file name, "." and the format |
| ErGenerator.GenerateErDiagram | utils/er_generator.py:5-105 | the diagram is the graph of the two loops, saved under the output path |
| StepGate.StepOrder | app/app.py:21-31 | the position of a known step in clean, fd, 1nf, 2nf, 3nf, er; -1 exactly for anything else |
| StepGate.MaxOrder | app/app.py:79 | the largest order among the steps, which some step has |
| StepGate.ErCheckIff | app/app.py:71-75 | the test on the first "er" fails exactly when some "er" has no "3nf" before it |
| StepGate.ScanDescentLast | app/app.py:80-84 | the loop only ever blocks the last step, and blocks it exactly when it is below the maximum |
| StepGate.GateAdmits | app/app.py:59-84 | a request runs exactly when it names a file and steps, starts with "clean", has a "3nf" before every "er", and no step is higher than the last |
| StepGate.GateFirstFailure | app/app.py:59-84 | the checks run in program order and the first failing one answers, with its status, message and blocked step |
| StepGate.EarlierDescentPasses | app/app.py:79-84 | a descent before the end is not blocked: clean, 2nf, fd, 3nf runs |
| StepGate.ErBeforeThirdNFReported | app/app.py:71-84 | clean, er, 3nf is rejected by the ER check |
| StepGate.RunClean | app/app.py:94-101 | a successful clean step leaves a well-formed table, adds its own entry and keeps every other entry |
| StepGate.RunFd | app/app.py:102-107 | the fd step adds its own entry, keeps the table and keeps every other entry |
| StepGate.RunFirstNF | app/app.py:108-116 | the 1nf step keeps the table well formed, adds its own entry and keeps every other entry |
| StepGate.RunSecondNF | app/app.py:117-137 | a successful 2nf step records its answer and keeps the table |
| StepGate.RunDecompose | app/app.py:138-161 | a successful 3nf or er step records its answer and keeps the table |
| StepGate.SecondNFStep | app/app.py:117-137 | the 2nf step uses the first column as key and the earlier dependencies, or a fresh search when there are none; the table is reported in 2NF exactly when no violation is found |
| StepGate.SecondNFNoColumns | app/app.py:118 | the 2nf step raises on a table without columns |
| StepGate.ErStepDiagram | app/app.py:146-161 | a successful er step records the ER graph of a fresh decomposition of the current table, not of an earlier 3nf step, as a PNG under `static/er_diagrams` |
| StepGate.RunStep | app/app.py:93-161 | a successful step keeps the table well formed and, for a known step, records its own entry and keeps the others |
| StepGate.UnknownStepIgnored | app/app.py:93-161 | a name outside the hierarchy does nothing |
| StepGate.RunStepKeys | app/app.py:93-161 | a step adds an entry under its own name when it is known, and nothing else |
| StepGate.Dispatch | app/app.py:93-161 | the dispatch runs `RunStep` on every state and keeps tables well formed |
| StepGate.LoopKeys | app/app.py:93-161 | a completed loop has entries for exactly the known steps it ran |
| StepGate.RunEtl | app/app.py:54-163 | the handler rejects a request exactly when the checks fail |
| StepGate.RunEtlKeys | app/app.py:93-162 | a completed run's step results have entries for exactly the known requested steps |
| EtlUi.CanonicalIndexIsStepOrder | static/js/ETL_UI.js:3 | the browser's `stepOrder.indexOf` and the server's `step_order` number the steps alike |
| EtlUi.FindFirstRedArrowIndex | static/js/ETL_UI.js:17-25 | -1 exactly when no arrow points backwards; otherwise the position after the first backward arrow |
| EtlUi.ClassifyIff | static/js/ETL_UI.js:119-130 | an arrow is red exactly when it points backwards, blue exactly when it skips a step forwards, and green otherwise |
| EtlUi.ArrowLoopColors | static/js/ETL_UI.js:116-132 | the loop appends one colour per arrow, in order, and keeps what was there |
| EtlUi.ArrowLoopBlocked | static/js/ETL_UI.js:116-132 | the loop blocks exactly when some arrow points backwards, and then at the position after the last such arrow |
| EtlUi.RenderSpec | static/js/ETL_UI.js:107-132 | `renderPipeline` colours each arrow by its direction; it blocks exactly when some arrow points backwards, at the position after the last such arrow, else at -1 |
| EtlUi.FetchHiddenAsWritten | static/js/ETL_UI.js:188-200 | with the flags a render leaves, a step's result is hidden exactly when it lies at or after the position following the LAST backward arrow; a step between two backward arrows is still requested |
| EtlUi.FetchSendsPrefix | static/js/ETL_UI.js:202-211 | what is sent is the list up to and including step `idx`, ending with that step |
| EtlUi.FirstRed | static/js/ETL_UI.js:17-25 | the position after the first backward arrow from a given position on, or -1 when there is none |
| EtlUi.RenderFirstRed | static/js/ETL_UI.js:115 | the corrected render blocks after the first backward arrow, with the same colours |
| EtlUi.FetchHiddenFirstRed | static/js/ETL_UI.js:115-132 | with the corrected render, a step is hidden exactly when some backward arrow ends at or before it |
| EtlUi.StepAfterRedArrowShown | static/js/ETL_UI.js:115-126 | the list clean, 2nf, fd, 3nf, 1nf has a backward arrow into fd. As written, the 3nf result is still requested, and the server runs it; the corrected render hides it |
| EtlUi.ClickStepSpec | static/js/ETL_UI.js:235-246 | a click appends the step only when it is absent, keeps the list free of repeats, and requests the last step's result |
| EtlUi.ClearPipeline | static/js/ETL_UI.js:249-257 | clearing empties the list and keeps the file |
| EtlUi.UploadDone | static/js/ETL_UI.js:276-285 | an upload records the new path, empties the list and enables the buttons |
| EtlUi.ReplayNoDup | static/js/ETL_UI.js:235-285 | no sequence of clicks, clears and uploads puts a step in the list twice |

## Where the model follows the code

Each of these follows what the code does, including where its behaviour is
easy to overlook.

- On a table with no rows, `find_all_fds` reports every candidate dependency
  (`FdChecker.FindAllFdsNoRows`). An empty group-by passes `all()` vacuously.
- The prefix decomposer fails on a table with no columns
  (`ColumnCombining.CombineColumns`, `Decomposer.Decompose` with
  `NoColumns`), because `max()` of an empty sequence raises.
- `rows_dropped_due_to_na` is the count of missing cells before the drop,
  not a row count (`DataCleaning.CleanDataDropNa`).
- `re.split` keeps empty pieces: "a,,b" explodes into three rows, one of
  them empty (`FirstNF.EmptyPiecesKept`).
- `clean_data` raises in two cases (`DataCleaning.CleanDataFails`):
  - two names that clean to the same name, since `df[c]` is then a frame
    without `.str`;
  - a name whose stem holds a line break, since `.` does not match it and
    `pat.match` returns `None`.
- The 2NF step takes the first column as the key without checking that it
  is one (`StepGate.SecondNFStep`).
- The `other_table` branch of `decompose_3nf` cannot be reached, because
  every column has a prefix group. `Decomposer.OtherTable` models it and
  `Grouping.UngroupedEmpty` shows it is never built.
- `$` in `re.sub(r'[\d_]+$', ...)` also matches just before a final line
  break (`ColumnCombining.NormalizeBreakDigit`).
- `app.py` imports `utils.cleaner`, `utils.first_nf_checker`,
  `utils.second_nf_checker` and `utils.third_nf_checker`. The files define
  these functions in `data_cleaning.py`, `1NF_Checker.py`, `2NF_Checker.py`
  and `3NF_Checker.py`/`nf_checker.py`. The model takes those files as the
  modules the handler calls. `Env.strategy` chooses the decomposer variant.
- The server's gate accepts a list with a descent before the end
  (`StepGate.EarlierDescentPasses`); only the browser hides those results.

## Left out

- Lower: Python's `str.lower()` is Unicode-aware, but the model lower-cases
  ASCII letters only. So "Ä" stays "Ä", and a character whose lower case is
  longer ("İ" becomes two characters) keeps its length.
- IsDigit: `\d` in a `str` pattern matches every Unicode decimal digit, but
  the model matches only '0' to '9'. So "price٣" keeps its last character.
- CleanName: inherits the ASCII-only case map. Columns "Ä" and "ä_1" get
  different roots in the model, while the program merges them.
- Normalize: inherits the ASCII-only case map and digit class of `Lower` and
  `IsDigit`.
- Prefix: inherits the ASCII-only case map.
- CombineColumns: builds its frame from the corrected key loop
  (`ColumnCombining.VisitKeys`), not the loop as written; see Findings.
  `ColumnCombining.NormalizedVisitAgrees` proves the two agree whenever no
  column name contains a line break. Only such names can tell them apart.
- RunEtl: the `latest_csv` entry of every answer is not modelled, nor are
  the CSV files the clean and 1nf steps write. `StepGate.RunEtlKeys`
  describes only the step entries.
- ClickStep: the page replaces `csvPath` with the answer's `latest_csv`
  (ETL_UI.js lines 220-222). Later requests therefore start from the cleaned
  or 1NF file. The model keeps the uploaded path; replies are not modelled.
- CleanData: pandas' type inference on the input is a parameter.
  - `types` (and `Env.columnType` in the handler) gives each input column's
    dtype family: text (`object` or `string`), `bool`, or other. The
    model does not infer it from the cells.
  - From those types the model derives what `select_dtypes` picks after
    the merge: merged roots, text columns, and bool columns once NaN padding
    has made them `object` (`DataCleaning.TextAfterMerge`).
  - Cells are string forms, so the change of an integer column to float
    after the merge's `concat` (3 printing as "3.0") is not modelled.
- CleanDataStripped: when merges happen but append no rows (every member
  empty), the model takes a bool column to stay `bool`. Whether pandas'
  `concat` with an empty frame changes the dtype depends on its version.
- CleanDataMergedColumn: the exact content of a merged column is proved
  only when no column outside the group is named after the root and no
  member is named after another merged root. Otherwise pandas aligns by
  name and mixes groups: with columns "a1_2", "a1_3" and "a1", the column
  "a1" (root "a") keeps its own cells under the merged root "a1".
  `DataCleaning.MergeAll` models those cases too; only the lemma is
  restricted.
- ErFilename: `Env.stem` stands for `splitext(basename(csv_path))` and is not
  tied to the request's path. The clock is `Env.timestamp`.
- Sample: pandas' random generator is the `draw` parameter. Any draw
  function is allowed, so no particular sampling is assumed.
- GenerateErDiagram: the diagram is modelled as Graphviz's input, not its
  output.
  - Not modelled: styling attributes, floating-point coordinates (angles are
    exact fractions of a turn), the `atan2` offset of diamonds, rendering,
    and the files written.
  - Graphviz merges nodes with equal ids; the model keeps the node list as
    emitted.
- Rendering: HTML tables (`tabulate`), the Flask app and routes,
  `upload_csv` and `save_temp_file`, and the `print_tables`, `save_tables`
  and `get_tables_tabular_html` helpers are left out. They are I/O, or
  formatting of data the model already returns.
- Page UI: the page's DOM, jsPlumb drawing, dragging, the skip and reverse
  messages, and the asynchronous `fetch` are left out. The model starts from
  a page whose flags come from a render of the current list.

## Findings

| source | as written | input that shows it | evidently intended | confidence | as-written member | corrected member |
|---|---|---|---|---|---|---|
| static/js/ETL_UI.js:115-126 | the arrow loop sets `blockedIdx = i + 1` on every backward arrow, so it ends up after the LAST one | steps clean, 2nf, fd, 3nf, 1nf and a request for position 3 (3nf): the arrow 2nf→fd points backwards, but `blockedIdx` is 4, so the 3nf result is requested and shown | as the comment on line 115 says: block after the FIRST backward arrow, hiding every later step | not executed | EtlUi.RenderPipeline, EtlUi.FetchHiddenAsWritten, EtlUi.StepAfterRedArrowShown | EtlUi.RenderPipelineFirstRed, EtlUi.RenderFirstRed, EtlUi.FetchHiddenFirstRed |
| utils/3NF_Checker.py:19-31 | `processed.update(similar)` marks the member columns' original names as processed, next to the keys, and keys and names share one set | columns "a1\n" and "a1\n_": the first column's key is "a\n", and its name "a1\n" is marked processed. The second column's key is "a1\n", so it is skipped and its data is lost | skip a column only when its key has been combined | not executed | ColumnCombining.VisitAsWritten, ColumnCombining.LineBreakColumnLost, ColumnCombining.MarkedNameHidesKey | ColumnCombining.VisitKeys, ColumnCombining.CombinedKeysOrder |

The browser model (`EtlUi.ClickStep`) follows the code as written and uses
`EtlUi.RenderPipeline`. The decomposer uses the corrected key loop. The
same marking appears in `utils/nf_checker.py` at lines 27-28 and 31.
`ColumnCombining.MarkedNameHidesKey` shows that, in either variant, a key
equal to another column's name is skipped.
