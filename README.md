# Tabular engine of the data-analysis dashboard

This project models, in Dafny, the in-memory tabular engine inside three
React components of the dashboard:

- the data table (`DataTable.tsx`): the search filter, the column sort with
  its ascending/descending toggle, the 1-based pager, column-type
  inference, column statistics, CSV export and the export file name, and the
  view state the header clicks and pager buttons update;
- the cleaning panel (`DataCleaning.tsx`): `cleanData` with its four stages
  (drop empty rows, drop duplicate rows, trim and collapse whitespace, fill
  missing values) and its `changes` counter, and the counters of
  `analyzeDataQuality`;
- the visualisations page (`Visualizations.tsx`): the columns, the numeric
  columns, the group-by-sum bar series (`chartData`), the frequency pie
  series (`pieData`) and the overview tiles.

Conventions of the model:

- A field value is `Value = Null | Undef | Str(s) | Num(n) | Bool(b)`
  (module `JsValues`). Numbers are integers.
- A record is a sequence of `(key, Value)` pairs in property order
  (`Records.Row`). Reading a missing key gives `Undef`.
- The column list is the keys of the first record.
- `String(v)`, `Number(v)`, `toLowerCase`, `trim` and `replace(/\s+/g, ' ')`
  are written out as functions over these values (module `JsValues`).
- The order of `Object.keys`/`Object.values`/`Object.entries` on the
  dictionaries that `chartData` and `pieData` build follows
  OrdinaryOwnPropertyKeys (ECMA-262, section 10.1.11.1): array-index keys
  first, ascending, then the other keys in insertion order (module
  `ObjectKeys`).
- `Array.prototype.sort` is a stable sort, as ECMA-262 requires since
  2019. It is modelled by a stable insertion sort (`Sequences.SortBy`).
  This describes the program only when the comparator is consistent. On a
  column that mixes numbers and strings the table's comparator is not
  (`TableView.MixedColumnComparatorCycles`), and ECMA-262's
  `Array.prototype.sort` then leaves the sort order implementation-defined. There the
  insertion sort's output, and its adjacent pairs in comparator order,
  describe the model, not the program.
- `JSON.stringify(row)` is modelled by the row's entries with the
  `undefined`-valued ones dropped (`DataCleaning.Serialization`). Two rows
  are duplicates when these are equal.

Where the code and the dashboard's written description differ, the model
follows the code, and lemmas show the differences:

- A column whose 100-row sample holds only `null`/`undefined` is typed
  `number`, because `every` over an empty list is true. The description
  says `text`. See `TableView.AllNullSampleIsNumber`.
- Cleaning is not idempotent. Duplicates are removed before whitespace is
  trimmed, so a second run can remove a row that trimming turned into a
  duplicate. The description calls cleaning idempotent. See
  `DataCleaning.CleanIsNotIdempotent`.
- The completion of a table with no rows is `NaN` (0 / 0 rounded). The
  description asks for 0. See `TableView.Completion`; the headers that show
  it are drawn only for non-empty data (`TableView.RenderedCompletionIsNumber`).
- `''` counts as filled: only `null` and `undefined` are left out. The
  description speaks of non-empty values. See `TableView.FilledValues`.
- The bars list array-index labels (such as "2" or "10") first, in
  ascending order, because `Object.values` follows property order. The
  description says first-appearance order. See
  `ObjectKeys.OwnKeyOrderExample`.
- The pie slices with equal counts keep the same property order, array-index
  labels first. The description says first-seen order. See
  `Visualizations.PieRankedStable`.

Modules and their files:

- `JsValues` (`js_values.dfy`)
- `Sequences` (`sequences.dfy`): filter, subsequence, dedup, stable sort, sums
- `Records` (`records.dfy`)
- `ObjectKeys` (`object_keys.dfy`)
- `TableView` (`table_view.dfy`)
- `TableState` (`table_state.dfy`)
- `CsvExport` (`csv_export.dfy`)
- `DataCleaning` (`data_cleaning.dfy`)
- `Visualizations` (`visualizations.dfy`)

The pure parts of the components are functions with lemmas. The parts that
update state step by step are imperative Dafny, as follows:

- The view state is the class `TableState.ViewState`.
- The stages of `cleanData` are methods with loops over rows and keys. Each
  is proved equal to a specification function.
- The `seen` set of the duplicate filter is a loop variable of
  `Sequences.FilterUnseen`.
- Each `reduce` that fills a dictionary is a loop over a `map`:
  `Visualizations.GroupRows` and `Visualizations.TallyRows`.

## Model

| member | source | states |
|---|---|---|
| JsValues.Trim | analyze-bot-dash-main/src/components/DataCleaning.tsx:82 | the result has no leading or trailing whitespace, and it is empty exactly when the input has no non-whitespace character |
| JsValues.TrimIdempotent | analyze-bot-dash-main/src/components/DataCleaning.tsx:82 | trimming twice gives the same string as trimming once |
| JsValues.Collapse | analyze-bot-dash-main/src/components/DataCleaning.tsx:85 | collapsing never lengthens a string and keeps whether it starts and ends with whitespace |
| JsValues.CollapseKeepsContentChars | analyze-bot-dash-main/src/components/DataCleaning.tsx:85 | the non-whitespace characters survive collapsing, in order, and no other survives |
| JsValues.CollapseConcat | analyze-bot-dash-main/src/components/DataCleaning.tsx:85 | a prefix ending in a non-whitespace character collapses independently of what follows |
| JsValues.CollapseRun | analyze-bot-dash-main/src/components/DataCleaning.tsx:85 | a whitespace run followed by a non-whitespace character, or by the end, becomes one space |
| JsValues.CollapseSeparator | analyze-bot-dash-main/src/components/DataCleaning.tsx:85 | between two non-whitespace characters a whitespace run of any length becomes exactly one space |
| JsValues.CollapseNormalizes | analyze-bot-dash-main/src/components/DataCleaning.tsx:85 | after collapsing, the only whitespace is the plain space and no two whitespace characters are adjacent |
| JsValues.CollapseContent | analyze-bot-dash-main/src/components/DataCleaning.tsx:85 | collapsing keeps a string blank or non-blank |
| JsValues.CollapseTrimIsTidy | analyze-bot-dash-main/src/components/DataCleaning.tsx:81-86 | trim followed by collapse yields a string with no whitespace at either end and no whitespace run longer than one space |
| JsValues.NumberOfStringRoundTrip | src/pages/Visualizations.tsx:56 | `Number(String(n))` reads every integer `n` back as `n` |
| JsValues.NatToStringRoundTrip | analyze-bot-dash-main/src/components/DataTable.tsx:51 | the decimal digits written for `n` have the value `n` |
| JsValues.LowerIdempotent | analyze-bot-dash-main/src/components/DataTable.tsx:35 | lower-casing an already lower-cased string changes nothing |
| JsValues.CompareStrings | analyze-bot-dash-main/src/components/DataTable.tsx:55 | the comparison result is -1, 0 or 1 |
| JsValues.CompareStringsAntisymmetric | analyze-bot-dash-main/src/components/DataTable.tsx:55-57 | swapping the operands negates the comparison |
| JsValues.CompareStringsZero | analyze-bot-dash-main/src/components/DataTable.tsx:55 | the comparison is 0 exactly for equal strings |
| JsValues.CompareStringsTransitive | analyze-bot-dash-main/src/components/DataTable.tsx:55 | the string comparison is transitive |
| Records.Get | analyze-bot-dash-main/src/components/DataTable.tsx:44 | `row[key]` is the value of the first property named `key`, or `undefined` when there is none |
| Sequences.FilterUnseen | analyze-bot-dash-main/src/components/DataCleaning.tsx:66-72 | the loop with its `seen` set keeps exactly the first row of each key, in order |
| Sequences.DedupByKeepsFirstOccurrences | analyze-bot-dash-main/src/components/DataCleaning.tsx:66-72 | the deduplicated sequence is the input with every element masked out whose key occurred earlier |
| Sequences.SortByStable | src/pages/Visualizations.tsx:90 | sorting by a key difference orders by the key, and elements with equal keys keep their relative order |
| ObjectKeys.OwnKeyOrder | src/pages/Visualizations.tsx:76 | the property order is a permutation of the insertion order |
| ObjectKeys.OwnKeyOrderShape | src/pages/Visualizations.tsx:76 | array-index keys come first, in ascending numeric order |
| ObjectKeys.OwnKeyOrderKeepsOthers | src/pages/Visualizations.tsx:76 | keys that are not array indices keep their insertion order |
| ObjectKeys.OwnKeyOrderExample | src/pages/Visualizations.tsx:76 | keys added as "b", "10", "02", "2" are listed as "2", "10", "b", "02" |
| ObjectKeys.ValuesInOrder | src/pages/Visualizations.tsx:76 | `Object.values` lists the dictionary's value for each key, in property order |
| TableView.FilterRows | analyze-bot-dash-main/src/components/DataTable.tsx:32-38 | the result is an order-preserving subsequence of the data, and a row is in it exactly when `MatchesSearch` holds: some value's lower-cased text contains the lower-cased term |
| TableView.FilterRowsMultiset | analyze-bot-dash-main/src/components/DataTable.tsx:32-38 | a matching row is kept as many times as it occurs and no other row is kept |
| TableView.SearchIgnoresTermCase | analyze-bot-dash-main/src/components/DataTable.tsx:32-38 | the search lower-cases its term, so a term and its lower-cased form select the same rows |
| TableView.EmptySearchKeepsRowsWithFields | analyze-bot-dash-main/src/components/DataTable.tsx:34-36 | with an empty search term, exactly the rows with at least one field are kept |
| TableView.DescIsSwappedAsc | analyze-bot-dash-main/src/components/DataTable.tsx:47-58 | the descending comparator, `RowComparator(col, Desc)`, is the ascending one with its operands swapped; `RowComparator` subtracts two numbers and otherwise compares lower-cased text |
| TableView.ComparatorAntisymmetric | analyze-bot-dash-main/src/components/DataTable.tsx:47-58 | swapping two rows flips the sign of the comparator |
| TableView.SortRows | analyze-bot-dash-main/src/components/DataTable.tsx:40-60 | with no sort column the rows come back unchanged; otherwise the result is a permutation with each adjacent pair in comparator order |
| TableView.SortRowsStableWhenUniform | analyze-bot-dash-main/src/components/DataTable.tsx:40-60 | on a column that is all numbers or has no numbers, the sort is stable: the rows that tie with any given row appear in the result in their original relative order |
| TableView.ComparatorTransitive | analyze-bot-dash-main/src/components/DataTable.tsx:47-58 | the comparator is transitive on rows whose column is all numbers or has no numbers |
| TableView.SortRowsSortedWhenUniform | analyze-bot-dash-main/src/components/DataTable.tsx:40-60 | on a column that is all numbers or has no numbers, every pair of sorted rows is in comparator order |
| TableView.MixedColumnComparatorCycles | analyze-bot-dash-main/src/components/DataTable.tsx:47-58 | in a column mixing numbers and strings the comparator has a cycle, so it is not an order |
| TableView.PageWindow | analyze-bot-dash-main/src/components/DataTable.tsx:62-65 | page `p` is rows `(p-1)*10` to `(p-1)*10+10`, clamped to the length, and holds at most ten rows |
| TableView.TotalPages | analyze-bot-dash-main/src/components/DataTable.tsx:67 | the page count is the least count of ten-row pages that holds every row |
| TableView.PagesPrefix | analyze-bot-dash-main/src/components/DataTable.tsx:62-65 | pages 1 to k laid end to end are the first `10k` rows |
| TableView.PagesCoverAll | analyze-bot-dash-main/src/components/DataTable.tsx:62-67 | pages 1 to `totalPages` laid end to end give every sorted row back, in order |
| TableView.PageBeyondLastIsEmpty | analyze-bot-dash-main/src/components/DataTable.tsx:62-67 | a page past the last one is empty |
| TableView.PageWindowSubMultiset | analyze-bot-dash-main/src/components/DataTable.tsx:62-65 | a page holds only rows of the sequence, each at most as often as it occurs there |
| TableView.CaptionMatchesWindow | analyze-bot-dash-main/src/components/DataTable.tsx:246 | on a page in range, the "Showing a to b of n" caption names exactly the rows of the page |
| TableView.SampleValues | analyze-bot-dash-main/src/components/DataTable.tsx:70-71 | the sample holds exactly the non-null values of the column among the first 100 rows |
| TableView.ColumnTypeOf | analyze-bot-dash-main/src/components/DataTable.tsx:69-76 | `number` exactly when every sampled value is numeric; `date` exactly when some is not numeric and all date-parse; `text` otherwise |
| TableView.ColumnTypeIgnoresTail | analyze-bot-dash-main/src/components/DataTable.tsx:70 | rows after the first 100 never change the type |
| TableView.AllNullSampleIsNumber | analyze-bot-dash-main/src/components/DataTable.tsx:73 | a column with only `null`/`undefined` in its sample is typed `number` |
| TableView.FilledValues | analyze-bot-dash-main/src/components/DataTable.tsx:79 | the filled values are the column's non-null values over all rows, `''` included, in row order and each as often as it occurs |
| TableView.FilledCount | analyze-bot-dash-main/src/components/DataTable.tsx:79-81 | `filled` is the number of rows whose value is neither null nor undefined |
| TableView.RoundedPercent | analyze-bot-dash-main/src/components/DataTable.tsx:88 | the percentage is the exact rational quotient `100 * filled / total` rounded half up; the source rounds the double `(filled / total) * 100`, which can differ (see Left out) |
| TableView.PercentAtMostHundred | analyze-bot-dash-main/src/components/DataTable.tsx:88 | the rounded percentage of at most `total` filled values is at most 100 |
| TableView.Completion | analyze-bot-dash-main/src/components/DataTable.tsx:88 | `NaN` exactly for an empty table, otherwise the exact quotient's percentage rounded half up, in [0, 100] |
| TableView.ColumnStatsOf | analyze-bot-dash-main/src/components/DataTable.tsx:78-90 | `unique` is the number of distinct filled values and `filled` the number of rows with a non-null value; `unique <= filled <= total`; completion is `Completion(filled, total)`, so it is bracketed by `100 * filled / total`; completion (the exact quotient rounded half up) is in [0, 100] or `NaN` |
| TableView.RenderedCompletionIsNumber | analyze-bot-dash-main/src/components/DataTable.tsx:129-135 | the headers render only for non-empty data, so the percentage shown is a number |
| TableState.HeaderClick | analyze-bot-dash-main/src/components/DataTable.tsx:195-202 | the clicked column becomes the sort column; its direction flips when it was already the sort column and is ascending otherwise |
| TableState.HeaderClickTwice | analyze-bot-dash-main/src/components/DataTable.tsx:195-202 | two clicks on the current sort column restore the sort as it was; two clicks on another column leave it selected and descending |
| TableState.ViewState.constructor | analyze-bot-dash-main/src/components/DataTable.tsx:21-25 | the initial state has no search, no sort column, ascending order and page 1 |
| TableState.ViewState.Window | analyze-bot-dash-main/src/components/DataTable.tsx:62-65 | the current page is `PageWindow` of the filtered, sorted rows at the current page: at most ten rows, empty past the last page, and only filtered rows |
| TableState.ViewState.ClickHeader | analyze-bot-dash-main/src/components/DataTable.tsx:195-202 | a header click updates the sort column and direction as `HeaderClick` says, and changes nothing else |
| TableState.ViewState.SetSearchTerm | analyze-bot-dash-main/src/components/DataTable.tsx:164 | typing sets the term and leaves the sort and the page as they were |
| TableState.ViewState.SelectSortColumn | analyze-bot-dash-main/src/components/DataTable.tsx:169 | the sort selector sets the column and keeps the direction and the page |
| TableState.ViewState.PreviousPage | analyze-bot-dash-main/src/components/DataTable.tsx:250-257 | Previous goes back one page, is disabled on page 1, and keeps the page in range |
| TableState.ViewState.NextPage | analyze-bot-dash-main/src/components/DataTable.tsx:275-282 | Next goes on one page, is disabled on the last page, and keeps the page in range |
| TableState.ViewState.GoToPage | analyze-bot-dash-main/src/components/DataTable.tsx:260-272 | a numbered button sets the page to one of 1 to min(5, totalPages) |
| CsvExport.DoubleQuotes | analyze-bot-dash-main/src/components/DataTable.tsx:104 | doubling quotes never shortens a string, adds no new character, and leaves a string without quotes unchanged |
| CsvExport.EncodeCell | analyze-bot-dash-main/src/components/DataTable.tsx:100-107 | a string holding a comma or a quote is quoted with its quotes doubled; any other value is its text (`''` for null and undefined) and holds no comma or quote |
| CsvExport.RowCells | analyze-bot-dash-main/src/components/DataTable.tsx:99-107 | a data line has one encoded cell per header, in header order |
| CsvExport.HandleExport | analyze-bot-dash-main/src/components/DataTable.tsx:92-116 | nothing is exported exactly when the table is empty; otherwise the content is the CSV document and the name is the export name |
| CsvExport.SplitJoin | analyze-bot-dash-main/src/components/DataTable.tsx:98 | splitting a join gives the parts back when none holds the separator |
| CsvExport.ReadQuotedRoundTrip | analyze-bot-dash-main/src/components/DataTable.tsx:104 | a quoted field body reads back as the original text, with the rest after the closing quote left over |
| CsvExport.ReadCellRoundTrip | analyze-bot-dash-main/src/components/DataTable.tsx:100-107 | an encoded cell followed by a comma or the line end reads back as the cell's text |
| CsvExport.ReadLineRoundTrip | analyze-bot-dash-main/src/components/DataTable.tsx:100-107 | a line of encoded cells joined by commas reads back as the text of every cell |
| CsvExport.ExportRoundTrip | analyze-bot-dash-main/src/components/DataTable.tsx:96-109 | the document `CsvContent(data)` reads back as the first row's keys followed by one line of cell texts per row |
| CsvExport.LastDot | analyze-bot-dash-main/src/components/DataTable.tsx:116 | the position of the last dot, or -1 when there is none |
| CsvExport.StripExtension | analyze-bot-dash-main/src/components/DataTable.tsx:116 | a final dot followed by characters that are neither `/` nor `.` is cut off; a name without one is unchanged |
| CsvExport.ExportName | analyze-bot-dash-main/src/components/DataTable.tsx:116 | the download name is the file name with its extension stripped, then `_export.csv` |
| CsvExport.ExportNameDropsExtension | analyze-bot-dash-main/src/components/DataTable.tsx:116 | "sales.csv" is exported as "sales_export.csv" |
| CsvExport.ExportNameKeepsDirectoryDot | analyze-bot-dash-main/src/components/DataTable.tsx:116 | a dot before the last slash is not an extension |
| DataCleaning.IsBlankIsTrimEmpty | analyze-bot-dash-main/src/components/DataCleaning.tsx:59 | a value is blank exactly when it is falsy or its text trims to `''` |
| DataCleaning.DropEmptyRowsKeepsNonEmpty | analyze-bot-dash-main/src/components/DataCleaning.tsx:56-62 | remove-empty keeps, in order, exactly the rows that are not entirely blank, each as many times as it occurs, and drops every blank one |
| DataCleaning.FalsyValuesMakeRowsEmpty | analyze-bot-dash-main/src/components/DataCleaning.tsx:59 | a row of `0`, `false` and `" "` and a row with no keys are dropped, while a row holding `"0"` is kept |
| DataCleaning.Serialization | analyze-bot-dash-main/src/components/DataCleaning.tsx:68 | the serialization has at most as many entries as the row, none of them `undefined`, and every entry of the row that is not `undefined` appears in it |
| DataCleaning.SerializationKeepsDefined | analyze-bot-dash-main/src/components/DataCleaning.tsx:68 | the serialization is the row with its `undefined` entries filtered out: a subsequence keeping every other entry as often as it occurs |
| DataCleaning.DropDuplicateRowsDistinct | analyze-bot-dash-main/src/components/DataCleaning.tsx:64-74 | remove-duplicates keeps a subsequence with pairwise-distinct serializations, and every serialization of the input survives |
| DataCleaning.DropDuplicateRowsKeepsFirst | analyze-bot-dash-main/src/components/DataCleaning.tsx:64-74 | remove-duplicates keeps exactly the rows whose serialization has not occurred before |
| DataCleaning.RemoveDuplicateRows | analyze-bot-dash-main/src/components/DataCleaning.tsx:64-74 | the filter with its `seen` set computes remove-duplicates |
| DataCleaning.CleanText | analyze-bot-dash-main/src/components/DataCleaning.tsx:80-87 | only string values change, and they stay strings |
| DataCleaning.CleanRow | analyze-bot-dash-main/src/components/DataCleaning.tsx:77-89 | a cleaned row has the same keys in the same order, and each value is cleaned on its own |
| DataCleaning.CleanRows | analyze-bot-dash-main/src/components/DataCleaning.tsx:77-90 | the row count is kept and each row is cleaned on its own |
| DataCleaning.CleanRowFields | analyze-bot-dash-main/src/components/DataCleaning.tsx:78-89 | the `forEach` over a row's keys computes the cleaned row |
| DataCleaning.CleanTextFields | analyze-bot-dash-main/src/components/DataCleaning.tsx:76-91 | the `map` over the rows computes the cleaned rows |
| DataCleaning.FillValue | analyze-bot-dash-main/src/components/DataCleaning.tsx:97-99 | the result is never missing; a missing value becomes 'N/A' and any other value is unchanged |
| DataCleaning.FillRow | analyze-bot-dash-main/src/components/DataCleaning.tsx:95-101 | the filled row has the same keys and each value is filled on its own |
| DataCleaning.FillRows | analyze-bot-dash-main/src/components/DataCleaning.tsx:94-102 | the row count is kept and each row is filled on its own |
| DataCleaning.FillRowFields | analyze-bot-dash-main/src/components/DataCleaning.tsx:95-101 | the `forEach` over a row's keys computes the filled row |
| DataCleaning.FillMissingValues | analyze-bot-dash-main/src/components/DataCleaning.tsx:93-103 | the `map` over the rows computes the filled rows |
| DataCleaning.CleanData | analyze-bot-dash-main/src/components/DataCleaning.tsx:52-110 | `cleaned` and `changes`, updated stage by stage, are `Clean(data, opts)`, the staged pipeline |
| DataCleaning.KeptRowsSubsequence | analyze-bot-dash-main/src/components/DataCleaning.tsx:56-74 | the rows the two filters keep are a subsequence of the input |
| DataCleaning.CleanCountsRemovedRows | analyze-bot-dash-main/src/components/DataCleaning.tsx:53-74 | `changes` is between 0 and the row count, and the output has exactly `|data| - changes` rows, the ones the filters keep |
| DataCleaning.CleanKeepsKeys | analyze-bot-dash-main/src/components/DataCleaning.tsx:76-103 | each output row has the keys, in order, of the kept row it came from |
| DataCleaning.SpecialCharsOptionIgnored | analyze-bot-dash-main/src/components/DataCleaning.tsx:20 | flipping `removeSpecialChars` never changes the result |
| DataCleaning.CleanLeavesNoMissing | analyze-bot-dash-main/src/components/DataCleaning.tsx:93-103 | with handle-missing on, no output field is null, undefined or `''` |
| DataCleaning.CleanTextIsTidy | analyze-bot-dash-main/src/components/DataCleaning.tsx:76-91 | with trim and standardize on, every output string has no edge whitespace and no whitespace run longer than one space |
| DataCleaning.CleanIsNotIdempotent | analyze-bot-dash-main/src/components/DataCleaning.tsx:64-91 | cleaning `{a: " x"}, {a: "x"}` keeps both rows, and cleaning the result again removes one |
| DataCleaning.ReportPredictsRowFilters | analyze-bot-dash-main/src/components/DataCleaning.tsx:34-36 | `Analyze(data).emptyRows` and `Analyze(data).duplicateRows` (`analyzeDataQuality`) are the numbers of rows remove-empty alone and remove-duplicates alone drop from the raw data, both at most `totalRows` |
| DataCleaning.WhitespaceIssueIsTrimmed | analyze-bot-dash-main/src/components/DataCleaning.tsx:37-41 | a value counted as a whitespace issue is changed by trim and comes out tidy with standardize |
| DataCleaning.ReportMissingValues | analyze-bot-dash-main/src/components/DataCleaning.tsx:42-44 | `missingValues` is 0 exactly when handle-missing would change nothing |
| Visualizations.NumericColumns | src/pages/Visualizations.tsx:53-58 | the numeric columns are a subsequence of the columns, and a column is in it exactly when some row's value there is numeric |
| Visualizations.NullOrBlankMakesNumeric | src/pages/Visualizations.tsx:56 | one `null`, `''`, blank string or boolean in a column makes it numeric |
| Visualizations.OneNumberMakesColumnNumeric | src/pages/Visualizations.tsx:56 | the test is `some`: one number among text makes the column numeric |
| Visualizations.GroupKeysDistinct | src/pages/Visualizations.tsx:67-69 | no label gets two entries |
| Visualizations.GroupKeysMembers | src/pages/Visualizations.tsx:63-74 | the dictionary's keys are exactly the labels that occur (corrected grouping: an entry for every label, not only for labels that are not inherited properties; see Findings) |
| Visualizations.AccumulateIsBuckets | src/pages/Visualizations.tsx:63-74 | the dictionary has an entry for exactly the labels that occur, and each entry is its label's total and row count (corrected grouping: an entry for every label, not only for labels that are not inherited properties; see Findings) |
| Visualizations.GroupRows | src/pages/Visualizations.tsx:63-74 | the loop that updates `acc[xValue]` row by row builds that dictionary and its insertion order (corrected grouping: an entry for every label, not only for labels that are not inherited properties; see Findings) |
| Visualizations.ChartSeries | src/pages/Visualizations.tsx:60-77 | empty when X or Y is unselected or there is no data; otherwise the first min(10, groups) entries in property order (corrected grouping: an entry for every label, not only for labels that are not inherited properties; see Findings) |
| Visualizations.ChartData | src/pages/Visualizations.tsx:60-77 | group, list the values in property order, keep ten: the result is `ChartSeries` (corrected grouping: an entry for every label, not only for labels that are not inherited properties; see Findings) |
| Visualizations.AllBucketsPartitionData | src/pages/Visualizations.tsx:63-74 | before the cut to ten, the counts sum to the number of rows and the values to the sum of `Number(y) \|\| 0` (corrected grouping: an entry for every label, not only for labels that are not inherited properties; see Findings) |
| Visualizations.AllBucketsEntries | src/pages/Visualizations.tsx:68-71 | entry `m` is named by the `m`-th key in property order, and its count is its label's row count, at least 1 (corrected grouping: an entry for every label, not only for labels that are not inherited properties; see Findings) |
| Visualizations.AllBucketsNames | src/pages/Visualizations.tsx:63-76 | an entry is named `k` exactly when some row has label `k` |
| Visualizations.ChartSeriesAsWritten | src/pages/Visualizations.tsx:63-76 | the chart as written has at most ten entries |
| Visualizations.AsWrittenOwnNamesOnly | src/pages/Visualizations.tsx:67 | as written, no entry is named after a property inherited from `Object.prototype` |
| Visualizations.InheritedLabelVanishes | src/pages/Visualizations.tsx:67-68 | a single row labelled "toString" gives an empty chart as written and one entry of value 5 and count 1 when corrected |
| Visualizations.TallyIsGroupSizes | src/pages/Visualizations.tsx:82-86 | the tally has an entry for exactly the labels that occur, holding the number of rows with that label |
| Visualizations.TallyRows | src/pages/Visualizations.tsx:82-86 | the loop `acc[value] = (acc[value] \|\| 0) + 1` builds that tally and its insertion order |
| Visualizations.PieSeries | src/pages/Visualizations.tsx:79-92 | empty without an X column or data; otherwise the first min(8, groups) ranked slices |
| Visualizations.PieData | src/pages/Visualizations.tsx:79-92 | tally, list the entries in property order, sort, keep eight: the result is `PieSeries` |
| Visualizations.PieRankedDescending | src/pages/Visualizations.tsx:90 | the sorted slices are in non-increasing order of count |
| Visualizations.PieRankedStable | src/pages/Visualizations.tsx:88-90 | slices with equal counts keep their `Object.entries` order |
| Visualizations.PieRankedSum | src/pages/Visualizations.tsx:82-90 | before the cut to eight, the counts sum to the number of rows |
| Visualizations.PieRankedPositive | src/pages/Visualizations.tsx:84 | every slice stands for at least one row |
| Visualizations.PieSeriesKeepsLargest | src/pages/Visualizations.tsx:90-91 | no slice left out has a larger count than a slice shown |
| Visualizations.Overview | src/pages/Visualizations.tsx:321-334 | one tile for each of the first six columns, in order; a total tile exactly for the numeric columns, showing the column's sum of `Number(v) \|\| 0`, and otherwise a tile showing the number of distinct values |
| Visualizations.OverviewTotalIsChartSum | src/pages/Visualizations.tsx:328 | a total tile shows the sum of the chart values with that column on the Y axis, whatever the X axis (corrected grouping: an entry for every label, not only for labels that are not inherited properties; see Findings) |
| Visualizations.OverviewUniqueBounds | src/pages/Visualizations.tsx:329 | a distinct-count tile shows between 1 and the number of rows |

## Left out

- Numbers are integers. Floating-point values, `NaN` and `Infinity` as field values, and float sums are not modelled. `Number(s)` covers the decimal-integer literals with optional sign and surrounding whitespace; other numeric literals (`"1.5"`, `"0x10"`, `"1e3"`) read as `NaN`.
- `Date.parse` is a parameter of `TableView.ColumnTypeOf` (`dateParses`), not a date grammar.
- `localeCompare` is modelled by code-point lexicographic order, which is a total order; locale collation is not modelled.
- `toLowerCase` is modelled on the ASCII letters only; other characters are unchanged.
- `JSON.stringify` is modelled by the ordered entries without `undefined` ones; its escaping and number formatting are not modelled.
- The CSV reader exists only to state the round trip, and `CsvExport.ExportRoundTrip` requires at least one column. Its other conditions come from the writer in the code, not from the reader. `EncodeCell`, like the code, quotes a cell only when it holds a comma or a quote, so a string cell holding a line break, such as "a\nb", is written unquoted across two lines and no CSV reader can recover it. Headers are written unescaped, so they must hold no comma, quote or line break.
- `Visualizations.PieSeries`: labels that name inherited properties are not modelled; the model gives every label an ordinary count. As written, `acc` starts as `{}` and `(acc[value] \|\| 0) + 1` reads the inherited property first. For "toString" and the other `Object.prototype` methods, that is a function, so the label gets an own entry holding the function's source text with "1" appended, and each later row with that label appends another "1". For such an entry `b.value - a.value` is `NaN`, so the sort's comparator is inconsistent. For "__proto__", `acc[value]` is `Object.prototype`, the right side is the string "[object Object]1", and the assignment calls the inherited `__proto__` setter. That setter ignores a value that is neither an object nor null (section B.2.2.1.2 of ECMA-262), so no entry is made and the label is missing from `pieData`.
- Property reads of inherited names (`row["toString"]`) are not modelled; a key the record lacks reads as `undefined`.
- The `removeSpecialChars` option has no code path; the model keeps the flag and proves it has no effect.
- The positional field update in `cleanData` is modelled on the key's position in the row. Rows with two properties of the same name cannot arise from JavaScript objects, and the model does not rule them out.
- The `reduce` callbacks of `chartData` and `pieData` are the functions `Visualizations.AddRow` and `Visualizations.AddCount`, which the loops of `GroupRows` and `TallyRows` call on a `map`; the dictionaries are values, not shared objects.
- Toasts, the `Blob`/link download, `setTimeout` delays, routing, rendering, colours and `toLocaleString` formatting are not modelled. `analyze-bot-dash-main/src/pages/Index.tsx` and `analyze-bot-dash-main/src/components/AIChat.tsx` are not part of this model.
- `TableView.SortRows`: in general only adjacent pairs are proved in order. The comparator is not transitive on a column mixing numbers and strings (`TableView.MixedColumnComparatorCycles`), so pairwise order and stability are proved only for uniform columns (`TableView.SortRowsSortedWhenUniform`, `TableView.SortRowsStableWhenUniform`). On a mixed column ECMA-262 leaves the order of `sort` implementation-defined, so the model's insertion-sort order there is one possible outcome, not the program's.
- `TableView.RoundedPercent`: rounds the exact quotient, not the double `(filled / total) * 100` the source computes. The two differ where the double falls just below a half: 29 filled of 200 gives 14.499999999999998, which `Math.round` makes 14, while the model gives 15 (57 of 200: 28 against 29).
- `TableView.Completion`: its percentage is `TableView.RoundedPercent`, so it differs from the source's `Math.round` of a double in the same cases (29 of 200 rows: 15 in the model, 14 in the source).
- `TableView.ColumnStatsOf`: its `completion` is `TableView.Completion` and differs from the source where that does.
- Strings are sequences of Unicode scalar values, while JavaScript strings are UTF-16 code units. Lengths, the comparator's order on characters outside the Basic Multilingual Plane, and `startsWith`/`endsWith` can differ for such characters. `JsValues.IntToString` writes every digit, while `String(n)` switches to exponent form from 1e21.

## Findings

| source | as written | input that shows it | evidently intended | confidence | as-written member | corrected member |
|---|---|---|---|---|---|---|
| src/pages/Visualizations.tsx:63-76 | `acc` starts as `{}`, so `!acc[xValue]` is false for labels that name `Object.prototype` properties; no own entry is created and those rows are missing from `Object.values(grouped)`. For "__proto__" the `+=` lines go further and write `value` and `count` (`NaN`) onto `Object.prototype` itself | one row `{k: "toString", v: 5}` with X = `k` and Y = `v`: the chart is empty | every label that occurs gets an entry (for example with `Object.create(null)` or a `Map`) | not executed | Visualizations.ChartSeriesAsWritten (Visualizations.InheritedLabelVanishes) | Visualizations.ChartSeries (Visualizations.ChartData, Visualizations.AllBucketsNames, Visualizations.GroupKeysMembers, Visualizations.AccumulateIsBuckets, Visualizations.GroupRows, Visualizations.AllBucketsPartitionData, Visualizations.AllBucketsEntries, Visualizations.OverviewTotalIsChartSum) |
