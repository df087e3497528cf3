# dataviz bar-chart helpers in Dafny

This project models the logic of the `dataviz` bar-chart page. The page loads a CSV of coffee-house
chains. It groups the rows by their first column and sums every other column per group. It then
offers each summed column as a measure, and it sorts the resulting records before drawing them.
Three modules follow the three source files that hold this logic:

- `SortingFunctions` (`sorting.dfy`). `sortByYAxis` and `sortByYAxisDescending` are modelled as
  methods on the caller's `array<Rec>`. A record `Rec` has a string `xAxis` and an integer
  `yAxis`. Each method sorts the array in place, as `Array.prototype.sort` does, with a stable
  insertion sort driven by the source's subtracting comparator. Each method returns the same
  array. The methods are proved against `StableSort`, a function on sequences. The lemmas prove
  that `StableSort` is sorted, is a permutation of its input and is stable: for every `yAxis`
  value, the records with that value keep their order. Stability is what ECMA-262 (ECMAScript
  2019, section 22.1.3.27) requires of `Array.prototype.sort`. The lemmas also prove that a
  stable result is unique, that sorting a sorted array changes nothing, and that with distinct
  values the descending order is the reverse of the ascending one.
- `ParsingFunctions` (`parsing.dfy`). This is the in-memory body of `parseCSVForBarChart`. A
  `Table` is a header plus rows. A `Row` is the value of the first (grouping) column plus one
  integer per other column. `Aggregate` is the specification of the whole transformation. It
  returns a `Result`, and with no data rows the result is the TypeError that `Object.keys(data[0])` raises.
  `ParseCsvForBarChart` follows the code: `d3.group`, then one record per group. `BuildEntry` is
  the `forEach` loop that fills each record. Both methods are proved equal to the specification.
  The lemmas prove one record per distinct group value, per-column group sums, conservation of
  column totals, first-appearance order, and idempotence.
- `DisplayPage` (`display.dfy`). `getOptions`, `getSortingFunction`, the selector's three sort
  modes, and the labels the page sets when parsing succeeds.

## Model

| member | source | states |
|---|---|---|
| `SortingFunctions.SortByYAxis` | dataviz/src/util/SortingFunctions.js:1-3 | returns the caller's array, now non-decreasing in `yAxis`; same multiset of records; every equal-`yAxis` run in its original order; an already ascending array is left unchanged |
| `SortingFunctions.SortByYAxisDescending` | dataviz/src/util/SortingFunctions.js:6-8 | returns the caller's array, now non-increasing in `yAxis`; same multiset; stable; an already descending array is unchanged; with distinct values, the result is the reverse of the ascending sort |
| `SortingFunctions.SortInPlace` | dataviz/src/util/SortingFunctions.js:2 | the in-place sort leaves in the array exactly `StableSort` of its old contents |
| `SortingFunctions.InsertStep` | dataviz/src/util/SortingFunctions.js:2 | moving one record left past the records the comparator puts after it yields the stable insertion of that record into the sorted prefix; the rest of the array is untouched |
| `SortingFunctions.StableSortIsSorted` | dataviz/src/util/SortingFunctions.js:1-8 | no pair of records in the result is out of order under the comparator |
| `SortingFunctions.StableSortIsPermutation` | dataviz/src/util/SortingFunctions.js:1-8 | the result has the same multiset of records as the input |
| `SortingFunctions.StableSortIsStable` | dataviz/src/util/SortingFunctions.js:1-8 | for every value, the records with that `yAxis` appear in the result in their input order |
| `SortingFunctions.StableResultIsUnique` | dataviz/src/util/SortingFunctions.js:1-8 | two sorted sequences that agree on the records of every value are equal, so every stable sort gives the same result |
| `SortingFunctions.SortingSortedIsIdentity` | dataviz/src/util/SortingFunctions.js:2 | sorting a sequence that is already sorted in the same direction returns it unchanged |
| `SortingFunctions.DescendingReversesAscending` | dataviz/src/util/SortingFunctions.js:1-8 | when all `yAxis` values are distinct, the descending result is exactly the reverse of the ascending result |
| `SortingFunctions.SortProperties` | dataviz/src/util/SortingFunctions.js:1-8 | the four properties above, together, for either order |
| `ParsingFunctions.ParseCsvForBarChart` | dataviz/src/util/parsingFunctions.js:15-43 | the outcome passed to the callback: with no rows the error, otherwise the table grouped on `header[0]` with one summed record per group, in `d3.group` order |
| `ParsingFunctions.BuildEntry` | dataviz/src/util/parsingFunctions.js:25-34 | the record carries the group value, and every column except the grouping column holds the group's sum of that column |
| `ParsingFunctions.AggregateOutcome` | dataviz/src/util/parsingFunctions.js:17-43 | error exactly when there are no data rows; otherwise a non-empty, well-formed table with the input's columns and no more records than rows |
| `ParsingFunctions.GroupKeysAreTheDistinctValues` | dataviz/src/util/parsingFunctions.js:20 | the group keys are pairwise distinct, and a value is a key exactly when some row carries it |
| `ParsingFunctions.GroupKeysFollowFirstAppearance` | dataviz/src/util/parsingFunctions.js:20 | wherever a later key occurs among the rows, every earlier key has occurred before it |
| `ParsingFunctions.GroupOfSelectsRows` | dataviz/src/util/parsingFunctions.js:20 | a group holds exactly the rows with its value, each as many times as in the input |
| `ParsingFunctions.GroupsAreNonEmpty` | dataviz/src/util/parsingFunctions.js:28 | every group has a first row, so `groupData[0]` exists |
| `ParsingFunctions.GroupKeyCount` | dataviz/src/util/parsingFunctions.js:20 | there are never more groups than rows |
| `ParsingFunctions.GroupTotalsOfAllKeys` | dataviz/src/util/parsingFunctions.js:20-31 | summing each group's column total over all keys gives the column total over all rows |
| `ParsingFunctions.OneRecordPerGroup` | dataviz/src/util/parsingFunctions.js:20-23 | no two output records share a group value, and a value has a record exactly when some input row carries it |
| `ParsingFunctions.RecordsSumTheirGroup` | dataviz/src/util/parsingFunctions.js:25-31 | each non-grouping column of a record is the sum of that column over its group, and the group is exactly the input rows with the record's value |
| `ParsingFunctions.TotalsAreConserved` | dataviz/src/util/parsingFunctions.js:20-31 | for every measure column, the total over the output records equals the total over the input rows |
| `ParsingFunctions.RecordsFollowFirstAppearance` | dataviz/src/util/parsingFunctions.js:20-23 | records come in the order in which their group values first appear among the rows |
| `ParsingFunctions.AggregateIsIdempotent` | dataviz/src/util/parsingFunctions.js:20-35 | aggregating the chart data again gives it back unchanged |
| `DisplayPage.GetOptions` | dataviz/src/pages/DisplayPage.js:10-12 | the options are all column names after the first, in order; there is one fewer than the columns, and the first column is never among them |
| `DisplayPage.GetSortingFunction` | dataviz/src/pages/DisplayPage.js:57-63 | the empty (falsy) mode gives nothing; "Alphabetical" gives `sortByFirstKey`; "Descending" gives `sortByYAxisDescending`; every other mode, "Ascending" included, gives `sortByYAxis` |
| `DisplayPage.SortModesSelectDistinctFunctions` | dataviz/src/pages/DisplayPage.js:113 | the selector offers "Alphabetical", "Ascending" and "Descending"; they select three different functions; the initial mode "Alphabetical" (line 47) is among them and selects `sortByFirstKey` |
| `DisplayPage.OnParsed` | dataviz/src/pages/DisplayPage.js:70-81 | on error nothing is set; on success the category label is the first key, the options are the other keys, the category label is not an option, and the measure label is the first option when there is one |
| `DisplayPage.PageSetupAfterParsing` | dataviz/src/pages/DisplayPage.js:70-77 | after aggregation the page is set up exactly when the CSV has rows; the category label is then the grouping column, and the initial measure is the second column |

## Left out

- The chart component (`dataviz/src/components/graphs/GraphComponent.js`) is not modelled. It does D3/SVG DOM mutation, timed transitions and fixed pixel geometry, and it clears and redraws the whole chart on every change, so it keeps no update state worth modelling.
- Reading the CSV file with `d3.csv` and its promise plumbing are not modelled. The model starts from the rows in memory, and the callback's `(error, null)` / `(null, chartData)` pair is a `Result`.
- Cells are integers. The coercion `+d[columnName]` from string to number, floating-point sums, and `NaN` are not modelled. `Cell` treats a missing value as adding nothing, as `d3.sum` skips values that are not numbers. Other non-numeric text cannot appear in an integer model.
- `ParsingFunctions.WellFormed` assumes that the header has distinct names, that a table without columns (an empty file) has no rows, that every row has one value per column, and that `Object.keys` lists columns in header order. JavaScript lists integer-like property names such as `"2019"` first, so for such headers the grouping column could differ. That case is not modelled.
- `sortByFirstKey` and `convertToGraphFormat` are not part of this model. Both are imported, but neither body is in the source files: `SortingFunctions.js` defines only the two `yAxis` sorts, and `parsingFunctions.js` holds only a comment where `convertToGraphFormat` would be. `SortByFirstKey` is therefore only a name that `GetSortingFunction` can return.
- `GetSortingFunction` models the falsy sort mode as the empty string. The mode is always a string here, and `""` is the only falsy string.
- `SortInPlace` uses insertion sort. ECMA-262 leaves the algorithm to the engine, but `StableResultIsUnique` shows that every stable sort produces this same result. The comparator works on unbounded integers, so the inconsistent comparisons that `NaN` values would cause are not modelled.
- React state, hooks and setters, the MUI `Dropdown`, the loading bar and `console` output are not modelled. `OnParsed` returns the values the page stores instead of calling the setters.
