# d3-country-aggr: the row pipeline behind the country table

This project models, in Dafny, the data logic of `main.js`. That file turns a nested per-country time series
(`countries_1995_2012.json`) into the rows of an HTML table:

- `prepareData` flattens the dataset into one row per (country, year).
- `applyFilter`, `filterByYear` and `filterByContinent` keep the rows of the chosen year and the checked continents.
  An empty continent selection means "no filter".
- `doAggregation` can group the rows by continent and then by year, rolling every cell up into one row.
  Population and gdp are summed, and the lowest life expectancy is kept.
- `buildTable` draws the rows. Clicking a header flips a shared `sortToggle` and re-sorts the body rows with a comparator.
  Each cell is shown through a per-column formatter.

Modules, one per part of the pipeline:

- `Rows` (rows.dfy): the records (`Country`, `YearRecord`, `Row`), the column names, and `Get`, which is `row[field]`.
- `StringOrder` (order.dfy): JavaScript's `<` on strings, and `d3.ascending` / `d3.descending`.
- `Prepare` (prepare.dfy): `prepareData` as a method with nested loops, proved against the function `Flatten`.
- `Filters` (filters.dfy): `applyFilter` as a loop proved against `Filter`, plus `filterByYear` and `filterByContinent`.
  The checked continents are passed in as a sequence.
- `Summary` (summary.dfy): `d3.sum` and `d3.min` over an accessor.
- `Grouping` (grouping.dfy): the one-pass, first-seen grouping that `d3.nest().key(...)` performs.
  It is written as an explicit ordered association list (`seq<Entry<K, seq<T>>>`).
  `GroupByIsGrouped` proves it equal to the intended list: distinct keys in first-seen order, each with exactly its members.
- `Aggregation` (aggregation.dfy): the two-level nest (group key, then year), the rollup, and `doAggregation`'s flattening loop.
  It also holds the independent description of the output: the cells `CellRows` and their order `Pairs`.
- `Table` (table.dfy): the header comparator and its ordering laws, and the `TableView` class.
  Its `sortToggle` field is set by `buildTable` and flipped by each header click.
  The module also has the per-column cell formatting.
- `Pipeline` (pipeline.dfy): `updateData`, with the slider, the checkboxes and the radio button passed in as values.

Numbers (`gdp`, `life_expectancy`, `population`) are `real`; `year` is `int`. The comparator sees a `Value`, either `Str` or `Num`.

Two details of the toggle follow the code (main.js:110-137) exactly.
First, `sortToggle` is a local of `buildTable` (main.js:118), so every rebuild sets it back to `true`; it is not a flag shared across rebuilds.
Second, the toggle flips on every header click, on whichever column, before the sort runs (main.js:125), so the first click after a rebuild sorts with `false`.

## Model

| member | source | states |
|---|---|---|
| `Rows.Get` | main.js:130-133 | `row[field]` is a string exactly for `name` and `continent`, and a number for every other column |
| `Prepare.MakeRow` | main.js:7-14 | the pushed row's `name` and `continent` are the country's, and its `gdp`, `life_expectancy`, `population` and `year` are the year record's, read through the column names |
| `Prepare.PrepareData` | main.js:3-18 | the nested loops return exactly `Flatten(raw)`: for each country in order, one row per year record in order |
| `Prepare.FlattenLength` | main.js:3-18 | the flattening has exactly Σ \|country.years\| rows |
| `Prepare.FlattenAt` | main.js:5-14 | year record `yi` of country `ci` is the row at index Σ_{c<ci} \|years\| + `yi` (country-major, then year order); `name` and `continent` come from the country, `gdp`, `life_expectancy`, `population` and `year` from the year record |
| `Prepare.FlattenOrigin` | main.js:5-14 | every row comes from some (country, year record) pair at that index, so nothing is invented |
| `Filters.ApplyFilter` | main.js:50-57 | the loop returns exactly `Filter(data, filterValues, filterOn)` |
| `Filters.FilterIsSubsequence` | main.js:50-57 | the result is `data` taken at strictly increasing positions, and those positions are exactly the ones whose `filterOn` value is in `filterValues` |
| `Filters.FilterCount` | main.js:52-55 | a row occurs in the result as often as in the input if its value is selected, and not at all otherwise |
| `Filters.FilterIdempotent` | main.js:50-57 | filtering twice with the same values is filtering once |
| `Filters.FilterByYear` | main.js:76-79 | `filterByYear` is `applyFilter(data, [year], "year")` and keeps exactly the rows whose year is `year`, with their multiplicity |
| `Filters.Selection` | main.js:60-65 | the checked continents become string values, one for each checkbox |
| `Filters.SelectionHas` | main.js:60-65 | a continent is among the selected values exactly when its box is checked |
| `Filters.ContinentViewCount` | main.js:67-73 | an empty selection returns the input unchanged; otherwise a row stays, with its multiplicity, exactly when its continent is checked |
| `Filters.ContinentViewIdempotent` | main.js:82-84 | the continent filter is idempotent, so the second call in the no-group branch of `doAggregation` changes nothing |
| `Filters.FilterByContinent` | main.js:59-74 | an empty selection returns `data`; a non-empty one returns `applyFilter(data, continents, "continent")` |
| `Summary.Sum` | main.js:93-94 | `d3.sum` over an accessor, added from the first element to the last; it has no contract of its own, and `Summary.SumAppend`, `Grouping.GroupByTotal` and `Aggregation.AggregateTotals` state what it is used for |
| `Summary.Min` | main.js:95 | `d3.min` of a non-empty cell is a lower bound of the accessor that some member attains |
| `Summary.SumAppend` | main.js:93-94 | `d3.sum` of a concatenation is the sum of the parts |
| `Grouping.Place` | main.js:86-88 | adding an element to an association list whose groups are non-empty keeps them non-empty |
| `Grouping.GroupBy` | main.js:86-88 | every group the one-pass grouping builds is non-empty |
| `Grouping.GroupByIsGrouped` | main.js:86-88 | the one-pass grouping is exactly one entry per distinct key, in first-seen order, holding that key's members in input order |
| `Grouping.KeysOfDistinct` | main.js:86-88 | the group keys are pairwise different, and a key is listed exactly when some element has it |
| `Grouping.KeysOfCover` | main.js:86-88 | every element's key is listed |
| `Grouping.KeysOfPrefix` | main.js:103-105 | the keys of any prefix of the input are a prefix of the keys, so keys are listed in order of first appearance |
| `Grouping.KeysOfFirstSeen` | main.js:103-105 | of two listed keys, the earlier one occurs in the input before the later one first does |
| `Grouping.MembersCount` | main.js:86-88 | a group holds exactly the elements of its key, as often as they occur |
| `Grouping.GroupByTotal` | main.js:86-88 | the members of all groups add up to the whole input: grouping loses and duplicates nothing |
| `Aggregation.Rollup` | main.js:89-98 | the rolled-up row of a non-empty cell has the first leaf's group key as `name`, the first leaf's `year` and `continent`, the sums of `population` and `gdp` over the leaves, and as `life_expectancy` a lower bound of the leaves' values that one leaf attains |
| `Aggregation.Nest` | main.js:86-100 | the outer keys of the nest are exactly the distinct group keys in first-seen order; `Aggregation.NestShaped` states the years and rollups inside each key |
| `Aggregation.Values` | main.js:103-104 | `d.values()` of an ordered map: its values in insertion order; it has no contract of its own, and `Aggregation.GroupRows` ties the values of one group to the rollups of its cells |
| `Aggregation.FlattenNest` | main.js:102-105 | the `concat` loop's result: the values of every group, one group after the other; it has no contract of its own, and `Aggregation.FlattenShaped` and `Aggregation.FlattenTotal` state its rows and its totals |
| `Aggregation.Aggregate` | main.js:86-106 | the rows `doAggregation` returns for a group field; it has no contract of its own, and `Aggregation.AggregateCells`, `Aggregation.PairsAreCells` and `Aggregation.AggregateTotals` state what they are |
| `Aggregation.ConcatValues` | main.js:102-105 | the `forEach`/`concat` loop returns exactly `FlattenNest` of the nest: every group's values, one group after the other |
| `Aggregation.DoAggregation` | main.js:81-108 | without a group field the result is the continent filter of `data`; with one it is the group-by-key, then-by-year rows, flattened in the order of the nest |
| `Aggregation.CellRowsCount` | main.js:86-88 | a cell holds exactly the input rows of its group key and year, as often as they occur |
| `Aggregation.MembersOfMembers` | main.js:86-88 | grouping by key and then by year yields exactly the cell of that key and year |
| `Aggregation.NestShaped` | main.js:86-100 | the nest lists the keys in first-seen order; each key lists its years in first-seen order, each with the rollup of its cell |
| `Aggregation.GroupRows` | main.js:103-104 | `d.values()` of one group lists the rollups of that key's cells, one per year in first-seen order |
| `Aggregation.FlattenShaped` | main.js:102-105 | flattening a nest that lines up with the cells gives one row per (key, year) pair, in key order and then year order, each the rollup of its cell |
| `Aggregation.AggregateCells` | main.js:89-106 | there is one output row per cell, in `Pairs` order (key by first appearance, then year by first appearance within that key); each row's `name` is the key and its `year` the cell's year; `continent` is the first member's; `population` and `gdp` are the cell's sums; `life_expectancy` is the cell's minimum |
| `Aggregation.PairsAreCells` | main.js:86-106 | the listed (key, year) pairs are pairwise different, and a pair is listed exactly when some input row has that key and year |
| `Aggregation.NestGroupTotal` | main.js:89-100 | summed over the rolled-up rows of one key, `population` (or `gdp`) equals its sum over that key's input rows |
| `Aggregation.FlattenTotal` | main.js:102-105 | the flattened rows sum to the total of the groups they came from |
| `Aggregation.AggregateTotals` | main.js:93-94 | total population and total gdp of the output equal those of the input |
| `Aggregation.TwoCountriesOneContinent` | main.js:89-98 | rows A (X, 2000, gdp 10, population 100, life expectancy 70) and B (X, 2000, 20, 200, 60) aggregate to the single row (X, X, 2000, 30, 300, 60) |
| `StringOrder.Less` | main.js:131 | JavaScript's `<` on strings: lexicographic by character, a proper prefix first; it has no contract of its own, and `StringOrder.LessIrreflexive`, `StringOrder.LessAsymmetric`, `StringOrder.LessTrichotomy` and `StringOrder.LessTransitive` make it a strict total order |
| `StringOrder.Ascending` | main.js:128 | `d3.ascending` on strings is negative, zero or positive exactly as the first string is less than, equal to or greater than the second |
| `StringOrder.Descending` | main.js:131 | `d3.descending(a, b)` is `d3.ascending(b, a)` |
| `StringOrder.AscendingAntisymmetric` | main.js:131 | swapping the arguments negates `d3.ascending`, and `d3.descending` is `d3.ascending` negated |
| `StringOrder.LessTrichotomy` | main.js:131 | any two different strings are ordered one way or the other |
| `StringOrder.LessTransitive` | main.js:131 | string `<` is transitive |
| `Table.Compare` | main.js:126-136 | the comparator returns 0 exactly when both rows have the same column value and the same name; `Table.CompareSign` states its sign |
| `Table.CompareTie` | main.js:127-128 | equal column values compare as ascending names, whatever the toggle |
| `Table.CompareText` | main.js:130-131 | different strings never tie; they sort descending when the toggle is set and ascending when it is not, so the two directions are negations of each other |
| `Table.CompareNumber` | main.js:133-135 | different numbers compare as `a - b` when the toggle is set and `b - a` when it is not |
| `Table.CompareAntisymmetric` | main.js:126-136 | cmp(a, b) = −cmp(b, a) for every column and both toggle values |
| `Table.CompareSign` | main.js:126-136 | cmp(a, b) < 0 exactly when `a` precedes `b` by column value in the toggle's direction, or by ascending name on equal values; it is 0 exactly on equal value and equal name |
| `Table.CompareTransitive` | main.js:126-136 | "sorts no later than" is transitive, so the comparator is a consistent order for the browser's sort |
| `Table.SortRows` | main.js:126 | the sort returns a permutation of its input (same rows, same multiplicities); `Table.SortRowsSorted` states the order |
| `Table.SortRowsSorted` | main.js:126 | the sort leaves every row no later, by the comparator, than every row after it |
| `Table.TableView.constructor` | main.js:110-118 | `buildTable(columns, data)` shows `data` in order under `columns`, with `sortToggle` set to `true` and no clicks yet |
| `Table.TableView.ClickHeader` | main.js:124-137 | a click flips the toggle first and then sorts the rows with the new value: the rows become a permutation of the old rows, ordered by the comparator; the toggle is `true` exactly after an even number of clicks, on whatever headers |
| `Table.ClickTwice` | main.js:124-125 | two clicks, on any headers, leave the toggle as it was, with the rows ordered by the second header |
| `Table.FormatCell` | main.js:148-160 | `life_expectancy`, `population` and `gdp` and only they get, in that order, `d3.round(·, 1)`, `d3.format(",")` and `d3.format("4.1s")`, each applied to that column's number; any other column shows its value unchanged |
| `Table.FormatRow` | main.js:145-161 | one cell per column; `life_expectancy`, `population` and `gdp` go through their formatters; every other column is passed through unchanged |
| `Pipeline.UpdateData` | main.js:28-41 | the table shows the year filter, then the continent filter, then (when grouping by continent) the aggregation; without grouping the second continent filter leaves the rows unchanged; the table starts with the default columns, the toggle set and no clicks yet |

## Left out

- Page construction and event wiring (`init`, `d3.select`, removing and re-adding header and body elements, the `.on("click")` plumbing, main.js:20-26, 110-123, 139-169): only the comparator, the sort it drives and the toggle are modelled.
- Loading the dataset with `d3.json` and the `tableData` cache (main.js:43-48): this is input/output. `Prepare.PrepareData` takes the parsed dataset as a parameter.
- Reading the slider, the radio button and the checkboxes (main.js:33-34, 60-65): their values are parameters of `Pipeline.UpdateData` and `Filters.FilterByContinent`.
- `buildChart` (main.js:172-210): SVG drawing with floating-point scales.
- The number formats `d3.round(x, 1)`, `d3.format(",")` and `d3.format("4.1s")` (main.js:149, 152-153, 157): floating-point library calls. They stay symbolic as the `Table.Cell` constructors `RoundedTo1`, `ThousandsSeparated` and `SiPrefixed`.
- The unary `+` coercion in the rollup and the NaN it can produce (main.js:93-95): the model assumes the fields are already numbers.
- Floating point in general: sums, minimums and `a - b` are exact on `real`, with no rounding.
- Key stringification inside `d3.nest`/`d3.map`: keys are compared as values, so a numeric key and its string form would not merge as they do in d3. Years within a key are listed in first-seen order, but the order of a real `d3.map` depends on the d3 version, which the page does not pin: where the map is a plain object dictionary without a key prefix, integer-like keys such as years come out in ascending numeric order. The only caller filters to one year first, so each key has a single year and the rows it shows are the same either way.
- String order is lexicographic by Dafny character (Unicode scalar value), not by UTF-16 code unit as in JavaScript. The two differ only for characters outside the Basic Multilingual Plane.
- DoAggregation: the group field must be `name` or `continent`. With a numeric field the rolled-up `name` would hold a number, which the `Row` record cannot carry. The only caller passes `"continent"`.
- Table.TableView.ClickHeader: the body order is stated as the contract of `Array.prototype.sort`, that is sorted by the comparator and a permutation. Which of two comparator-equal rows comes first depends on the browser's sort algorithm and is not modelled. The rows are sorted in the model by the insertion sort `SortRows`.
