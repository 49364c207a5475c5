# Visualization dashboard: data pipeline model

The dashboard fetches an array of event records (each with fields such as
`end_year`, `topic`, `sector`, `region`, `pestle`, `source`, `country`, `city`)
and turns it into chart input on the client. This project models that pipeline:

- the record filter `applyFilter`, which keeps the records that pass every active
  field selection (an `end_year` upper cutoff, membership tests for the other fields);
- the value sort `sortArray`, which drops falsy values and sorts ascending by
  `localeCompare` or numerically;
- the filter panel: the criteria builder that lists each field's distinct values,
  the radio and checkbox handlers that update the applied filter, and the initial
  all-empty filter that shows everything;
- the bar graph's country ranking (count per country, descending, one page shown)
  and the pie chart's topic slices (the top topics plus an "others" slice);
- the country lookup that finds a country's map position by name;
- the backend error handler that maps an error to an HTTP status and JSON body.

JavaScript values are `Str`, `Num` (integers) or `Absent` (`undefined`), with
JavaScript truthiness. `Array.prototype.sort` is modelled as a stable insertion
sort (stability is required by ECMAScript 2019 and later), and its comparator as the
relation "comparator returns a value `<= 0`". `String.prototype.localeCompare` and
`String.prototype.toLowerCase` are parameters: the ordering lemmas require only that
`localeCompare` be a consistent comparator (total and transitive). `d3.group` is
modelled as the list of distinct keys in first-occurrence order, each with its
number of records, since only `values.length` is used.

Modules: `JsValues` (values, records, truthiness), `Seqs` (order-preserving
filter, sums, subsequences), `StableSort`, `ValueSort`, `RecordFilter`,
`FilterPanel`, `Grouping`, `BarGraph`, `PieChart`, `CountryCoords`,
`ErrorMiddleware`.

## Model

| member | source | states |
|---|---|---|
| `ValueSort.SortArray` | frontend/src/lib/sort.js:1-15 | a non-array gives `[]`; every output element is truthy; the output holds exactly the input's truthy elements, with their multiplicities |
| `ValueSort.ComparatorConsistent` | frontend/src/lib/sort.js:4-14 | each of the three comparators (string, case-insensitive string, numeric) is a consistent comparator when `localeCompare` is |
| `ValueSort.SortArrayAscending` | frontend/src/lib/sort.js:4-14 | string mode ascends under `localeCompare` (of lower-cased operands when `caseInsensitive`); any other type tag ascends numerically |
| `ValueSort.SortArrayNumeric` | frontend/src/lib/sort.js:11-13 | any type tag other than `"string"` ascends numerically, with no assumption about `localeCompare`, which the comparator `a - b` never calls |
| `ValueSort.SortArrayKeepsDuplicates` | frontend/src/lib/sort.js:3-4 | no deduplication: each truthy value occurs in the output as often as in the input, a falsy one never |
| `ValueSort.SortArrayStable` | frontend/src/lib/sort.js:3-14 | elements the comparator ranks equal keep their input order |
| `RecordFilter.ApplyFilter` | frontend/src/lib/filter.js:1-25 | the nested loops keep exactly the records that pass every field check, in input order |
| `RecordFilter.SupplementaryBelowPrivateUse` | frontend/src/lib/filter.js:8 | string `>` compares UTF-16 code units, not code points: U+10000 (surrogates D800 DC00) is below U+E000 |
| `RecordFilter.KeptIsSubsequence` | frontend/src/lib/filter.js:3-24 | the output is a subsequence of the input: input records in input order |
| `RecordFilter.KeptExactly` | frontend/src/lib/filter.js:5-22 | a record is kept iff it is an input record that no field check rejects (fields combine with AND), and kept as often as it occurs |
| `RecordFilter.NoSelectionKeepsAll` | frontend/src/lib/filter.js:8-15 | with every selection list empty the output equals the input |
| `RecordFilter.EndYearCutoff` | frontend/src/lib/filter.js:8-10 | with a non-empty `end_year` selection, a record the other keys let through is kept iff its `end_year` is truthy and not greater than the first selected value |
| `RecordFilter.OnlyFirstEndYearCounts` | frontend/src/lib/filter.js:8 | two `end_year` selections with the same first element filter identically |
| `RecordFilter.KeptWithinSelection` | frontend/src/lib/filter.js:13-18 | for any other key with a non-empty selection, every kept record has a truthy value there that is one of the selected values |
| `RecordFilter.EmptySelectionIsNoFilter` | frontend/src/lib/filter.js:13-15 | an empty selection for a key other than `end_year` filters exactly as if the key were absent from `filters` |
| `RecordFilter.KeptIdempotent` | frontend/src/lib/filter.js:4-23 | filtering the output again with the same filters returns it unchanged |
| `FilterPanel.DistinctFaithful` | frontend/src/components/filter.jsx:48-57 | the scan lists each truthy value of the field once, only values some record has there, and every such value |
| `FilterPanel.DistinctIsTruthyGroupKeys` | frontend/src/components/filter.jsx:48-57 | the scan lists the truthy values in the order they are first seen: exactly the truthy keys of the grouping by the same field, in first-occurrence order |
| `FilterPanel.CriteriaLookup` | frontend/src/components/filter.jsx:60-69 | each of the eight fields' criteria is its scanned list sorted by `sortArray`, numerically for `end_year` and with the string defaults otherwise |
| `FilterPanel.BuildCriteria` | frontend/src/components/filter.jsx:38-70 | the single loop with eight accumulators builds the criteria that the per-field definition describes |
| `FilterPanel.SortFieldFaithful` | frontend/src/components/filter.jsx:61-68 | sorting a duplicate-free list of truthy values keeps exactly those values, each once |
| `FilterPanel.CriteriaFaithful` | frontend/src/components/filter.jsx:48-69 | each criteria list has no duplicates, holds only truthy values some record has in that field, and every truthy value any record has there |
| `FilterPanel.CriteriaSorted` | frontend/src/components/filter.jsx:60-69 | the `end_year` criteria ascend numerically; the other seven ascend under case-sensitive `localeCompare` |
| `FilterPanel.CriteriaSortedNumeric` | frontend/src/components/filter.jsx:61 | the `end_year` criteria ascend numerically, with no assumption about `localeCompare` |
| `FilterPanel.CriteriaTiesInScanOrder` | frontend/src/components/filter.jsx:60-69 | criteria values that the field's comparator ties keep the scan's first-seen order |
| `FilterPanel.CriteriaOfNoData` | frontend/src/components/filter.jsx:40-48 | a null or undefined `data` yields the all-empty criteria `FILTERS` |
| `FilterPanel.ChooseEndYear` | frontend/src/components/filter.jsx:124 | choosing a year sets the `end_year` selection to exactly that year and leaves every other field's selection unchanged |
| `FilterPanel.ToggleValue` | frontend/src/components/filter.jsx:139-144 | checking appends the item to the field's selection; unchecking leaves no occurrence of it; other fields are unchanged |
| `FilterPanel.UncheckKeepsOthers` | frontend/src/components/filter.jsx:142 | unchecking keeps every other selected value of the field, with its multiplicity |
| `FilterPanel.CheckThenUncheck` | frontend/src/components/filter.jsx:139-144 | checking an unselected box and then unchecking it restores the applied filter |
| `FilterPanel.ChosenYearIsCutoff` | frontend/src/components/filter.jsx:124 | after choosing a year, every displayed record has a truthy `end_year` not greater than that year |
| `FilterPanel.InitialShowsEverything` | frontend/src/components/filter.jsx:74-78 | the initial applied filter `FILTERS` displays the full data |
| `Grouping.GroupBy` | frontend/src/components/bar-graph.jsx:16-19 | `d3.group` followed by `values.length`: there are at most as many groups as records, and at least one when there is a record |
| `Grouping.GroupByTotal` | frontend/src/components/bar-graph.jsx:16-19 | every record is counted in exactly one group: the group counts add up to the number of records |
| `Grouping.AddToKeys` | frontend/src/components/bar-graph.jsx:17-18 | adding a record keeps the key list when its key already has a group, and otherwise appends the key last |
| `Grouping.AddToCounts` | frontend/src/components/bar-graph.jsx:17-18 | adding a record raises the count of its key's group by one and leaves every other count as it was; a new group starts at one |
| `Grouping.GroupByFaithful` | frontend/src/components/bar-graph.jsx:16-19 | group keys are distinct, exactly the values the field takes, and each count is the number of records with that key |
| `Grouping.GroupByFirstSeenOrder` | frontend/src/components/bar-graph.jsx:16-19 | groups come in the order their keys first occur in the data |
| `Grouping.GroupByTruthyTotal` | frontend/src/components/pie-chart.jsx:31-37 | the counts of the truthy-keyed groups add up to the number of records whose field is truthy |
| `Grouping.CountsFaithful` | frontend/src/components/pie-chart.jsx:31-36 | any reordering of the truthy-keyed groups has distinct truthy keys, correct positive counts, every truthy value, and as many entries as distinct truthy values |
| `BarGraph.Aggregate` | frontend/src/components/bar-graph.jsx:15-26 | the chart gets a page of the ranking: only ranked entries, each a truthy country, and never more of them than `totalCountryCount` |
| `BarGraph.RankedCountsFaithful` | frontend/src/components/bar-graph.jsx:16-21 | each ranked entry is a distinct truthy country with the number of records naming it; every country that occurs is ranked |
| `BarGraph.RankedDescending` | frontend/src/components/bar-graph.jsx:20-21 | ranked counts are non-increasing |
| `BarGraph.RankedTiesInFirstSeenOrder` | frontend/src/components/bar-graph.jsx:16-21 | countries with equal counts appear in the groups' order, and the groups are in first-occurrence order |
| `BarGraph.TotalCountsDistinctCountries` | frontend/src/components/bar-graph.jsx:16-23 | `totalCountryCount` is the number of distinct truthy countries in the data |
| `BarGraph.RankedTotal` | frontend/src/components/bar-graph.jsx:16-21 | before slicing, the counts add up to the number of records with a truthy country |
| `BarGraph.ShownPage` | frontend/src/components/bar-graph.jsx:24 | for non-negative bounds the shown entries are exactly the ranked entries `st` up to (not including) `lt` that exist: as many as there are, in ranking order |
| `BarGraph.DefaultPageIsTopTen` | frontend/src/components/bar-graph.jsx:13-24 | the initial range shows the ten highest-ranked countries, or all if fewer |
| `BarGraph.PagesTile` | frontend/src/components/bar-graph.jsx:24 | consecutive pages of the ranking neither skip nor repeat entries |
| `PieChart.Aggregate` | frontend/src/components/pie-chart.jsx:31-44 | `totalCount` is the number of records with a truthy topic and the slices add up to it; the slices are the top `min(topDataToShow, #topics)` topics plus an "others" slice holding the rest's total; counts are non-increasing; every class of equal-count slices keeps the order it has in the top topics followed by "others", so "others" follows the topics it ties with |
| `PieChart.RankedCountsFaithful` | frontend/src/components/pie-chart.jsx:31-39 | ranked topics are distinct and truthy, each with its number of records, and every topic that occurs is ranked |
| `PieChart.RankedTiesInFirstSeenOrder` | frontend/src/components/pie-chart.jsx:31-39 | topics with equal counts keep the groups' order, and the groups come in the order their topics first occur in the data |
| `PieChart.ShownOutrankFolded` | frontend/src/components/pie-chart.jsx:39-42 | every topic with its own slice has at least the count of every topic folded into "others" |
| `PieChart.FewTopicsEmptyOthers` | frontend/src/components/pie-chart.jsx:39-43 | with no more topics than `topDataToShow`, "others" is still added, with count 0 |
| `PieChart.DefaultAtMostNineSlices` | frontend/src/components/pie-chart.jsx:12 | with the initial `topDataToShow` of 8 the chart has at most nine slices, and exactly nine when there are more than eight topics |
| `CountryCoords.GetCoordinatesOfCountry` | frontend/src/lib/getCoordOfCountry.js:4-15 | the scan returns the position of the last entry whose common or official name matches, ignoring case, else `[0, 0]`; `region` has no effect |
| `CountryCoords.NoMatchGivesDefault` | frontend/src/lib/getCoordOfCountry.js:5-14 | with no matching entry the result is `[0, 0]` |
| `CountryCoords.LastMatchWins` | frontend/src/lib/getCoordOfCountry.js:7-12 | the result is the position of the matching entry nearest the end of the table |
| `CountryCoords.LastMatchSound` | frontend/src/lib/getCoordOfCountry.js:4-14 | the result is `[0, 0]` or the position of some matching entry |
| `CountryCoords.LookupIgnoresCase` | frontend/src/lib/getCoordOfCountry.js:9 | names that lower-case alike find the same position |
| `ErrorMiddleware.Respond` | backend/middleware/error.js:6-25 | status 400 iff `name` is truthy, 409 iff not and `code` is exactly 11000, 500 otherwise; the error phrase is the status's reason phrase; a 400 passes the error's message on, a 409 says "Duplicate field error" and a 500 says "An unexpected error occurred" |
| `ErrorMiddleware.NameTakesPrecedence` | backend/middleware/error.js:8-13 | an error with a truthy `name` is a 400 whatever its code |
| `ErrorMiddleware.MessageHiddenUnlessBadRequest` | backend/middleware/error.js:13-23 | conflict and server-error responses do not depend on the error's message |
| `ErrorMiddleware.CodeComparedStrictly` | backend/middleware/error.js:13 | the code is compared with `===`: the string "11000" is a server error |

## Left out

- Rendering: scales, axes, arcs, labels and SVG updates of every chart, the world map and its averages, the scatter plot, and the empty line chart. These are drawing over d3 and floating point.
- React state and effect scheduling, and the modal's DOM class toggling. Each effect or handler is modelled as a call on explicit values.
- Fetching data, the Express server, MongoDB access, and the `console.log` calls in the country lookup and the error handler. This is I/O.
- The concrete locale collation of `localeCompare` and Unicode `toLowerCase`. Both are parameters.
- Values are integers, strings or `undefined`. Fractional numbers, booleans, `null` and objects as field values are not modelled.
- ValueSort.SortArray: in string mode JavaScript throws when a non-string element becomes the receiver of `localeCompare` or `toLowerCase` (which element that is depends on the engine, and a one-element array is never compared), and otherwise converts it with ToString; in number mode `a - b` coerces strings. The model reads a non-string as `""` and a non-number as 0. The `options` object is reduced to its `caseInsensitive` flag.
- RecordFilter.Greater: JavaScript `>` between a string and a number coerces the string to a number. The model compares numbers numerically and strings by UTF-16 code unit, and treats a mixed comparison as false.
- RecordFilter.ApplyFilter requires an `end_year` key, because the source reads `filters.end_year.length` unguarded. Every selection is a list by type, because `.length` is read on each.
- PieChart.Aggregate: the in-place `aggregatedData.sort` is modelled as reassigning the local. The slice of the remainder reads the sorted list, as it does in the source. `topDataToShow` is a natural number; it is never changed from 8.
- BarGraph.Aggregate: `resultRange` is a parameter. Its setter appears only in commented-out markup, so only the initial `{ st: 0, lt: 10 }` is reachable.
- Grouping.GroupBy keeps each group's size and not its records, since only `values.length` is read.
- CountryCoords.GetCoordinatesOfCountry takes the world-countries table as a parameter. A non-string `countryName`, which throws in the source, is excluded by type. Positions are sequences of reals that are passed through unchanged.
- ErrorMiddleware.Respond returns the status and body instead of writing them to `res`. A missing message is `Absent`, which JSON output omits.
