# WattXchange dashboard core in Dafny

A model of the data-shaping core of the WattXchange energy dashboard, with proofs about it:

- **Hourly aggregation** (`aggregateHourly`). Raw park readings are bucketed by the start of their hour. Readings without a date or without a numeric megawatt value are skipped. The result is one chart point per hour, holding the mean of that hour's readings, in ascending hour order.
- **Preset time ranges** (`buildTimeRangesFromDates`). The "All time" entry comes first. Then, for every distinct year of the dates in ascending order, come the year and its four quarters. Start and end days follow the JavaScript `Date` constructor's rules: a year argument of 0..99 means 1900..1999, the month carries over into the year, and day 0 is the last day of the previous month.
- **The energy API handler** (`GET`):
  - Validation is a chain of early returns: an invalid metric gives 400, then an invalid mode gives 400, then a missing park gives 400, and an unknown park gives 404.
  - A type mismatch between metric and park gives an empty series.
  - The metric picks the per-type park lists.
  - The solar and wind hourly series are merged into one row per hour.
- **The park registry** (`lib/parks.ts`): the five parks, the solar and wind sub-lists, and the `name-solar` / `name-wind` hash maps.
- **The energy data table**: which columns are built, what a cell shows, and the "Showing start-end of total rows" pagination label.

Timestamps are integer records ordered field by field. For the fixed-width `yyyy-MM-ddTHH:mm:ss` keys the source compares with `localeCompare`, this is the same order. Megawatt values are `real`. Fetching is abstracted: the handler receives the park list, and a function `readingsOf` gives each park's readings.

Files:

- `options.dfy`: the `Option` type.
- `seqs.dfy`: one sequence lemma.
- `clock.dfy`: timestamps, sorting of distinct keys, and the `Date` constructor.
- `text.dfy`: decimal rendering and ASCII lower-casing.
- `chart_utils.dfy`: `lib/charts/utils.ts`.
- `energy_route.dfy`: `app/api/energy/route.ts`.
- `energy_table.dfy`: `components/tables/energy-data-table.tsx`.
- `parks.dfy`: `lib/parks.ts`.

The definitions that the lemmas below are about:

- `ChartUtils.YearsOf` models lib/charts/utils.ts:36-47.
- `EnergyRoute.RowsOfType` models app/api/energy/route.ts:55-56.
- `EnergyRoute.ParkData` models app/api/energy/route.ts:58-65.
- `EnergyTable.CellOf` models components/tables/energy-data-table.tsx:58-71.
- `EnergyTable.ShownRange` models components/tables/energy-data-table.tsx:153-154.
- `EnergyTable.RangeLabel` models components/tables/energy-data-table.tsx:155.
- `Parks.OfType` models lib/parks.ts:17-18.
- `Parks.FromEntries` models lib/parks.ts:20-26.

## Model

| member | source | states |
|---|---|---|
| Clock.StartOfHour | lib/charts/utils.ts:17 | the hour key keeps year, month, day and hour and zeroes minutes and seconds |
| Clock.SortedTimestamps | lib/charts/utils.ts:27-32 | sorting the distinct hour keys gives each key exactly once, in strictly increasing order |
| Clock.SortedInts | lib/charts/utils.ts:36-48 | the de-duplicated, numerically sorted years hold each year of the set once, ascending |
| Clock.StrictlyIncreasingUnique | lib/charts/utils.ts:32 | two strictly increasing sequences with the same elements are equal, so a sort on distinct keys has one outcome |
| Clock.DaysInMonth | lib/charts/utils.ts:71 | a month has 28 to 31 days, and February has 29 exactly in leap years |
| Clock.NewLocalDate | lib/charts/utils.ts:70-71 | `new Date(y, m, d)` with month carry and day 0 always lands on a real calendar day |
| Text.NatToString | lib/charts/utils.ts:56 | a numeral is a non-empty run of digits, a single digit exactly below 10 |
| Text.IntToString | lib/charts/utils.ts:56-57 | `${year}` is digits, with a leading minus sign exactly for negative years |
| Text.NatToStringValue | components/tables/energy-data-table.tsx:155 | the digits shown for a row number spell that number in decimal, with no leading zero |
| Text.IntToStringValue | lib/charts/utils.ts:56-57 | `${year}` spells the year in decimal: its digits read left to right give the absolute value, after a minus sign exactly for negative years |
| Text.IntToStringInjective | lib/charts/utils.ts:56 | distinct years render to distinct text |
| Text.LowerChar | lib/parks.ts:21 | lower-casing leaves no upper-case ASCII letter and keeps every other character |
| ChartUtils.HoursExactly | lib/charts/utils.ts:13-21 | an hour has a bucket exactly when some accepted reading falls in it |
| ChartUtils.HourCountPositive | lib/charts/utils.ts:18-21 | an hour with a bucket has a count of at least one; an hour without one has total 0 |
| ChartUtils.RejectedReadingSkipped | lib/charts/utils.ts:14 | a reading without a date or with a non-numeric MW changes no bucket, wherever it sits in the input |
| ChartUtils.NoAcceptedNoHours | lib/charts/utils.ts:14 | input with no accepted reading produces no hour |
| ChartUtils.Mean | lib/charts/utils.ts:30 | a non-empty bucket's value times its count is its total |
| ChartUtils.EmitSorted | lib/charts/utils.ts:27-32 | emitting the map gives one point per bucket, dates strictly increasing, each holding its bucket's mean |
| ChartUtils.EmitIsHourlySeries | lib/charts/utils.ts:27-32 | emitting a map that tallies all readings yields their hourly series |
| ChartUtils.AggregateHourly | lib/charts/utils.ts:10-33 | the result is the hourly series of the readings: ascending hours, exactly the hours with accepted readings, each the mean of its readings, under `key` |
| ChartUtils.SeriesDates | lib/charts/utils.ts:27-32 | a series' dates are strictly increasing and are exactly the hours with readings |
| ChartUtils.HourlySeriesUnique | lib/charts/utils.ts:10-33 | the hourly series of a reading list is unique, so the contract fixes the output completely |
| ChartUtils.HourlySeriesSize | lib/charts/utils.ts:11-33 | the series has one point per distinct hour and is empty when no reading is accepted |
| ChartUtils.SampleBuckets | __tests__/charts-utils.test.ts:8-15 | readings of 10 and 20 MW at 01:10 and 01:50 and 8 MW at 02:00 fill two buckets: 30 over 2 and 8 over 1 |
| ChartUtils.SampleAveragesPerHour | __tests__/charts-utils.test.ts:8-19 | the aggregate of that sample is exactly 15 MW at 01:00 and 8 MW at 02:00 |
| ChartUtils.YearOptionSpan | lib/charts/utils.ts:53-60 | a year's option is keyed and titled by the year and spans January 1 to December 31 of the year the `Date` constructor uses |
| ChartUtils.QuarterOptionSpan | lib/charts/utils.ts:62-77 | quarter n is keyed `year-qn`, titled `Qn year`, and spans day 1 of month 3n-2 to the last day of month 3n |
| ChartUtils.QuarterValue | lib/charts/utils.ts:73 | quarter n's key is the year's numeral followed by `-q` and the digit n |
| ChartUtils.YearEntriesOrder | lib/charts/utils.ts:55-78 | each year contributes five options: the year first, then Q1 to Q4 in order |
| ChartUtils.YearEntriesValues | lib/charts/utils.ts:56-73 | the five keys of a year are the year and its four quarter keys |
| ChartUtils.EntryValueInjective | lib/charts/utils.ts:56-73 | a key determines both its year and its position: no quarter key equals a year key, and no two years share keys |
| ChartUtils.CatalogueShape | lib/charts/utils.ts:50-79 | the list starts with "All time" and has 1 + 5 entries per year |
| ChartUtils.CatalogueAt | lib/charts/utils.ts:52-79 | entry 1 + 5k + j is option j of the k-th year |
| ChartUtils.CatalogueValue | lib/charts/utils.ts:52-79 | the key at each position is determined by the year index and the offset within the year |
| ChartUtils.CatalogueValuesDistinct | lib/charts/utils.ts:35-82 | for ascending distinct years, every option key in the list is distinct |
| ChartUtils.CatalogueCoversYears | lib/charts/utils.ts:52-78 | each listed year's option and all four of its quarter options appear |
| ChartUtils.BuildTimeRangesFromDates | lib/charts/utils.ts:35-82 | with an unparseable date there is no list (the source throws); otherwise the list is "All time" then year and quarters for each distinct year, ascending |
| ChartUtils.TimeRangesOfDates | lib/charts/utils.ts:35-82 | for parseable dates: 1 + 5·(distinct years) options, "All time" first, keys pairwise distinct, every date's year offered |
| Parks.OfTypeAppend | lib/parks.ts:17-18 | filtering by type distributes over concatenation, so order is kept |
| Parks.OfTypeMembers | lib/parks.ts:17-18 | every filtered park has the requested type |
| Parks.OfTypeCounts | lib/parks.ts:17-18 | a filter keeps every park of the type as often as it occurs and drops all others |
| Parks.TypesPartition | lib/parks.ts:17-18 | the solar and wind lists together are a permutation of the park list |
| Parks.SolarParksOfList | lib/parks.ts:9-17 | the solar parks are Stadskanaal and Bemmel, in that order |
| Parks.WindParksOfList | lib/parks.ts:9-18 | the wind parks are Netterden, Windskanaal and Zwartenbergseweg, in that order |
| Parks.HashEntries | lib/parks.ts:20-26 | one entry per park: its lower-cased name plus suffix, mapped to its name |
| Parks.FromEntriesKeys | lib/parks.ts:20-22 | `Object.fromEntries` has exactly the keys of the entries |
| Parks.FromEntriesLast | lib/parks.ts:20-22 | a key's value comes from its last entry |
| Parks.HashToParkMapsEachPark | lib/parks.ts:20-26 | with distinct lower-cased names, each park's key maps to its name, there are no other keys, and the map has one key per park |
| Parks.KeyCount | lib/parks.ts:20-26 | with distinct lower-cased names, the map has as many keys as parks |
| Parks.LowerSuffixInjective | lib/parks.ts:21 | names that differ after lower-casing give different keys |
| Parks.HashKeysDisjoint | lib/parks.ts:20-26 | no solar key is a wind key |
| Parks.SolarKeyNames | lib/parks.ts:21 | the solar keys are `stadskanaal-solar` and `bemmel-solar` |
| Parks.WindKeyNames | lib/parks.ts:25 | the wind keys are `netterden-wind`, `windskanaal-wind` and `zwartenbergseweg-wind` |
| Parks.SolarEntriesOfList | lib/parks.ts:20-22 | the solar entries, in order, as literals |
| Parks.WindEntriesOfList | lib/parks.ts:24-26 | the wind entries, in order, as literals |
| Parks.SolarHashOfList | lib/parks.ts:20-22 | `solarHashToPark` is exactly the two-key map of the solar parks |
| Parks.WindHashOfList | lib/parks.ts:24-26 | `windHashToPark` is exactly the three-key map of the wind parks |
| EnergyRoute.RowsOfTypeExactly | app/api/energy/route.ts:55-56 | the per-type lists hold exactly the rows of that type |
| EnergyRoute.FindPark | app/api/energy/route.ts:103 | no result exactly when no row has the name; otherwise the first row with that name |
| EnergyRoute.Validate | app/api/energy/route.ts:42-113 | each outcome, exactly when it happens: an invalid metric gives 400 and is checked first; then an invalid mode gives 400; mode `all` picks the per-type lists; then a missing park gives 400, an unknown park 404, a mismatched type an empty series, and otherwise the park is served |
| EnergyRoute.CombinedForOnePark | app/api/energy/route.ts:108-113 | `combined` for a known park is never a mismatch and serves that park |
| EnergyRoute.LastAtSpec | app/api/energy/route.ts:87-93 | a date is in the map exactly when some point has it, and its entry comes from the last such point |
| EnergyRoute.EmitRows | app/api/energy/route.ts:95 | the map's values sorted by date: one row per key, dates strictly increasing |
| EnergyRoute.WindStep | app/api/energy/route.ts:90-93 | a wind point updates its date's row, keeping the solar value there or starting a fresh row |
| EnergyRoute.EmitCombined | app/api/energy/route.ts:95 | sorting a complete merge map gives the merged rows |
| EnergyRoute.MergeCombined | app/api/energy/route.ts:85-95 | one row per date of either series, in ascending order, each carrying the solar and the wind value of that date |
| EnergyRoute.CombinedUnique | app/api/energy/route.ts:85-95 | the merged rows are uniquely determined by the two series |
| EnergyRoute.SeriesValueAt | app/api/energy/route.ts:87-93 | in a series with distinct dates, the value at a point's date is that point's |
| EnergyRoute.HourlyDates | app/api/energy/route.ts:83-84 | an aggregated series' dates are the hours of its readings |
| EnergyRoute.HourlyValueAt | app/api/energy/route.ts:83-93 | an aggregated series contributes the hour's mean, or nothing when the hour has no readings |
| EnergyRoute.CombinedOfSeries | app/api/energy/route.ts:79-95 | the combined rows hold, for each hour with solar or wind readings, the solar mean and the wind mean of that hour |
| EnergyRoute.Get | app/api/energy/route.ts:36-118 | rejections carry their status and message; a mismatch gives the park's name with no data; one park gets its own hourly series; all parks get the solar, wind or combined aggregate of the per-type lists' readings |
| EnergyTable.BuildColumns | components/tables/energy-data-table.tsx:45-77 | the date column first, then the solar column exactly when shown, then the wind column exactly when shown, no column twice |
| EnergyTable.CellShowsValueOrZero | components/tables/energy-data-table.tsx:58-71 | a number cell shows the row's value, or 0 when it is missing |
| EnergyTable.PageSizes | components/tables/energy-data-table.tsx:169 | the page sizes offered are 10, 20, 25 and 50, all positive, and the initial size 25 (line 83) is one of them |
| EnergyTable.RangeEnd | components/tables/energy-data-table.tsx:154 | the last shown row never passes the total or the end of the page |
| EnergyTable.RangeStart | components/tables/energy-data-table.tsx:153 | an empty table reads 0-0; otherwise the start is the page's first row, counted from 1 |
| EnergyTable.RangeOnPage | components/tables/energy-data-table.tsx:150-155 | the range is ordered exactly when the page starts inside the table, and then covers at most one page |
| EnergyTable.EachRowOnOnePage | components/tables/energy-data-table.tsx:150-155 | every row is inside the range of exactly one page |
| EnergyTable.RangeLabelInjective | components/tables/energy-data-table.tsx:155 | the label determines start, end and total |

## Left out

- Fetching the CSV files, parsing them, building JSON responses and the base-URL lookup are input/output. The park list is a parameter of `Get`, and each park's readings come from the function `readingsOf`.
- `Promise.all` concurrency is not modelled. Each park list's readings are concatenated in list order, which is the order `Promise.all` followed by `flat` gives.
- Text parsing and formatting of dates is not modelled. This covers `parseISO`, the `format` patterns and the string form of the hour and day keys. A reading's date is already parsed, or marked blank or unparseable. Keys are the timestamps and days themselves, ordered field by field.
- Floating point is not modelled: NaN readings, rounding in the mean, and `toFixed(2)` in the table cells. Megawatts are exact reals.
- `toLowerCase` is modelled only for ASCII letters. The park names are ASCII.
- The React rendering, the table's state hooks, its date-search filter, and TanStack's pagination and paging buttons are out. Only the row-range label's arithmetic over total, page index and page size is modelled.
- EnergyTable.RangeOnPage: requires a page size of at least 1 and a total of at least 1. The selector offers only positive sizes (EnergyTable.PageSizes), so a zero page size is not reachable from the UI. An empty table is the 0-0 case of EnergyTable.RangeStart.
- EnergyTable.EachRowOnOnePage: requires a page size of at least 1, for the same reason.
- Parks.HashToParkMapsEachPark: requires distinct lower-cased names. The registry's names are distinct; with duplicates, the last park wins (Parks.FromEntriesLast).
- ChartUtils.AggregateHourly: a point keeps its date apart from its `key` field. So the collision when `key` is `"date"` is not modelled: there the mean overwrites the date, and the sort throws once there are two or more hours. Every caller passes `solar`, `wind` or a validated metric.
- Time zones and daylight saving are not modelled. The hour key is the local wall-clock hour that `startOfHour` gives, taken as the timestamp's own year, month, day and hour.
- `applyTimeRangeFilter` and `applyDateTimeRangeFilter`, used by the chart tests, are not part of this model.
- Other pages and components (the dashboard page, the chart, the sidebar, the date picker) are not part of this model.
