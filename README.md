# SpaceX launch tracker: filtering and statistics, in Dafny

This project models the logic of a browser dashboard for public spaceflight launch
records. The model covers the parts of the dashboard that compute something:

- the launch filters and the values derived from them (`src/utils/filters.ts`): the year of a
  launch, the mission-type and year filter, the list of selectable years, the success rate
  and text truncation;
- the per-year statistics table and the summary counters of the chart panel
  (`src/components/StatsChart.tsx`);
- the status class, badge, icon and details preview of a launch card
  (`src/components/LaunchCard.tsx`);
- the coordinator's state (`src/App.tsx`): the id lookup tables for rockets and
  launchpads, the years offered, the filtered list and its count, and id resolution.

Modules, one per source file: `Types` (the records of `src/types/index.ts`), `Filters`,
`StatsChart`, `LaunchCard` and `App`; plus `Wrappers` (an `Option` type for `null` and
`undefined`) and `Collections` (subsequences, a stable insertion sort by key, strictly
increasing sequences).

Modelling choices:

- `getYear` depends on JavaScript date parsing in the viewer's time zone. A timestamp is
  modelled as its text together with the local year it parses to, or NaN
  (`Types.Timestamp`). `Filters.GetYear` returns 0 for an empty text and for NaN. The
  source returns NaN for unparseable text. Every caller only tests `year > 0` or compares
  with a non-zero year, and NaN fails both tests just as 0 does.
- `FilterOptions.year` is an `Option<int>`. The year filter is active when the year is
  present and non-zero, which is JavaScript truthiness for a number that is not NaN.
- The JavaScript `Set` in `getAvailableYears` keeps insertion order. It is modelled as a
  sequence without repeats, which is then sorted.
- The stats accumulator is a sequence of row values. `existing.total += 1` replaces the
  row found by `find`, and `push` appends a row. Both `sort` calls are modelled by the
  stable insertion sort `Collections.SortBy`. Stability does not matter there, because
  the keys being sorted are distinct.
- A row's tallies are stated through the filter itself. `total` is the number of launches
  that `filterLaunches` keeps with `{ year }`. `successful` and `failed` are the counts of
  `success === true` and `success === false` among those launches.
- The coordinator's `useState` variables are the fields of the class `App.AppState`. The
  fetched rocket and launchpad records are kept as ghost fields, so the contracts can say
  what the lookup tables hold.

Three behaviours of the code that a reader might not expect are modelled as written:

- The year of a timestamp is the year in the viewer's local time zone.
- The success/failure icon of a card depends only on `success !== null`, even for an
  upcoming launch. So an upcoming launch whose `success` is set shows the upcoming badge
  beside a check mark or a cross (`LaunchCard.IconAgreesWithBadge`).
- The details preview appends `"..."` even when the details are 100 characters or shorter
  (`LaunchCard.PreviewVersusTruncate`).

## Model

| member | source | states |
|---|---|---|
| `Filters.GetYear` | src/utils/filters.ts:19-26 | an empty or unparseable timestamp gives 0; a non-empty timestamp that parses gives its local year; so any non-zero result is the parsed local year |
| `Filters.Keeps` | src/utils/filters.ts:32-50 | the `filter` callback: a kept launch is upcoming under `'upcoming'`, past under `'past'`, and of the selected year when a year is selected; with `'all'` or no type and no year every launch is kept |
| `Filters.FilterLaunches` | src/utils/filters.ts:28-51 | the result is never longer than the input |
| `Filters.FilterAppend` | src/utils/filters.ts:32-50 | filtering one more launch appends it to the result exactly when it passes the test, and otherwise leaves the result unchanged |
| `Filters.FilterMembers` | src/utils/filters.ts:32-50 | a launch is in the result iff it is in the input and passes both the mission-type test and the year test |
| `Filters.FilterIsSubsequence` | src/utils/filters.ts:28-51 | the result is a subsequence of the input: nothing is added and the original order is kept |
| `Filters.FilterNothingSelected` | src/utils/filters.ts:34-47 | with mission type `'all'` or absent, and the year absent or 0, the result is the input unchanged |
| `Filters.FilterPartition` | src/utils/filters.ts:34-39 | for any year filter, `'upcoming'` keeps only upcoming launches and `'past'` only past ones; their multisets add up to the `'all'` result, and so do their lengths |
| `Filters.KeepsSplit` | src/utils/filters.ts:34-39 | for any year filter, `'all'` keeps a launch exactly when `'upcoming'` or `'past'` keeps it, and never both keep it |
| `Filters.FilterSplit` | src/utils/filters.ts:34-39 | the multisets of the `'upcoming'` and `'past'` results add up to the `'all'` result |
| `Filters.PartitionCoversInput` | src/utils/filters.ts:34-39 | without a year, the lengths of the `'upcoming'` and `'past'` results sum to the input length |
| `Filters.FilterByYear` | src/utils/filters.ts:42-47 | with an active year, every kept launch has that year, which is known (non-zero); a year no launch has gives an empty result |
| `Filters.FilterIdempotent` | src/utils/filters.ts:32-50 | filtering the result again with the same options returns it unchanged |
| `Filters.FilterComposes` | src/utils/filters.ts:32-50 | filtering by mission type and year equals filtering by mission type, then by year (logical AND) |
| `Filters.KnownYears` | src/utils/filters.ts:55-60 | a year is known iff it is positive and some launch has it |
| `Filters.GetAvailableYears` | src/utils/filters.ts:53-62 | the result is strictly ascending, and its elements are exactly the known years of the launches |
| `Filters.Count` | src/utils/filters.ts:66 | a `filter(...).length` count is at most the number of launches, and equals it for the always-true test |
| `Filters.OutcomePartition` | src/types/index.ts:44 | the succeeded, failed and `null`-outcome counts add up to the number of launches |
| `Filters.SuccessRate` | src/utils/filters.ts:64-68 | no launches give 0; otherwise the result is in 0..100 and is `100 * successes / launches` rounded half up, with `null` outcomes counted in the denominator only |
| `Filters.SuccessRateTwoOfThree` | src/utils/filters.ts:64-68 | two successes and one failure give 67 |
| `Filters.TruncateText` | src/utils/filters.ts:75-79 | absent or empty text gives `""`; text that fits is returned unchanged; longer text gives its first `length` characters (none if `length` is negative) and then `"..."`, `max(length, 0) + 3` in all |
| `Collections.SortBy` | src/utils/filters.ts:61 | sorting returns a permutation of its input |
| `Collections.SortByMembers` | src/utils/filters.ts:61 | sorting keeps the length and the members of its input |
| `Collections.SortBySorted` | src/components/StatsChart.tsx:32 | the sorted sequence is ordered by key, and strictly ordered when the keys are distinct |
| `StatsChart.Counted` | src/components/StatsChart.tsx:17-25 | counting a launch into a row keeps its year, adds one to `total`, and keeps `successful + failed <= total` |
| `StatsChart.FindYear` | src/components/StatsChart.tsx:15 | `find` gives the first row of the year, or nothing exactly when no row has that year |
| `StatsChart.Accumulate` | src/components/StatsChart.tsx:13-29 | a launch of unknown year changes nothing; otherwise only the row of its year is counted up, or one new row is appended; rows of other years are untouched; the years gain the launch's year; the sum of totals grows by one; distinct years stay distinct |
| `StatsChart.UpdateRow` | src/components/StatsChart.tsx:16-19 | updating a row in place keeps the set of years and distinct years, and changes the sum of totals by the row's difference |
| `StatsChart.AppendRow` | src/components/StatsChart.tsx:21-26 | pushing a row adds its year and its total, and keeps years distinct when the year is new |
| `StatsChart.YearlyStats` | src/components/StatsChart.tsx:12-32 | rows are strictly ascending by year (so years are unique); their years are exactly the known years; each row has a positive year, counts all launches of that year in `total`, and counts the `true` and `false` outcomes in `successful` and `failed`; `successful + failed <= total`; the totals sum to the number of launches with a known year |
| `StatsChart.StepSummarizes` | src/components/StatsChart.tsx:13-29 | whichever of its three cases the callback takes, the accumulator keeps one row per known year, every row keeps its right tallies, and the totals still add up to the launches with a known year |
| `StatsChart.SortedYears` | src/components/StatsChart.tsx:32 | sorting the rows keeps the set of years |
| `StatsChart.SortedRowsRight` | src/components/StatsChart.tsx:32 | sorting keeps every row's tallies right, and each sorted row has `successful + failed <= total` |
| `StatsChart.SortedRows` | src/components/StatsChart.tsx:32 | sorting rows that are correct and have distinct years gives strictly ascending rows that keep every per-row fact and the sum of totals |
| `StatsChart.RowsAfterUnknownYear` | src/components/StatsChart.tsx:14 | a launch of unknown year leaves every row correct |
| `StatsChart.RowsAfterKnownYear` | src/components/StatsChart.tsx:16-19 | counting a launch in the one row of its year leaves every row correct |
| `StatsChart.RowsAfterNewYear` | src/components/StatsChart.tsx:20-26 | a new row for the first launch of a year leaves every row correct |
| `StatsChart.TalliesAppend` | src/components/StatsChart.tsx:16-19 | one more launch leaves rows of other years correct, and makes the counted-up row of its own year correct |
| `StatsChart.TalliesFirst` | src/components/StatsChart.tsx:21-26 | the row pushed for the first launch of a year has the correct tallies |
| `StatsChart.YearCountsAppend` | src/components/StatsChart.tsx:17-25 | one more launch of the year adds one to `total`, and one to `successful` or `failed` when `success` is `true` or `false`; a launch of another year adds nothing |
| `StatsChart.YearCountAppend` | src/components/StatsChart.tsx:14-19 | one more launch adds one to a year's count exactly when it has that year and the selected outcome |
| `StatsChart.TallyPartition` | src/components/StatsChart.tsx:17-19 | a row's total is its successes plus its failures plus its `null`-outcome launches |
| `StatsChart.SumTotalsPermutation` | src/components/StatsChart.tsx:32 | reordering the rows keeps the sum of their totals |
| `StatsChart.ChartYearsAreAvailableYears` | src/components/StatsChart.tsx:12-32 | the chart's year column, top to bottom, equals the list that `getAvailableYears` returns for the same launches |
| `StatsChart.OverallStats` | src/components/StatsChart.tsx:35-38 | the total is the number of launches, `successful + failed <= total` and `upcoming <= total` |
| `LaunchCard.StatusColor` | src/components/LaunchCard.tsx:19-25 | `'upcoming'` iff upcoming, whatever `success` holds; otherwise `'success'`, `'failed'` or `'unknown'` iff `success` is `true`, `false` or `null` |
| `LaunchCard.Badges` | src/components/LaunchCard.tsx:33-39 | at most one badge is rendered, and none exactly when the launch is past and its outcome is `null` |
| `LaunchCard.BadgeCases` | src/components/LaunchCard.tsx:33-39 | which single badge is shown in each of the four cases |
| `LaunchCard.BadgeMatchesStatus` | src/components/LaunchCard.tsx:19-39 | the badge names the same status as the card's class, and no badge means `'unknown'` |
| `LaunchCard.StatusIcon` | src/components/LaunchCard.tsx:42-49 | an icon appears iff `success !== null`, whether or not the launch is upcoming: a check mark for `true`, a cross for `false` |
| `LaunchCard.IconAgreesWithBadge` | src/components/LaunchCard.tsx:33-49 | for a past launch the icon and the badge agree; an upcoming launch with a set outcome shows the upcoming badge and an icon |
| `LaunchCard.DetailsPreview` | src/components/LaunchCard.tsx:74-76 | absent or empty details give no preview; otherwise the preview is the first `min(100, length)` characters and then `"..."` |
| `LaunchCard.PreviewVersusTruncate` | src/components/LaunchCard.tsx:76 | on details longer than 100 characters the preview equals `truncateText(details, 100)`; on shorter ones it has an extra `"..."` |
| `App.IndexOf` | src/App.tsx:45-54 | the `Map` after the `set` calls: the last record's id is a key, and its entry is that last record |
| `App.BuildIndex` | src/App.tsx:45-48 | the `forEach`/`set` loop produces the table of `set` applied to each record in input order |
| `App.IndexKeys` | src/App.tsx:45-55 | the table's keys are exactly the ids of the input records |
| `App.IndexLastWins` | src/App.tsx:46-48 | a record that no later record's id overrides is the table's entry for its id |
| `App.IndexEntries` | src/App.tsx:52-54 | every entry of the table is one of the input records, and it has the entry's id |
| `App.IndexSize` | src/App.tsx:45-55 | the table has no more entries than there are records |
| `App.Lookup` | src/App.tsx:138-139 | `get` finds the entry iff the id is a key, and gives absence otherwise |
| `App.Resolve` | src/components/LaunchList.tsx:47-48 | resolving an id against a built table is absence exactly when no record has the id, and otherwise gives the last record with it |
| `App.AppState.constructor` | src/App.tsx:13-22 | the initial state: no launches, empty tables, no years, mission type `'all'`, no year |
| `App.AppState.LoadData` | src/App.tsx:42-59 | after loading, the launches are kept, the tables hold the fetched records by id, and the years are the available years of the launches; filter selections are unchanged |
| `App.AppState.SetMissionType` | src/App.tsx:106 | changes only the mission type |
| `App.AppState.SetSelectedYear` | src/App.tsx:107 | changes only the selected year |
| `App.AppState.FilteredLaunches` | src/App.tsx:72-75 | the shown list is a subsequence of the launches, holding exactly those that pass the current selections |
| `App.AppState.LaunchCount` | src/App.tsx:121 | the count is the length of the filtered list, at most the number of launches, and equal to it for `'all'` with no year |
| `App.AppState.RocketOf` | src/App.tsx:138 | a launch's rocket is absent iff no fetched rocket has its id, and otherwise is a fetched rocket with that id |
| `App.AppState.LaunchpadOf` | src/App.tsx:139 | a launch's launchpad is absent iff no fetched launchpad has its id, and otherwise is a fetched launchpad with that id |

## Left out

- `src/services/spaceXApi.ts`: the HTTP requests, timeouts and error logging are network I/O. Its `getLaunchStats` computes the total, successful and failed counts the way `StatsChart.OverallStats` does.
- The parallel `Promise.all` load and its `try`/`catch`/`finally` (loading flag and error message) in `src/App.tsx:29-69`. `App.AppState.LoadData` models only the successful path, with the fetched collections as parameters.
- The React lifecycle, the `showStats` toggle and the selected-launch modal state. The lookups for the selected launch are `App.AppState.RocketOf` and `App.AppState.LaunchpadOf`, applied to that launch.
- `formatDate` and `formatNumber` (`src/utils/filters.ts:3-17, 70-73`): they call the browser's locale formatting.
- Date parsing and time zones: a timestamp carries the local year it parses to (see above).
- `SuccessRate`: the rounding is computed exactly. The source computes `(successes / launches) * 100` in floating point, so a value that is exactly `x.5` can come out just below it and be rounded down: 23 successes of 40 launches give `(23/40)*100 = 57.49999999999999` in IEEE double arithmetic, so the source shows 57 where the model gives 58.
- The floating-point "Success Rate" card (`src/components/StatsChart.tsx:64`), which divides by `total - upcoming` and can show `NaN` or `Infinity`.
- All rendering: the charts, `LaunchDetails.tsx`, `LaunchList.tsx`, `LaunchFilter.tsx` and the map link.
- Record fields that no modelled code reads: a launch's failures and date precision; a rocket's type, active flag, stages, boosters, cost per launch, success rate, first flight, country, company, height, diameter, mass and description; a launchpad's locality, region, latitude and longitude.
- `TruncateText` and `DetailsPreview` count Dafny characters. JavaScript's `substring` counts UTF-16 code units, so the two differ on text outside the Basic Multilingual Plane.
- `TruncateText` takes an integer `length`. A fractional or NaN `length` is not modelled.
- The iteration order of a JavaScript `Map` is not modelled: the tables are Dafny maps, and no modelled code iterates over them.
