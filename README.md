# Fleet maintenance dashboard — a Dafny model of its data engine

The dashboard shows a fleet of buses. Each bus has a log of entries. An entry is
either a breakdown report or a status update. A breakdown carries a depot, a
defect category and a severity, and is resolved or not. Its age in days
(`time_since_breakdown_days`) is optional.

This project models how the dashboard derives everything it shows from one
snapshot of that data:

- **The data hook** (`useFleetData`):
  - the date-range filter over the buses;
  - the statistics: counts, per-depot/category/severity distributions and the
    mean resolution time;
  - the health of a bus;
  - the ranked worklist of open issues.
- **The CSV exporter**:
  - field escaping and document assembly;
  - the bus summary rows and the breakdown rows.
  - A CSV reader is its round-trip partner: reading an exported document gives
    back the header and each row's texts.
- **The Active Issues page**: the depot pick-list, the three filters, the
  escalation ladder and the counters.
- **The bus table**: the depot pick-list, the search/status/depot filters and
  the per-bus summary.
- **The Analytics page**:
  - the drill-down, which groups the selected breakdowns by a second dimension
    and sorts the groups by total;
  - the trend icon and colour thresholds.
- **The bus detail panel**:
  - the timeline, newest day first;
  - the open-issues badge;
  - the severity colour.

## How it is modelled

Entities are datatypes (`Entry`, `Bus`, `Breakdown`, `FleetData`, `Placed` for a
bus/entry pair). A day is a `(year, month, day)` triple ordered
lexicographically. `Date` is `Valid(day)` or `Invalid`. An invalid date
compares false both ways, so the range filter keeps it.
The range bounds are calendar days, because the only way to set them is a single-day
calendar picker; a bound carrying a time of day would not fit this model.

JavaScript's `x || fallback` on optional strings is modelled as `OrElse`:
`undefined`, `null` and `""` all fall back.

The code's step-by-step parts are methods with loop invariants, each proved
against a specification function:

- the distribution maps filled by `forEach`;
- the worklist built by `push` and sorted in place;
- the depot `Set`s;
- the breakdown rows pushed in nested loops;
- the drill-down's `distribution` record, incremented with `++`.

The pure parts (filters, health, escalation, summaries, CSV text) are functions,
with lemmas stating what the pages promise.

`Array.prototype.sort` is stable. It is modelled by a stable insertion sort:
`InsertionSort` as a function, and `SortInPlace` on an `array` for the sorts
that work in place. Three properties are proved about it:

- it returns a permutation of its input;
- it is sorted for any comparator that is a total preorder;
- it is stable: each class of tied elements keeps its input order.

Integers are unbounded. Resolution hours are exact reals.

## Model

| member | source | states |
|---|---|---|
| Dates.ParseDateFormat | src/hooks/useFleetData.ts:26-31 | a date written "DD/MM/YYYY time" reads as the day (YYYY, MM, DD): day, month and year are taken in that order from the "/"-pieces of the text before the first space |
| Dates.DateParts | src/hooks/useFleetData.ts:28-29 | the text before the first space of "DD/MM/YYYY time" is "DD/MM/YYYY", and it splits on "/" into exactly the three digit groups |
| Dates.TimeIgnored | src/hooks/useFleetData.ts:28 | the time of day never changes the parsed day: any two times, or none, give the same date |
| Dates.MalformedKept | src/hooks/useFleetData.ts:72-76 | a date with fewer than three "/"-pieces is an invalid date, and the range filter keeps it under every range |
| Dates.EndDayKept | src/hooks/useFleetData.ts:74-75 | an entry dated on the end day itself, at any time of day, is inside the range |
| Dates.InRangeBounds | src/hooks/useFleetData.ts:74-75 | a readable day is in range exactly when it is not before the start (if set) and not after the end (if set) |
| Dates.InactiveKeepsAll | src/hooks/useFleetData.ts:69 | with neither bound set every date, readable or not, is in range |
| Dates.DayOrder | src/hooks/useFleetData.ts:74-75 | the day comparison is a total order: total, antisymmetric and transitive, with "earlier" the strict part |
| Dates.ParseDate | src/hooks/useFleetData.ts:26-31 | definition of `parseDate`: the first three "/"-pieces of the text before the first space, read as day, month, year; a missing or non-numeric piece gives an invalid date; `ParseDateFormat`, `TimeIgnored` and `MalformedKept` state it |
| Dates.InRange | src/hooks/useFleetData.ts:74-75 | definition of the two range tests: an invalid date is never excluded, a readable day is excluded only when before the start or after the end; `InRangeBounds`, `EndDayKept` and `InactiveKeepsAll` state it |
| FleetTypes.OrElse | src/hooks/useFleetData.ts:97 | `value \|\| fallback` gives the fallback exactly when the value is missing, empty or the fallback itself, and the value otherwise |
| FleetTypes.PlaceOpen | src/hooks/useFleetData.ts:192-196 | the pairs pushed for one bus are that bus with its open issues (unresolved breakdown reports), and every open issue of the bus is pushed |
| FleetTypes.OpenIssues | src/hooks/useFleetData.ts:189-197 | the collected pairs are exactly the open issues of the given buses, each paired with its own bus |
| FleetTypes.AllEntriesMembers | src/hooks/useFleetData.ts:91 | `flatMap(bus => bus.entries)` holds exactly the entries of the buses, and its length is the sum of their entry counts |
| FleetTypes.AllEntriesAppend | src/hooks/useFleetData.ts:91 | flattening two bus lists one after the other is flattening each and concatenating |
| FleetData.RestrictAll | src/hooks/useFleetData.ts:71-83 | the range filter restricts every bus, in order, to its in-range entries |
| FleetData.FilteredBuses | src/hooks/useFleetData.ts:67-85 | definition of `filteredBuses`: no snapshot gives no buses, no bound gives the snapshot's buses, otherwise each bus restricted to its in-range entries and the empty ones dropped; `NoRangeKeepsAll`, `RangeFilterSound` and `FilteredEntries` state it |
| FleetData.NoRangeKeepsAll | src/hooks/useFleetData.ts:69 | with no bound set `filteredBuses` is the snapshot's bus list itself |
| FleetData.RangeFilterSound | src/hooks/useFleetData.ts:71-84 | under an active range each kept bus has entries, `total_entries` equal to their number, only in-range entries, and an entries list that is an order-preserving subsequence of the original bus's; every in-range entry of every bus is kept |
| FleetData.KeptBusSound | src/hooks/useFleetData.ts:71-84 | one kept bus: non-empty, recounted, in range, a subsequence of a bus of the snapshot with the same number |
| FleetData.InRangeEntryKept | src/hooks/useFleetData.ts:72-84 | an in-range entry's bus survives the filter with that entry |
| FleetData.FilteredEntries | src/hooks/useFleetData.ts:71-84 | the entries of the filtered buses, flattened, are the in-range entries of all buses in their original order |
| FleetData.Keys | src/hooks/useFleetData.ts:96-98 | each breakdown's distribution key is its field, or "Unknown" when missing or empty |
| FleetData.Distribution | src/hooks/useFleetData.ts:95-113 | the `forEach` that fills a distribution record counts, for every key, exactly the breakdowns with that key, and the counts sum to the number of breakdowns |
| FleetData.TotalHoursBounds | src/hooks/useFleetData.ts:133 | the summed resolution hours of n entries lie between n times the smallest and n times the largest |
| FleetData.MeanBetween | src/hooks/useFleetData.ts:133-134 | a total between n·lo and n·hi divided by n lies between lo and hi |
| FleetData.AverageBetween | src/hooks/useFleetData.ts:128-135 | when some resolved breakdown has non-zero hours, the average lies between the least and the greatest hours of the breakdowns counted |
| FleetData.AverageWithoutTimes | src/hooks/useFleetData.ts:131-135 | with no resolved breakdown carrying non-null, non-zero hours the average is 0 |
| FleetData.AverageResolutionTime | src/hooks/useFleetData.ts:128-135 | definition of `avgResolutionTime`: the summed hours of the resolved breakdowns with truthy hours divided by their number, or 0 when there are none; `AverageBetween` and `AverageWithoutTimes` state it |
| FleetData.AnalyzedBuses | src/hooks/useFleetData.ts:90 | the statistics run over the filtered buses or, when none are left, over all buses; an empty result means the snapshot has no bus |
| FleetData.ComputeStats | src/hooks/useFleetData.ts:87-159 | no snapshot gives no statistics; otherwise each figure is over the analysed buses: bus and entry counts, resolved + unresolved = breakdowns, unresolved CRITICAL + HIGH ≤ unresolved, the mean resolution time, the metadata's linked/unlinked counts, and three distributions that count each key exactly and sum to the breakdowns |
| FleetData.StatsFallback | src/hooks/useFleetData.ts:90 | when the filter leaves no bus, the statistics are over the snapshot's buses |
| FleetData.BusHealth | src/hooks/useFleetData.ts:161-182 | healthy iff no open issue; critical iff an open issue is CRITICAL or older than 30 days; warning iff there are open issues and none of them is critical or older than 30 days, whichever branch is taken |
| FleetData.Rank | src/hooks/useFleetData.ts:188-201 | the severity rank is at most 4 and is 0 exactly for CRITICAL |
| FleetData.WorkLe | src/hooks/useFleetData.ts:199-204 | definition of the worklist comparator: lower severity rank first, then the older issue first, a missing age counting as 0; `WorkLeTotalPreorder`, `WorklistOrder` and `RankedWorklist` state it |
| FleetData.WorkLeTotalPreorder | src/hooks/useFleetData.ts:199-204 | the worklist comparator (rank ascending, then age descending with a missing age as 0) is a total preorder |
| FleetData.PushOpenIssues | src/hooks/useFleetData.ts:191-197 | the inner `forEach` appends the bus's open issues, in log order, after what was pushed before |
| FleetData.CollectOpenIssues | src/hooks/useFleetData.ts:189-197 | the pushed list is the open issues of the buses, bus by bus |
| FleetData.WorklistOrder | src/hooks/useFleetData.ts:199-204 | the sorted worklist is a permutation of the open issues, sorted by rank then age, and issues that tie keep their order |
| FleetData.RankedWorklist | src/hooks/useFleetData.ts:185-205 | `unresolvedBreakdowns` is the stable sort of the open issues of `filteredBuses`: a permutation, sorted, ties in collection order |
| FleetData.WorklistWithoutFallback | src/hooks/useFleetData.ts:191 | when the filter leaves no bus the worklist is empty even though the statistics fall back to all buses |
| Tally.FirstOccurrences | src/pages/Analytics.tsx:103 | the keys of a record in creation order: no repeats, and exactly the keys that occur |
| Tally.FirstOccurrencesSnoc | src/pages/Analytics.tsx:89-91 | a key joins the key order when it is first met and not again |
| Tally.CountSnoc | src/hooks/useFleetData.ts:98 | `record[k] = (record[k] \|\| 0) + 1` keeps the record counting every key's occurrences |
| Tally.CountsAddUp | src/hooks/useFleetData.ts:95-113 | the counts of a counting record, over its keys, sum to the number of items counted |
| Common.Filter | src/hooks/useFleetData.ts:92 | `filter` keeps exactly the items that pass, and no more than there were |
| Common.FilterIsSubseq | src/pages/ActiveIssues.tsx:62 | a filter result is an order-preserving subsequence of its input |
| Common.FilterSorted | src/pages/ActiveIssues.tsx:62 | filtering a sorted list leaves it sorted |
| Common.CountPartition | src/components/dashboard/BusTable.tsx:67-70 | counts under a predicate and its negation add up to the length |
| Common.Any | src/components/dashboard/BusTable.tsx:56-58 | `some` holds exactly when some item passes |
| Sorting.InsertionSortPermutes | src/hooks/useFleetData.ts:199 | the sort returns a permutation of its input |
| Sorting.InsertionSortSorted | src/hooks/useFleetData.ts:199-204 | under a comparator that is a total preorder on the input the result is sorted |
| Sorting.InsertionSortStable | src/hooks/useFleetData.ts:199-204 | the sort is stable: the items tied with any given item appear in input order |
| Sorting.InsertInPlace | src/hooks/useFleetData.ts:199 | one step of the in-place sort inserts `a[i]` into the sorted prefix and leaves the rest of the array alone |
| Sorting.SortInPlace | src/hooks/useFleetData.ts:199 | sorting an array in place leaves the stable sort of its old contents |
| Sorting.SortedCopy | src/components/dashboard/BusDetailView.tsx:28 | `[...xs].sort(cmp)` returns the stable sort of the input and does not touch the input |
| Sorting.SortKeepsDistinct | src/pages/ActiveIssues.tsx:57 | sorting a list without repeats gives a list without repeats |
| Strings.ContainsAt | src/pages/ActiveIssues.tsx:63 | `includes` holds exactly when the text occurs at some position |
| Strings.MatchesSearch | src/pages/ActiveIssues.tsx:63 | definition of the search test: an empty search matches, otherwise the lower-cased bus number contains the lower-cased search; `ContainsAt` and `FilterIssuesOrder` state it |
| Strings.LowerIdempotent | src/pages/ActiveIssues.tsx:69 | lower-casing twice is lower-casing once |
| Strings.StrLeTotal | src/pages/ActiveIssues.tsx:57 | the code-point string order compares any two strings |
| Strings.StrLeTransitive | src/pages/ActiveIssues.tsx:57 | the code-point string order is transitive |
| Strings.StrLeAntisymmetric | src/pages/ActiveIssues.tsx:57 | two strings each not after the other are equal |
| Strings.JoinSplit | src/components/dashboard/BusDetailView.tsx:29 | joining the pieces of a split with the same separator gives the text back |
| Strings.SplitJoin | src/components/dashboard/BusDetailView.tsx:29 | splitting a join of separator-free pieces gives the pieces back |
| Strings.Reverse | src/components/dashboard/BusDetailView.tsx:29 | `reverse` puts the i-th item at position n-1-i |
| Strings.UpperOfLower | src/components/dashboard/BusDetailView.tsx:39 | upper-casing ignores an earlier lower-casing |
| Strings.NatToStringRoundTrip | src/lib/exportUtils.ts:15 | `String(n)` of a count reads back as that count |
| Csv.Names | src/lib/exportUtils.ts:7 | `Object.keys(row)`: the row's field names in order |
| Csv.Lookup | src/lib/exportUtils.ts:13 | `row[header]` is the value under that name, and absent when the row has no such field |
| Csv.Text | src/lib/exportUtils.ts:14-15 | definition of `String(value)`: "" for a missing value, the text itself, or the decimal digits of a number; `NatToStringRoundTrip` and `Escape` state it |
| Csv.LookupRecord | src/lib/exportUtils.ts:13 | a row built from distinct names has those names in order and gives back each value under its name |
| Csv.Escape | src/lib/exportUtils.ts:13-20 | a missing value becomes the empty field; a text without comma, quote or newline is written as it is; one with any of them is wrapped in quotes |
| Csv.EscapeText | src/lib/exportUtils.ts:17-20 | definition of the quoting rule: a text with a comma, quote or newline is wrapped in quotes with its quotes doubled, any other text is written as it is; `UnquoteEscaped`, `ReadEscaped` and `PlainUnchanged` state it |
| Csv.DoubleQuotes | src/lib/exportUtils.ts:18 | doubling quotes never shortens a text and leaves a quote-free text alone |
| Csv.UnquoteEscaped | src/lib/exportUtils.ts:17-19 | stripping the outer quotes of a quoted field and halving its doubled quotes gives the value back |
| Csv.ReadQuotedDoubled | src/lib/exportUtils.ts:18 | reading a quoted body whose quotes were doubled stops at the closing quote with the original text |
| Csv.ReadEscaped | src/lib/exportUtils.ts:13-20 | any escaped field, followed by a comma, a newline or the end, reads back as its text |
| Csv.Cells | src/lib/exportUtils.ts:11-21 | a row's fields follow the header order, each the escaped value under that header, so a key the row lacks gives an empty field |
| Csv.Lines | src/lib/exportUtils.ts:10-23 | one line per row, its fields joined by commas |
| Csv.ExportCsv | src/lib/exportUtils.ts:4-5 | no rows produce no document, and any row produces one |
| Csv.PlainUnchanged | src/lib/exportUtils.ts:20 | texts that need no quoting are written verbatim |
| Csv.WrittenLines | src/lib/exportUtils.ts:8-24 | the header line and the row lines are the lines of the header and the row texts, each escaped and comma-joined |
| Csv.ReadLines | src/lib/exportUtils.ts:24 | lines of escaped records joined by "\n" read back as those records |
| Csv.ExportRoundTrip | src/lib/exportUtils.ts:4-24 | reading the exported document gives the first row's keys and, for every row, its texts in header order |
| Csv.TableOwnKeys | src/lib/exportUtils.ts:11-13 | when every row has the header's names, each row's texts in header order are its own values in order |
| Csv.UniformRowsReadBack | src/lib/exportUtils.ts:7-24 | rows that all share one list of distinct, plain names export to a document that reads back as that header and each row's texts |
| Depots.DepotOf | src/pages/ActiveIssues.tsx:53-54 | an entry contributes a depot exactly when it has breakdown details with a non-empty depot, and it contributes that depot |
| Depots.EntryDepotsMembers | src/pages/ActiveIssues.tsx:52-56 | the depots gathered from entries are exactly the truthy depots of those entries |
| Depots.EntryDepotsAppend | src/components/dashboard/BusTable.tsx:30-36 | gathering over two entry lists one after the other is gathering over each in turn |
| Depots.AddDepots | src/pages/ActiveIssues.tsx:52-56 | adding the truthy depots of entries to a `Set` leaves the distinct depots in insertion order |
| Depots.StrLeTotalPreorder | src/pages/ActiveIssues.tsx:57 | the code-point string order is a total preorder on any set of strings |
| Depots.PickList | src/pages/ActiveIssues.tsx:57 | `Array.from(set).sort()` is sorted, has no repeats and holds exactly the gathered depots |
| Depots.PickListStrict | src/pages/ActiveIssues.tsx:57 | in a sorted list without repeats every depot comes strictly before the ones after it |
| Depots.DepotChoices | src/pages/ActiveIssues.tsx:226-227 | the depot filter offers the first 20 depots of the pick-list, each lower-cased |
| Depots.ChoiceNamesDepot | src/pages/ActiveIssues.tsx:226-227 | every offered choice names, up to case, a depot of the pick-list |
| ExportRows.OldestOpenIsOldest | src/lib/exportUtils.ts:39-41 | the first open issue after the stable sort by age is an open issue of the bus and none is older; there is none exactly when the bus has no open issue |
| ExportRows.OldestOpen | src/lib/exportUtils.ts:39-41 | definition of `oldestUnresolved`: element 0 of the open issues stably sorted by age, oldest first, or none; `OldestOpenIsOldest` states it |
| ExportRows.OldestIssueDaysIsMax | src/lib/exportUtils.ts:49 | `oldest_issue_days` is the greatest age of an open issue (missing age as 0), or 0 without open issues |
| ExportRows.LatestDepot | src/lib/exportUtils.ts:50 | definition of `latest_depot`: the depot of the first entry with a truthy depot, else ""; `LatestDepotIsFirst` states it |
| ExportRows.BusValues | src/lib/exportUtils.ts:43-51 | definition of the bus row's seven values, in column order; `BusRowCounts` states it |
| ExportRows.LatestDepotIsFirst | src/lib/exportUtils.ts:50 | `latest_depot` is the depot of the first entry with a non-empty depot, and "" exactly when no entry has one |
| ExportRows.BusColumnsDistinct | src/lib/exportUtils.ts:43-51 | the bus row's seven column names are distinct |
| ExportRows.BusColumnsPlain | src/lib/exportUtils.ts:9 | the bus header names need no quoting |
| ExportRows.BusRowCounts | src/lib/exportUtils.ts:35-51 | a bus row carries the seven columns in order with the bus number, the bus's `total_entries`, the breakdown count, resolved and unresolved counts that add up to it, the oldest issue's days and the latest depot |
| ExportRows.BusTableReadsBack | src/lib/exportUtils.ts:34-54 | the bus export is empty exactly for no buses; otherwise it reads back as the seven names and one text row per bus |
| ExportRows.BreakdownColumnsDistinct | src/lib/exportUtils.ts:64-79 | the breakdown row's fourteen column names are distinct |
| ExportRows.BreakdownColumnsPlain | src/lib/exportUtils.ts:9 | the breakdown header names need no quoting |
| ExportRows.NameIsPlain | src/lib/exportUtils.ts:17 | a name of lower-case letters and underscores contains no comma, quote or newline |
| ExportRows.BreakdownRowValues | src/lib/exportUtils.ts:64-79 | a breakdown row carries the fourteen columns in order; `is_resolved` is "Yes" exactly for resolved and "No" exactly for unresolved reports; `days_open` defaults to 0 and `depot` to "" |
| ExportRows.BreakdownValues | src/lib/exportUtils.ts:64-79 | definition of the breakdown row's fourteen values, each detail defaulting to "" and `days_open` to 0; `BreakdownRowValues` and `BreakdownLookup` state it |
| ExportRows.BreakdownLookup | src/lib/exportUtils.ts:64-79 | each column of a breakdown row holds the value built for it |
| ExportRows.PlaceAll | src/lib/exportUtils.ts:63-64 | each breakdown of a bus is paired with that bus, in log order |
| ExportRows.AllBreakdownsOrder | src/lib/exportUtils.ts:60-81 | the breakdown rows' entries are the breakdown reports of all buses in bus order then log order, each with its own bus |
| ExportRows.PushBreakdownRows | src/lib/exportUtils.ts:61-80 | the inner `forEach` appends one row per breakdown of the bus after the rows pushed before |
| ExportRows.BreakdownRows | src/lib/exportUtils.ts:58-81 | the pushed rows are one row per breakdown report, bus by bus |
| ExportRows.BreakdownsReadBack | src/lib/exportUtils.ts:57-83 | the breakdown export is empty exactly when there is no breakdown report; otherwise it reads back as the fourteen names and one text row per breakdown report |
| ActiveIssues.IssueDepots | src/pages/ActiveIssues.tsx:50-58 | the page's depot list is sorted, without repeats, and holds exactly the truthy depots of the worklist's issues |
| ActiveIssues.IssueMatches | src/pages/ActiveIssues.tsx:62-73 | definition of one issue's three tests: case-insensitive bus-number search, exact severity unless "all", depot equal up to case unless "all"; `FilterIssuesOrder`, `SeverityChoice`, `IssueAtDepot` and `FiltersCompose` state it |
| ActiveIssues.FilterIssues | src/pages/ActiveIssues.tsx:61-74 | definition of `filteredBreakdowns`: the worklist filtered by those tests; `FilterIssuesOrder` and `InitialFiltersShowAll` state it |
| ActiveIssues.FilterIssuesOrder | src/pages/ActiveIssues.tsx:61-74 | `filteredBreakdowns` is an order-preserving subsequence of the worklist, stays ranked when the worklist is, and holds exactly the issues passing the three tests |
| ActiveIssues.InitialFiltersShowAll | src/pages/ActiveIssues.tsx:45-47 | with the initial empty search and "all", "all" the list is the whole worklist |
| ActiveIssues.SeverityChoice | src/pages/ActiveIssues.tsx:66-68 | a severity choice keeps exactly the issues whose severity equals it exactly |
| ActiveIssues.PickedDepotShowsIssues | src/pages/ActiveIssues.tsx:226-227 | every depot choice offered selects at least one issue |
| ActiveIssues.IssueAtDepot | src/pages/ActiveIssues.tsx:69-71 | an issue whose depot equals the choice up to case passes the depot filter |
| ActiveIssues.FiltersCompose | src/pages/ActiveIssues.tsx:62-73 | filtering by all three tests is filtering by the search, then the severity, then the depot |
| ActiveIssues.EscalationStatus | src/pages/ActiveIssues.tsx:77-83 | definition of `getEscalationStatus`, its five rules in priority order; `EscalationLadder` and `EscalationMonotone` state it |
| ActiveIssues.Level | src/pages/ActiveIssues.tsx:77-83 | a status ranks 0 exactly when it is "normal" |
| ActiveIssues.EscalationLadder | src/pages/ActiveIssues.tsx:77-83 | CRITICAL escalates after 3 days and is otherwise normal; HIGH after 7; anything else is normal up to 14 days, a warning up to 30 and an SLA breach beyond |
| ActiveIssues.EscalationMonotone | src/pages/ActiveIssues.tsx:77-83 | an issue never becomes less serious as it ages |
| ActiveIssues.IsEscalated | src/pages/ActiveIssues.tsx:117-123 | definition of the escalated test, with a missing age as 0 and a missing severity as ""; `EscalatedWhen` states it |
| ActiveIssues.CriticalCount | src/pages/ActiveIssues.tsx:111-113 | definition of `criticalCount`: the shown issues whose severity is exactly CRITICAL; `CountersBounded` states it |
| ActiveIssues.HighCount | src/pages/ActiveIssues.tsx:114-116 | definition of `highCount`: the shown issues whose severity is exactly HIGH; `CountersBounded` states it |
| ActiveIssues.EscalatedCount | src/pages/ActiveIssues.tsx:117-123 | definition of `escalatedCount`: the shown issues that are escalated; `CountersBounded` states it |
| ActiveIssues.EscalatedWhen | src/pages/ActiveIssues.tsx:117-123 | with a missing age as 0 and a missing severity as "", an issue counts as escalated exactly when it is CRITICAL and over 3 days, HIGH and over 7, or over 14 days old |
| ActiveIssues.CountersBounded | src/pages/ActiveIssues.tsx:111-123 | critical + high ≤ shown and escalated ≤ shown; every CRITICAL issue over 3 days and every issue over 14 days is among the escalated |
| BusTable.TableDepots | src/components/dashboard/BusTable.tsx:28-38 | the table's depot list is sorted, without repeats, and holds exactly the truthy depots of all entries of all buses |
| BusTable.AtDepot | src/components/dashboard/BusTable.tsx:56-58 | definition of `hasDepot`: some entry of the bus, of any kind, has a depot equal to the choice up to case; `DepotChoice` and `KeptAtDepot` state it |
| BusTable.KeepBus | src/components/dashboard/BusTable.tsx:42-63 | definition of one bus's three tests: search, status against the bus's health, depot; `FilterBusesOrder` and `StatusChoice` state it |
| BusTable.FilterBuses | src/components/dashboard/BusTable.tsx:41-64 | definition of the table's `filteredBuses`: the buses filtered by those tests; `FilterBusesOrder` and `InitialFiltersShowAll` state it |
| BusTable.FilterBusesOrder | src/components/dashboard/BusTable.tsx:41-64 | the table keeps the buses' order and shows exactly the buses passing the search, status and depot tests |
| BusTable.InitialFiltersShowAll | src/components/dashboard/BusTable.tsx:23-25 | with the initial choices every bus is shown |
| BusTable.StatusChoice | src/components/dashboard/BusTable.tsx:48-52 | "healthy" shows the buses without open issues, "critical" those with an open issue that is CRITICAL or over 30 days old, "warning" the remaining buses with open issues |
| BusTable.DepotChoice | src/components/dashboard/BusTable.tsx:55-60 | a depot choice shows the buses with some entry, of any kind, whose depot equals the choice up to case |
| BusTable.PickedDepotShowsBuses | src/components/dashboard/BusTable.tsx:117-122 | every depot choice offered shows at least one bus |
| BusTable.KeptAtDepot | src/components/dashboard/BusTable.tsx:55-60 | a bus with an entry at the chosen depot is shown |
| BusTable.Summarize | src/components/dashboard/BusTable.tsx:66-78 | definition of `getBusSummary`: breakdown, resolved, unresolved and update counts and the oldest unresolved issue; `SummaryCounts` and `SummaryOldest` state it |
| BusTable.SummaryCounts | src/components/dashboard/BusTable.tsx:66-77 | resolved + unresolved = breakdowns; breakdowns + updates = entries; unresolved counts the open issues; an oldest issue exists exactly when some is unresolved; none unresolved exactly when the bus is healthy |
| BusTable.SummaryOldest | src/components/dashboard/BusTable.tsx:72-75 | the oldest unresolved issue is an open issue of the bus and no open issue is older |
| Analytics.RelevantExactly | src/pages/Analytics.tsx:66-74 | the drill-down's entries are exactly the breakdown reports of the filtered buses whose selected field equals the chosen value |
| Analytics.RelevantEntries | src/pages/Analytics.tsx:66-74 | definition of `relevantEntries`: the breakdown reports of the buses, bus by bus, whose drilled field equals the value; `RelevantExactly` and `DrillDownMatchesChart` state it |
| Analytics.GroupDim | src/pages/Analytics.tsx:80-87 | definition of the grouping dimension: the category for a depot drill-down, the depot otherwise; `DrillDownGroups` states it |
| Analytics.TalliedSnoc | src/pages/Analytics.tsx:89-96 | one more entry adds one to its own group's resolved or unresolved count and leaves other groups alone |
| Analytics.TalliedTotal | src/pages/Analytics.tsx:89-106 | a group's resolved + unresolved is the number of entries grouped under its key |
| Analytics.CountEntry | src/pages/Analytics.tsx:89-96 | one `forEach` step creates the group at zero if missing and increments the resolved or unresolved count |
| Analytics.GroupedStep | src/pages/Analytics.tsx:79-97 | the step keeps the record holding, for exactly the keys met so far, their groups' counts |
| Analytics.GroupMapGrouped | src/pages/Analytics.tsx:77-97 | the record built entry by entry holds a group for exactly the keys that occur, with its counts |
| Analytics.NamesStep | src/pages/Analytics.tsx:89-91 | a key joins the record's key order when its group is created |
| Analytics.CountOne | src/pages/Analytics.tsx:79-97 | one iteration extends the key order and the record to one more entry |
| Analytics.GroupEntries | src/pages/Analytics.tsx:77-97 | the loop leaves the keys in creation order and a record that counts each key's resolved and unresolved entries |
| Analytics.GroupAt | src/pages/Analytics.tsx:103 | every key in creation order has its group in the record |
| Analytics.ListRows | src/pages/Analytics.tsx:103-106 | `Object.entries(distribution).map` gives one row per group, in creation order, with its counts and `total` |
| Analytics.DrillDownData | src/pages/Analytics.tsx:63-109 | no drill-down selected gives null; otherwise the figures over the relevant entries and their groups sorted by total |
| Analytics.DrillDownOf | src/pages/Analytics.tsx:99-108 | definition of the drill-down's figures: the relevant entries' count, resolved and unresolved counts, and their groups sorted by total; `DrillDownConsistent` and `DrillDownGroups` state it |
| Analytics.SumTotalsInsert | src/pages/Analytics.tsx:107 | inserting a row adds its total to the sum of totals |
| Analytics.SumTotalsSorted | src/pages/Analytics.tsx:107 | sorting the rows keeps the sum of their totals |
| Analytics.SumTotalsOfRows | src/pages/Analytics.tsx:103-106 | the totals of the rows for some keys sum to how often those keys occur |
| Analytics.DrillDownConsistent | src/pages/Analytics.tsx:99-108 | resolved + unresolved = totalEntries; the group totals sum to totalEntries; the groups are sorted by total, largest first; each group's total is its resolved + unresolved |
| Analytics.RowsAddUp | src/pages/Analytics.tsx:103-107 | the sorted groups' totals sum to the number of relevant entries |
| Analytics.SortedRowsShape | src/pages/Analytics.tsx:103-107 | the sorted groups are in non-increasing total order and each total is resolved + unresolved |
| Analytics.DrillDownGroups | src/pages/Analytics.tsx:77-107 | the drill-down lists each grouping key once, and exactly the keys of its entries, with the depot as key for a category or severity drill-down and the category for a depot one |
| Analytics.SortedRowsNamed | src/pages/Analytics.tsx:103-107 | sorting keeps the same rows, each row is its key's group, and no row repeats |
| Analytics.SortedNamesDistinct | src/pages/Analytics.tsx:103-107 | no group name repeats after sorting |
| Analytics.SortedNamesMembers | src/pages/Analytics.tsx:103-107 | the sorted group names are exactly the keys that occur |
| Analytics.RowsNames | src/pages/Analytics.tsx:103-105 | the unsorted rows' names are the keys in creation order |
| Analytics.RowsDistinct | src/pages/Analytics.tsx:103-106 | no row repeats |
| Analytics.WithFieldCounted | src/pages/Analytics.tsx:66-74 | for a value other than "" and "Unknown", the entries whose field equals it are as many as that key's occurrences in the distribution |
| Analytics.DrillDownMatchesChart | src/pages/Analytics.tsx:66-74 | drilling into a value other than "Unknown" or "" selects as many entries as the distribution over the same buses counts under it; for the depot and severity bars, which pass their key unchanged, that is the bar's count |
| Analytics.UnknownBarDrillsToNothing | src/pages/Analytics.tsx:69 | a bus whose breakdown has an empty depot is counted under the "Unknown" bar, but the "Unknown" drill-down selects nothing, because it compares the raw field |
| Analytics.TrendsAgree | src/pages/Analytics.tsx:115-125 | for a finite change away from ±2, the icon is flat exactly when the colour is muted; the colour is good exactly when the icon points the good way (or at the ±2 boundary); the inverse colour of a change is the plain colour of its negation |
| Analytics.TrendBoundary | src/pages/Analytics.tsx:115-125 | at exactly ±2 the icon is flat while the colour is already good or bad |
| Analytics.TrendNotANumber | src/pages/Analytics.tsx:115-125 | a NaN change shows the flat icon in the bad colour; a flat icon with a colour other than muted happens exactly for NaN and for ±2 |
| Analytics.TrendIconOf | src/pages/Analytics.tsx:115-119 | definition of `getTrendIcon`: up above 2, down below -2, flat otherwise, NaN included; `TrendsAgree`, `TrendBoundary` and `TrendNotANumber` state it |
| Analytics.TrendColorOf | src/pages/Analytics.tsx:121-125 | definition of `getTrendColor`: muted under 2 in size, otherwise good when the change goes the desired way and bad when not, and bad for NaN; `TrendsAgree`, `TrendBoundary` and `TrendNotANumber` state it |
| Analytics.TimeChange | src/pages/Analytics.tsx:51-53 | the resolution-time change, with the random factor as a parameter, is NaN exactly when the average is 0, and otherwise depends only on the factor |
| Analytics.ResolutionChange | src/pages/Analytics.tsx:47-49 | the resolution-rate change, with the random previous rate as a parameter, is NaN exactly when there are no breakdowns, and otherwise lies between -previous and 100 - previous |
| Analytics.NoTimesShowsFlatBad | src/pages/Analytics.tsx:51-53 | with no resolved breakdown carrying hours, the resolution-time badge shows the flat icon in the bad colour, whatever the random draw |
| BusDetail.TimelineOrder | src/components/dashboard/BusDetailView.tsx:28-32 | `sortedEntries` is the stable sort of a copy of the log and a permutation of it |
| BusDetail.TimelineKeyFormat | src/components/dashboard/BusDetailView.tsx:29-30 | a date "DD/MM/YYYY HH:MM:SS" gets the key "YYYY-MM-DD", which reads as the same day the date filter reads |
| BusDetail.KeyFromParts | src/components/dashboard/BusDetailView.tsx:29 | reversing the pieces day, month, year and joining with "-" gives year-month-day |
| BusDetail.IsoKeyRead | src/components/dashboard/BusDetailView.tsx:29-30 | a "YYYY-MM-DD" key of digits reads as that year, month and day |
| BusDetail.TimelineKey | src/components/dashboard/BusDetailView.tsx:29-30 | definition of the sort key: the date part's "/"-pieces reversed and joined with "-"; `TimelineKeyFormat` and `KeyFromParts` state it |
| BusDetail.ParseIsoKey | src/components/dashboard/BusDetailView.tsx:29-30 | definition of `new Date(key)` on the key: a strict "YYYY-MM-DD" is that day, anything else invalid; `IsoKeyRead` and `TimelineKeyFormat` state it |
| BusDetail.TimelineLe | src/components/dashboard/BusDetailView.tsx:28-32 | definition of the comparator `dateB - dateA`: `a` goes after `b` only when both dates are readable and `a` is the earlier day; `TimelinePreorder`, `NewestFirst`, `SameDayKeepsLogOrder` and `UnreadableDateTies` state it |
| BusDetail.TimelinePreorder | src/components/dashboard/BusDetailView.tsx:28-32 | over entries with readable dates the comparator is a total preorder |
| BusDetail.NewestFirst | src/components/dashboard/BusDetailView.tsx:27-32 | with every date readable the timeline is a permutation of the log and runs newest day first |
| BusDetail.SameDayKeepsLogOrder | src/components/dashboard/BusDetailView.tsx:28-32 | entries of the same day keep their log order, since the time of day is dropped and the sort is stable |
| BusDetail.UnreadableDateTies | src/components/dashboard/BusDetailView.tsx:29-31 | an unreadable date ties with everything, so with one in the log the comparator is no longer an order |
| BusDetail.UnresolvedCount | src/components/dashboard/BusDetailView.tsx:34-36 | definition of `unresolvedCount`: the unresolved breakdown reports of the bus; `UnresolvedBadge` states it |
| BusDetail.UnresolvedBadge | src/components/dashboard/BusDetailView.tsx:34-36 | the open-issues badge shows exactly when the bus is not healthy, and its number is the table's unresolved count |
| BusDetail.SeverityColorIgnoresCase | src/components/dashboard/BusDetailView.tsx:38-49 | the severity colour does not depend on the case the severity is written in |
| BusDetail.SeverityColor | src/components/dashboard/BusDetailView.tsx:38-49 | definition of `getSeverityColor`: the upper-cased severity switched to the CRITICAL, HIGH and MEDIUM colours, anything else muted; `SeverityColorIgnoresCase` states it |

## Left out

- Loading, the 300 ms delay and the auto-refresh timer, and the React state plumbing. The snapshot (`Option<FleetData>`, `None` before loading) and the date range are plain inputs.
- `monthlyTrends`: a constant list with nothing to derive.
- The random draws of the Analytics comparison: the resolution-time factor and the previous resolution rate are parameters of `TimeChange` and `ResolutionChange`. The breakdown-count change (`Math.round` of a random multiple) is not computed; the trend badges take it as a `Change`, which is NaN when there are no breakdowns (0 / 0).
- The file download (Blob, link, object URL) and the dated file name. The export ends at the document text.
- The analytics exports' `percentage` column and other `toFixed`/rounding figures: floating-point formatting.
- JavaScript objects used as records:
  - prototype keys such as "constructor" or "__proto__" are not modelled;
  - integer-like keys, which `Object.entries` lists first, are not modelled: the record's key order is modelled as creation order.
- Unicode case folding: `toLowerCase`/`toUpperCase` change ASCII letters only.
- JavaScript `Date` details:
  - overflowing days or months rolling over;
  - two-digit years mapping to 19xx;
  - the local-time versus UTC reading of ISO strings;
  - lenient parsing of non-ISO strings.
  - A day is `(year, month, day)` with no range check. `BusDetail.ParseIsoKey` accepts only the strict "YYYY-MM-DD" form.
- `Number(...)` of a date piece is simplified. A piece of ASCII digits is read as its value, and the empty piece as 0. The model treats anything else as an invalid date, although `Number` also accepts surrounding spaces, signs, decimals, exponents and hexadecimal.
- Fractional days in `time_since_breakdown_days`: ages are integers.
- Fields the core never reads (means, sender, the other time fields) are carried or dropped without effect.
- BusDetail.NewestFirst: sortedness is stated only when every date in the log is readable. With an unreadable date the comparator is not an order and the engine's result depends on its algorithm; `BusDetail.UnreadableDateTies` states why.
- Analytics.DrillDownData: runs over `filteredBuses` as the page does, without the statistics' fallback to all buses. With an active range that leaves no bus, the drill-down is empty while the charts show all buses.
- BusDetail.TimelineOrder: with an unreadable date in the log only the permutation is the source's promise. The comparator is then inconsistent, so the order the browser returns is implementation-defined; the order stated here is insertion sort's.
- Analytics.DrillDownMatchesChart: says nothing about the category bar. That chart shows `name` with "_" replaced by spaces and each word capitalised, and on a click passes that text with spaces turned back to "_" and upper-cased. A key that is not already upper-case, such as "Engine_failure", therefore drills into "ENGINE_FAILURE" and selects nothing. The chart components are not part of this model.
- Strings.StrLe: strings are sequences of code points and are ordered by code point. JavaScript's default `sort()` compares UTF-16 code units, so the depot pick lists (`Depots.PickList`, `ActiveIssues.IssueDepots`, `BusTable.TableDepots`) can order a character beyond U+FFFF differently from one in U+E000..U+FFFF.
