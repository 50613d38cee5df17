# Museum visitors: the visit store, the reports and the CSV export

This project models the data and reporting core of the museum-visitors application in
Dafny. The core has two copies of the same code:

- the mock API service that the front end calls (`services/apiService.ts`);
- the Hono worker that serves the same operations over HTTP (`api.worker.ts`).

Both keep an in-memory array of visit records, seeded with four records, and a `nextVisitId`
counter. Both offer the same operations:

- list, create, update and delete records;
- today's summary;
- the current-month chart, one point per day;
- the historical chart of `count` week or month buckets;
- a CSV export.

The shared logic is modelled once. The worker's own additions get their own members: reading
numbers from the query string and the path, the HTTP status codes, and the export response.

Modules, in dependency order:

- `Wrappers`: `Option` and `Result`.
- `Calendar`: proleptic Gregorian dates.
  - `DayNumber` is a day count that stands for `getTime()` at day granularity.
  - Adding days, month arithmetic, JavaScript and ISO week days, and the `getWeekNumber`
    helper.
- `Text`: decimal rendering (`String(n)`), `padStart`, `slice(-2)`, `join`, and a naive
  `split` that reads a CSV back.
- `Visits`: the `Visit`, `VisitFormData` and `EventType` shapes, the eight initial event types
  and the seed records.
- `Store`: the class `VisitStore` with its fields `visits` and `nextVisitId`, and its list,
  create, update and delete methods.
- `Aggregator`: filtering records by a date condition, and the `forEach` folds that build a
  `DailySummary` or a `ChartDataPoint`.
- `Bucketer`: bucket ranges and labels.
  - Day labels "01".."31".
  - Month buckets counted back from the current month.
  - Seven-day week buckets ending `7 * i` days before today, labelled `W<week>-<yy>`.
- `Reports`: the three reports.
  - Each is a specification function plus the loop that computes it (`push` for the month
    chart, `unshift` for the historical chart).
- `Export`: the CSV text, the service's `data:` download text, and lemmas about how the text
  splits back into lines and fields.
- `Worker`: the number parsing, count defaulting, status codes and export response of the
  HTTP handlers.

Four behaviours of the code shape the model:

- The week label pairs the ISO week number of the bucket's start date with that date's
  calendar year. The week starting Monday 2024-12-30 is ISO week 1 of 2025 and is labelled
  "W1-24" (`Bucketer.WeekLabelAtYearEnd`).
- A count below one is not rejected.
  - The service loop produces an empty series for any `count <= 0`.
  - The worker computes `Number(count) || 4`. A missing, empty, zero or non-numeric count
    therefore gives four buckets, and a negative count gives none (`Worker.CountOrDefault`,
    `Worker.HistoricalRoute`).
- The CSV export quotes nothing. A comma in a group description shifts the columns of its
  line (`Export.CommaInDescriptionShiftsColumns`).
- An update spreads the form over the stored record (`{ ...visits[index], ...data }`). A form
  that carries an `id` renumbers the record, and a form without a `group_description` key
  keeps the stored description. A form that carries another stored record's id leaves two
  records with that id (`Store.MergeOtherIdDuplicates`).

## Model

| member | source | states |
|---|---|---|
| Calendar.DaysInMonth | services/apiService.ts:112 | `new Date(year, month + 1, 0).getDate()`: a month has 28 to 31 days, and February has 29 exactly in a leap year |
| Calendar.EarlierIsTimeOrder | services/apiService.ts:19 | the date order used for listing is the order of the dates' timestamps (day numbers), in both directions |
| Calendar.DayNumberInjective | services/apiService.ts:158-160 | two valid dates with the same timestamp are the same date, so the window comparisons compare dates |
| Calendar.MonthWindow | services/apiService.ts:144-145 | a valid date lies between the first and the last day of a month exactly when it is dated in that month |
| Calendar.AddDays | services/apiService.ts:148-151 | moving a date by n days gives a valid date whose day number is n larger |
| Calendar.MonthsBefore | services/apiService.ts:143 | `new Date(y, m - i, 1)`: the first day of the month i months back, with year roll-over |
| Calendar.MonthEnd | services/apiService.ts:145 | `new Date(y, m + 1, 0)`: the last day of the same month; the next day is a first of a month |
| Calendar.MonthEndThenNextMonth | services/apiService.ts:143-145 | the day after the end of the month i + 1 months back is the first day of the month i months back |
| Calendar.JsWeekdayAtEpoch | services/apiService.ts:179 | `getUTCDay()` of 1970-01-01 is 4, Thursday |
| Calendar.JsWeekdayNextDay | services/apiService.ts:179 | `getUTCDay()` advances by one from each day to the next, Saturday (6) wrapping to Sunday (0) |
| Calendar.IsoWeekday | services/apiService.ts:179 | `getUTCDay() \|\| 7`: Monday 1 to Sunday 7, and congruent to the JavaScript week day modulo 7 |
| Calendar.ShiftToThursday | services/apiService.ts:179 | the helper's shifted date is a Thursday, 4 - isoWeekday days from the given date |
| Calendar.WeekNumber | services/apiService.ts:177-183 | the week number is between 1 and 53; the worker's copy (api.worker.ts:20-26) is the same code |
| Calendar.WeekNumberBracketsDay | services/apiService.ts:180-181 | the Thursday's ordinal in its year lies in the w-th block of seven days |
| Calendar.WeekNumberIsIsoWeek | services/apiService.ts:177-183 | the helper yields the ISO 8601 week: counting back w - 1 weeks from the week's Thursday lands on the first Thursday of that Thursday's year, which is within its first seven days |
| Text.ParseNatToString | services/apiService.ts:116 | a number's decimal text reads back as the number |
| Text.IntToStringInjective | services/apiService.ts:116 | different integers render as different texts |
| Text.PadTwoRoundTrip | services/apiService.ts:116 | `String(n).padStart(2, '0')` of a number below 100 is two digits that read back as n |
| Text.LastTwo | services/apiService.ts:154 | `slice(-2)` is the suffix of the text of length two, or the whole text when it is shorter |
| Text.SplitJoin | api.worker.ts:82-84 | splitting a joined list on its separator gives the list back when no part holds the separator |
| Text.JoinAppend | api.worker.ts:84 | joining a concatenation is joining the two halves around one separator |
| Visits.FromForm | services/apiService.ts:23-27 | `{ ...data, id: nextVisitId++, created_at }`: the new record carries the form's date, type, counts, event type and description, a description absent from the form is absent from the record, and the id and `created_at` are the given ones whatever the form holds; the worker's copy (api.worker.ts:35-39) is the same code |
| Visits.FromFormIgnoresFormId | services/apiService.ts:24-25 | the `id` spread from the form is overridden: the new record does not depend on it |
| Visits.Overwrite | services/apiService.ts:35 | `{ ...visits[index], ...data }`: the merged record carries the form's fields, keeps `created_at`, takes the form's `id` when it has one and keeps its own otherwise, and keeps its description when the form has no `group_description` key; the worker's copy (api.worker.ts:49) is the same code |
| Visits.OverwriteWithOwnForm | services/apiService.ts:35 | spreading a record's own fields over it changes nothing |
| Visits.OverwriteIdempotent | services/apiService.ts:35 | applying the same update twice is applying it once |
| Visits.OverwriteAfterCreate | services/apiService.ts:22-37 | updating a freshly created record with the form it was created from gives the created record, renumbered when the form carries an id |
| Store.MaxId | services/apiService.ts:12 | `Math.max(...ids)` is an upper bound of every id and is itself a stored id |
| Store.SeedIds | services/apiService.ts:5-12 | the seed records have distinct ids 1 to 4, so the counter starts at 5 |
| Store.IndexOfId | services/apiService.ts:33 | `findIndex`: none exactly when no record has the id; otherwise the first position with that id |
| Store.WithoutId | services/apiService.ts:41 | the delete filter never grows the store, and what it keeps are stored records whose id differs |
| Store.WithoutIdMembers | services/apiService.ts:41 | after the delete filter, a record remains exactly when it was stored and its id differs |
| Store.WithoutIdShrinks | services/apiService.ts:40-42 | the store shrinks exactly when some record has the id, so the returned flag means "found" |
| Store.WithoutIdAppend | services/apiService.ts:41 | the delete filter keeps the remaining records in order |
| Store.WithoutAbsentId | services/apiService.ts:41 | deleting an absent id leaves the records unchanged |
| Store.WithoutIdKeepsIdsUnique | services/apiService.ts:41 | deleting keeps the ids distinct |
| Store.ListedBeforeIsComparatorOrder | services/apiService.ts:19 | the listing order is the comparator's: the later date first, and on equal dates the larger id first |
| Store.InsertPermutes | services/apiService.ts:19 | inserting into a listing adds exactly that record |
| Store.InsertSorted | services/apiService.ts:19 | inserting into a sorted listing keeps it sorted |
| Store.SortForList | services/apiService.ts:19 | the sorted copy is in listing order and is a permutation of the store |
| Store.MergeKeepingIdKeepsIdsUnique | services/apiService.ts:35 | a merge whose form carries no id, or the record's own id, keeps the ids distinct |
| Store.MergeOtherIdDuplicates | services/apiService.ts:35 | a merge whose form carries the id of another stored record leaves two records with that id |
| Store.VisitStore.constructor | services/apiService.ts:5-12 | the store starts with the four seed records, with `nextVisitId` 5 and ids unique and below it |
| Store.VisitStore.List | services/apiService.ts:18-20 | `getVisits` returns a permutation of the store sorted by date then id, both descending, and changes nothing; the worker's copy (api.worker.ts:28-31) is the same code |
| Store.VisitStore.Create | services/apiService.ts:22-30 | the new record is the form spread under the next id (`Visits.FromForm`, any `id` in the form is overridden) and is appended; the counter goes up by one; in a valid store its id exceeds every stored id and ids stay unique; the worker's copy (api.worker.ts:33-42) is the same code |
| Store.VisitStore.Update | services/apiService.ts:32-37 | null exactly when the id is absent, and then nothing changes; otherwise the first record with the id is replaced by the form spread over it (`Visits.Overwrite`), keeping its `created_at`, and is returned; ids stay distinct when the form carries no id or this id, and two records share an id when it carries another stored record's id |
| Store.VisitStore.Delete | services/apiService.ts:39-43 | every record with the id is removed and the rest keep their order; the result is true exactly when the id was present; a valid store stays valid; the worker's copy (api.worker.ts:53-58) is the same code |
| Aggregator.Filter | services/apiService.ts:86 | the filtered records are never more than the store, each satisfies the condition and each is a stored record |
| Aggregator.FilterMembers | services/apiService.ts:157-161 | a record is in the filtered list exactly when it is stored and satisfies the date condition |
| Aggregator.FilterAppend | services/apiService.ts:117 | filtering distributes over concatenation, so it keeps store order |
| Aggregator.FilterPermutation | services/apiService.ts:86 | reordering the store reorders the filtered records the same way |
| Aggregator.SumAppend | services/apiService.ts:122-127 | a running sum over two runs of records is the sum of the two sums |
| Aggregator.SumPermutation | services/apiService.ts:95-104 | accumulating the records in any order gives the same total |
| Aggregator.HeadcountIsAgeSum | services/apiService.ts:96-97 | summed over the records, the per-record totals equal the sum of the four age-group sums |
| Aggregator.TypeCountsAddUp | services/apiService.ts:98-99 | every record is counted as exactly one of individual and group |
| Aggregator.PointOf | services/apiService.ts:163-169 | a chart point keeps its label; each age count is the sum of that group over the records; the four counts add up to the records' headcount; no records give a zero point |
| Aggregator.SummaryOf | services/apiService.ts:88-104 | in the summary, the total equals the sum of the age breakdown, the two visit counters add up to the number of records, and no records give all zeros |
| Aggregator.SummaryOrderIndependent | services/apiService.ts:95-104 | shuffling the records never changes the summary |
| Aggregator.PointOrderIndependent | services/apiService.ts:164-169 | shuffling the records never changes a chart point |
| Aggregator.FilteredSummaryOrderIndependent | services/apiService.ts:86-104 | a filtered-then-summarised report does not depend on the order of the store |
| Aggregator.Summarize | services/apiService.ts:88-104 | the `forEach` leaves the summary of the records, with the same invariants; the worker's copy (api.worker.ts:91-106) is the same code |
| Aggregator.Accumulate | services/apiService.ts:163-169 | the `forEach` leaves the point of the records: the label, and per age group the sum over the records; the worker's copy (api.worker.ts:160-166) is the same code |
| Bucketer.FormatDate | services/apiService.ts:116 | the date text of a valid date is the year's decimal text, '-', two digits that read back as the month, '-', two digits that read back as the day |
| Bucketer.DayLabel | services/apiService.ts:119 | `String(day).padStart(2, '0')` of a day below 100 is two digits that read back as the day |
| Bucketer.FormatDateInjective | services/apiService.ts:116-117 | comparing the stored date text with a formatted date is comparing dates: equal texts mean equal dates |
| Bucketer.MonthBucket | services/apiService.ts:142-146 | month bucket i runs from the first to the last day of the month i months back |
| Bucketer.WeekBucket | services/apiService.ts:147-155 | week bucket i runs over seven days, ending 7i days before today; the worker's copy (api.worker.ts:148-154) is the same code |
| Bucketer.HistoricalBucketIsRange | services/apiService.ts:142-155 | every bucket is a non-empty range of valid dates |
| Bucketer.MonthBucketMembership | services/apiService.ts:142-146 | a valid date is in month bucket i exactly when its month is i months before the current month |
| Bucketer.WeekBucketMembership | services/apiService.ts:147-161 | a date is in week bucket i exactly when it is not after today and i is the number of whole weeks between it and today |
| Bucketer.AdjacentBucketsContiguous | services/apiService.ts:137-155 | adjacent buckets leave no gap: bucket i starts the day after bucket i + 1 ends |
| Bucketer.OlderBucketEndsEarlier | services/apiService.ts:137-155 | an older bucket ends before a newer one starts |
| Bucketer.BucketsDisjoint | services/apiService.ts:157-161 | no date falls in two different buckets |
| Bucketer.WeekTextReadsBack | services/apiService.ts:154 | a week label (`WeekLabel` is this text for the start date's week number and year) is 'W', digits that read back as the week number, '-', and the last two characters of the year's text; the worker's copy (api.worker.ts:153) is the same code |
| Bucketer.WeekNumberAtYearEnd | services/apiService.ts:177-183 | the week starting Monday 2024-12-30 is numbered 1 |
| Bucketer.WeekLabelAtYearEnd | services/apiService.ts:154 | the week starting 2024-12-30 is labelled "W1-24": ISO week 1 of 2025, but the start date's year; the worker's copy (api.worker.ts:153) is the same code |
| Reports.SameDayIsSameText | services/apiService.ts:85-86 | for valid dates, a record is dated today exactly when its date text equals today's text |
| Reports.TodaySummary | services/apiService.ts:84-106 | `getTodaySummary` summarises exactly today's records; the total equals the age breakdown sum, individual plus group equals today's record count, and no record dated today gives all zeros; the worker's copy (api.worker.ts:88-108) is the same code |
| Reports.NothingSelected | services/apiService.ts:86 | when no record meets the condition, the filter is empty |
| Reports.MonthSeries | services/apiService.ts:112-129 | the month chart has as many points as the month has days, 28 to 31 |
| Reports.MonthSeriesShape | services/apiService.ts:112-120 | the month chart has one point per day of the month (29 in a leap February), labelled with two digits that read back as 1, 2, ... in order |
| Reports.DaysSeriesAt | services/apiService.ts:115-128 | position k of the month chart is the point of day k + 1 |
| Reports.FilterThenSum | services/apiService.ts:117-127 | filtering then summing is summing over the selected records |
| Reports.DaysSeriesTotal | services/apiService.ts:115-129 | over the first n day points, an age group totals its day sums |
| Reports.DaysTotalSnoc | services/apiService.ts:115-129 | adding a record adds its count to the day sums when it is dated in the month's first n days |
| Reports.DaysTotalIsMonthTotal | services/apiService.ts:115-129 | over all the days of the month, the day sums equal the sum over the records dated in that month |
| Reports.MonthSeriesPartition | services/apiService.ts:108-131 | the day points partition the month: each age group's total over the chart is its total over the month's records |
| Reports.CurrentMonthData | services/apiService.ts:108-131 | `getCurrentMonthData` builds the month series: the points of days 1 to the month's length, in order; the worker's copy (api.worker.ts:110-132) is the same code |
| Reports.PointsAt | services/apiService.ts:163-170 | each position of the historical series holds the point of the bucket at that position |
| Reports.PrependedAt | services/apiService.ts:170 | with `unshift` on iterations 0 to n - 1, iteration k's value ends up at position n - 1 - k |
| Reports.BucketsStep | services/apiService.ts:137-170 | one more iteration puts the newest-built bucket in front |
| Reports.BucketsAt | services/apiService.ts:137-170 | bucket k sits at position n - 1 - k |
| Reports.HistoricalSeries | services/apiService.ts:137-171 | the historical series has `count` points, and none when `count <= 0` |
| Reports.HistoricalSeriesAt | services/apiService.ts:133-173 | the series has `count` points, and position count - 1 - k holds bucket k's point and label, oldest first, the bucket ending today last |
| Reports.MonthBucketIsCalendarMonth | services/apiService.ts:142-161 | in month mode, bucket i sums exactly the records dated in the calendar month i months back |
| Reports.CurrentMonthMatchesNewestBucket | services/apiService.ts:108-146 | summed over its days, the current-month chart equals historical month bucket 0, per age group |
| Reports.HistoricalData | services/apiService.ts:133-173 | the loop with `unshift` builds the historical series for the period and count; an empty series when count <= 0; the worker's copy (api.worker.ts:137-168) is the same code |
| Export.FindEventType | services/apiService.ts:58 | `find`: none exactly when no event type has the id; otherwise the first listed event type with that id |
| Export.FindEventTypeUnique | services/apiService.ts:58 | when ids are distinct, the event type found is the one with that id |
| Export.EventColumn | services/apiService.ts:68 | the event column is the name of the first event type with the record's event type id, or the id's decimal text when none has it; the worker's copy (api.worker.ts:80) is the same code |
| Export.Fields | services/apiService.ts:59-70 | a record's line has one value per header field |
| Export.Rows | services/apiService.ts:57-71 | one line per record, in store order; joined with line breaks, the lines split back into themselves when none holds a line break |
| Export.Csv | api.worker.ts:64-84 | a failure exactly for an empty store, with "No data to export." |
| Export.Header | api.worker.ts:68 | the header line splits on `,` into the ten header fields and holds no line break |
| Export.ExportLines | api.worker.ts:68-84 | split on line breaks, the export gives the header line and then each record's line in store order, provided no field holds a line break |
| Export.FixedFieldsHaveNoComma | api.worker.ts:71-81 | only the description, the event column and `created_at` can contain a comma |
| Export.RowFields | api.worker.ts:71-82 | a record's line splits on ',' into its ten fields, provided the three free-text fields hold no comma |
| Export.CommaInDescriptionShiftsColumns | api.worker.ts:75 | a description holding one comma splits its line into eleven pieces, and every later column is shifted |
| Export.FilenameInjective | services/apiService.ts:54 | the download's file name is its only date-dependent part: downloads made on different days get different file names |
| Export.ServiceExport | services/apiService.ts:49-73 | `exportVisits`: the "No data to export." alert exactly for an empty store; otherwise the `data:text/csv;charset=utf-8,` prefix followed by the same CSV text the worker sends |
| Worker.NumberOf | api.worker.ts:45 | `Number(text)` is finite exactly for the empty text and an optional '-' then digits |
| Worker.NumberOfIntToString | api.worker.ts:45 | the text of any integer reads back as that integer |
| Worker.CountOrDefault | api.worker.ts:136 | `Number(count) \|\| 4` is never 0: a finite non-zero number is kept, and NaN or 0 becomes 4 |
| Worker.CountDefaults | api.worker.ts:136 | a missing, empty or "0" count gives 4, and so does any text other than an optional '-' then digits |
| Worker.CountRoundTrip | api.worker.ts:136 | the text of a non-zero integer is taken as that count |
| Worker.HistoricalRoute | api.worker.ts:134-170 | the series for the parsed period (`Worker.PeriodOf`: month exactly for the text "month", weeks for anything else or nothing) and count: `count` points for a positive count, none for a negative one, four when the count is missing |
| Worker.PutVisit | api.worker.ts:44-51 | 404 with a null body exactly when the id is NaN or not stored, and then nothing changes; otherwise 200 with the merged record, stored at the id's first position; ids stay distinct unless the body carries another stored record's id, which then appears twice |
| Worker.DeleteVisit | api.worker.ts:53-58 | a NaN id deletes nothing; otherwise the store's delete; the result is true exactly when the id was present; a valid store stays valid |
| Worker.ExportResponse | api.worker.ts:64-86 | 404 with "No data to export." as `text/plain; charset=UTF-8` exactly for an empty store; otherwise 200, `text/csv`, and the CSV text |
| Worker.ExportsAgree | api.worker.ts:84 | the service's download text is the worker's response body behind the `data:` prefix |

## Left out

- Time zones and clocks. "Today" and `created_at` are parameters. UTC (`toISOString`) and
  local time (`getFullYear`, `setHours`) are not told apart: every date is a calendar day.
- The lemmas about dates assume every stored date is valid. A record whose `date` text is not
  a date, which would give `Invalid Date` and compare false, is not covered by them.
- `Bucketer.MonthLabel`: `toLocaleString('default', { month: 'short', year: '2-digit' })`
  depends on the runtime's locale. The model writes the English short month name and the
  two-digit year; no property about it is stated.
- The `delay` helper and the promises: every operation is modelled as completing
  synchronously with its value.
- The service's `encodeURI` call, the DOM link and its click, and the `alert` call. The
  model stops at the text behind the link (`Export.ServiceExport`), the alert message and the
  link's file name (`Export.Filename`), the one part of the download that depends on the day.
- Hono routing, JSON request parsing and JSON response encoding. A request body is a
  `VisitFormData` value: keys outside that type, and values of the wrong JSON type, which the
  spread would also copy into the record, are not modelled. Of the optional keys, `id` and
  `group_description` may be absent. A stored record does not tell a `null` description
  from a missing one: both export as an empty field.
- `Worker.ExportResponse`: the 404 response's `text/plain; charset=UTF-8` is the content type
  Hono's `c.text` sends when the route names none; the framework is not part of this model.
- `Worker.NumberOf`: `Number(text)` is modelled for the empty text, an optional '-' followed
  by digits, and everything else as NaN. Texts JavaScript reads as numbers are not given
  their values: a leading '+' (`Number("+5")` is 5, so the count is 5, not 4), decimals,
  exponents, hex, binary and octal literals (`0x`, `0b`, `0o`), surrounding whitespace, a
  whitespace-only text (0, so the count is 4 all the same) and "Infinity". A fractional count,
  which would give one more loop iteration than its integer part, is not modelled.
- The service's `getHistoricalData` takes `count` as a number. Its loop is `Reports.HistoricalData`
  for integer counts; non-integer counts are not modelled.
- `getEventTypes` and `GET /event-types` return a copy of the constant event-type list, which
  nothing changes. They carry no logic, so the model keeps only the constant
  (`Visits.InitialEventTypes`).
- Integer width: record counts and ids are unbounded integers. Floating-point overflow and
  non-integer counts in records are not modelled.
- The module-level arrays are shared mutable state in the source. The model keeps them as the
  fields of one `VisitStore` object. The mock service and the worker each have their own copy,
  and the model does not relate the two.
