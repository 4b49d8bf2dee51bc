# Attendance recording and reporting, modelled in Dafny

This project models the attendance engine of a school administration
backend:

- **Bulk recording.** A batch of `{student_id, status, note?}` marks for one
  date is validated, then each mark is upserted on the natural key
  (student, date). One `AttendanceRecorded` event is dispatched per mark, and
  the date's cached daily statistics are forgotten.
- **Daily statistics.** Total, present, absent and late counts for a date,
  plus the percentage present. They come from the stats cache, or are
  computed and cached on a miss.
- **Monthly report.** The marks of a calendar month, optionally restricted to
  one class. They are grouped by student in first-seen order, each group with
  its counts, percentage and daily detail.

Layout, one module per file:

| file | module | what it holds |
|---|---|---|
| `wrappers.dfy` | `Wrappers` | `Option`, `Result` |
| `calendar.dfy` | `Calendar` | valid dates, `YYYY-MM-DD` formatting and parsing, month ranges |
| `entities.dfy` | `Entities` | students, marks, batches, attendance rows and their key |
| `bulk_store_request.dfy` | `BulkStoreRequest` | the request rules as a validation function and a `ValidBatch` predicate |
| `attendance_store.dfy` | `AttendanceStore` | the table as a sequence of rows; `updateOrCreate`; a whole batch |
| `daily_snapshot.dfy` | `DailySnapshot` | cache key, per-date counts, exact percentage |
| `monthly_aggregate.dfy` | `MonthlyAggregate` | selection, first-seen grouping, per-student summaries |
| `attendance_service.dfy` | `AttendanceService` | class `Service`: rows, cache and event log, with the service's operations |

Percentages are whole numbers of hundredths: 10000 is 100.00 and 3333 is
33.33. Rounding is half-up, as PHP's `round(x, 2)` does for non-negative
values. `Percent` is characterised as the nearest hundredth, and
`PercentUnique` shows that this pins the value down.

The `Service` class keeps two predicates:

- `Valid()`: at most one row per (student, date), and every stored status is
  one of the three.
- `Coherent()`: every cached snapshot equals the snapshot recomputed from the
  store.

`BulkRecord`, `DailyStats` and `BulkStore` preserve both. So any sequence
of the constructor, `BulkStore`, `BulkRecord`, `DailyStats` and
`MonthlyReport` keeps `Coherent()`, and a cached snapshot read after such a
sequence is never stale. `UpdateOrCreate`, `RecordOne` and `RecordMarks` are
steps of `BulkRecord`: they keep `Valid()` but not `Coherent()` on their own,
since they change rows without forgetting the date's cache key. The model runs one operation at a
time; the interleaving listed under "## Left out" (a read between the
forget and the commit) is outside it.

On three points the model follows the code where a reader might expect otherwise:

- **No section filter.** The HTTP controller passes a fourth `section`
  argument to `monthlyReport`
  (backend/app/Http/Controllers/Api/AttendanceController.php:46-51). The
  service takes only `class`, and PHP drops the extra argument, so
  `BuildReport` has no section parameter.
- **Events are not post-commit.** `AttendanceRecorded` is dispatched inside the
  transaction, once per record, as each row is written
  (backend/app/Services/AttendanceService.php:19-34). `BulkRecord` appends each
  event inside its loop, before the cache key is forgotten.
- **Falsy class means no filter.** The class filter applies only when the
  argument is truthy in PHP, so `null`, `""` and `"0"` all mean "no filter"
  (`IsTruthy`).

## Model

| member | source | states |
|---|---|---|
| `Calendar.DaysInMonth` | backend/app/Services/AttendanceService.php:65-66 | months have 28 to 31 days; 29 exactly for February of a leap year |
| `Calendar.FormatDate` | backend/app/Services/AttendanceService.php:17 | the `toDateString()` spelling has ten characters: digits, with dashes at positions 4 and 7 |
| `Calendar.ParseIsoDate` | backend/app/Http/Requests/AttendanceBulkStoreRequest.php:25 | a string accepted as a date has the `YYYY-MM-DD` shape; `ParseFormat` and `FormatParse` give the round trip in both directions |
| `Calendar.ParseFormat` | backend/app/Services/AttendanceService.php:17 | parsing the `toDateString()` form of a date gives back that date |
| `Calendar.FormatParse` | backend/app/Http/Requests/AttendanceBulkStoreRequest.php:25 | a string the parser accepts is exactly the `YYYY-MM-DD` spelling of the date it returns, so impossible days such as 2024-02-30 are refused |
| `Calendar.YearZeroRefused` | backend/app/Http/Requests/AttendanceBulkStoreRequest.php:25 | a `0000-MM-DD` string is refused for every month and day, as the `date` rule's `checkdate` needs a year of at least 1 |
| `Calendar.FormatDateInjective` | backend/app/Services/AttendanceService.php:17 | distinct dates have distinct `YYYY-MM-DD` spellings, so distinct cache keys |
| `Calendar.StartOfMonth` | backend/app/Services/AttendanceService.php:65 | the month's first day: a real date of that year and month, no later than any day of the month |
| `Calendar.EndOfMonth` | backend/app/Services/AttendanceService.php:66 | the month's last day: a real date of that year and month, no earlier than any day of the month |
| `Calendar.Between` | backend/app/Services/AttendanceService.php:68 | the inclusive `whereBetween` test: on or after the first bound and on or before the second; `MonthRangeIsYearMonth` states what it selects |
| `Calendar.MonthRangeIsYearMonth` | backend/app/Services/AttendanceService.php:65-68 | a date lies in [first day, last day] of a month iff its year and month are that month's |
| `Entities.MakeRow` | backend/app/Services/AttendanceService.php:21-31 | the row written for a mark has the key (mark's student, batch date) |
| `BulkStoreRequest.Authorize` | backend/app/Http/Requests/AttendanceBulkStoreRequest.php:12-15 | every caller is authorised; `BulkStore` consults it before validating, and its outcome is then exactly `Validate`'s |
| `BulkStoreRequest.ValidBatch` | backend/app/Http/Requests/AttendanceBulkStoreRequest.php:22-31 | what a batch passing the rules satisfies: at least one record, each with an existing student and a listed status; `ValidateSound` and `ValidateComplete` tie it to `Validate` |
| `BulkStoreRequest.RecordsViolations` | backend/app/Http/Requests/AttendanceBulkStoreRequest.php:27-28 | the records report no violation iff each has an existing student id and a status among present/absent/late |
| `BulkStoreRequest.Validate` | backend/app/Http/Requests/AttendanceBulkStoreRequest.php:22-31 | a refused request always names at least one broken rule |
| `BulkStoreRequest.ValidIffNoViolations` | backend/app/Http/Requests/AttendanceBulkStoreRequest.php:22-31 | no rule is broken iff the date parses, records are present and non-empty, and every record is well-formed |
| `BulkStoreRequest.ValidateSound` | backend/app/Http/Requests/AttendanceBulkStoreRequest.php:22-31 | an accepted request yields a `ValidBatch` with the request's parsed date and its records in order, notes kept |
| `BulkStoreRequest.ValidateComplete` | backend/app/Http/Requests/AttendanceBulkStoreRequest.php:22-31 | every valid batch, submitted as a request, passes validation unchanged |
| `BulkStoreRequest.EmptyRecordsRefused` | backend/app/Http/Requests/AttendanceBulkStoreRequest.php:26 | missing or empty `records` is refused |
| `BulkStoreRequest.UnknownStudentRefused` | backend/app/Http/Requests/AttendanceBulkStoreRequest.php:27 | a record naming no existing student is refused, reported by its index |
| `BulkStoreRequest.BadStatusRefused` | backend/app/Http/Requests/AttendanceBulkStoreRequest.php:28 | a status outside present/absent/late is refused, reported by its index |
| `BulkStoreRequest.InRecordsViolations` | backend/app/Http/Requests/AttendanceBulkStoreRequest.php:27-29 | a record's violations appear among the violations of the whole list |
| `AttendanceStore.UniqueKeys` | backend/app/Services/AttendanceService.php:21-31 | the natural-key invariant: no two rows share (student, date); `UpsertKeepsUnique` and `ApplyBatchKeepsUnique` show every write keeps it |
| `AttendanceStore.FirstIndex` | backend/app/Services/AttendanceService.php:21-25 | the first position holding the key, or the length when no row holds it |
| `AttendanceStore.Lookup` | backend/app/Services/AttendanceService.php:21-25 | the row found for a key is in the store and has that key; nothing is found iff no row has the key |
| `AttendanceStore.FindRow` | backend/app/Services/AttendanceService.php:21-25 | the search reports found iff some row has the key, and then returns the first such position |
| `AttendanceStore.FirstIndexIs` | backend/app/Services/AttendanceService.php:21-25 | the position the search returns is the first position of the key |
| `AttendanceStore.Upsert` | backend/app/Services/AttendanceService.php:21-31 | the store grows by at most one row; the written row is present; rows with other keys keep their positions |
| `AttendanceStore.UpsertLookup` | backend/app/Services/AttendanceService.php:21-31 | after an upsert the row's key maps to that row, and every other key maps to what it did before |
| `AttendanceStore.UpsertKeepsUnique` | backend/app/Services/AttendanceService.php:21-31 | an upsert keeps at most one row per (student, date) |
| `AttendanceStore.UpsertIdempotent` | backend/app/Services/AttendanceService.php:21-31 | writing the same row twice equals writing it once |
| `AttendanceStore.UpsertOverwrites` | backend/app/Services/AttendanceService.php:21-31 | of two writes to one key, the second replaces the first in the same position |
| `AttendanceStore.LookupUnique` | backend/app/Services/AttendanceService.php:21-31 | with unique keys, the row found for a key is the only row with that key |
| `AttendanceStore.LastMark` | backend/app/Services/AttendanceService.php:20-31 | the batch's mark for a student at a position after which the batch has no mark for that student (last write wins); none only when the student has no mark |
| `AttendanceStore.Written` | backend/app/Services/AttendanceService.php:20-33 | one written row per mark, duplicates included |
| `AttendanceStore.WrittenAt` | backend/app/Services/AttendanceService.php:20-33 | the i-th written row is the row made from the i-th mark, so rows are written in batch order |
| `AttendanceStore.ApplyBatch` | backend/app/Services/AttendanceService.php:20-31 | the store grows by at most one row per mark; rows of other dates keep their positions and contents |
| `AttendanceStore.ApplyBatchLookup` | backend/app/Services/AttendanceService.php:19-34 | after a batch, (s, date) holds the row of the batch's last mark for s; keys the batch does not mention keep their rows |
| `AttendanceStore.ApplyBatchKeepsUnique` | backend/app/Services/AttendanceService.php:19-34 | a batch keeps at most one row per (student, date) |
| `AttendanceStore.BatchOutcome` | backend/app/Services/AttendanceService.php:19-34 | each batch key has exactly one row, holding its last mark; every key the batch does not write (another date, or a student without a mark) looks up exactly as before, present or absent |
| `AttendanceStore.BatchIdempotent` | backend/app/Services/AttendanceService.php:19-34 | resubmitting a batch changes no key's row |
| `DailySnapshot.StatsKey` | backend/app/Services/AttendanceService.php:115-118 | the key starts with `attendance:stats:` and the rest is the date string |
| `DailySnapshot.StatsKeyInjective` | backend/app/Services/AttendanceService.php:115-118 | two dates share a cache key iff they are the same string |
| `DailySnapshot.Percent` | backend/app/Services/AttendanceService.php:58 | 0 when total is 0; otherwise the nearest hundredth of present*100/total, halves up; at most 100.00 when present <= total |
| `DailySnapshot.PercentUnique` | backend/app/Services/AttendanceService.php:58 | the nearest-hundredth bounds determine the percentage uniquely |
| `DailySnapshot.OneOfThree` | backend/app/Services/AttendanceService.php:58 | one present out of three gives 33.33 |
| `DailySnapshot.OnDate` | backend/app/Services/AttendanceService.php:46 | a row counts for a date iff its `YYYY-MM-DD` spelling is that date |
| `DailySnapshot.OnDateMultiplicity` | backend/app/Services/AttendanceService.php:46 | each row of the date occurs in the day's rows exactly as often as in the store; rows of other dates not at all |
| `DailySnapshot.OnDateConcat` | backend/app/Services/AttendanceService.php:46 | the day's rows keep store order: filtering a concatenation concatenates the filtered parts |
| `DailySnapshot.CountStatus` | backend/app/Services/AttendanceService.php:48-50 | a count never exceeds the rows; it is 0 iff no row has the status, and full iff all have it |
| `DailySnapshot.CountStatusPositions` | backend/app/Services/AttendanceService.php:48-50 | the count is exactly the number of positions whose row has the status |
| `DailySnapshot.ComputeStats` | backend/app/Services/AttendanceService.php:46-59 | total is the number of the date's rows; present, absent and late count the date's rows with each status; percent is `Percent(present, total)`, so in [0, 100.00] and 0 when total is 0 |
| `DailySnapshot.StatsAddUp` | backend/app/Services/AttendanceService.php:46-50 | when every status is valid, present + absent + late == total |
| `DailySnapshot.OnePresentMark` | backend/tests/Unit/AttendanceServiceTest.php:9-25 | one present mark gives total 1, present 1, absent 0, late 0, percent 100.00 |
| `DailySnapshot.UpsertOtherDate` | backend/app/Services/AttendanceService.php:21-31 | an upsert leaves the rows of every other date as they were |
| `DailySnapshot.BatchKeepsOtherDates` | backend/app/Services/AttendanceService.php:19-37 | a batch for one date leaves every other date's snapshot unchanged, so forgetting only its date's key is enough |
| `DailySnapshot.BatchKeepsOtherDay` | backend/app/Services/AttendanceService.php:19-34 | a batch for one date leaves the rows of every other date as they were, in order |
| `DailySnapshot.ForgetKeepsCoherent` | backend/app/Services/AttendanceService.php:19-37 | if every cached snapshot was correct before a batch, every snapshot left after forgetting the batch date's key is correct after it |
| `DailySnapshot.StoreKeepsCoherent` | backend/app/Services/AttendanceService.php:45-60 | caching a freshly computed snapshot keeps every cached snapshot correct |
| `DailySnapshot.CacheCoherent` | backend/app/Services/AttendanceService.php:45-60 | the cache invariant: every cached snapshot equals `ComputeStats` of the store for its date |
| `MonthlyAggregate.Select` | backend/app/Services/AttendanceService.php:65-76 | a row is selected iff it is in the store, in the month's range and passes the class filter |
| `MonthlyAggregate.SelectConcat` | backend/app/Services/AttendanceService.php:65-76 | the query keeps store order: selecting from a concatenation concatenates the selections |
| `MonthlyAggregate.SelectionIsMonthAndClass` | backend/app/Services/AttendanceService.php:65-76 | selected iff the year and month match and, when the class is truthy, the student is in that class |
| `MonthlyAggregate.IsTruthy` | backend/app/Services/AttendanceService.php:70 | the class filter is on only for a class PHP treats as true: present, not `""` and not `"0"` |
| `MonthlyAggregate.Selected` | backend/app/Services/AttendanceService.php:65-74 | the query's condition: a date within the month's first and last day, and, when the filter is on, a student of that class |
| `MonthlyAggregate.FirstPos` | backend/app/Services/AttendanceService.php:78 | the first row of a student, or the length when the student has none |
| `MonthlyAggregate.FirstSeen` | backend/app/Services/AttendanceService.php:78 | the group keys are distinct and every row's student is among them |
| `MonthlyAggregate.FirstSeenOrder` | backend/app/Services/AttendanceService.php:78 | each group key has a row, and keys appear in the order of their students' first rows |
| `MonthlyAggregate.Group` | backend/app/Services/AttendanceService.php:78 | a student's group holds exactly that student's rows |
| `MonthlyAggregate.GroupMultiplicity` | backend/app/Services/AttendanceService.php:78 | each of the student's rows occurs in the group as often as in the rows; other students' rows not at all |
| `MonthlyAggregate.GroupConcat` | backend/app/Services/AttendanceService.php:78 | grouping keeps query order: the group of a concatenation is the concatenation of the groups |
| `MonthlyAggregate.EntryOf` | backend/app/Services/AttendanceService.php:97-102 | one `{date, status, note}` entry, taken from its row |
| `MonthlyAggregate.Summarize` | backend/app/Services/AttendanceService.php:80-104 | the `student` block is the roster entry of the group's student (none when the student is gone); total is the group size; present counts the group's present rows; percent is `Percent(present, total)`, at most 100.00; one `{date, status, note}` per row, in order |
| `MonthlyAggregate.Summaries` | backend/app/Services/AttendanceService.php:78-105 | one summary per group key, in key order |
| `MonthlyAggregate.BuildReport` | backend/app/Services/AttendanceService.php:107-112 | the report echoes year, month and class |
| `MonthlyAggregate.ReportFirstSeenOrder` | backend/app/Services/AttendanceService.php:78-105 | no student has two records; records follow first-seen order |
| `MonthlyAggregate.ReportCoversSelection` | backend/app/Services/AttendanceService.php:76-105 | every selected row's student has a record, and every record's student has a selected row |
| `MonthlyAggregate.ReportRecord` | backend/app/Services/AttendanceService.php:80-103 | each record shows its student's roster entry, which is in the filter class when the filter is on; it has total >= 1, present equal to the present rows of its group and percent `Percent(present, total)`; it lists its student's selected rows (the `Group`, which keeps query order) |
| `MonthlyAggregate.ReportTotalsAddUp` | backend/app/Services/AttendanceService.php:82-105 | the records' totals add up to the number of selected rows |
| `MonthlyAggregate.OtherClassExcluded` | backend/app/Services/AttendanceService.php:70-74 | with a truthy class, a student outside that class gets no record |
| `MonthlyAggregate.EmptyMonth` | backend/app/Services/AttendanceService.php:65-112 | a month without marks yields `records == []` |
| `AttendanceService.Service.constructor` | backend/app/Services/AttendanceService.php:13 | an empty store, cache and event log, valid and coherent |
| `AttendanceService.Service.Valid` | backend/app/Services/AttendanceService.php:21-31 | the store invariant: `UniqueKeys` and every status one of the three; every write method keeps it |
| `AttendanceService.Service.UpdateOrCreate` | backend/app/Services/AttendanceService.php:21-31 | the store becomes `Upsert` of the old store; uniqueness and status validity are kept |
| `AttendanceService.Service.BulkRecord` | backend/app/Services/AttendanceService.php:15-39 | rows become the batch applied in order; one event per mark is appended, in order; exactly the date's stats key is forgotten; coherence is kept |
| `AttendanceService.Service.RecordMarks` | backend/app/Services/AttendanceService.php:20-34 | after the loop the rows are the batch applied in order and the log has one event per mark, in order; the store invariant holds throughout |
| `AttendanceService.Service.RecordOne` | backend/app/Services/AttendanceService.php:21-33 | one iteration: the store becomes `Upsert` of the old store and the written row's event is appended |
| `AttendanceService.Service.DailyStats` | backend/app/Services/AttendanceService.php:41-61 | a hit returns the cached snapshot and changes nothing; a miss computes, stores and returns; with a coherent cache the result is the store's snapshot |
| `AttendanceService.Service.MonthlyReport` | backend/app/Services/AttendanceService.php:63-113 | the report of the current store; it echoes its arguments and its totals add up to the selected rows |
| `AttendanceService.Service.BulkStore` | backend/app/Http/Controllers/Api/AttendanceController.php:18-26 | the caller is authorised, then the request validated; a refused request changes nothing; an accepted one is recorded as `BulkRecord` states |
| `AttendanceService.StatsAfterWrite` | backend/app/Services/AttendanceService.php:37-45 | stats read after a write to their date reflect the write, not the earlier cached snapshot |

## Left out

- Date parsing: only `YYYY-MM-DD` with a year in 1..9999 is parsed; year 0000 is refused, as `checkdate` refuses it. Carbon and the `date` rule accept many more spellings; those are not modelled.
- `DailySnapshot.OnDate` matches a row only when the argument is its canonical `YYYY-MM-DD` spelling. The database's `whereDate` also accepts looser spellings of the same day. Under such a spelling the real cache key differs from the one `bulkRecord` forgets, so stale stats can persist until the cache entry expires. The model does not capture this.
- Floating point: percentages are exact hundredths, not PHP floats. The JSON shape (`100` as an int or `100.0` as a float) is not modelled.
- Cache invalidation inside the transaction: `Cache::forget` runs inside the transaction closure (AttendanceService.php:19-37). A `dailyStats` call that runs between the forget and the commit caches the pre-commit counts for up to ten minutes. The model runs one operation at a time and has no such interleaving, so its coherence guarantee does not cover this case.
- Cache expiry: the ten-minute time-to-live is wall-clock time and is left out. Expiry only removes entries, so it cannot break `Coherent()`.
- Transactions: storage faults, rollback and isolation between concurrent batches are left out. Nothing in the model can fail after validation, so a batch is applied whole. Under a rollback, the events already dispatched inside the transaction would remain; this is not modelled.
- Query order: `monthlyReport`'s query has no `ORDER BY`. The model takes the store's order: insertion order, with overwrites staying in place.
- A row whose student no longer exists gets `student == None` in its record. In the source, reading `$student->id` on null (AttendanceService.php:80-92) raises an error under Laravel's error handler, so `monthlyReport` fails instead of returning a report. The model does not capture that failure.
- The `integer` rule on `student_id` and the `string` rule on `note` are expressed in the types. A non-integer id or non-string note cannot be represented. Laravel's error messages are reduced to a list of violations: the date rules, then the records rule, then each record's violations in record order. Laravel instead expands each wildcard rule over all records in turn (every `records.*.student_id` error, then every `records.*.status` error). The model reports an empty date or status as missing, as Laravel's `required` rule does. Laravel's `required` also treats a whitespace-only string as missing; the model reports such a date or status as invalid instead (`DateInvalid`, `StatusInvalid`). The request is refused either way; only the violation differs.
- Row ids and `created_at`/`updated_at` timestamps are not modelled.
- The `AttendanceRecorded` listener only logs. Dispatch is modelled as appending the written row to `events`.
- HTTP and CLI plumbing is left out: response wrapping, the default `date` of `now()` for daily stats, the month range check (which becomes the `1 <= month <= 12` precondition), the attendance index, the report command's parsing and printing, and routes. The student roster CRUD is also out of scope; the roster is a read-only map parameter.
