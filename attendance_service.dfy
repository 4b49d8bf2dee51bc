/**
 * The attendance service: the store of attendance rows, the shared stats
 * cache and the log of dispatched `AttendanceRecorded` events, with the
 * service's three operations and the bulk-store entry point that validates
 * a request before recording it.
 */
module AttendanceService {
  import opened Wrappers
  import opened Calendar
  import opened Entities
  import opened BulkStoreRequest
  import opened AttendanceStore
  import opened DailySnapshot
  import opened MonthlyAggregate

  class Service {
    /** The attendances table. */
    var rows: seq<Row>
    /** The stats part of the shared cache, by key. */
    var cache: map<string, Stats>
    /** Every dispatched `AttendanceRecorded` event, carrying the row written. */
    var events: seq<Row>

    /** The store invariant: one row per (student, date), every status one of the three. */
    ghost predicate Valid()
      reads this
    {
      UniqueKeys(rows) && AllStatusesValid(rows)
    }

    /** No cached snapshot disagrees with the store. */
    ghost predicate Coherent()
      reads this
    {
      CacheCoherent(cache, rows)
    }

    constructor ()
      ensures Valid() && Coherent()
      ensures rows == [] && cache == map[] && events == []
    {
      rows, cache, events := [], map[], [];
    }

    /**
     * `updateOrCreate` keyed on (student, date). A step of `BulkRecord`: on its
     * own it keeps `Valid()` but not `Coherent()`, as the cache key is not forgotten.
     */
    method UpdateOrCreate(row: Row)
      requires Valid() && IsValidStatus(row.status)
      modifies this`rows
      ensures Valid()
      ensures rows == Upsert(old(rows), row)
    {
      var k := KeyOf(row);
      var found, i := FindRow(rows, k);
      if found {
        FirstIndexIs(rows, k, i);
        rows := rows[i := row];
      } else {
        FirstIndexIs(rows, k, |rows|);
        rows := rows + [row];
      }
      UpsertKeepsUnique(old(rows), row);
    }

    /**
     * `bulkRecord`: upsert every mark of the batch in order, dispatching one event per
     * mark as it is written, then forget the date's cached snapshot.
     */
    method BulkRecord(batch: Batch, userId: Option<int>, ghost roster: Roster)
      requires Valid() && ValidBatch(batch, roster)
      modifies this
      ensures Valid()
      ensures rows == ApplyBatch(old(rows), batch.date, batch.records, userId)
      ensures events == old(events) + Written(batch.date, batch.records, userId)
      ensures cache == old(cache) - {StatsKey(FormatDate(batch.date))}
      ensures old(Coherent()) ==> Coherent()
    {
      RecordMarks(batch, userId, roster);
      if old(Coherent()) {
        ForgetKeepsCoherent(old(cache), old(rows), batch.date, batch.records, userId);
      }
      cache := cache - {StatsKey(FormatDate(batch.date))};
    }

    /**
     * The loop of `bulkRecord`: one upsert and one event per mark, in order. A step
     * of `BulkRecord`: on its own it keeps `Valid()` but not `Coherent()`.
     */
    method RecordMarks(batch: Batch, userId: Option<int>, ghost roster: Roster)
      requires Valid() && ValidBatch(batch, roster)
      modifies this`rows, this`events
      ensures Valid()
      ensures rows == ApplyBatch(old(rows), batch.date, batch.records, userId)
      ensures events == old(events) + Written(batch.date, batch.records, userId)
    {
      var marks := batch.records;
      var i := 0;
      while i < |marks|
        invariant 0 <= i <= |marks|
        invariant Valid()
        invariant rows == ApplyBatch(old(rows), batch.date, marks[..i], userId)
        invariant events == old(events) + Written(batch.date, marks[..i], userId)
      {
        ApplyBatchStep(old(rows), batch.date, marks, userId, i, old(events));
        RecordOne(MakeRow(batch.date, marks[i], userId));
        i := i + 1;
      }
      assert marks[..i] == marks;
    }

    /**
     * One iteration of `bulkRecord`'s loop: upsert the row, then dispatch its event.
     * A step of `BulkRecord`: on its own it keeps `Valid()` but not `Coherent()`.
     */
    method RecordOne(row: Row)
      requires Valid() && IsValidStatus(row.status)
      modifies this`rows, this`events
      ensures Valid()
      ensures rows == Upsert(old(rows), row)
      ensures events == old(events) + [row]
    {
      UpdateOrCreate(row);
      events := events + [row];
    }

    /** `dailyStats`: the cached snapshot on a hit; on a miss, compute it, cache it and return it. */
    method DailyStats(date: string) returns (stats: Stats)
      requires Valid()
      modifies this`cache
      ensures Valid() && rows == old(rows) && events == old(events)
      ensures StatsKey(date) in old(cache) ==> stats == old(cache)[StatsKey(date)] && cache == old(cache)
      ensures StatsKey(date) !in old(cache) ==>
                stats == ComputeStats(rows, date) && cache == old(cache)[StatsKey(date) := stats]
      ensures old(Coherent()) ==> Coherent() && stats == ComputeStats(rows, date)
    {
      var key := StatsKey(date);
      if key in cache {
        stats := cache[key];
      } else {
        stats := ComputeStats(rows, date);
        if Coherent() {
          StoreKeepsCoherent(cache, rows, date);
        }
        cache := cache[key := stats];
      }
    }

    /** `monthlyReport`: computed from the store on every call, never cached. */
    method MonthlyReport(year: int, month: int, className: Option<string>, roster: Roster) returns (report: Report)
      requires 1 <= month <= 12
      ensures report == BuildReport(rows, year, month, className, roster)
      ensures report.year == year && report.month == month && report.className == className
      ensures SumTotals(report.records) == |Select(rows, year, month, className, roster)|
    {
      report := BuildReport(rows, year, month, className, roster);
      ReportTotalsAddUp(rows, year, month, className, roster);
    }

    /**
     * The bulk-store endpoint: authorise the caller, then validate the request;
     * a refused request changes nothing, an accepted one is recorded.
     */
    method BulkStore(req: Request, roster: Roster, userId: Option<int>) returns (result: Result<Batch, seq<Violation>>)
      requires Valid()
      modifies this
      ensures Valid()
      ensures result == Validate(req, roster)
      ensures result.Failure? ==> rows == old(rows) && cache == old(cache) && events == old(events)
      ensures result.Success? ==>
                && rows == ApplyBatch(old(rows), result.value.date, result.value.records, userId)
                && events == old(events) + Written(result.value.date, result.value.records, userId)
                && cache == old(cache) - {StatsKey(FormatDate(result.value.date))}
      ensures old(Coherent()) ==> Coherent()
    {
      result := if Authorize(userId) then Validate(req, roster) else Failure([Unauthorized]);
      if result.Success? {
        ValidateSound(req, roster);
        BulkRecord(result.value, userId, roster);
      }
    }
  }

  /**
   * Reading stats, recording a mark for that date, and reading again: the second
   * read reflects the write rather than the cached snapshot.
   */
  method StatsAfterWrite(s: Service, batch: Batch, userId: Option<int>, ghost roster: Roster)
    returns (before: Stats, after: Stats)
    requires s.Valid() && s.Coherent() && ValidBatch(batch, roster)
    modifies s
    ensures before == ComputeStats(old(s.rows), FormatDate(batch.date))
    ensures after == ComputeStats(ApplyBatch(old(s.rows), batch.date, batch.records, userId), FormatDate(batch.date))
  {
    before := s.DailyStats(FormatDate(batch.date));
    s.BulkRecord(batch, userId, roster);
    after := s.DailyStats(FormatDate(batch.date));
  }
}
