/**
 * The daily statistics snapshot: how many marks a date has, how many of each
 * status, and the share present as a percentage rounded to two decimals
 * (kept exactly, as a whole number of hundredths of a percent).
 */
module DailySnapshot {
  import opened Wrappers
  import opened Calendar
  import opened Entities
  import opened AttendanceStore

  /** `{date, total, present, absent, late, percent}`; percent in hundredths (10000 is 100.00). */
  datatype Stats = Stats(date: string, total: nat, present: nat, absent: nat, late: nat, percent: nat)

  const StatsKeyPrefix: string := "attendance:stats:"

  /** The cache key of a date's snapshot. */
  function StatsKey(date: string): (key: string)
    ensures |key| == |StatsKeyPrefix| + |date|
    ensures key[..|StatsKeyPrefix|] == StatsKeyPrefix && key[|StatsKeyPrefix|..] == date
  {
    StatsKeyPrefix + date
  }

  /** Two dates share a cache key only when they are the same string. */
  lemma StatsKeyInjective(a: string, b: string)
    ensures StatsKey(a) == StatsKey(b) <==> a == b
  {
    if StatsKey(a) == StatsKey(b) {
      assert a == StatsKey(a)[|StatsKeyPrefix|..];
    }
  }

  /**
   * `round(present * 100 / total, 2)` in hundredths, rounding halves up;
   * 0 when there is nothing to count.
   */
  function Percent(present: nat, total: nat): (p: nat)
    ensures total == 0 ==> p == 0
    ensures total > 0 ==> -(total as int) < 2 * (p * total - 10000 * present) <= total
    ensures present <= total ==> p <= 10000
  {
    if total == 0 then 0
    else
      var p := (20000 * present + total) / (2 * total);
      PercentBounds(present, total, p);
      p
  }

  lemma PercentBounds(present: nat, total: nat, p: nat)
    requires total > 0 && p == (20000 * present + total) / (2 * total)
    ensures -(total as int) < 2 * (p * total - 10000 * present) <= total
    ensures present <= total ==> p <= 10000
  {
    var n := 20000 * present + total;
    var q := 2 * total;
    assert n == p * q + n % q;
    assert 0 <= n % q < q;
    if present <= total {
      assert p * q < 10001 * q;
      MulCancel(p, 10001, q);
    }
  }

  lemma MulCancel(a: int, b: int, q: int)
    requires q > 0 && a * q < b * q
    ensures a < b
  {
    assert b * q - a * q == (b - a) * q;
  }

  /** Nearest hundredth: the rounding is determined by the bounds Percent promises. */
  lemma PercentUnique(present: nat, total: nat, p: nat)
    requires total > 0
    requires -(total as int) < 2 * (p * total - 10000 * present) <= total
    ensures p == Percent(present, total)
  {
    var r := Percent(present, total);
    var a := p * total - 10000 * present;
    var b := r * total - 10000 * present;
    assert (p - r) * total == a - b;
    assert -(total as int) < (p - r) * total < total;
    MulCancel(p - r, 1, total);
    MulCancel(-1, p - r, total);
  }

  /** The rows of one date, in store order (`whereDate('date', date)`). */
  function OnDate(rows: seq<Row>, date: string): (day: seq<Row>)
    ensures |day| <= |rows|
    ensures forall r :: r in day <==> r in rows && FormatDate(r.date) == date
  {
    if rows == [] then []
    else if FormatDate(rows[0].date) == date then [rows[0]] + OnDate(rows[1..], date)
    else OnDate(rows[1..], date)
  }

  /** The date's rows occur as often as in the store, and other dates' rows not at all. */
  lemma {:induction false} OnDateMultiplicity(rows: seq<Row>, date: string, r: Row)
    ensures multiset(OnDate(rows, date))[r] == if FormatDate(r.date) == date then multiset(rows)[r] else 0
  {
    if rows != [] {
      assert rows == [rows[0]] + rows[1..];
      OnDateMultiplicity(rows[1..], date, r);
    }
  }

  /** The positions of the rows with the given status. */
  ghost function StatusPositions(rows: seq<Row>, status: string): set<int> {
    set i | 0 <= i < |rows| && rows[i].status == status
  }

  /** Regrouping a concatenation of sequences; the concatenation lemmas below lean on it. */
  lemma ConcatAssoc<T>(p: seq<T>, q: seq<T>, r: seq<T>)
    ensures p + (q + r) == (p + q) + r
  {
  }

  /** The date's rows keep the store's order: the filter of a concatenation concatenates the filters. */
  lemma {:induction false} OnDateConcat(a: seq<Row>, b: seq<Row>, date: string)
    ensures OnDate(a + b, date) == OnDate(a, date) + OnDate(b, date)
  {
    if a != [] {
      var x, rest := a[0], a[1..];
      assert a == [x] + rest && a + b == [x] + (rest + b);
      OnDateConcat(rest, b, date);
      OnDateCons(x, rest, date);
      OnDateCons(x, rest + b, date);
      var p := if FormatDate(x.date) == date then [x] else [];
      var da, db := OnDate(rest, date), OnDate(b, date);
      assert OnDate(a + b, date) == p + (da + db);
      assert OnDate(a, date) == p + da;
      ConcatAssoc(p, da, db);
    } else {
      assert a + b == b;
    }
  }

  lemma OnDateCons(x: Row, rest: seq<Row>, date: string)
    ensures OnDate([x] + rest, date) == (if FormatDate(x.date) == date then [x] else []) + OnDate(rest, date)
  {
    assert ([x] + rest)[0] == x && ([x] + rest)[1..] == rest;
  }

  /** The number of rows with the given status. */
  function CountStatus(rows: seq<Row>, status: string): (n: nat)
    ensures n <= |rows|
    ensures n == 0 <==> forall r :: r in rows ==> r.status != status
    ensures n == |rows| <==> forall r :: r in rows ==> r.status == status
  {
    if rows == [] then 0
    else
      var init := rows[..|rows| - 1];
      var last := rows[|rows| - 1];
      assert forall r :: r in rows <==> r in init || r == last;
      CountStatus(init, status) + (if last.status == status then 1 else 0)
  }

  /** The count is the number of positions whose row has the status. */
  lemma {:induction false} CountStatusPositions(rows: seq<Row>, status: string)
    ensures CountStatus(rows, status) == |StatusPositions(rows, status)|
  {
    if rows != [] {
      var init := rows[..|rows| - 1];
      var last := rows[|rows| - 1];
      var before := StatusPositions(init, status);
      CountStatusPositions(init, status);
      assert rows == init + [last];
      PositionsSnoc(init, last, status);
      assert |init| !in before;
      if last.status == status {
        assert |before + {|init|}| == |before| + 1;
      }
    }
  }

  lemma PositionsSnoc(init: seq<Row>, last: Row, status: string)
    ensures StatusPositions(init + [last], status) ==
              StatusPositions(init, status) + (if last.status == status then {|init|} else {})
  {
    var rows := init + [last];
    assert forall i :: 0 <= i < |init| ==> rows[i] == init[i];
    assert rows[|init|] == last;
  }

  /** The snapshot computed from the store on a cache miss. */
  function ComputeStats(rows: seq<Row>, date: string): (st: Stats)
    ensures st.date == date
    ensures st.total == |OnDate(rows, date)|
    ensures st.present == CountStatus(OnDate(rows, date), PresentStatus)
    ensures st.absent == CountStatus(OnDate(rows, date), AbsentStatus)
    ensures st.late == CountStatus(OnDate(rows, date), LateStatus)
    ensures st.percent == Percent(st.present, st.total)
    ensures st.present <= st.total && st.absent <= st.total && st.late <= st.total
    ensures st.percent <= 10000
    ensures st.total == 0 ==> st.percent == 0
  {
    var day := OnDate(rows, date);
    var present := CountStatus(day, PresentStatus);
    Stats(date, |day|, present, CountStatus(day, AbsentStatus), CountStatus(day, LateStatus),
          Percent(present, |day|))
  }

  predicate AllStatusesValid(rows: seq<Row>) {
    forall r :: r in rows ==> IsValidStatus(r.status)
  }

  lemma {:induction false} StatusCountsAddUp(rows: seq<Row>)
    requires AllStatusesValid(rows)
    ensures CountStatus(rows, PresentStatus) + CountStatus(rows, AbsentStatus) + CountStatus(rows, LateStatus) == |rows|
  {
    if rows != [] {
      StatusCountsAddUp(rows[..|rows| - 1]);
    }
  }

  /** When every row has one of the three statuses, the three counts make up the total. */
  lemma StatsAddUp(rows: seq<Row>, date: string)
    requires AllStatusesValid(rows)
    ensures var st := ComputeStats(rows, date); st.present + st.absent + st.late == st.total
  {
    StatusCountsAddUp(OnDate(rows, date));
  }

  /** One present mark on the date: total 1, present 1, percent 100.00. */
  lemma OnePresentMark(r: Row)
    requires r.status == PresentStatus
    ensures ComputeStats([r], FormatDate(r.date)) == Stats(FormatDate(r.date), 1, 1, 0, 0, 10000)
  {
  }

  /** Percentage rounding: one present of three gives 33.33. */
  lemma OneOfThree()
    ensures Percent(1, 3) == 3333
  {
  }

  // ---- writes to one date leave the other dates' counts alone ----

  lemma {:induction false} UpsertOtherDate(rows: seq<Row>, row: Row, date: string)
    requires FormatDate(row.date) != date
    ensures OnDate(Upsert(rows, row), date) == OnDate(rows, date)
  {
    var i := FirstIndex(rows, KeyOf(row));
    if i < |rows| {
      OverwriteOtherDate(rows, i, row, date);
    } else {
      OnDateAppend(rows, row, date);
    }
  }

  lemma {:induction false} OverwriteOtherDate(rows: seq<Row>, i: nat, row: Row, date: string)
    requires i < |rows|
    requires FormatDate(rows[i].date) != date && FormatDate(row.date) != date
    ensures OnDate(rows[i := row], date) == OnDate(rows, date)
  {
    if i > 0 {
      assert rows[i := row][1..] == rows[1..][i - 1 := row];
      OverwriteOtherDate(rows[1..], i - 1, row, date);
    } else {
      assert rows[i := row][1..] == rows[1..];
    }
  }

  lemma {:induction false} OnDateAppend(rows: seq<Row>, row: Row, date: string)
    ensures OnDate(rows + [row], date) == OnDate(rows, date) + (if FormatDate(row.date) == date then [row] else [])
  {
    if rows != [] {
      assert (rows + [row])[1..] == rows[1..] + [row];
      OnDateAppend(rows[1..], row, date);
    } else {
      assert [row][1..] == [];
    }
  }

  /** A batch for one date leaves the snapshot of every other date as it was. */
  lemma BatchKeepsOtherDates(rows: seq<Row>, date: CalDate, marks: seq<Mark>, userId: Option<int>, other: string)
    requires other != FormatDate(date)
    ensures ComputeStats(ApplyBatch(rows, date, marks, userId), other) == ComputeStats(rows, other)
  {
    BatchKeepsOtherDay(rows, date, marks, userId, other);
  }

  lemma {:induction false} BatchKeepsOtherDay(rows: seq<Row>, date: CalDate, marks: seq<Mark>, userId: Option<int>, other: string)
    requires other != FormatDate(date)
    ensures OnDate(ApplyBatch(rows, date, marks, userId), other) == OnDate(rows, other)
  {
    if marks != [] {
      var init := marks[..|marks| - 1];
      BatchKeepsOtherDay(rows, date, init, userId, other);
      UpsertOtherDate(ApplyBatch(rows, date, init, userId), MakeRow(date, marks[|marks| - 1], userId), other);
    }
  }

  /** No cached snapshot disagrees with the rows it summarises. */
  ghost predicate CacheCoherent(cache: map<string, Stats>, rows: seq<Row>) {
    forall date :: StatsKey(date) in cache ==> cache[StatsKey(date)] == ComputeStats(rows, date)
  }

  /** Forgetting the batch date's key after the batch keeps every remaining snapshot correct. */
  lemma ForgetKeepsCoherent(cache: map<string, Stats>, rows: seq<Row>, date: CalDate, marks: seq<Mark>, userId: Option<int>)
    requires CacheCoherent(cache, rows)
    ensures CacheCoherent(cache - {StatsKey(FormatDate(date))}, ApplyBatch(rows, date, marks, userId))
  {
    var after := cache - {StatsKey(FormatDate(date))};
    forall d | StatsKey(d) in after ensures after[StatsKey(d)] == ComputeStats(ApplyBatch(rows, date, marks, userId), d) {
      StatsKeyInjective(d, FormatDate(date));
      BatchKeepsOtherDates(rows, date, marks, userId, d);
    }
  }

  /** Caching the store's own snapshot of a date keeps the cache coherent. */
  lemma StoreKeepsCoherent(cache: map<string, Stats>, rows: seq<Row>, date: string)
    requires CacheCoherent(cache, rows)
    ensures CacheCoherent(cache[StatsKey(date) := ComputeStats(rows, date)], rows)
  {
    forall d | StatsKey(d) in cache[StatsKey(date) := ComputeStats(rows, date)]
      ensures cache[StatsKey(date) := ComputeStats(rows, date)][StatsKey(d)] == ComputeStats(rows, d)
    {
      StatsKeyInjective(d, date);
    }
  }
}
