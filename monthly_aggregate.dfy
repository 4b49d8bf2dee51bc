/**
 * The monthly report: the marks of one calendar month, optionally only of
 * the students of one class, grouped by student in the order students are
 * first seen, each group with its counts, percentage and daily detail.
 */
module MonthlyAggregate {
  import opened Wrappers
  import opened Calendar
  import opened Entities
  import opened DailySnapshot

  /** One `{date, status, note}` line of a student's history. */
  datatype Entry = Entry(date: CalDate, status: string, note: Option<string>)

  /** One student's summary; `studentId` is the key the rows were grouped by. */
  datatype StudentReport = StudentReport(
    studentId: int, student: Option<Student>,
    present: nat, total: nat, percent: nat, attendances: seq<Entry>)

  datatype Report = Report(year: int, month: int, className: Option<string>, records: seq<StudentReport>)

  /** PHP truthiness of the class argument: null, "" and "0" all mean "no filter". */
  predicate IsTruthy(c: Option<string>) {
    c.Some? && c.value != "" && c.value != "0"
  }

  /** The query's conditions: date in [first day, last day] of the month, and the class filter. */
  predicate Selected(r: Row, year: int, month: int, className: Option<string>, roster: Roster)
    requires 1 <= month <= 12
  {
    && Between(r.date, StartOfMonth(year, month), EndOfMonth(year, month))
    && (IsTruthy(className) ==> r.studentId in roster && roster[r.studentId].className == className.value)
  }

  /** The rows the query returns, in store order. */
  function Select(rows: seq<Row>, year: int, month: int, className: Option<string>, roster: Roster): (sel: seq<Row>)
    requires 1 <= month <= 12
    ensures |sel| <= |rows|
    ensures forall r :: r in sel <==> r in rows && Selected(r, year, month, className, roster)
  {
    if rows == [] then []
    else
      var rest := Select(rows[1..], year, month, className, roster);
      if Selected(rows[0], year, month, className, roster) then [rows[0]] + rest else rest
  }

  /** The position of the first row of a student, or |rows| when there is none. */
  function FirstPos(rows: seq<Row>, studentId: int): (p: nat)
    ensures p <= |rows|
    ensures p < |rows| ==> rows[p].studentId == studentId
    ensures forall b :: 0 <= b < p ==> rows[b].studentId != studentId
  {
    if rows == [] then 0
    else if rows[0].studentId == studentId then 0
    else 1 + FirstPos(rows[1..], studentId)
  }

  /** The distinct student ids of the rows, each where it first occurs. */
  function FirstSeen(rows: seq<Row>): (ids: seq<int>)
    ensures forall i, j :: 0 <= i < j < |ids| ==> ids[i] != ids[j]
    ensures forall k :: 0 <= k < |rows| ==> rows[k].studentId in ids
  {
    if rows == [] then []
    else
      var init := rows[..|rows| - 1];
      var last := rows[|rows| - 1];
      var ids := FirstSeen(init);
      assert forall k :: 0 <= k < |init| ==> rows[k] == init[k];
      if last.studentId in ids then ids else ids + [last.studentId]
  }

  /** One student's rows, in query order. */
  function Group(rows: seq<Row>, studentId: int): (g: seq<Row>)
    ensures |g| <= |rows|
    ensures forall r :: r in g <==> r in rows && r.studentId == studentId
  {
    if rows == [] then []
    else
      var init := rows[..|rows| - 1];
      var last := rows[|rows| - 1];
      assert forall r :: r in rows <==> r in init || r == last;
      Group(init, studentId) + (if last.studentId == studentId then [last] else [])
  }

  /** A student's rows occur in the group as often as in the rows, other students' rows not at all. */
  lemma {:induction false} GroupMultiplicity(rows: seq<Row>, studentId: int, r: Row)
    ensures multiset(Group(rows, studentId))[r] == if r.studentId == studentId then multiset(rows)[r] else 0
  {
    if rows != [] {
      var init := rows[..|rows| - 1];
      assert rows == init + [rows[|rows| - 1]];
      GroupMultiplicity(init, studentId, r);
    }
  }

  /** Grouping keeps the rows' order: the group of a concatenation is the concatenation of the groups. */
  lemma {:induction false} GroupConcat(a: seq<Row>, b: seq<Row>, studentId: int)
    ensures Group(a + b, studentId) == Group(a, studentId) + Group(b, studentId)
  {
    if b != [] {
      var init := b[..|b| - 1];
      assert (a + b)[..|a + b| - 1] == a + init;
      assert (a + b)[|a + b| - 1] == b[|b| - 1];
      GroupConcat(a, init, studentId);
    } else {
      assert a + b == a;
    }
  }

  function EntryOf(r: Row): Entry {
    Entry(r.date, r.status, r.note)
  }

  /** The summary of one student's group of rows. */
  function Summarize(studentId: int, group: seq<Row>, roster: Roster): (s: StudentReport)
    ensures s.studentId == studentId && s.total == |group|
    ensures s.student == (if studentId in roster then Some(roster[studentId]) else None)
    ensures s.present == CountStatus(group, PresentStatus) && s.percent == Percent(s.present, s.total)
    ensures s.present <= s.total && s.percent <= 10000
    ensures |s.attendances| == |group|
    ensures forall i :: 0 <= i < |group| ==> s.attendances[i] == EntryOf(group[i])
  {
    var present := CountStatus(group, PresentStatus);
    StudentReport(
      studentId, if studentId in roster then Some(roster[studentId]) else None,
      present, |group|, Percent(present, |group|),
      seq(|group|, i requires 0 <= i < |group| => EntryOf(group[i])))
  }

  function Summaries(ids: seq<int>, sel: seq<Row>, roster: Roster): (recs: seq<StudentReport>)
    ensures |recs| == |ids|
    ensures forall i :: 0 <= i < |ids| ==> recs[i].studentId == ids[i]
    ensures forall i :: 0 <= i < |ids| ==> recs[i] == Summarize(ids[i], Group(sel, ids[i]), roster)
  {
    if ids == [] then []
    else Summaries(ids[..|ids| - 1], sel, roster) + [Summarize(ids[|ids| - 1], Group(sel, ids[|ids| - 1]), roster)]
  }

  /** `monthlyReport(year, month, class)`. */
  function BuildReport(rows: seq<Row>, year: int, month: int, className: Option<string>, roster: Roster): (rep: Report)
    requires 1 <= month <= 12
    ensures rep.year == year && rep.month == month && rep.className == className
  {
    var sel := Select(rows, year, month, className, roster);
    Report(year, month, className, Summaries(FirstSeen(sel), sel, roster))
  }

  // ---- selection ----

  /** A row is reported exactly when its year and month are the report's and it passes the class filter. */
  lemma SelectionIsMonthAndClass(rows: seq<Row>, year: int, month: int, className: Option<string>, roster: Roster, r: Row)
    requires 1 <= month <= 12
    ensures r in Select(rows, year, month, className, roster) <==>
              && r in rows && r.date.year == year && r.date.month == month
              && (IsTruthy(className) ==> r.studentId in roster && roster[r.studentId].className == className.value)
  {
    MonthRangeIsYearMonth(r.date, year, month);
  }

  /** The query keeps the store's order: selecting from a concatenation concatenates the selections. */
  lemma {:induction false} SelectConcat(a: seq<Row>, b: seq<Row>, year: int, month: int, className: Option<string>, roster: Roster)
    requires 1 <= month <= 12
    ensures Select(a + b, year, month, className, roster) ==
              Select(a, year, month, className, roster) + Select(b, year, month, className, roster)
  {
    if a != [] {
      var x, rest := a[0], a[1..];
      assert a == [x] + rest && a + b == [x] + (rest + b);
      SelectConcat(rest, b, year, month, className, roster);
      SelectCons(x, rest, year, month, className, roster);
      SelectCons(x, rest + b, year, month, className, roster);
      var p := if Selected(x, year, month, className, roster) then [x] else [];
      var sa, sb := Select(rest, year, month, className, roster), Select(b, year, month, className, roster);
      assert Select(a + b, year, month, className, roster) == p + (sa + sb);
      assert Select(a, year, month, className, roster) == p + sa;
      ConcatAssoc(p, sa, sb);
    } else {
      assert a + b == b;
    }
  }

  lemma SelectCons(x: Row, rest: seq<Row>, year: int, month: int, className: Option<string>, roster: Roster)
    requires 1 <= month <= 12
    ensures Select([x] + rest, year, month, className, roster) ==
              (if Selected(x, year, month, className, roster) then [x] else []) + Select(rest, year, month, className, roster)
  {
    assert ([x] + rest)[0] == x && ([x] + rest)[1..] == rest;
  }

  // ---- grouping ----

  lemma FirstPosIs(rows: seq<Row>, studentId: int, p: nat)
    requires p <= |rows|
    requires p < |rows| ==> rows[p].studentId == studentId
    requires forall b :: 0 <= b < p ==> rows[b].studentId != studentId
    ensures FirstPos(rows, studentId) == p
  {
  }

  lemma FirstPosSnoc(init: seq<Row>, last: Row, studentId: int)
    requires FirstPos(init, studentId) < |init|
    ensures FirstPos(init + [last], studentId) == FirstPos(init, studentId)
  {
    var p := FirstPos(init, studentId);
    var rows := init + [last];
    assert rows[p] == init[p];
    assert forall b :: 0 <= b < p ==> rows[b] == init[b];
    FirstPosIs(rows, studentId, p);
  }

  /** Every listed student has a row, and the students are listed in the order of their first rows. */
  predicate InFirstRowOrder(rows: seq<Row>, ids: seq<int>) {
    && (forall i :: 0 <= i < |ids| ==> FirstPos(rows, ids[i]) < |rows|)
    && (forall i, j :: 0 <= i < j < |ids| ==> FirstPos(rows, ids[i]) < FirstPos(rows, ids[j]))
  }

  /** A row whose student is already listed changes no first position. */
  lemma OrderSnocSeen(init: seq<Row>, last: Row, ids: seq<int>)
    requires InFirstRowOrder(init, ids)
    ensures InFirstRowOrder(init + [last], ids)
  {
    forall i | 0 <= i < |ids| ensures FirstPos(init + [last], ids[i]) == FirstPos(init, ids[i]) {
      FirstPosSnoc(init, last, ids[i]);
    }
  }

  /** A row of a student not yet listed puts that student last, at the row's position. */
  lemma OrderSnocNew(init: seq<Row>, last: Row, ids: seq<int>)
    requires InFirstRowOrder(init, ids)
    requires forall k :: 0 <= k < |init| ==> init[k].studentId in ids
    requires last.studentId !in ids
    ensures InFirstRowOrder(init + [last], ids + [last.studentId])
  {
    var rows := init + [last];
    OrderSnocSeen(init, last, ids);
    assert forall b :: 0 <= b < |init| ==> rows[b] == init[b];
    FirstPosIs(rows, last.studentId, |init|);
  }

  /**
   * FirstSeen lists exactly the students that have a row, in the order of their
   * first row.
   */
  lemma {:induction false} FirstSeenOrder(rows: seq<Row>)
    ensures InFirstRowOrder(rows, FirstSeen(rows))
  {
    if rows != [] {
      var init := rows[..|rows| - 1];
      var last := rows[|rows| - 1];
      var prev := FirstSeen(init);
      FirstSeenOrder(init);
      assert rows == init + [last];
      if last.studentId in prev {
        OrderSnocSeen(init, last, prev);
      } else {
        OrderSnocNew(init, last, prev);
      }
    }
  }

  /** The sum of the group sizes of the given students. */
  function SumSizes(ids: seq<int>, rows: seq<Row>): nat {
    if ids == [] then 0 else SumSizes(ids[..|ids| - 1], rows) + |Group(rows, ids[|ids| - 1])|
  }

  function SumTotals(recs: seq<StudentReport>): nat {
    if recs == [] then 0 else SumTotals(recs[..|recs| - 1]) + recs[|recs| - 1].total
  }

  /** Adding one row to the rows adds one to the sum exactly when the row's student is listed. */
  lemma {:induction false} SumSizesSnoc(ids: seq<int>, rows: seq<Row>, x: Row)
    requires forall i, j :: 0 <= i < j < |ids| ==> ids[i] != ids[j]
    ensures SumSizes(ids, rows + [x]) == SumSizes(ids, rows) + (if x.studentId in ids then 1 else 0)
  {
    if ids != [] {
      var init := ids[..|ids| - 1];
      SumSizesSnoc(init, rows, x);
      assert (rows + [x])[..|rows|] == rows;
      assert x.studentId in ids <==> x.studentId in init || x.studentId == ids[|ids| - 1];
    }
  }

  lemma {:induction false} SumSizesFirstSeen(rows: seq<Row>)
    ensures SumSizes(FirstSeen(rows), rows) == |rows|
  {
    if rows != [] {
      var init := rows[..|rows| - 1];
      var last := rows[|rows| - 1];
      var prev := FirstSeen(init);
      assert rows == init + [last];
      SumSizesFirstSeen(init);
      SumSizesSnoc(prev, init, last);
      if last.studentId !in prev {
        var ids := prev + [last.studentId];
        assert ids[..|ids| - 1] == prev;
        GroupOfAbsent(init, last.studentId);
      }
    }
  }

  lemma {:induction false} GroupOfAbsent(rows: seq<Row>, studentId: int)
    requires forall k :: 0 <= k < |rows| ==> rows[k].studentId != studentId
    ensures Group(rows, studentId) == []
  {
    if rows != [] {
      GroupOfAbsent(rows[..|rows| - 1], studentId);
    }
  }

  lemma {:induction false} SumTotalsSummaries(ids: seq<int>, sel: seq<Row>, roster: Roster)
    ensures SumTotals(Summaries(ids, sel, roster)) == SumSizes(ids, sel)
  {
    if ids != [] {
      var init := ids[..|ids| - 1];
      var recs := Summaries(ids, sel, roster);
      SumTotalsSummaries(init, sel, roster);
      assert recs[..|recs| - 1] == Summaries(init, sel, roster);
    }
  }

  /** The per-student records of a report. */
  function Records(rows: seq<Row>, year: int, month: int, className: Option<string>, roster: Roster): seq<StudentReport>
    requires 1 <= month <= 12
  {
    BuildReport(rows, year, month, className, roster).records
  }

  predicate HasRecord(recs: seq<StudentReport>, studentId: int) {
    exists i :: 0 <= i < |recs| && recs[i].studentId == studentId
  }

  /** One record per student, no student twice, in the order of each student's first selected row. */
  lemma ReportFirstSeenOrder(rows: seq<Row>, year: int, month: int, className: Option<string>, roster: Roster)
    requires 1 <= month <= 12
    ensures var sel := Select(rows, year, month, className, roster);
      var recs := Records(rows, year, month, className, roster);
      && (forall i, j :: 0 <= i < j < |recs| ==> recs[i].studentId != recs[j].studentId)
      && (forall i, j :: 0 <= i < j < |recs| ==> FirstPos(sel, recs[i].studentId) < FirstPos(sel, recs[j].studentId))
  {
    var sel := Select(rows, year, month, className, roster);
    FirstSeenOrder(sel);
  }

  /** Every selected row's student has a record, and every record's student has a selected row. */
  lemma ReportCoversSelection(rows: seq<Row>, year: int, month: int, className: Option<string>, roster: Roster)
    requires 1 <= month <= 12
    ensures var sel := Select(rows, year, month, className, roster);
      var recs := Records(rows, year, month, className, roster);
      && (forall k :: 0 <= k < |sel| ==> HasRecord(recs, sel[k].studentId))
      && (forall i :: 0 <= i < |recs| ==> FirstPos(sel, recs[i].studentId) < |sel|)
  {
    SummariesCover(Select(rows, year, month, className, roster), roster);
  }

  lemma SummariesCover(sel: seq<Row>, roster: Roster)
    ensures forall k :: 0 <= k < |sel| ==> HasRecord(Summaries(FirstSeen(sel), sel, roster), sel[k].studentId)
    ensures forall i :: 0 <= i < |FirstSeen(sel)| ==> FirstPos(sel, Summaries(FirstSeen(sel), sel, roster)[i].studentId) < |sel|
  {
    var ids := FirstSeen(sel);
    var recs := Summaries(ids, sel, roster);
    FirstSeenOrder(sel);
    forall k | 0 <= k < |sel| ensures HasRecord(recs, sel[k].studentId) {
      assert sel[k].studentId in ids;
      var i :| 0 <= i < |ids| && ids[i] == sel[k].studentId;
      assert recs[i].studentId == sel[k].studentId;
    }
  }

  /**
   * Each record shows its student's roster entry (in the filter class when the
   * filter is on) and lists the student's selected rows in query order: at least
   * one, present <= total, percent in [0, 100.00].
   */
  lemma ReportRecord(rows: seq<Row>, year: int, month: int, className: Option<string>, roster: Roster, i: nat)
    requires 1 <= month <= 12
    requires i < |Records(rows, year, month, className, roster)|
    ensures var sel := Select(rows, year, month, className, roster);
      var rec := Records(rows, year, month, className, roster)[i];
      var group := Group(sel, rec.studentId);
      && 1 <= rec.total == |group|
      && rec.student == (if rec.studentId in roster then Some(roster[rec.studentId]) else None)
      && (IsTruthy(className) ==> rec.student.Some? && rec.student.value.className == className.value)
      && rec.present == CountStatus(group, PresentStatus) && rec.percent == Percent(rec.present, rec.total)
      && rec.present <= rec.total && rec.percent <= 10000
      && |rec.attendances| == |group|
      && (forall k :: 0 <= k < |group| ==> rec.attendances[k] == EntryOf(group[k]))
      && (forall r :: r in group <==> r in sel && r.studentId == rec.studentId)
  {
    var sel := Select(rows, year, month, className, roster);
    var ids := FirstSeen(sel);
    ReportCoversSelection(rows, year, month, className, roster);
    var r := sel[FirstPos(sel, ids[i])];
    assert r in Group(sel, ids[i]);
  }

  /** The records' totals add up to the number of selected rows. */
  lemma ReportTotalsAddUp(rows: seq<Row>, year: int, month: int, className: Option<string>, roster: Roster)
    requires 1 <= month <= 12
    ensures SumTotals(Records(rows, year, month, className, roster)) == |Select(rows, year, month, className, roster)|
  {
    var sel := Select(rows, year, month, className, roster);
    SumSizesFirstSeen(sel);
    SumTotalsSummaries(FirstSeen(sel), sel, roster);
  }

  /** A student outside the filtered class gets no record, whatever marks they have. */
  lemma OtherClassExcluded(rows: seq<Row>, year: int, month: int, className: Option<string>, roster: Roster, studentId: int)
    requires 1 <= month <= 12
    requires IsTruthy(className)
    requires studentId !in roster || roster[studentId].className != className.value
    ensures forall rec :: rec in Records(rows, year, month, className, roster) ==> rec.studentId != studentId
  {
    var sel := Select(rows, year, month, className, roster);
    var recs := Records(rows, year, month, className, roster);
    ReportCoversSelection(rows, year, month, className, roster);
    forall i | 0 <= i < |recs| ensures recs[i].studentId != studentId {
      var r := sel[FirstPos(sel, recs[i].studentId)];
      assert r in sel;
    }
  }

  /** A month with no matching marks gives an empty list of records. */
  lemma EmptyMonth(rows: seq<Row>, year: int, month: int, className: Option<string>, roster: Roster)
    requires 1 <= month <= 12
    requires forall r :: r in rows ==> r.date.year != year || r.date.month != month
    ensures BuildReport(rows, year, month, className, roster).records == []
  {
    var sel := Select(rows, year, month, className, roster);
    if sel != [] {
      SelectionIsMonthAndClass(rows, year, month, className, roster, sel[0]);
    }
  }
}
