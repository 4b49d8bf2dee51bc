/**
 * The attendances table as a sequence of rows, and `updateOrCreate` keyed on
 * (student, date): overwrite the row with that key in place, or append one.
 * A batch applies one upsert per mark, in submission order.
 */
module AttendanceStore {
  import opened Wrappers
  import opened Calendar
  import opened Entities

  /** At most one row per (student, date). */
  predicate UniqueKeys(rows: seq<Row>) {
    forall i, j :: 0 <= i < j < |rows| ==> KeyOf(rows[i]) != KeyOf(rows[j])
  }

  /** The position of the first row with key k, or |rows| when there is none. */
  function FirstIndex(rows: seq<Row>, k: Key): (i: nat)
    ensures i <= |rows|
    ensures i < |rows| ==> KeyOf(rows[i]) == k
    ensures forall j :: 0 <= j < i ==> KeyOf(rows[j]) != k
  {
    if rows == [] then 0
    else if KeyOf(rows[0]) == k then 0
    else 1 + FirstIndex(rows[1..], k)
  }

  /** The row stored under key k, if any. */
  function Lookup(rows: seq<Row>, k: Key): (r: Option<Row>)
    ensures r.Some? ==> r.value in rows && KeyOf(r.value) == k
    ensures r.None? <==> forall i :: 0 <= i < |rows| ==> KeyOf(rows[i]) != k
  {
    var i := FirstIndex(rows, k);
    if i < |rows| then Some(rows[i]) else None
  }

  /** `updateOrCreate`: overwrite the row with the same key, or append the row. */
  function Upsert(rows: seq<Row>, row: Row): (r: seq<Row>)
    ensures |r| == |rows| || |r| == |rows| + 1
    ensures row in r
    ensures forall j :: 0 <= j < |rows| && KeyOf(rows[j]) != KeyOf(row) ==> r[j] == rows[j]
    ensures forall j :: |rows| <= j < |r| ==> r[j] == row
  {
    var i := FirstIndex(rows, KeyOf(row));
    if i < |rows| then
      var r := rows[i := row];
      assert r[i] == row;
      r
    else
      var r := rows + [row];
      assert r[|rows|] == row;
      r
  }

  /** Applies the marks of a batch in order; the last mark is applied last. */
  function ApplyBatch(rows: seq<Row>, date: CalDate, marks: seq<Mark>, userId: Option<int>): (r: seq<Row>)
    ensures |rows| <= |r| <= |rows| + |marks|
    ensures forall j :: 0 <= j < |rows| && rows[j].date != date ==> r[j] == rows[j]
  {
    if marks == [] then rows
    else Upsert(ApplyBatch(rows, date, marks[..|marks| - 1], userId), MakeRow(date, marks[|marks| - 1], userId))
  }

  /** The rows written by a batch, one per mark, in submission order (duplicates included). */
  function Written(date: CalDate, marks: seq<Mark>, userId: Option<int>): (w: seq<Row>)
    ensures |w| == |marks|
  {
    if marks == [] then []
    else Written(date, marks[..|marks| - 1], userId) + [MakeRow(date, marks[|marks| - 1], userId)]
  }

  /** The i-th event carries the row written for the i-th mark. */
  lemma {:induction false} WrittenAt(date: CalDate, marks: seq<Mark>, userId: Option<int>, i: nat)
    requires i < |marks|
    ensures Written(date, marks, userId)[i] == MakeRow(date, marks[i], userId)
  {
    if i < |marks| - 1 {
      WrittenAt(date, marks[..|marks| - 1], userId, i);
    }
  }

  /** The last mark of the batch for a student, if the batch has one. */
  function LastMark(marks: seq<Mark>, studentId: int): (m: Option<Mark>)
    ensures m.Some? ==> m.value in marks && m.value.studentId == studentId
    ensures m.Some? ==> exists i :: 0 <= i < |marks| && marks[i] == m.value && NoLaterMark(marks, studentId, i)
    ensures m.None? ==> forall i :: 0 <= i < |marks| ==> marks[i].studentId != studentId
  {
    if marks == [] then None
    else if marks[|marks| - 1].studentId == studentId then Some(marks[|marks| - 1])
    else
      var init := marks[..|marks| - 1];
      var m := LastMark(init, studentId);
      assert forall i :: 0 <= i < |init| ==> marks[i] == init[i];
      assert m.Some? ==> exists i :: 0 <= i < |marks| && marks[i] == m.value && NoLaterMark(marks, studentId, i);
      m
  }

  /** No mark after position i is for the student. */
  predicate NoLaterMark(marks: seq<Mark>, studentId: int, i: nat) {
    forall j :: i < j < |marks| ==> marks[j].studentId != studentId
  }

  // ---- updateOrCreate ----

  /** Searches for the row with key k; used by the store's update-or-create. */
  method FindRow(rows: seq<Row>, k: Key) returns (found: bool, i: nat)
    ensures found <==> exists j :: 0 <= j < |rows| && KeyOf(rows[j]) == k
    ensures found ==> i < |rows| && KeyOf(rows[i]) == k
    ensures found ==> forall j :: 0 <= j < i ==> KeyOf(rows[j]) != k
  {
    i := 0;
    while i < |rows|
      invariant 0 <= i <= |rows|
      invariant forall j :: 0 <= j < i ==> KeyOf(rows[j]) != k
    {
      if KeyOf(rows[i]) == k {
        return true, i;
      }
      i := i + 1;
    }
    found := false;
  }

  /** The search above finds the position `FirstIndex` names. */
  lemma FirstIndexIs(rows: seq<Row>, k: Key, i: nat)
    requires i <= |rows|
    requires i < |rows| ==> KeyOf(rows[i]) == k
    requires forall j :: 0 <= j < i ==> KeyOf(rows[j]) != k
    ensures FirstIndex(rows, k) == i
  {
  }

  /** After an upsert the key of the row maps to exactly that row; every other key keeps its row. */
  lemma UpsertLookup(rows: seq<Row>, row: Row, k: Key)
    ensures Lookup(Upsert(rows, row), k) == if k == KeyOf(row) then Some(row) else Lookup(rows, k)
  {
    var i := FirstIndex(rows, KeyOf(row));
    var r := Upsert(rows, row);
    if k == KeyOf(row) {
      FirstIndexIs(r, k, i);
    } else {
      var f := FirstIndex(rows, k);
      forall j | 0 <= j < f ensures KeyOf(r[j]) != k {
        if j == i { } else { }
      }
      FirstIndexIs(r, k, if f < |rows| then f else |r|);
    }
  }

  /** The store never holds two rows for one (student, date). */
  lemma UpsertKeepsUnique(rows: seq<Row>, row: Row)
    requires UniqueKeys(rows)
    ensures UniqueKeys(Upsert(rows, row))
  {
    var i := FirstIndex(rows, KeyOf(row));
    var r := Upsert(rows, row);
    forall a, b | 0 <= a < b < |r| ensures KeyOf(r[a]) != KeyOf(r[b]) {
      if b == |rows| {
        assert KeyOf(rows[a]) != KeyOf(row);
      } else if a == i || b == i {
        assert KeyOf(r[a]) == KeyOf(rows[a]) && KeyOf(r[b]) == KeyOf(rows[b]);
      }
    }
  }

  /** Submitting the same row twice leaves the store as submitting it once. */
  lemma UpsertIdempotent(rows: seq<Row>, row: Row)
    ensures Upsert(Upsert(rows, row), row) == Upsert(rows, row)
  {
    UpsertOverwrites(rows, row, row);
  }

  /** Of two writes to one key, the second replaces the first in the same position. */
  lemma UpsertOverwrites(rows: seq<Row>, first: Row, second: Row)
    requires KeyOf(first) == KeyOf(second)
    ensures Upsert(Upsert(rows, first), second) == Upsert(rows, second)
  {
    var k := KeyOf(first);
    var i := FirstIndex(rows, k);
    var r := Upsert(rows, first);
    FirstIndexIs(r, k, i);
  }

  // ---- a whole batch ----

  /**
   * After a batch the key (s, date) holds the row of the batch's LAST mark for s;
   * a key the batch does not mention keeps its row.
   */
  lemma {:induction false} ApplyBatchLookup(rows: seq<Row>, date: CalDate, marks: seq<Mark>, userId: Option<int>, k: Key)
    ensures Lookup(ApplyBatch(rows, date, marks, userId), k) ==
              if k.date == date && LastMark(marks, k.studentId).Some?
              then Some(MakeRow(date, LastMark(marks, k.studentId).value, userId))
              else Lookup(rows, k)
  {
    if marks != [] {
      var init := marks[..|marks| - 1];
      ApplyBatchLookup(rows, date, init, userId, k);
      UpsertLookup(ApplyBatch(rows, date, init, userId), MakeRow(date, marks[|marks| - 1], userId), k);
    }
  }

  lemma {:induction false} ApplyBatchKeepsUnique(rows: seq<Row>, date: CalDate, marks: seq<Mark>, userId: Option<int>)
    requires UniqueKeys(rows)
    ensures UniqueKeys(ApplyBatch(rows, date, marks, userId))
  {
    if marks != [] {
      var init := marks[..|marks| - 1];
      ApplyBatchKeepsUnique(rows, date, init, userId);
      UpsertKeepsUnique(ApplyBatch(rows, date, init, userId), MakeRow(date, marks[|marks| - 1], userId));
    }
  }

  /** One more mark: one more upsert on the store, one more row appended to a log of written rows. */
  lemma ApplyBatchStep(rows: seq<Row>, date: CalDate, marks: seq<Mark>, userId: Option<int>, i: nat, log: seq<Row>)
    requires i < |marks|
    ensures ApplyBatch(rows, date, marks[..i + 1], userId) ==
              Upsert(ApplyBatch(rows, date, marks[..i], userId), MakeRow(date, marks[i], userId))
    ensures log + Written(date, marks[..i + 1], userId) ==
              (log + Written(date, marks[..i], userId)) + [MakeRow(date, marks[i], userId)]
  {
    assert marks[..i + 1][..i] == marks[..i];
  }

  /** With unique keys, Lookup finds the one and only row with that key. */
  lemma LookupUnique(rows: seq<Row>, k: Key, j: nat)
    requires UniqueKeys(rows)
    requires j < |rows| && KeyOf(rows[j]) == k
    ensures Lookup(rows, k) == Some(rows[j])
  {
    FirstIndexIs(rows, k, j);
  }

  /**
   * Upsert uniqueness and last write wins for a whole batch: each (student, date)
   * of the batch has exactly one row, holding its last mark; other rows are kept.
   */
  lemma BatchOutcome(rows: seq<Row>, date: CalDate, marks: seq<Mark>, userId: Option<int>)
    requires UniqueKeys(rows)
    ensures var after := ApplyBatch(rows, date, marks, userId);
      && UniqueKeys(after)
      && (forall i :: 0 <= i < |marks| ==>
            exists j :: 0 <= j < |after| && after[j] == MakeRow(date, LastMark(marks, marks[i].studentId).value, userId))
      && (forall k: Key :: (k.date != date || LastMark(marks, k.studentId).None?) ==>
            Lookup(after, k) == Lookup(rows, k))
  {
    var after := ApplyBatch(rows, date, marks, userId);
    ApplyBatchKeepsUnique(rows, date, marks, userId);
    forall i | 0 <= i < |marks|
      ensures exists j :: 0 <= j < |after| && after[j] == MakeRow(date, LastMark(marks, marks[i].studentId).value, userId)
    {
      var k := Key(marks[i].studentId, date);
      ApplyBatchLookup(rows, date, marks, userId, k);
      var j := FirstIndex(after, k);
      assert after[j] == MakeRow(date, LastMark(marks, marks[i].studentId).value, userId);
    }
    forall k: Key | k.date != date || LastMark(marks, k.studentId).None?
      ensures Lookup(after, k) == Lookup(rows, k)
    {
      ApplyBatchLookup(rows, date, marks, userId, k);
    }
  }

  /** Submitting the same batch a second time leaves every key with the row it already had. */
  lemma BatchIdempotent(rows: seq<Row>, date: CalDate, marks: seq<Mark>, userId: Option<int>, k: Key)
    ensures var once := ApplyBatch(rows, date, marks, userId);
      Lookup(ApplyBatch(once, date, marks, userId), k) == Lookup(once, k)
  {
    var once := ApplyBatch(rows, date, marks, userId);
    ApplyBatchLookup(once, date, marks, userId, k);
    ApplyBatchLookup(rows, date, marks, userId, k);
  }
}
