/**
 * The records the attendance service reads and writes: students (owned by
 * the roster, read-only here), the marks of a submitted batch, and the
 * attendance rows of the store, keyed by (student, date).
 */
module Entities {
  import opened Wrappers
  import opened Calendar

  /** A row of the students table; `code` is the human-facing `student_id` column. */
  datatype Student = Student(id: int, name: string, code: string, className: string, section: string)

  /** The students table, by primary key. */
  type Roster = map<int, Student>

  const PresentStatus: string := "present"
  const AbsentStatus: string := "absent"
  const LateStatus: string := "late"

  predicate IsValidStatus(status: string) {
    status == PresentStatus || status == AbsentStatus || status == LateStatus
  }

  /** One `{student_id, status, note?}` entry of a validated batch. */
  datatype Mark = Mark(studentId: int, status: string, note: Option<string>)

  /** A validated bulk submission: one date, its marks in submission order. */
  datatype Batch = Batch(date: CalDate, records: seq<Mark>)

  /** A row of the attendances table. */
  datatype Row = Row(studentId: int, date: CalDate, status: string, note: Option<string>, recordedBy: Option<int>)

  /** The natural key of a row. */
  datatype Key = Key(studentId: int, date: CalDate)

  function KeyOf(r: Row): Key {
    Key(r.studentId, r.date)
  }

  /** The row that `updateOrCreate` writes for one mark of a batch. */
  function MakeRow(date: CalDate, m: Mark, userId: Option<int>): (r: Row)
    ensures KeyOf(r) == Key(m.studentId, date)
  {
    Row(m.studentId, date, m.status, m.note, userId)
  }
}
