/**
 * The validation rules of a bulk attendance submission: a date that parses,
 * a non-empty list of records, each naming an existing student and one of
 * the three statuses, with an optional note.
 */
module BulkStoreRequest {
  import opened Wrappers
  import opened Calendar
  import opened Entities

  /** One record as submitted; a missing field is None. */
  datatype RecordInput = RecordInput(studentId: Option<int>, status: Option<string>, note: Option<string>)

  /** The request body as submitted. */
  datatype Request = Request(date: Option<string>, records: Option<seq<RecordInput>>)

  datatype Violation =
    | Unauthorized
    | DateRequired
    | DateInvalid
    | RecordsRequired
    | StudentIdRequired(index: nat)
    | StudentUnknown(index: nat)
    | StatusRequired(index: nat)
    | StatusInvalid(index: nat)

  /** Any caller may submit attendance. */
  function Authorize(userId: Option<int>): (ok: bool)
    ensures ok
  {
    true
  }

  /** The precondition of bulk recording: what a batch that passed the rules satisfies. */
  predicate ValidBatch(batch: Batch, roster: Roster) {
    && |batch.records| >= 1
    && forall i :: 0 <= i < |batch.records| ==>
         batch.records[i].studentId in roster && IsValidStatus(batch.records[i].status)
  }

  function DateViolations(date: Option<string>): seq<Violation> {
    if date.None? || date.value == "" then [DateRequired]
    else if ParseIsoDate(date.value).None? then [DateInvalid]
    else []
  }

  function RecordViolations(i: nat, r: RecordInput, roster: Roster): seq<Violation> {
    (if r.studentId.None? then [StudentIdRequired(i)]
     else if r.studentId.value !in roster then [StudentUnknown(i)]
     else [])
    + (if r.status.None? || r.status.value == "" then [StatusRequired(i)]
       else if !IsValidStatus(r.status.value) then [StatusInvalid(i)]
       else [])
  }

  predicate RecordOk(r: RecordInput, roster: Roster) {
    r.studentId.Some? && r.studentId.value in roster && r.status.Some? && IsValidStatus(r.status.value)
  }

  /** The violations of records[from..], each tagged with its index in the request. */
  function RecordsViolations(rs: seq<RecordInput>, from: nat, roster: Roster): (vs: seq<Violation>)
    requires from <= |rs|
    ensures vs == [] <==> forall i :: from <= i < |rs| ==> RecordOk(rs[i], roster)
    decreases |rs| - from
  {
    if from == |rs| then []
    else RecordViolations(from, rs[from], roster) + RecordsViolations(rs, from + 1, roster)
  }

  /** Every rule broken by the request, in rule order. */
  function Violations(req: Request, roster: Roster): seq<Violation> {
    DateViolations(req.date)
    + (if req.records.None? || req.records.value == [] then [RecordsRequired]
       else RecordsViolations(req.records.value, 0, roster))
  }

  /** The request's fields are all present and satisfy every rule. */
  predicate RequestOk(req: Request, roster: Roster) {
    && req.date.Some? && ParseIsoDate(req.date.value).Some?
    && req.records.Some? && |req.records.value| >= 1
    && forall i :: 0 <= i < |req.records.value| ==> RecordOk(req.records.value[i], roster)
  }

  function ToMark(r: RecordInput): Mark
    requires r.studentId.Some? && r.status.Some?
  {
    Mark(r.studentId.value, r.status.value, r.note)
  }

  /** The validated batch, or every rule the request breaks. */
  function Validate(req: Request, roster: Roster): (r: Result<Batch, seq<Violation>>)
    ensures r.Failure? ==> r.error != []
  {
    var vs := Violations(req, roster);
    if vs == [] then
      ValidIffNoViolations(req, roster);
      var rs := req.records.value;
      Success(Batch(ParseIsoDate(req.date.value).value, seq(|rs|, i requires 0 <= i < |rs| => ToMark(rs[i]))))
    else Failure(vs)
  }

  /** A request breaks no rule exactly when all its fields are present and well-formed. */
  lemma ValidIffNoViolations(req: Request, roster: Roster)
    ensures Violations(req, roster) == [] <==> RequestOk(req, roster)
  {
    if req.records.Some? && req.records.value != [] {
      var _ := RecordsViolations(req.records.value, 0, roster);
    }
  }

  /** What passes validation is a valid batch carrying the request's date and records, in order. */
  lemma ValidateSound(req: Request, roster: Roster)
    requires Validate(req, roster).Success?
    ensures ValidBatch(Validate(req, roster).value, roster)
    ensures Some(Validate(req, roster).value.date) == ParseIsoDate(req.date.value)
    ensures |Validate(req, roster).value.records| == |req.records.value|
    ensures forall i :: 0 <= i < |req.records.value| ==>
              var m := Validate(req, roster).value.records[i];
              var r := req.records.value[i];
              Some(m.studentId) == r.studentId && Some(m.status) == r.status && m.note == r.note
  {
    ValidIffNoViolations(req, roster);
  }

  /** The request that submits a batch: its date as "YYYY-MM-DD", every field present. */
  function AsRequest(b: Batch): Request {
    Request(Some(FormatDate(b.date)),
            Some(seq(|b.records|, i requires 0 <= i < |b.records| =>
                   RecordInput(Some(b.records[i].studentId), Some(b.records[i].status), b.records[i].note))))
  }

  /** Every valid batch passes validation unchanged when submitted. */
  lemma ValidateComplete(b: Batch, roster: Roster)
    requires ValidBatch(b, roster)
    ensures Validate(AsRequest(b), roster) == Success(b)
  {
    var req := AsRequest(b);
    ParseFormat(b.date);
    ValidIffNoViolations(req, roster);
    var out := Validate(req, roster).value;
    assert out.records == b.records;
  }

  /** Missing or empty records are refused. */
  lemma EmptyRecordsRefused(req: Request, roster: Roster)
    requires req.records.None? || req.records.value == []
    ensures Validate(req, roster).Failure?
    ensures RecordsRequired in Validate(req, roster).error
  {
  }

  /**
   * A record with a status outside present/absent/late is refused and reported by its
   * index: as missing when the status is empty, as not allowed otherwise.
   */
  lemma BadStatusRefused(req: Request, roster: Roster, i: nat)
    requires req.records.Some? && i < |req.records.value|
    requires req.records.value[i].status.Some? && !IsValidStatus(req.records.value[i].status.value)
    ensures Validate(req, roster).Failure?
    ensures (if req.records.value[i].status.value == "" then StatusRequired(i) else StatusInvalid(i))
              in Validate(req, roster).error
  {
    InRecordsViolations(req.records.value, 0, roster, i);
  }

  /** A record naming no existing student is refused and reported by its index. */
  lemma UnknownStudentRefused(req: Request, roster: Roster, i: nat)
    requires req.records.Some? && i < |req.records.value|
    requires req.records.value[i].studentId.Some? && req.records.value[i].studentId.value !in roster
    ensures Validate(req, roster).Failure?
    ensures StudentUnknown(i) in Validate(req, roster).error
  {
    InRecordsViolations(req.records.value, 0, roster, i);
  }

  lemma {:induction false} InRecordsViolations(rs: seq<RecordInput>, from: nat, roster: Roster, i: nat)
    requires from <= i < |rs|
    ensures forall v :: v in RecordViolations(i, rs[i], roster) ==> v in RecordsViolations(rs, from, roster)
    decreases i - from
  {
    var vs := RecordsViolations(rs, from, roster);
    var tail := RecordsViolations(rs, from + 1, roster);
    assert vs == RecordViolations(from, rs[from], roster) + tail;
    if from < i {
      InRecordsViolations(rs, from + 1, roster, i);
      assert forall v :: v in tail ==> v in vs;
    }
  }
}
