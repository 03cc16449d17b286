/**
 * `updateAttendance` (backend/controllers/attendanceController.js:293-326):
 * a teacher sets the status of one (student, class) record, updating it in
 * place when it exists and creating it otherwise. Nothing checks that the
 * teacher owns the class, or that the student or the class exist.
 */
module Correction {
  import opened Options
  import opened Strings
  import opened Json
  import opened Models

  /** The body: two id strings and the `present` flag, any JSON value or missing. */
  datatype UpdateBody = UpdateBody(classId: Option<string>, studentId: Option<string>, present: Option<Value>)

  datatype UpdateOutcome =
    | MissingIds                        // 400 "ClassId and StudentId required"
    | ServerError                       // 500: an id does not cast to an ObjectId
    | Updated(record: AttendanceRecord) // 200 "Attendance updated", with the record

  /** `present ? "present" : "absent"`: JavaScript truthiness, so the string "false" means present. */
  function StatusFor(present: Option<Value>): (st: Status)
    ensures st == Present <==> present.Some? && Truthy(present.value)
  {
    if present.Some? && Truthy(present.value) then Present else Absent
  }

  predicate IdsGiven(body: UpdateBody)
  {
    body.classId.Some? && body.classId.value != "" && body.studentId.Some? && body.studentId.value != ""
  }

  /** The key the body names, once both ids are given and cast. */
  function Key(body: UpdateBody): Option<(Id, Id)>
  {
    if !IdsGiven(body) then None
    else match (CastId(body.studentId.value), CastId(body.classId.value))
      case (Some(st), Some(c)) => Some((st, c))
      case _ => None
  }

  /** The decision of lines 297-322; a new record is stamped `now`. */
  function UpdateDecision(records: seq<AttendanceRecord>, body: UpdateBody, now: int): UpdateOutcome
  {
    if !IdsGiven(body) then MissingIds
    else match Key(body)
      case None => ServerError
      case Some((st, c)) =>
        match FindRecord(records, st, c)
        case Some(i) => Updated(records[i].(status := StatusFor(body.present)))
        case None => Updated(AttendanceRecord(st, c, StatusFor(body.present), now))
  }

  /** The attendance collection after the decision: the record replaced in place, or appended. */
  function UpdatedRecords(records: seq<AttendanceRecord>, body: UpdateBody, now: int): seq<AttendanceRecord>
  {
    match UpdateDecision(records, body, now)
    case Updated(r) =>
      (match FindRecord(records, r.student, r.classId)
       case Some(i) => records[i := r]
       case None => records + [r])
    case _ => records
  }

  /** Lines 293-326 against the database: one record changes or is added, nothing else. */
  method UpdateAttendance(db: Database, body: UpdateBody, now: int) returns (o: UpdateOutcome)
    requires db.Valid()
    modifies db
    ensures o == UpdateDecision(old(db.attendance), body, now)
    ensures db.attendance == UpdatedRecords(old(db.attendance), body, now)
    ensures db.users == old(db.users) && db.subjects == old(db.subjects) && db.classes == old(db.classes)
    ensures db.Valid()
  {
    if body.classId.None? || body.classId.value == "" || body.studentId.None? || body.studentId.value == "" {
      return MissingIds;
    }
    var key := Key(body);
    if key.None? {
      return ServerError;
    }
    var (st, c) := key.value;
    var status := StatusFor(body.present);
    var found := FindRecord(db.attendance, st, c);
    UpdateKeepsKeysUnique(db.attendance, body, now);
    if found.Some? {
      var record := db.attendance[found.value].(status := status);
      db.attendance := db.attendance[found.value := record];
      o := Updated(record);
    } else {
      var record := AttendanceRecord(st, c, status, now);
      db.attendance := db.attendance + [record];
      o := Updated(record);
    }
  }

  /**
   * After an update exactly one record carries the body's key, and its
   * status is the body's; missing ids or an uncastable id change nothing.
   */
  lemma UpdateSetsTheStatus(records: seq<AttendanceRecord>, body: UpdateBody, now: int)
    requires UniqueKeys(records)
    ensures UpdateDecision(records, body, now).Updated? <==> Key(body).Some?
    ensures Key(body).None? ==> UpdatedRecords(records, body, now) == records
    ensures Key(body).Some? ==>
      var (st, c) := Key(body).value;
      var rs := UpdatedRecords(records, body, now);
      exists k :: FindRecord(rs, st, c) == Some(k) && rs[k].status == StatusFor(body.present) &&
        forall j :: 0 <= j < |rs| && j != k ==> !HasKey(rs[j], st, c)
  {
    UpdateKeepsKeysUnique(records, body, now);
    if Key(body).Some? {
      var (st, c) := Key(body).value;
      var rs := UpdatedRecords(records, body, now);
      var k := match FindRecord(records, st, c) case Some(i) => i case None => |records|;
      assert HasKey(rs[k], st, c);
      FoundRecordIsOnly(rs, st, c, k);
    }
  }

  /**
   * Every record with another key keeps its place and its contents; the
   * collection grows by one record only when the key was absent.
   */
  lemma UpdateTouchesNothingElse(records: seq<AttendanceRecord>, body: UpdateBody, now: int)
    ensures var rs := UpdatedRecords(records, body, now);
      |records| <= |rs| <= |records| + 1 &&
      forall j :: 0 <= j < |records| && (Key(body).None? || !HasKey(records[j], Key(body).value.0, Key(body).value.1)) ==> rs[j] == records[j]
    ensures |UpdatedRecords(records, body, now)| == |records| + 1 <==>
      Key(body).Some? && FindRecord(records, Key(body).value.0, Key(body).value.1).None?
  {
  }

  /** The updated collection still has one record per (student, class). */
  lemma UpdateKeepsKeysUnique(records: seq<AttendanceRecord>, body: UpdateBody, now: int)
    requires UniqueKeys(records)
    ensures UniqueKeys(UpdatedRecords(records, body, now))
  {
    if Key(body).Some? {
      var (st, c) := Key(body).value;
      if FindRecord(records, st, c).None? {
        AppendKeepsKeysUnique(records, AttendanceRecord(st, c, StatusFor(body.present), now));
      }
    }
  }

  /** Sending the same correction twice leaves the collection as after the first. */
  lemma UpdateIsIdempotent(records: seq<AttendanceRecord>, body: UpdateBody, now: int, later: int)
    ensures UpdatedRecords(UpdatedRecords(records, body, now), body, later) == UpdatedRecords(records, body, now)
  {
    if Key(body).Some? {
      var (st, c) := Key(body).value;
      var rs := UpdatedRecords(records, body, now);
      match FindRecord(records, st, c)
      case Some(i) =>
        FindRecordAt(rs, st, c, i);
        assert rs[i := rs[i].(status := StatusFor(body.present))] == rs;
      case None =>
        FindRecordAt(rs, st, c, |records|);
        assert rs[|records| := rs[|records|].(status := StatusFor(body.present))] == rs;
    }
  }
}
