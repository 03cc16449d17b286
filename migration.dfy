/**
 * The one-shot data migration (backend/scripts/migrateData.js): three loops
 * over the stored users, classes and attendance records. For each selected
 * document the loop builds an `updates` object by conditional assignment,
 * writes it with `$set` when it has a key, and counts the write.
 *
 * The documents are the raw stored ones, with the fields the script fills
 * in (enrollment data, class status and grace periods, `markedAt`); a field
 * is missing from a document, stored as null, or stored with a value.
 */
module Migration {
  import opened Options
  import opened Strings
  import opened Seqs
  import opened JsDate
  import opened Models

  /** A stored field: absent from the document, stored as null, or holding a value. */
  datatype Field<T> = Missing | Null | Stored(value: T)

  /** `DEFAULT_ATTENDANCE_RADIUS`, in metres (backend/config/constants.js:15). */
  const DefaultAttendanceRadius: int := 50
  /** `LATE_GRACE_MINUTES` (backend/config/constants.js:22). */
  const LateGraceMinutes: int := 10
  /** `END_GRACE_MINUTES` (backend/config/constants.js:23). */
  const EndGraceMinutes: int := 5

  /**
   * `$set` of one key: an `undefined` value is dropped from the update, so
   * setting a key to a missing field leaves the stored field as it was.
   */
  function SetField<T>(current: Field<T>, update: Option<Field<T>>): Field<T>
  {
    if update.Some? && !update.value.Missing? then update.value else current
  }

  // ---------------------------------------------------------------------
  // Users, lines 36-71
  // ---------------------------------------------------------------------

  datatype HistoryEntry = HistoryEntry(course: Field<string>, semester: Field<int>, enrolledAt: Field<int>, status: string)

  /** Dates are `Date` objects, truthy whenever stored; `createdAt` may be missing on old documents. */
  datatype LegacyUser = LegacyUser(
    id: Id,
    role: Role,
    course: Field<string>,
    semester: Field<int>,
    createdAt: Field<int>,
    enrollmentDate: Field<int>,
    isActive: Field<bool>,
    enrollmentHistory: Field<seq<HistoryEntry>>)

  /** The `updates` object of lines 45-65: each key is either set or absent. */
  datatype UserUpdates = UserUpdates(
    enrollmentDate: Option<Field<int>>,
    isActive: Option<bool>,
    enrollmentHistory: Option<seq<HistoryEntry>>)

  /** The query of lines 36-41: `enrollmentDate` or `isActive` does not exist. */
  predicate UserSelected(u: LegacyUser)
  {
    u.enrollmentDate.Missing? || u.isActive.Missing?
  }

  predicate NoHistory(u: LegacyUser)
  {
    !u.enrollmentHistory.Stored? || u.enrollmentHistory.value == []
  }

  function UserUpdatesFor(u: LegacyUser): UserUpdates
  {
    UserUpdates(
      if !u.enrollmentDate.Stored? then Some(u.createdAt) else None,
      if u.isActive.Missing? then Some(true) else None,
      if u.role == Student && NoHistory(u) then Some([HistoryEntry(u.course, u.semester, u.createdAt, "active")]) else None)
  }

  /** `Object.keys(updates).length > 0`. */
  predicate UserHasKeys(up: UserUpdates)
  {
    up.enrollmentDate.Some? || up.isActive.Some? || up.enrollmentHistory.Some?
  }

  /** `User.updateOne({ _id }, { $set: updates })`. */
  function SetUser(u: LegacyUser, up: UserUpdates): LegacyUser
  {
    u.(enrollmentDate := SetField(u.enrollmentDate, up.enrollmentDate),
       isActive := if up.isActive.Some? then Stored(up.isActive.value) else u.isActive,
       enrollmentHistory := if up.enrollmentHistory.Some? then Stored(up.enrollmentHistory.value) else u.enrollmentHistory)
  }

  /** The user is selected and its update has a key: it is written and counted. */
  predicate UserWritten(u: LegacyUser)
  {
    UserSelected(u) && UserHasKeys(UserUpdatesFor(u))
  }

  function MigrateUser(u: LegacyUser): LegacyUser
  {
    if UserWritten(u) then SetUser(u, UserUpdatesFor(u)) else u
  }

  /**
   * What the migration does to one user: a selected user gets
   * `isActive: true` if it had none and `enrollmentDate := createdAt` if it
   * had no date, and a student with no history gets exactly one active
   * entry for its course and semester, enrolled at `createdAt`. A stored
   * value is never overwritten, and no other field changes.
   */
  lemma MigrateUserFillsDefaults(u: LegacyUser)
    ensures var m := MigrateUser(u);
      m.id == u.id && m.role == u.role && m.course == u.course && m.semester == u.semester && m.createdAt == u.createdAt
    ensures var m := MigrateUser(u);
      (u.isActive.Stored? ==> m.isActive == u.isActive) &&
      (u.enrollmentDate.Stored? ==> m.enrollmentDate == u.enrollmentDate) &&
      (u.enrollmentHistory.Stored? && u.enrollmentHistory.value != [] ==> m.enrollmentHistory == u.enrollmentHistory)
    ensures UserSelected(u) ==>
      var m := MigrateUser(u);
      !m.isActive.Missing? &&
      (u.isActive.Missing? ==> m.isActive == Stored(true)) &&
      (!u.enrollmentDate.Stored? && !u.createdAt.Missing? ==> m.enrollmentDate == u.createdAt) &&
      (u.role == Student && NoHistory(u) ==>
        m.enrollmentHistory == Stored([HistoryEntry(u.course, u.semester, u.createdAt, "active")]))
    ensures !UserSelected(u) ==> MigrateUser(u) == u
  {
  }

  /**
   * Running the migration twice leaves users as after the first run; the
   * second run writes only users that have no `createdAt` to copy.
   */
  lemma UserMigrationSettles(u: LegacyUser)
    ensures MigrateUser(MigrateUser(u)) == MigrateUser(u)
    ensures UserWritten(MigrateUser(u)) ==> u.createdAt.Missing?
  {
  }

  // ---------------------------------------------------------------------
  // Classes, lines 79-118
  // ---------------------------------------------------------------------

  datatype LegacyClass = LegacyClass(
    id: Id,
    date: string,
    endTime: string,
    status: Field<string>,
    attendanceRadius: Field<int>,
    lateGraceMinutes: Field<int>,
    endGraceMinutes: Field<int>)

  datatype ClassUpdates = ClassUpdates(
    status: Option<string>,
    attendanceRadius: Option<int>,
    lateGraceMinutes: Option<int>,
    endGraceMinutes: Option<int>)

  /** The query of lines 79-84: `status` or `attendanceRadius` does not exist. */
  predicate ClassSelected(c: LegacyClass)
  {
    c.status.Missing? || c.attendanceRadius.Missing?
  }

  /** `!cls.status`: absent, null or the empty string. */
  predicate NoStatus(c: LegacyClass)
  {
    !c.status.Stored? || c.status.value == ""
  }

  /**
   * `classDate < now`, where `classDate` is the class date at the end time
   * (lines 90-92); an Invalid Date compares false.
   */
  predicate Ended(c: LegacyClass, now: int)
  {
    var end := At(c.date, c.endTime);
    end.Some? && end.value < now
  }

  function ClassUpdatesFor(c: LegacyClass, now: int): ClassUpdates
  {
    ClassUpdates(
      if NoStatus(c) then Some(if Ended(c, now) then "completed" else "scheduled") else None,
      if c.attendanceRadius.Missing? then Some(DefaultAttendanceRadius) else None,
      if c.lateGraceMinutes.Missing? then Some(LateGraceMinutes) else None,
      if c.endGraceMinutes.Missing? then Some(EndGraceMinutes) else None)
  }

  predicate ClassHasKeys(up: ClassUpdates)
  {
    up.status.Some? || up.attendanceRadius.Some? || up.lateGraceMinutes.Some? || up.endGraceMinutes.Some?
  }

  function Put<T>(current: Field<T>, update: Option<T>): Field<T>
  {
    if update.Some? then Stored(update.value) else current
  }

  /** `Class.updateOne({ _id }, { $set: updates })`. */
  function SetClass(c: LegacyClass, up: ClassUpdates): LegacyClass
  {
    c.(status := Put(c.status, up.status),
       attendanceRadius := Put(c.attendanceRadius, up.attendanceRadius),
       lateGraceMinutes := Put(c.lateGraceMinutes, up.lateGraceMinutes),
       endGraceMinutes := Put(c.endGraceMinutes, up.endGraceMinutes))
  }

  predicate ClassWritten(c: LegacyClass, now: int)
  {
    ClassSelected(c) && ClassHasKeys(ClassUpdatesFor(c, now))
  }

  function MigrateClass(c: LegacyClass, now: int): LegacyClass
  {
    if ClassWritten(c, now) then SetClass(c, ClassUpdatesFor(c, now)) else c
  }

  function MigrateClassAt(now: int): LegacyClass -> LegacyClass
  {
    (c: LegacyClass) => MigrateClass(c, now)
  }

  function ClassWrittenAt(now: int): LegacyClass -> bool
  {
    (c: LegacyClass) => ClassWritten(c, now)
  }

  /**
   * What the migration does to one class: a class selected without a status
   * becomes "completed" when its end is before `now` and "scheduled"
   * otherwise, and each of the three settings that does not exist gets its
   * default (50 m, 10 and 5 minutes). A stored value, null included, is
   * never overwritten, and every selected class is written.
   */
  lemma MigrateClassFillsDefaults(c: LegacyClass, now: int)
    ensures var m := MigrateClass(c, now);
      m.id == c.id && m.date == c.date && m.endTime == c.endTime &&
      (!NoStatus(c) ==> m.status == c.status) &&
      (!c.attendanceRadius.Missing? ==> m.attendanceRadius == c.attendanceRadius) &&
      (!c.lateGraceMinutes.Missing? ==> m.lateGraceMinutes == c.lateGraceMinutes) &&
      (!c.endGraceMinutes.Missing? ==> m.endGraceMinutes == c.endGraceMinutes)
    ensures ClassSelected(c) <==> ClassWritten(c, now)
    ensures ClassSelected(c) ==>
      var m := MigrateClass(c, now);
      (NoStatus(c) ==> m.status == Stored(if At(c.date, c.endTime).Some? && At(c.date, c.endTime).value < now then "completed" else "scheduled")) &&
      (c.attendanceRadius.Missing? ==> m.attendanceRadius == Stored(50)) &&
      (c.lateGraceMinutes.Missing? ==> m.lateGraceMinutes == Stored(10)) &&
      (c.endGraceMinutes.Missing? ==> m.endGraceMinutes == Stored(5))
  {
  }

  /** A migrated class is never selected again, at any later instant, so a second run changes and counts nothing. */
  lemma ClassMigrationSettles(c: LegacyClass, now: int, later: int)
    ensures !ClassWritten(MigrateClass(c, now), later)
    ensures MigrateClass(MigrateClass(c, now), later) == MigrateClass(c, now)
  {
  }

  // ---------------------------------------------------------------------
  // Attendance records, lines 126-154
  // ---------------------------------------------------------------------

  /** A stored record: `status` is the raw stored string, possibly an old capitalised one. */
  datatype LegacyRecord = LegacyRecord(
    id: Id,
    status: string,
    markedAt: Field<int>,
    createdAt: Field<int>,
    timestamp: Field<int>)

  datatype RecordUpdates = RecordUpdates(markedAt: Option<int>, status: Option<string>)

  /** The query of lines 126-132: no `markedAt`, or an old capitalised status. */
  predicate RecordSelected(r: LegacyRecord)
  {
    r.markedAt.Missing? || r.status == "Present" || r.status == "Absent"
  }

  /** `record.createdAt || record.timestamp || new Date()`. */
  function FirstStamp(r: LegacyRecord, now: int): int
  {
    if r.createdAt.Stored? then r.createdAt.value
    else if r.timestamp.Stored? then r.timestamp.value
    else now
  }

  function RecordUpdatesFor(r: LegacyRecord, now: int): RecordUpdates
  {
    RecordUpdates(
      if !r.markedAt.Stored? then Some(FirstStamp(r, now)) else None,
      if r.status == "Present" then Some("present")
      else if r.status == "Absent" then Some("absent")
      else None)
  }

  predicate RecordHasKeys(up: RecordUpdates)
  {
    up.markedAt.Some? || up.status.Some?
  }

  /** `Attendance.updateOne({ _id }, { $set: updates })`. */
  function SetRecord(r: LegacyRecord, up: RecordUpdates): LegacyRecord
  {
    r.(markedAt := Put(r.markedAt, up.markedAt),
       status := if up.status.Some? then up.status.value else r.status)
  }

  predicate RecordWritten(r: LegacyRecord, now: int)
  {
    RecordSelected(r) && RecordHasKeys(RecordUpdatesFor(r, now))
  }

  function MigrateRecord(r: LegacyRecord, now: int): LegacyRecord
  {
    if RecordWritten(r, now) then SetRecord(r, RecordUpdatesFor(r, now)) else r
  }

  function MigrateRecordAt(now: int): LegacyRecord -> LegacyRecord
  {
    (r: LegacyRecord) => MigrateRecord(r, now)
  }

  function RecordWrittenAt(now: int): LegacyRecord -> bool
  {
    (r: LegacyRecord) => RecordWritten(r, now)
  }

  /**
   * Status normalisation: the four spellings of the two statuses all end up
   * as the lower-case ones the current schema accepts, and any other status
   * is left alone.
   */
  lemma MigrateRecordLowersStatus(r: LegacyRecord, now: int)
    ensures var m := MigrateRecord(r, now);
      (r.status in {"present", "absent", "Present", "Absent"} ==> m.status == Lower(r.status)) &&
      (r.status !in {"Present", "Absent"} ==> m.status == r.status) &&
      m.status != "Present" && m.status != "Absent"
  {
    var m := MigrateRecord(r, now);
    StatusWordsLowered();
    assert RecordSelected(r) ==> RecordWritten(r, now);
    if r.status == "Present" {
      assert m.status == "present";
    } else if r.status == "Absent" {
      assert m.status == "absent";
    } else {
      assert m.status == r.status;
    }
  }

  lemma StatusWordsLowered()
    ensures Lower("Present") == "present" && Lower("Absent") == "absent"
    ensures Lower("present") == "present" && Lower("absent") == "absent"
  {
    LowerIs("Present", "present");
    LowerIs("Absent", "absent");
    LowerIs("present", "present");
    LowerIs("absent", "absent");
  }

  lemma LowerIs(s: string, t: string)
    requires |s| == |t| && forall i :: 0 <= i < |s| ==> LowerChar(s[i]) == t[i]
    ensures Lower(s) == t
  {
  }

  /**
   * A selected record with no `markedAt` date (missing or null) gets the
   * first of `createdAt`, `timestamp` and the current instant; a stored
   * date is kept; the id and the other stamps never change. Every selected
   * record is written.
   */
  lemma MigrateRecordStampsMarkedAt(r: LegacyRecord, now: int)
    ensures var m := MigrateRecord(r, now);
      m.id == r.id && m.createdAt == r.createdAt && m.timestamp == r.timestamp &&
      (r.markedAt.Stored? ==> m.markedAt == r.markedAt) &&
      (!RecordSelected(r) ==> m == r)
    ensures RecordSelected(r) && !r.markedAt.Stored? ==>
      var m := MigrateRecord(r, now);
      m.markedAt.Stored? &&
      (r.createdAt.Stored? ==> m.markedAt.value == r.createdAt.value) &&
      (!r.createdAt.Stored? && r.timestamp.Stored? ==> m.markedAt.value == r.timestamp.value) &&
      (!r.createdAt.Stored? && !r.timestamp.Stored? ==> m.markedAt.value == now)
    ensures RecordSelected(r) <==> RecordWritten(r, now)
  {
  }

  /** A migrated record is never selected again, so a second run changes and counts nothing. */
  lemma RecordMigrationSettles(r: LegacyRecord, now: int, later: int)
    ensures !RecordWritten(MigrateRecord(r, now), later)
    ensures MigrateRecord(MigrateRecord(r, now), later) == MigrateRecord(r, now)
  {
  }

  // ---------------------------------------------------------------------
  // The three loops
  // ---------------------------------------------------------------------

  /** The stored collections the script reads and updates one document at a time. */
  class LegacyDatabase {
    var users: seq<LegacyUser>
    var classes: seq<LegacyClass>
    var attendance: seq<LegacyRecord>

    constructor (users: seq<LegacyUser>, classes: seq<LegacyClass>, attendance: seq<LegacyRecord>)
      ensures this.users == users && this.classes == classes && this.attendance == attendance
    {
      this.users := users;
      this.classes := classes;
      this.attendance := attendance;
    }

    /**
     * Lines 43-71: each selected user whose update has a key is written with
     * `$set` and counted. The scan visits every document and applies the
     * query's filter itself; documents are updated by position, which is
     * updating by `_id` when ids are distinct.
     */
    method MigrateUsers() returns (count: nat)
      modifies this
      ensures users == Map(old(users), MigrateUser)
      ensures count == Count(old(users), UserWritten)
      ensures classes == old(classes) && attendance == old(attendance)
    {
      var docs := users;
      var current := docs;
      count := 0;
      var i := 0;
      NothingMigratedYet(docs, MigrateUser, UserWritten);
      while i < |docs|
        modifies {}
        invariant Progress(docs, MigrateUser, UserWritten, i, current, count)
      {
        NotYetMigrated(docs, MigrateUser, UserWritten, i, current, count);
        var written, u := UpdateUser(current[i]);
        ghost var before, n := current, count;
        if written {
          current := current[i := u];
          count := count + 1;
        }
        MigrateStep(docs, MigrateUser, UserWritten, i, before, current, n, count);
        i := i + 1;
      }
      AllMigrated(docs, MigrateUser, UserWritten, current, count);
      users := current;
    }

    /** Lines 86-118, with one reading of the clock for the whole run. */
    method MigrateClasses(now: int) returns (count: nat)
      modifies this
      ensures classes == Map(old(classes), MigrateClassAt(now))
      ensures count == Count(old(classes), ClassWrittenAt(now))
      ensures users == old(users) && attendance == old(attendance)
    {
      var docs := classes;
      var current := docs;
      count := 0;
      var i := 0;
      NothingMigratedYet(docs, MigrateClassAt(now), ClassWrittenAt(now));
      while i < |docs|
        modifies {}
        invariant Progress(docs, MigrateClassAt(now), ClassWrittenAt(now), i, current, count)
      {
        NotYetMigrated(docs, MigrateClassAt(now), ClassWrittenAt(now), i, current, count);
        var written, c := UpdateClass(current[i], now);
        assert ClassWrittenAt(now)(docs[i]) == written && MigrateClassAt(now)(docs[i]) == c;
        ghost var before, n := current, count;
        if written {
          current := current[i := c];
          count := count + 1;
        }
        MigrateStep(docs, MigrateClassAt(now), ClassWrittenAt(now), i, before, current, n, count);
        i := i + 1;
      }
      AllMigrated(docs, MigrateClassAt(now), ClassWrittenAt(now), current, count);
      classes := current;
    }

    /** Lines 134-154, with one reading of the clock for the whole run. */
    method MigrateAttendance(now: int) returns (count: nat)
      modifies this
      ensures attendance == Map(old(attendance), MigrateRecordAt(now))
      ensures count == Count(old(attendance), RecordWrittenAt(now))
      ensures users == old(users) && classes == old(classes)
    {
      var docs := attendance;
      var current := docs;
      count := 0;
      var i := 0;
      NothingMigratedYet(docs, MigrateRecordAt(now), RecordWrittenAt(now));
      while i < |docs|
        modifies {}
        invariant Progress(docs, MigrateRecordAt(now), RecordWrittenAt(now), i, current, count)
      {
        NotYetMigrated(docs, MigrateRecordAt(now), RecordWrittenAt(now), i, current, count);
        var written, r := UpdateRecord(current[i], now);
        assert RecordWrittenAt(now)(docs[i]) == written && MigrateRecordAt(now)(docs[i]) == r;
        ghost var before, n := current, count;
        if written {
          current := current[i := r];
          count := count + 1;
        }
        MigrateStep(docs, MigrateRecordAt(now), RecordWrittenAt(now), i, before, current, n, count);
        i := i + 1;
      }
      AllMigrated(docs, MigrateRecordAt(now), RecordWrittenAt(now), current, count);
      attendance := current;
    }

    /** `migrate` (lines 22-173): users, then classes, then attendance records. */
    method Migrate(now: int) returns (userCount: nat, classCount: nat, attendanceCount: nat)
      modifies this
      ensures users == Map(old(users), MigrateUser)
      ensures classes == Map(old(classes), MigrateClassAt(now))
      ensures attendance == Map(old(attendance), MigrateRecordAt(now))
      ensures userCount == Count(old(users), UserWritten)
      ensures classCount == Count(old(classes), ClassWrittenAt(now))
      ensures attendanceCount == Count(old(attendance), RecordWrittenAt(now))
    {
      userCount := MigrateUsers();
      classCount := MigrateClasses(now);
      attendanceCount := MigrateAttendance(now);
    }
  }

  /** Lines 44-70 for one user: the query's test, the updates, and the write when they have a key. */
  method UpdateUser(u: LegacyUser) returns (written: bool, m: LegacyUser)
    ensures written == UserWritten(u) && m == MigrateUser(u)
    ensures !written ==> m == u
  {
    written, m := false, u;
    if UserSelected(u) {
      var updates := UserUpdatesFor(u);
      if updates.enrollmentDate.Some? || updates.isActive.Some? || updates.enrollmentHistory.Some? {
        written, m := true, SetUser(u, updates);
      }
    }
  }

  /** Lines 88-117 for one class. */
  method UpdateClass(c: LegacyClass, now: int) returns (written: bool, m: LegacyClass)
    ensures written == ClassWritten(c, now) && m == MigrateClass(c, now)
    ensures !written ==> m == c
  {
    written, m := false, c;
    var updates := ClassUpdatesFor(c, now);
    if ClassSelected(c) && ClassHasKeys(updates) {
      written, m := true, SetClass(c, updates);
    }
  }

  /** Lines 136-153 for one attendance record. */
  method UpdateRecord(r: LegacyRecord, now: int) returns (written: bool, m: LegacyRecord)
    ensures written == RecordWritten(r, now) && m == MigrateRecord(r, now)
    ensures !written ==> m == r
  {
    written, m := false, r;
    var updates := RecordUpdatesFor(r, now);
    if RecordSelected(r) && RecordHasKeys(updates) {
      written, m := true, SetRecord(r, updates);
    }
  }

  /**
   * Writing the next document of a half-migrated collection extends the
   * migrated prefix by one; a document the migration leaves alone extends
   * it without a write.
   */
  lemma MapStep<T>(xs: seq<T>, f: T -> T, i: nat, current: seq<T>)
    requires i < |xs| && current == Map(xs[..i], f) + xs[i..]
    ensures current[i := f(xs[i])] == Map(xs[..i + 1], f) + xs[i + 1..]
    ensures f(xs[i]) == xs[i] ==> current == Map(xs[..i + 1], f) + xs[i + 1..]
  {
    assert xs[..i + 1] == xs[..i] + [xs[i]];
    MapLast(xs[..i], xs[i], f);
    assert xs[i..] == [xs[i]] + xs[i + 1..];
  }

  /**
   * A migration loop after i documents: the collection holds the migrated
   * form of the first i and the original of the rest, and `count` is the
   * number of the first i that were written.
   */
  ghost predicate Progress<T(!new)>(docs: seq<T>, f: T -> T, p: T -> bool, i: nat, current: seq<T>, count: nat)
  {
    i <= |docs| && current == Map(docs[..i], f) + docs[i..] && count == Count(docs[..i], p)
  }

  lemma NothingMigratedYet<T(!new)>(docs: seq<T>, f: T -> T, p: T -> bool)
    ensures Progress(docs, f, p, 0, docs, 0)
  {
    assert docs[..0] == [];
  }

  /** Past the migrated prefix, the collection still holds the documents as they were. */
  lemma NotYetMigrated<T(!new)>(docs: seq<T>, f: T -> T, p: T -> bool, i: nat, current: seq<T>, count: nat)
    requires i < |docs| && Progress(docs, f, p, i, current, count)
    ensures i < |current| && current[i] == docs[i]
  {
  }

  /**
   * One pass of a migration loop: a written document is replaced by its
   * migrated form and counted, any other is one `f` leaves alone.
   */
  lemma MigrateStep<T(!new)>(docs: seq<T>, f: T -> T, p: T -> bool, i: nat, before: seq<T>, after: seq<T>, n: nat, n': nat)
    requires i < |docs| && Progress(docs, f, p, i, before, n)
    requires !p(docs[i]) ==> f(docs[i]) == docs[i]
    requires if p(docs[i]) then after == before[i := f(docs[i])] && n' == n + 1 else after == before && n' == n
    ensures Progress(docs, f, p, i + 1, after, n')
  {
    MapStep(docs, f, i, before);
    CountStep(docs, p, i);
  }

  lemma AllMigrated<T(!new)>(docs: seq<T>, f: T -> T, p: T -> bool, current: seq<T>, count: nat)
    requires Progress(docs, f, p, |docs|, current, count)
    ensures current == Map(docs, f) && count == Count(docs, p)
  {
    assert docs[..|docs|] == docs;
    assert docs[|docs|..] == [];
  }

  /** Counting the written documents one document further. */
  lemma CountStep<T(!new)>(xs: seq<T>, p: T -> bool, i: nat)
    requires i < |xs|
    ensures Count(xs[..i + 1], p) == Count(xs[..i], p) + (if p(xs[i]) then 1 else 0)
  {
    assert xs[..i + 1] == xs[..i] + [xs[i]];
    CountAppend(xs[..i], [xs[i]], p);
    assert Filter([xs[i]], p) == if p(xs[i]) then [xs[i]] else [];
  }

  /**
   * A second run of the migration at any later instant leaves every class
   * and record as the first run left it and writes none of them.
   */
  lemma {:induction false} SecondRunWritesNothing(classes: seq<LegacyClass>, records: seq<LegacyRecord>, now: int, later: int)
    ensures Map(Map(classes, MigrateClassAt(now)), MigrateClassAt(later)) == Map(classes, MigrateClassAt(now))
    ensures Count(Map(classes, MigrateClassAt(now)), ClassWrittenAt(later)) == 0
    ensures Map(Map(records, MigrateRecordAt(now)), MigrateRecordAt(later)) == Map(records, MigrateRecordAt(now))
    ensures Count(Map(records, MigrateRecordAt(now)), RecordWrittenAt(later)) == 0
  {
    var cs := Map(classes, MigrateClassAt(now));
    forall i | 0 <= i < |cs| ensures !ClassWritten(cs[i], later) && MigrateClass(cs[i], later) == cs[i] {
      ClassMigrationSettles(classes[i], now, later);
    }
    NoneWritten(cs, ClassWrittenAt(later));
    var rs := Map(records, MigrateRecordAt(now));
    forall i | 0 <= i < |rs| ensures !RecordWritten(rs[i], later) && MigrateRecord(rs[i], later) == rs[i] {
      RecordMigrationSettles(records[i], now, later);
    }
    NoneWritten(rs, RecordWrittenAt(later));
  }

  lemma NoneWritten<T(!new)>(xs: seq<T>, p: T -> bool)
    requires forall i :: 0 <= i < |xs| ==> !p(xs[i])
    ensures Count(xs, p) == 0
  {
    var r := Filter(xs, p);
    if r != [] {
      assert r[0] in xs;
    }
  }
}
