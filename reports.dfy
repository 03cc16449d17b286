/**
 * The read-only attendance views that are single expressions over the
 * collections (backend/controllers/attendanceController.js): the class
 * roster with statuses, a student's pending classes, a teacher's options and
 * the distinct months in which a subject has classes.
 */
module Reports {
  import opened Options
  import opened Strings
  import opened Seqs
  import opened JsDate
  import opened Models

  /** The projection `select("name email")` of a user (the id always comes along). */
  datatype StudentSummary = StudentSummary(id: Id, name: string, email: string)

  function Summary(u: User): StudentSummary
  {
    StudentSummary(u.id, u.name, u.email)
  }

  /** `User.find({ role: "student", course, semester })`, in natural order. */
  function Cohort(users: seq<User>, course: string, semester: int): (r: seq<User>)
    ensures forall u :: u in r <==> u in users && u.role == Student && u.course == Some(course) && u.semester == Some(semester)
  {
    Filter(users, (u: User) => u.role == Student && u.course == Some(course) && u.semester == Some(semester))
  }

  /** `cls.subject?.name` once the subject reference is populated; a dangling reference gives nothing. */
  function SubjectNameOf(s: Store, c: ClassSession): Option<string>
  {
    match FindSubject(s.subjects, c.subject)
    case None => None
    case Some(t) => Some(t.name)
  }

  // ---------------------------------------------------------------------
  // getClassAttendance, lines 202-237
  // ---------------------------------------------------------------------

  datatype RosterRow = RosterRow(student: StudentSummary, status: string)

  datatype RosterOutcome =
    | RosterCastError                 // 500: the path id does not cast to an ObjectId
    | RosterClassNotFound             // 404 "Class not found"
    | Roster(rows: seq<RosterRow>)    // 200

  /** The status column of one student: the first record of the class for that student decides it. */
  function RowStatus(classRecords: seq<AttendanceRecord>, student: Id): (status: string)
    ensures status == "Present" || status == "Absent"
  {
    match FindFirst(classRecords, (a: AttendanceRecord) => a.student == student)
    case None => "Absent"
    case Some(k) => if classRecords[k].status == Present then "Present" else "Absent"
  }

  function ClassAttendance(s: Store, classIdParam: string): (o: RosterOutcome)
    ensures o.Roster? ==>
      exists c :: c in s.classes && Some(c.id) == CastId(classIdParam) && |o.rows| == |Cohort(s.users, c.course, c.semester)|
    ensures o.RosterClassNotFound? <==> CastId(classIdParam).Some? && FindClass(s.classes, CastId(classIdParam).value).None?
  {
    match CastId(classIdParam)
    case None => RosterCastError
    case Some(cid) =>
      match FindClass(s.classes, cid)
      case None => RosterClassNotFound
      case Some(c) =>
        var classRecords := Filter(s.attendance, (a: AttendanceRecord) => a.classId == cid);
        Roster(Map(Cohort(s.users, c.course, c.semester), (u: User) => RosterRow(Summary(u), RowStatus(classRecords, u.id))))
  }

  /**
   * One row per student of the class's course and semester, in that order,
   * and under the unique (student, class) index a row reads "Present"
   * exactly when the student's record for the class says present.
   */
  lemma RosterReadsTheRecord(s: Store, classIdParam: string)
    requires UniqueKeys(s.attendance)
    requires ClassAttendance(s, classIdParam).Roster?
    ensures var cid := CastId(classIdParam).value;
      var c := FindClass(s.classes, cid).value;
      var cohort := Cohort(s.users, c.course, c.semester);
      var rows := ClassAttendance(s, classIdParam).rows;
      |rows| == |cohort| &&
      forall i :: 0 <= i < |rows| ==>
        rows[i].student == Summary(cohort[i]) &&
        (rows[i].status == "Present" <==>
          exists k :: 0 <= k < |s.attendance| && HasKey(s.attendance[k], cohort[i].id, cid) && s.attendance[k].status == Present)
  {
    var cid := CastId(classIdParam).value;
    var c := FindClass(s.classes, cid).value;
    var cohort := Cohort(s.users, c.course, c.semester);
    var rows := ClassAttendance(s, classIdParam).rows;
    forall i | 0 <= i < |rows|
      ensures rows[i].status == "Present" <==>
        exists k :: 0 <= k < |s.attendance| && HasKey(s.attendance[k], cohort[i].id, cid) && s.attendance[k].status == Present
    {
      StatusReadsTheRecord(s.attendance, cid, cohort[i].id);
    }
  }

  /** Under the unique index, a student's status column is "Present" iff their record for the class says present. */
  lemma StatusReadsTheRecord(records: seq<AttendanceRecord>, cid: Id, student: Id)
    requires UniqueKeys(records)
    ensures RowStatus(Filter(records, (a: AttendanceRecord) => a.classId == cid), student) == "Present" <==>
      exists k :: 0 <= k < |records| && HasKey(records[k], student, cid) && records[k].status == Present
  {
    var classRecords := Filter(records, (a: AttendanceRecord) => a.classId == cid);
    match FindFirst(classRecords, (a: AttendanceRecord) => a.student == student)
    case None =>
      forall k | 0 <= k < |records| && records[k].classId == cid
        ensures records[k].student != student
      {
        assert records[k] in classRecords;
      }
    case Some(m) =>
      var rec := classRecords[m];
      assert rec in records;
      var k0 :| 0 <= k0 < |records| && records[k0] == rec;
      assert HasKey(records[k0], student, cid);
      forall k | 0 <= k < |records| && HasKey(records[k], student, cid)
        ensures k == k0
      {
      }
  }

  // ---------------------------------------------------------------------
  // getPendingClasses, lines 245-286
  // ---------------------------------------------------------------------

  datatype PendingOutcome = PendingUnauthorized | Pending(classes: seq<ClassSession>)

  /** The sort `{ date: 1, startTime: 1 }`. */
  function DateThenStart(c: ClassSession): SortKey
  {
    (c.date, c.startTime)
  }

  /**
   * The caller's classes from `today` on (`date: { $gte: todayStr }`, a
   * comparison of strings), sorted by date then start time, without those
   * the caller already has a record for. `today` is the "YYYY-MM-DD" form
   * of the current local date.
   */
  function PendingClasses(s: Store, caller: Id, today: string): (o: PendingOutcome)
    ensures o.PendingUnauthorized? <==> FindUser(s.users, caller).None? || FindUser(s.users, caller).value.role != Student
    ensures o.Pending? ==> SortedBy(o.classes, DateThenStart)
    ensures o.Pending? ==> var me := FindUser(s.users, caller).value;
      forall c :: c in o.classes <==>
        c in s.classes && me.course == Some(c.course) && me.semester == Some(c.semester) &&
        LexLe(today, c.date) && FindRecord(s.attendance, caller, c.id).None?
  {
    match FindUser(s.users, caller)
    case None => PendingUnauthorized
    case Some(me) =>
      if me.role != Student then PendingUnauthorized
      else
        var upcoming := Filter(s.classes, (c: ClassSession) =>
          Some(c.course) == me.course && Some(c.semester) == me.semester && LexLe(today, c.date));
        var sorted := SortBy(upcoming, DateThenStart);
        var notAttended := (c: ClassSession) => FindRecord(s.attendance, caller, c.id).None?;
        FilterSorted(sorted, notAttended, DateThenStart);
        assert forall c :: c in sorted <==> c in upcoming by {
          forall c ensures c in sorted <==> c in upcoming {
            assert c in multiset(sorted) <==> c in multiset(upcoming);
          }
        }
        Pending(Filter(sorted, notAttended))
  }

  // ---------------------------------------------------------------------
  // getTeacherOptions, lines 482-495
  // ---------------------------------------------------------------------

  datatype TeacherOptions = TeacherOptions(courses: seq<string>, semesters: seq<int>, subjects: seq<string>)

  /**
   * The distinct courses, semesters and subject names of the subjects
   * assigned to the teacher, each list in order of first appearance.
   */
  function OptionsOf(subjects: seq<Subject>, teacher: Id): (r: TeacherOptions)
    ensures Distinct(r.courses) && Distinct(r.semesters) && Distinct(r.subjects)
    ensures forall x :: x in r.courses <==> exists t :: t in subjects && t.teacher == Some(teacher) && t.course == x
    ensures forall x :: x in r.semesters <==> exists t :: t in subjects && t.teacher == Some(teacher) && t.semester == x
    ensures forall x :: x in r.subjects <==> exists t :: t in subjects && t.teacher == Some(teacher) && t.name == x
  {
    var mine := Filter(subjects, (t: Subject) => t.teacher == Some(teacher));
    var courses := Map(mine, (t: Subject) => t.course);
    var semesters := Map(mine, (t: Subject) => t.semester);
    var names := Map(mine, (t: Subject) => t.name);
    MapMembers(mine, (t: Subject) => t.course);
    MapMembers(mine, (t: Subject) => t.semester);
    MapMembers(mine, (t: Subject) => t.name);
    TeacherOptions(Dedup(courses), Dedup(semesters), Dedup(names))
  }

  // ---------------------------------------------------------------------
  // getAttendanceMonths, lines 497-530
  // ---------------------------------------------------------------------

  /**
   * `${d.getFullYear()}-${(d.getMonth() + 1).toString().padStart(2, "0")}`
   * for `d = new Date(date)`; an Invalid Date prints as "NaN-NaN".
   */
  function MonthKey(date: string): (k: string)
    ensures YearMonth(date).None? ==> k == "NaN-NaN"
  {
    match YearMonth(date)
    case None => "NaN-NaN"
    case Some((y, m)) => NatToString(y) + "-" + PadTwo(m)
  }

  /**
   * For a well-formed date of a four-digit year (no leading zero) whose day
   * exists in its month, the month key is the date's own "YYYY-MM" prefix.
   */
  lemma MonthKeyIsDatePrefix(date: string)
    requires ParseDate(date).Some? && date[0] != '0'
    requires var c := ParseDate(date).value; c.day <= DaysInMonth(c.year, c.month)
    ensures MonthKey(date) == date[..7]
  {
    var c := ParseDate(date).value;
    assert c.year == DigitsValue(date[0..4]) && c.month == DigitsValue(date[5..7]);
    DigitsRoundTrip(date[0..4]);
    PadTwoRoundTrip(date[5..7]);
    assert date[..7] == date[0..4] + "-" + date[5..7];
  }

  datatype MonthsOutcome = MonthsMissingQuery | MonthsCastError | Months(keys: seq<string>)

  /** A query string parameter is given when present and non-empty. */
  predicate Given(p: Option<string>)
  {
    p.Some? && p.value != ""
  }

  /**
   * The distinct month keys of the classes of a course, semester and
   * subject name (of any teacher), in order of first appearance. The
   * semester arrives as a string and is cast to a number by the query.
   */
  function AttendanceMonths(s: Store, course: Option<string>, semester: Option<string>, subject: Option<string>): (o: MonthsOutcome)
    ensures o.MonthsMissingQuery? <==> !Given(course) || !Given(semester) || !Given(subject)
    ensures o.Months? ==> Distinct(o.keys)
    ensures o.Months? ==> forall k :: k in o.keys <==>
      exists c :: c in s.classes && c.course == course.value && Some(c.semester) == NumberOf(semester.value) &&
        SubjectNameOf(s, c) == subject && MonthKey(c.date) == k
  {
    if !Given(course) || !Given(semester) || !Given(subject) then MonthsMissingQuery
    else match NumberOf(semester.value)
      case None => MonthsCastError
      case Some(sem) =>
        var chosen := Filter(s.classes, (c: ClassSession) =>
          c.course == course.value && c.semester == sem && SubjectNameOf(s, c) == subject);
        var keys := Map(chosen, (c: ClassSession) => MonthKey(c.date));
        assert forall k :: k in keys <==> exists c :: c in chosen && MonthKey(c.date) == k by {
          forall k | k in keys ensures exists c :: c in chosen && MonthKey(c.date) == k {
            var i :| 0 <= i < |keys| && keys[i] == k;
            assert chosen[i] in chosen;
          }
          forall c | c in chosen ensures MonthKey(c.date) in keys {
            var i :| 0 <= i < |chosen| && chosen[i] == c;
            assert keys[i] == MonthKey(c.date);
          }
        }
        Months(Dedup(keys))
  }
}
