/**
 * The class controller (backend/controllers/classController.js): the guard
 * chain of `createClass` ending in one insert, and the two date-sorted
 * listings `getTeacherClasses` and `getStudentClasses`.
 *
 * Saving a class runs the schema's required-field validation
 * (backend/models/Class.js:4-41). As written, `createClass` builds the new
 * class without the body's latitude and longitude, so that validation
 * always fails and every request that passes the guards ends in a 500.
 * `CreateDecisionAsWritten` keeps that behaviour; `CreateDecision` copies
 * the two coordinates, which is what the schema evidently expects, and is
 * the decision the database method runs.
 */
module Classes {
  import opened Options
  import opened Strings
  import opened Seqs
  import opened Models

  /** The body; `None` is a missing field. */
  datatype CreateBody = CreateBody(
    subject: Option<string>,
    date: Option<string>,
    startTime: Option<string>,
    endTime: Option<string>,
    latitude: Option<real>,
    longitude: Option<real>)

  datatype CreateOutcome =
    | MissingFields                  // 400 "All fields are required"
    | SubjectNotFound                // 404 "Subject not found"
    | NotAssigned                    // 403 "You are not assigned to this subject"
    | ServerError                    // 500: a cast, type or validation error
    | Scheduled(cls: ClassSession)   // 201 "Class scheduled successfully"

  /** A string field is given when it is present and not the (falsy) empty string. */
  predicate Given(f: Option<string>)
  {
    f.Some? && f.value != ""
  }

  /** The check of line 13: subject, date, startTime and endTime are all truthy. */
  predicate FieldsGiven(body: CreateBody)
  {
    Given(body.subject) && Given(body.date) && Given(body.startTime) && Given(body.endTime)
  }

  /** The document built at lines 27-35, before the schema validates it. */
  datatype ClassDraft = ClassDraft(
    subject: Id,
    teacher: Id,
    date: string,
    startTime: string,
    endTime: string,
    semester: int,
    course: string,
    latitude: Option<real>,
    longitude: Option<real>)

  /** Where the guard chain of lines 13-25 leaves a request: refused, or admitted for a subject. */
  datatype Admission = Refused(outcome: CreateOutcome) | Admitted(subject: Subject)

  /**
   * The guards: missing fields give 400; an id that does not cast gives a
   * CastError (500); an unknown subject 404; a subject with no teacher makes
   * `subject.teacher.toString()` throw (500); another teacher gives 403.
   */
  function Admit(s: Store, caller: Id, body: CreateBody): (a: Admission)
    ensures a.Admitted? ==> a.subject in s.subjects && a.subject.teacher == Some(caller)
    ensures a.Refused? ==> !a.outcome.Scheduled?
  {
    if !FieldsGiven(body) then Refused(MissingFields)
    else match CastId(body.subject.value)
      case None => Refused(ServerError)
      case Some(sid) =>
        match FindSubject(s.subjects, sid)
        case None => Refused(SubjectNotFound)
        case Some(t) =>
          if t.teacher.None? then Refused(ServerError)
          else if t.teacher.value != caller then Refused(NotAssigned)
          else Admitted(t)
  }

  /**
   * `newClass.save()`: the schema's required validators (a string must be
   * non-empty, a number present), then the unique `_id` index. `newId` is
   * the id the new document was given.
   */
  function Save(classes: seq<ClassSession>, d: ClassDraft, newId: Id): (o: CreateOutcome)
    ensures o.Scheduled? <==>
      d.date != "" && d.startTime != "" && d.endTime != "" && d.course != "" &&
      d.latitude.Some? && d.longitude.Some? && FindClass(classes, newId).None?
    ensures o.Scheduled? ==> ClassValid(o.cls) && o.cls.id == newId
  {
    if d.date == "" || d.startTime == "" || d.endTime == "" || d.course == "" then ServerError
    else if d.latitude.None? || d.longitude.None? then ServerError
    else if FindClass(classes, newId).Some? then ServerError
    else Scheduled(ClassSession(newId, d.subject, d.teacher, d.date, d.startTime, d.endTime,
                                d.semester, d.course, d.latitude.value, d.longitude.value))
  }

  /** Lines 27-35 as written: the body's coordinates are not copied. */
  function DraftAsWritten(t: Subject, caller: Id, body: CreateBody): ClassDraft
    requires FieldsGiven(body)
  {
    ClassDraft(t.id, caller, body.date.value, body.startTime.value, body.endTime.value,
               t.semester, t.course, None, None)
  }

  /** Lines 27-35 with the body's coordinates copied. */
  function Draft(t: Subject, caller: Id, body: CreateBody): ClassDraft
    requires FieldsGiven(body)
  {
    ClassDraft(t.id, caller, body.date.value, body.startTime.value, body.endTime.value,
               t.semester, t.course, body.latitude, body.longitude)
  }

  /** `createClass` as written (lines 9-46). */
  function CreateDecisionAsWritten(s: Store, caller: Id, body: CreateBody, newId: Id): (o: CreateOutcome)
  {
    match Admit(s, caller, body)
    case Refused(o) => o
    case Admitted(t) => Save(s.classes, DraftAsWritten(t, caller, body), newId)
  }

  /**
   * `createClass` with the coordinates copied: a scheduled class belongs to
   * the caller, is of the named subject and its cohort, and carries the
   * body's date, times and location.
   */
  function CreateDecision(s: Store, caller: Id, body: CreateBody, newId: Id): (o: CreateOutcome)
    ensures o.Scheduled? ==>
      FieldsGiven(body) && CastId(body.subject.value).Some? &&
      FindSubject(s.subjects, CastId(body.subject.value).value).Some? &&
      body.latitude.Some? && body.longitude.Some?
    ensures o.Scheduled? ==>
      var sid := CastId(body.subject.value).value;
      var t := FindSubject(s.subjects, sid).value;
      o.cls == ClassSession(newId, sid, caller, body.date.value, body.startTime.value, body.endTime.value,
                            t.semester, t.course, body.latitude.value, body.longitude.value)
  {
    match Admit(s, caller, body)
    case Refused(o) => o
    case Admitted(t) => Save(s.classes, Draft(t, caller, body), newId)
  }

  /** The store after a decision: a scheduled class is appended, nothing else changes. */
  function ApplyCreate(s: Store, o: CreateOutcome): Store
  {
    if o.Scheduled? then s.(classes := s.classes + [o.cls]) else s
  }

  /** Runs the guard chain against the database and inserts the class (line 37). */
  method CreateClass(db: Database, caller: Id, body: CreateBody, newId: Id) returns (o: CreateOutcome)
    requires db.Valid()
    modifies db
    ensures o == CreateDecision(old(db.Snapshot()), caller, body, newId)
    ensures db.Snapshot() == ApplyCreate(old(db.Snapshot()), o)
    ensures db.Valid()
  {
    if !Given(body.subject) || !Given(body.date) || !Given(body.startTime) || !Given(body.endTime) {
      return MissingFields;
    }
    var sid := CastId(body.subject.value);
    if sid.None? {
      return ServerError;
    }
    var t := FindSubject(db.subjects, sid.value);
    if t.None? {
      return SubjectNotFound;
    }
    if t.value.teacher.None? {
      return ServerError;
    }
    if t.value.teacher.value != caller {
      return NotAssigned;
    }
    o := Save(db.classes, Draft(t.value, caller, body), newId);
    if o.Scheduled? {
      CreateKeepsStoreValid(old(db.Snapshot()), caller, body, newId);
      db.classes := db.classes + [o.cls];
    }
  }

  // ---------------------------------------------------------------------
  // Properties of class creation
  // ---------------------------------------------------------------------

  /**
   * Each refusal answers exactly its own guard: 400 iff a field is missing,
   * 404 iff the (castable) subject id is unknown, 403 iff the subject's
   * teacher is someone else; a refused request changes nothing.
   */
  lemma RefusalsFollowTheGuards(s: Store, caller: Id, body: CreateBody, newId: Id)
    ensures var o := CreateDecision(s, caller, body, newId);
      (o == MissingFields <==> !FieldsGiven(body)) &&
      (o == SubjectNotFound <==>
        FieldsGiven(body) && CastId(body.subject.value).Some? &&
        FindSubject(s.subjects, CastId(body.subject.value).value).None?) &&
      (o == NotAssigned <==>
        FieldsGiven(body) && CastId(body.subject.value).Some? &&
        FindSubject(s.subjects, CastId(body.subject.value).value).Some? &&
        var t := FindSubject(s.subjects, CastId(body.subject.value).value).value;
        t.teacher.Some? && t.teacher.value != caller) &&
      (!o.Scheduled? ==> ApplyCreate(s, o) == s)
  {
  }

  /**
   * A class is scheduled exactly when the subject exists and is assigned to
   * the caller, the body carries both coordinates and the new id is unused;
   * it is then appended and is the only class with that id.
   */
  lemma ScheduledIffAssignedTeacher(s: Store, caller: Id, body: CreateBody, newId: Id)
    requires SubjectsValid(s.subjects)
    ensures CreateDecision(s, caller, body, newId).Scheduled? <==>
      FieldsGiven(body) && CastId(body.subject.value).Some? &&
      FindSubject(s.subjects, CastId(body.subject.value).value).Some? &&
      FindSubject(s.subjects, CastId(body.subject.value).value).value.teacher == Some(caller) &&
      body.latitude.Some? && body.longitude.Some? && FindClass(s.classes, newId).None?
    ensures CreateDecision(s, caller, body, newId).Scheduled? ==>
      var s' := ApplyCreate(s, CreateDecision(s, caller, body, newId));
      |s'.classes| == |s.classes| + 1 && s'.classes[..|s.classes|] == s.classes &&
      FindClass(s'.classes, newId) == Some(CreateDecision(s, caller, body, newId).cls)
  {
    var o := CreateDecision(s, caller, body, newId);
    if o.Scheduled? {
      var s' := ApplyCreate(s, o);
      assert s'.classes[..|s.classes|] == s.classes;
      assert s'.classes[|s.classes|] == o.cls;
    }
  }

  /** A decision keeps the store's invariants: the new id is unused and the class is complete. */
  lemma CreateKeepsStoreValid(s: Store, caller: Id, body: CreateBody, newId: Id)
    requires ValidStore(s)
    ensures ValidStore(ApplyCreate(s, CreateDecision(s, caller, body, newId)))
  {
    var o := CreateDecision(s, caller, body, newId);
    if o.Scheduled? {
      var cs := s.classes + [o.cls];
      forall i, j | 0 <= i < j < |cs| ensures cs[i].id != cs[j].id {
        if j == |s.classes| {
          assert cs[i] in s.classes;
        }
      }
      forall i | 0 <= i < |cs| ensures ClassValid(cs[i]) {
        if i < |s.classes| {
          assert cs[i] == s.classes[i];
        }
      }
    }
  }

  /**
   * As written no request is ever scheduled: every request the corrected
   * decision would schedule ends in a validation error (500) instead, and
   * the store is left unchanged.
   */
  lemma AsWrittenNeverSchedules(s: Store, caller: Id, body: CreateBody, newId: Id)
    ensures !CreateDecisionAsWritten(s, caller, body, newId).Scheduled?
    ensures CreateDecision(s, caller, body, newId).Scheduled? ==>
      CreateDecisionAsWritten(s, caller, body, newId) == ServerError
    ensures !CreateDecision(s, caller, body, newId).Scheduled? ==>
      CreateDecisionAsWritten(s, caller, body, newId) == CreateDecision(s, caller, body, newId)
  {
  }

  // ---------------------------------------------------------------------
  // getTeacherClasses (lines 53-61) and getStudentClasses (lines 68-88)
  // ---------------------------------------------------------------------

  /** The sort `{ date: 1 }`. */
  function ByDate(c: ClassSession): SortKey
  {
    (c.date, "")
  }

  function ByTeacher(caller: Id): ClassSession -> bool
  {
    (c: ClassSession) => c.teacher == caller
  }

  /** `Class.find({ teacher: caller }).sort({ date: 1 })`. */
  function TeacherClasses(classes: seq<ClassSession>, caller: Id): (r: seq<ClassSession>)
    ensures SortedBy(r, ByDate)
    ensures multiset(r) == multiset(Filter(classes, ByTeacher(caller)))
    ensures forall c :: c in r <==> c in classes && c.teacher == caller
  {
    var r := SortBy(Filter(classes, ByTeacher(caller)), ByDate);
    assert forall c :: c in r <==> c in multiset(r);
    r
  }

  datatype StudentClassesOutcome =
    | StudentUnauthorized              // 401 "Unauthorized"
    | StudentClasses(classes: seq<ClassSession>)

  function InCohort(me: User): ClassSession -> bool
  {
    (c: ClassSession) => Some(c.course) == me.course && Some(c.semester) == me.semester
  }

  /**
   * `getStudentClasses`: the caller must be a student; the classes of the
   * caller's course and semester, sorted by date.
   */
  function StudentClassesFor(s: Store, caller: Id): (o: StudentClassesOutcome)
    ensures o.StudentUnauthorized? <==> FindUser(s.users, caller).None? || FindUser(s.users, caller).value.role != Student
    ensures o.StudentClasses? ==> SortedBy(o.classes, ByDate)
    ensures o.StudentClasses? ==> var me := FindUser(s.users, caller).value;
      forall c :: c in o.classes <==> c in s.classes && me.course == Some(c.course) && me.semester == Some(c.semester)
  {
    match FindUser(s.users, caller)
    case None => StudentUnauthorized
    case Some(me) =>
      if me.role != Student then StudentUnauthorized
      else
        var r := SortBy(Filter(s.classes, InCohort(me)), ByDate);
        assert forall c :: c in r <==> c in multiset(r);
        StudentClasses(r)
  }

  /**
   * A class a teacher schedules appears in that teacher's listing and in the
   * listing of every student of the subject's course and semester.
   */
  lemma ScheduledClassIsListed(s: Store, caller: Id, body: CreateBody, newId: Id, student: Id)
    requires CreateDecision(s, caller, body, newId).Scheduled?
    ensures var s' := ApplyCreate(s, CreateDecision(s, caller, body, newId));
      var c := CreateDecision(s, caller, body, newId).cls;
      c in TeacherClasses(s'.classes, caller) &&
      (FindUser(s.users, student).Some? && FindUser(s.users, student).value.role == Student &&
       FindUser(s.users, student).value.course == Some(c.course) &&
       FindUser(s.users, student).value.semester == Some(c.semester) ==>
         StudentClassesFor(s', student).StudentClasses? && c in StudentClassesFor(s', student).classes)
  {
    var s' := ApplyCreate(s, CreateDecision(s, caller, body, newId));
    assert s'.classes[|s.classes|] == CreateDecision(s, caller, body, newId).cls;
  }
}
