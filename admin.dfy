/**
 * The administrator's controller (backend/controllers/adminController.js):
 * `assignTeacher`, the only writer of a subject's `teacher` field, and the
 * two listings `getSubjects` and `getTeachers`.
 */
module Admin {
  import opened Options
  import opened Strings
  import opened Seqs
  import opened Models
  import Classes

  /** The body; `None` is a missing field. */
  datatype AssignBody = AssignBody(teacherId: Option<string>, subjectId: Option<string>)

  datatype AssignOutcome =
    | InvalidTeacher                     // 400 "Invalid teacher ID"
    | AssignError                        // 500: an id does not cast to an ObjectId
    | Assigned(subject: Option<Subject>) // 200, with the updated subject or null

  /**
   * `User.findById(teacherId)`: a missing id finds nothing, an id that does
   * not cast is a CastError.
   */
  datatype Lookup = NotFound | CastFailed | Found(user: User)

  function LookupTeacher(users: seq<User>, teacherId: Option<string>): Lookup
  {
    if teacherId.None? then NotFound
    else match CastId(teacherId.value)
      case None => CastFailed
      case Some(tid) =>
        match FindUser(users, tid)
        case None => NotFound
        case Some(u) => Found(u)
  }

  function HasId(sid: Id): Subject -> bool
  {
    (t: Subject) => t.id == sid
  }

  /**
   * `Subject.findByIdAndUpdate(sid, { teacher: tid })`: the first subject
   * with the id gets the teacher; every other field and subject is kept.
   */
  function SetTeacher(subjects: seq<Subject>, sid: Id, tid: Id): (r: seq<Subject>)
    ensures |r| == |subjects|
    ensures forall i :: 0 <= i < |r| ==> r[i].id == subjects[i].id
  {
    match FindFirst(subjects, HasId(sid))
    case None => subjects
    case Some(k) => subjects[k := subjects[k].(teacher := Some(tid))]
  }

  /** Lines 9-20: the teacher check, then the update of one subject. */
  function AssignDecision(s: Store, body: AssignBody): (o: AssignOutcome)
    ensures o.Assigned? && o.subject.Some? ==>
      body.subjectId.Some? && body.teacherId.Some? &&
      CastId(body.subjectId.value).Some? && o.subject.value.id == CastId(body.subjectId.value).value &&
      CastId(body.teacherId.value).Some? && o.subject.value.teacher == Some(CastId(body.teacherId.value).value)
  {
    match LookupTeacher(s.users, body.teacherId)
    case CastFailed => AssignError
    case NotFound => InvalidTeacher
    case Found(u) =>
      if u.role != Teacher then InvalidTeacher
      else if body.subjectId.None? then Assigned(None)
      else match CastId(body.subjectId.value)
        case None => AssignError
        case Some(sid) =>
          match FindSubject(s.subjects, sid)
          case None => Assigned(None)
          case Some(t) => Assigned(Some(t.(teacher := Some(u.id))))
  }

  /** The store after a decision: only an assignment that found its subject writes. */
  function ApplyAssign(s: Store, o: AssignOutcome): Store
  {
    if o.Assigned? && o.subject.Some? && o.subject.value.teacher.Some?
    then s.(subjects := SetTeacher(s.subjects, o.subject.value.id, o.subject.value.teacher.value))
    else s
  }

  /** Runs the decision against the database (lines 11-20). */
  method AssignTeacher(db: Database, body: AssignBody) returns (o: AssignOutcome)
    requires db.Valid()
    modifies db
    ensures o == AssignDecision(old(db.Snapshot()), body)
    ensures db.Snapshot() == ApplyAssign(old(db.Snapshot()), o)
    ensures db.Valid()
  {
    var teacher := LookupTeacher(db.users, body.teacherId);
    if teacher.CastFailed? {
      return AssignError;
    }
    if teacher.NotFound? || teacher.user.role != Teacher {
      return InvalidTeacher;
    }
    if body.subjectId.None? {
      return Assigned(None);
    }
    var sid := CastId(body.subjectId.value);
    if sid.None? {
      return AssignError;
    }
    var t := FindSubject(db.subjects, sid.value);
    if t.None? {
      return Assigned(None);
    }
    o := Assigned(Some(t.value.(teacher := Some(teacher.user.id))));
    AssignKeepsStoreValid(old(db.Snapshot()), body);
    db.subjects := SetTeacher(db.subjects, sid.value, teacher.user.id);
  }

  // ---------------------------------------------------------------------
  // Properties of the assignment
  // ---------------------------------------------------------------------

  /**
   * 400 exactly when the teacher id names no user or a user who is not a
   * teacher; a refusal, an error or an unknown subject changes nothing.
   */
  lemma RefusalChangesNothing(s: Store, body: AssignBody)
    ensures AssignDecision(s, body) == InvalidTeacher <==>
      body.teacherId.None? ||
      (CastId(body.teacherId.value).Some? &&
       (FindUser(s.users, CastId(body.teacherId.value).value).None? ||
        FindUser(s.users, CastId(body.teacherId.value).value).value.role != Teacher))
    ensures var o := AssignDecision(s, body);
      !(o.Assigned? && o.subject.Some?) ==> ApplyAssign(s, o) == s
    ensures AssignDecision(s, body).Assigned? && body.subjectId.Some? && CastId(body.subjectId.value).Some? ==>
      (AssignDecision(s, body).subject.None? <==> FindSubject(s.subjects, CastId(body.subjectId.value).value).None?)
  {
  }

  /**
   * A successful assignment sets the teacher of the named subject and of no
   * other, and changes no other field or collection.
   */
  lemma AssignTouchesOnlyTheSubject(s: Store, body: AssignBody)
    requires SubjectsValid(s.subjects)
    requires AssignDecision(s, body).Assigned? && AssignDecision(s, body).subject.Some?
    ensures var s' := ApplyAssign(s, AssignDecision(s, body));
      var sid := CastId(body.subjectId.value).value;
      var tid := CastId(body.teacherId.value).value;
      s'.users == s.users && s'.classes == s.classes && s'.attendance == s.attendance &&
      |s'.subjects| == |s.subjects| &&
      forall i :: 0 <= i < |s.subjects| ==>
        s'.subjects[i] == if s.subjects[i].id == sid then s.subjects[i].(teacher := Some(tid)) else s.subjects[i]
  {
  }

  /** Ids are untouched, so the subject invariants and the unique keys survive. */
  lemma AssignKeepsStoreValid(s: Store, body: AssignBody)
    requires ValidStore(s)
    ensures ValidStore(ApplyAssign(s, AssignDecision(s, body)))
  {
    var o := AssignDecision(s, body);
    if o.Assigned? && o.subject.Some? {
      var r := ApplyAssign(s, o).subjects;
      var sid := o.subject.value.id;
      var k := FindFirst(s.subjects, HasId(sid)).value;
      assert forall i :: 0 <= i < |r| ==> r[i].name == s.subjects[i].name && r[i].course == s.subjects[i].course;
    }
  }

  /** Repeating the same assignment leaves the store as after the first. */
  lemma AssignIsIdempotent(s: Store, body: AssignBody)
    requires SubjectsValid(s.subjects)
    ensures var s' := ApplyAssign(s, AssignDecision(s, body));
      ApplyAssign(s', AssignDecision(s', body)) == s'
  {
    var o := AssignDecision(s, body);
    if o.Assigned? && o.subject.Some? {
      var s' := ApplyAssign(s, o);
      var sid := o.subject.value.id;
      var k := FindFirst(s.subjects, HasId(sid)).value;
      assert FindFirst(s'.subjects, HasId(sid)) == Some(k);
      assert s'.subjects[k := s'.subjects[k].(teacher := o.subject.value.teacher)] == s'.subjects;
    }
  }

  /**
   * Once a teacher is assigned a subject, that teacher passes the ownership
   * check of class creation for it: the request is neither refused as
   * another teacher's (403) nor as an unknown subject (404).
   */
  lemma AssignedTeacherMaySchedule(s: Store, body: AssignBody, req: Classes.CreateBody, newId: Id)
    requires SubjectsValid(s.subjects)
    requires AssignDecision(s, body).Assigned? && AssignDecision(s, body).subject.Some?
    requires req.subject == body.subjectId
    ensures var s' := ApplyAssign(s, AssignDecision(s, body));
      var o := Classes.CreateDecision(s', CastId(body.teacherId.value).value, req, newId);
      o != Classes.NotAssigned && o != Classes.SubjectNotFound
  {
    var o := AssignDecision(s, body);
    var s' := ApplyAssign(s, o);
    var sid := o.subject.value.id;
    var k := FindFirst(s.subjects, HasId(sid)).value;
    assert FindFirst(s'.subjects, HasId(sid)) == Some(k);
    assert FindSubject(s'.subjects, sid) == Some(s'.subjects[k]);
  }

  // ---------------------------------------------------------------------
  // getSubjects (lines 27-34) and getTeachers (lines 36-44)
  // ---------------------------------------------------------------------

  /** The fields `populate('teacher', 'name email')` keeps of the teacher. */
  datatype TeacherRef = TeacherRef(id: Id, name: string, email: string)

  datatype SubjectView = SubjectView(id: Id, name: string, semester: int, course: string, teacher: Option<TeacherRef>)

  /** A subject with its teacher populated; an id that names no user populates to null. */
  function PopulateTeacher(users: seq<User>): Subject -> SubjectView
  {
    (t: Subject) =>
      var ref := if t.teacher.None? then None
        else match FindUser(users, t.teacher.value)
          case None => None
          case Some(u) => Some(TeacherRef(u.id, u.name, u.email));
      SubjectView(t.id, t.name, t.semester, t.course, ref)
  }

  /** `Subject.find().populate('teacher', 'name email')`: every subject, in order. */
  function SubjectsWithTeachers(s: Store): (r: seq<SubjectView>)
    ensures |r| == |s.subjects|
    ensures forall i :: 0 <= i < |r| ==>
      r[i].id == s.subjects[i].id && r[i].name == s.subjects[i].name &&
      (r[i].teacher.Some? <==> s.subjects[i].teacher.Some? && FindUser(s.users, s.subjects[i].teacher.value).Some?) &&
      (r[i].teacher.Some? ==>
        r[i].teacher.value.id == s.subjects[i].teacher.value &&
        TeacherRef(r[i].teacher.value.id, r[i].teacher.value.name, r[i].teacher.value.email) in
          Map(s.users, (u: User) => TeacherRef(u.id, u.name, u.email)))
  {
    var r := Map(s.subjects, PopulateTeacher(s.users));
    forall i | 0 <= i < |r| && r[i].teacher.Some?
      ensures TeacherRef(r[i].teacher.value.id, r[i].teacher.value.name, r[i].teacher.value.email) in
        Map(s.users, (u: User) => TeacherRef(u.id, u.name, u.email))
    {
      var u := FindUser(s.users, s.subjects[i].teacher.value).value;
      var j :| 0 <= j < |s.users| && s.users[j] == u;
      assert Map(s.users, (u: User) => TeacherRef(u.id, u.name, u.email))[j] == TeacherRef(u.id, u.name, u.email);
    }
    r
  }

  /** A user as `select('-password -faceDescriptor')` returns it. */
  datatype UserView = UserView(id: Id, name: string, email: string, role: Role, course: Option<string>, semester: Option<int>)

  function Public(u: User): UserView
  {
    UserView(u.id, u.name, u.email, u.role, u.course, u.semester)
  }

  function IsTeacher(u: User): bool
  {
    u.role == Teacher
  }

  /** `User.find({ role: 'teacher' }).select('-password -faceDescriptor')`. */
  function Teachers(users: seq<User>): (r: seq<UserView>)
    ensures |r| == Count(users, IsTeacher)
    ensures forall v :: v in r ==> v.role == Teacher
    ensures forall u :: u in users && u.role == Teacher ==> Public(u) in r
  {
    var r := Map(Filter(users, IsTeacher), Public);
    forall u | u in users && u.role == Teacher ensures Public(u) in r {
      var f := Filter(users, IsTeacher);
      var j :| 0 <= j < |f| && f[j] == u;
      assert r[j] == Public(u);
    }
    r
  }

  /**
   * The listing does not depend on passwords or descriptors: two user
   * collections that differ only in those fields list the same teachers.
   */
  lemma {:induction false} TeachersHideSecrets(a: seq<User>, b: seq<User>)
    requires |a| == |b|
    requires forall i :: 0 <= i < |a| ==> a[i].(password := b[i].password, faceDescriptor := b[i].faceDescriptor) == b[i]
    ensures Teachers(a) == Teachers(b)
  {
    forall i | 0 <= i < |a| ensures Public(a[i]) == Public(b[i]) {
      assert a[i].(password := b[i].password, faceDescriptor := b[i].faceDescriptor) == b[i];
    }
    FilterPublic(a, b);
  }

  lemma {:induction false} FilterPublic(a: seq<User>, b: seq<User>)
    requires |a| == |b|
    requires forall i :: 0 <= i < |a| ==> Public(a[i]) == Public(b[i])
    ensures Map(Filter(a, IsTeacher), Public) == Map(Filter(b, IsTeacher), Public)
  {
    if a != [] {
      assert Public(a[0]) == Public(b[0]);
      FilterPublic(a[1..], b[1..]);
      var fa, fb := Filter(a[1..], IsTeacher), Filter(b[1..], IsTeacher);
      if IsTeacher(a[0]) {
        assert Filter(a, IsTeacher) == [a[0]] + fa;
        assert Filter(b, IsTeacher) == [b[0]] + fb;
        MapCons(a[0], fa, Public);
        MapCons(b[0], fb, Public);
      } else {
        assert Filter(a, IsTeacher) == fa;
        assert Filter(b, IsTeacher) == fb;
      }
    }
  }

  lemma MapCons<T, U>(x: T, xs: seq<T>, f: T -> U)
    ensures Map([x] + xs, f) == [f(x)] + Map(xs, f)
  {
  }
}
