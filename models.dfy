/**
 * The four collections of the attendance backend (the schemas under backend/models) and
 * the invariants their schemas and unique indexes keep. Every collection is a
 * sequence in natural (insertion) order, because the controllers read them in
 * that order: the first matching face, the first record `find` returns, the
 * key order of an object built while scanning.
 */
module Models {
  import opened Options
  import opened Strings
  import opened Seqs

  datatype Role = Student | Teacher | Admin

  /**
   * A user. `course` and `semester` are optional (only students carry them);
   * `faceDescriptor` is an array of numbers whose length the schema leaves
   * open, and an array path defaults to the empty array.
   */
  datatype User = User(
    id: Id,
    name: string,
    email: string,
    password: string,
    role: Role,
    course: Option<string>,
    semester: Option<int>,
    faceDescriptor: seq<real>)

  /** A subject; `teacher` is unset until an administrator assigns one. */
  datatype Subject = Subject(
    id: Id,
    name: string,
    semester: int,
    course: string,
    teacher: Option<Id>)

  /** One scheduled class: a "YYYY-MM-DD" date, "HH:mm" times and a location. */
  datatype ClassSession = ClassSession(
    id: Id,
    subject: Id,
    teacher: Id,
    date: string,
    startTime: string,
    endTime: string,
    semester: int,
    course: string,
    latitude: real,
    longitude: real)

  /** The status enum of an attendance record: "present" or "absent" only. */
  datatype Status = Present | Absent

  /** One attendance record; `timestamp` is the instant it was created, in milliseconds. */
  datatype AttendanceRecord = AttendanceRecord(
    student: Id,
    classId: Id,
    status: Status,
    timestamp: int)

  datatype Store = Store(
    users: seq<User>,
    subjects: seq<Subject>,
    classes: seq<ClassSession>,
    attendance: seq<AttendanceRecord>)

  /** No two users share an id or an email; required strings are non-empty. */
  predicate UsersValid(users: seq<User>)
  {
    (forall i, j :: 0 <= i < j < |users| ==> users[i].id != users[j].id && users[i].email != users[j].email) &&
    (forall i :: 0 <= i < |users| ==> users[i].name != "" && users[i].email != "" && users[i].password != "")
  }

  predicate SubjectsValid(subjects: seq<Subject>)
  {
    (forall i, j :: 0 <= i < j < |subjects| ==> subjects[i].id != subjects[j].id) &&
    (forall i :: 0 <= i < |subjects| ==> subjects[i].name != "" && subjects[i].course != "")
  }

  predicate ClassValid(c: ClassSession)
  {
    c.date != "" && c.startTime != "" && c.endTime != "" && c.course != ""
  }

  predicate ClassesValid(classes: seq<ClassSession>)
  {
    (forall i, j :: 0 <= i < j < |classes| ==> classes[i].id != classes[j].id) &&
    (forall i :: 0 <= i < |classes| ==> ClassValid(classes[i]))
  }

  /** The unique index on (student, class): at most one record per pair. */
  predicate UniqueKeys(records: seq<AttendanceRecord>)
  {
    forall i, j :: 0 <= i < j < |records| ==>
      records[i].student != records[j].student || records[i].classId != records[j].classId
  }

  predicate ValidStore(s: Store)
  {
    UsersValid(s.users) && SubjectsValid(s.subjects) && ClassesValid(s.classes) && UniqueKeys(s.attendance)
  }

  /** `User.findById(id)`. */
  function FindUser(users: seq<User>, id: Id): (r: Option<User>)
    ensures r.Some? ==> r.value in users && r.value.id == id
    ensures r.None? ==> forall u :: u in users ==> u.id != id
  {
    match FindFirst(users, (u: User) => u.id == id)
    case None => None
    case Some(k) => Some(users[k])
  }

  /** `Class.findById(id)`. */
  function FindClass(classes: seq<ClassSession>, id: Id): (r: Option<ClassSession>)
    ensures r.Some? ==> r.value in classes && r.value.id == id
    ensures r.None? ==> forall c :: c in classes ==> c.id != id
  {
    match FindFirst(classes, (c: ClassSession) => c.id == id)
    case None => None
    case Some(k) => Some(classes[k])
  }

  /** `Subject.findById(id)`. */
  function FindSubject(subjects: seq<Subject>, id: Id): (r: Option<Subject>)
    ensures r.Some? ==> r.value in subjects && r.value.id == id
    ensures r.None? ==> forall t :: t in subjects ==> t.id != id
  {
    match FindFirst(subjects, (t: Subject) => t.id == id)
    case None => None
    case Some(k) => Some(subjects[k])
  }

  predicate HasKey(r: AttendanceRecord, student: Id, classId: Id)
  {
    r.student == student && r.classId == classId
  }

  /** `Attendance.findOne({ student, class })`, as a position in the collection. */
  function FindRecord(records: seq<AttendanceRecord>, student: Id, classId: Id): (r: Option<nat>)
    ensures r.Some? ==> r.value < |records| && HasKey(records[r.value], student, classId)
    ensures r.None? ==> forall i :: 0 <= i < |records| ==> !HasKey(records[i], student, classId)
  {
    FindFirst(records, (a: AttendanceRecord) => HasKey(a, student, classId))
  }

  /** `findOne` returns the first record with the key. */
  lemma FindRecordAt(records: seq<AttendanceRecord>, student: Id, classId: Id, i: nat)
    requires i < |records| && HasKey(records[i], student, classId)
    requires forall j :: 0 <= j < i ==> !HasKey(records[j], student, classId)
    ensures FindRecord(records, student, classId) == Some(i)
  {
  }

  /** Under the unique index the record found is the only one with its key. */
  lemma FoundRecordIsOnly(records: seq<AttendanceRecord>, student: Id, classId: Id, i: nat)
    requires UniqueKeys(records)
    requires i < |records| && HasKey(records[i], student, classId)
    ensures FindRecord(records, student, classId) == Some(i)
  {
  }

  /** Appending a record whose key is not yet present keeps the index unique. */
  lemma {:induction false} AppendKeepsKeysUnique(records: seq<AttendanceRecord>, r: AttendanceRecord)
    requires UniqueKeys(records)
    requires FindRecord(records, r.student, r.classId).None?
    ensures UniqueKeys(records + [r])
  {
    var rs := records + [r];
    forall i, j | 0 <= i < j < |rs|
      ensures rs[i].student != rs[j].student || rs[i].classId != rs[j].classId
    {
      if j == |records| {
        assert !HasKey(records[i], r.student, r.classId);
      }
    }
  }

  /**
   * The collections as the backend holds them: each method of a controller
   * reads and writes these sequences in place.
   */
  class Database {
    var users: seq<User>
    var subjects: seq<Subject>
    var classes: seq<ClassSession>
    var attendance: seq<AttendanceRecord>

    function Snapshot(): Store
      reads this
    {
      Store(users, subjects, classes, attendance)
    }

    predicate Valid()
      reads this
    {
      ValidStore(Snapshot())
    }

    constructor (s: Store)
      requires ValidStore(s)
      ensures Snapshot() == s
      ensures Valid()
    {
      users := s.users;
      subjects := s.subjects;
      classes := s.classes;
      attendance := s.attendance;
    }
  }
}
