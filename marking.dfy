/**
 * `markAttendance` (backend/controllers/attendanceController.js:14-113): a
 * fixed chain of guards ending in one insert. The decision is the function
 * `MarkDecision`; the method `MarkAttendance` runs the candidate scan as a
 * loop and writes the record into the database.
 */
module Marking {
  import opened Options
  import opened Strings
  import opened Seqs
  import opened JsDate
  import opened Face
  import opened Models

  /** The fixed geofence radius, in metres. */
  const AttendanceRadius: nat := 50

  datatype Point = Point(latitude: real, longitude: real)

  /**
   * `geolib.isPointWithinRadius(point, center, radius)`: a geodesic test on
   * floating point numbers, supplied by the caller of the model.
   */
  type Geofence = (Point, Point, nat) -> bool

  /**
   * The request body. `None` is a missing field; the descriptor, once
   * present, is an array of numbers (an empty array is still truthy).
   */
  datatype MarkBody = MarkBody(
    faceDescriptor: Option<seq<real>>,
    latitude: Option<real>,
    longitude: Option<real>,
    classId: Option<string>)

  datatype MarkOutcome =
    | IncompleteData      // 400 "Incomplete data provided"
    | Unauthorized        // 403 "Unauthorized"
    | FaceNotRecognized   // 401 "Face not recognized"
    | NotSelf             // 403 "You cannot mark for others"
    | ServerError         // 500: the class id does not cast to an ObjectId
    | ClassNotFound       // 400 "Class not found"
    | OutOfRange          // 403 "You are not within allowed location range"
    | WrongCohort         // 403 "This class is not available for your semester/course"
    | ClassNotActive      // 400 "Class is not active currently"
    | AlreadyMarked       // 400 "Attendance already marked for this class"
    | Marked(record: AttendanceRecord)  // 200 "Attendance marked successfully"

  function HttpStatus(o: MarkOutcome): (code: int)
    ensures code == 200 <==> o.Marked?
    ensures o.FaceNotRecognized? <==> code == 401
  {
    match o
    case IncompleteData => 400
    case Unauthorized => 403
    case FaceNotRecognized => 401
    case NotSelf => 403
    case ServerError => 500
    case ClassNotFound => 400
    case OutOfRange => 403
    case WrongCohort => 403
    case ClassNotActive => 400
    case AlreadyMarked => 400
    case Marked(_) => 200
  }

  /** JavaScript truthiness of the four body fields: 0, "" and a missing field are falsy. */
  predicate Complete(body: MarkBody)
  {
    body.faceDescriptor.Some? &&
    body.latitude.Some? && body.latitude.value != 0.0 &&
    body.longitude.Some? && body.longitude.value != 0.0 &&
    body.classId.Some? && body.classId.value != ""
  }

  /** Users with role "student" in the caller's course and semester, in natural order. */
  function CandidatePool(users: seq<User>, me: User): (r: seq<User>)
    ensures forall u :: u in r <==> u in users && u.role == Student && u.course == me.course && u.semester == me.semester
  {
    Filter(users, CohortOf(me))
  }

  function CohortOf(me: User): User -> bool
  {
    (u: User) => u.role == Student && u.course == me.course && u.semester == me.semester
  }

  /** `euclideanDistance(probe, u.faceDescriptor) < FACE_MATCH_THRESHOLD`. */
  predicate Matches(probe: seq<real>, u: User)
  {
    IsMatch(Some(probe), Some(u.faceDescriptor))
  }

  /** The position of the FIRST candidate under the threshold; not the nearest one. */
  function FirstMatch(pool: seq<User>, probe: seq<real>): (r: Option<nat>)
    ensures r.Some? ==> r.value < |pool| && Matches(probe, pool[r.value])
    ensures r.Some? ==> forall j :: 0 <= j < r.value ==> !Matches(probe, pool[j])
    ensures r.None? <==> forall j :: 0 <= j < |pool| ==> !Matches(probe, pool[j])
  {
    FindFirst(pool, MatchesProbe(probe))
  }

  function MatchesProbe(probe: seq<real>): User -> bool
  {
    (u: User) => Matches(probe, u)
  }

  /** The scan of lines 38-46: walk the pool and stop at the first match. */
  method ScanForMatch(pool: seq<User>, probe: seq<real>) returns (matched: Option<User>)
    ensures matched.None? <==> FirstMatch(pool, probe).None?
    ensures matched.Some? ==> matched.value == pool[FirstMatch(pool, probe).value]
  {
    matched := None;
    var i := 0;
    while i < |pool|
      invariant 0 <= i <= |pool|
      invariant matched.None?
      invariant forall j :: 0 <= j < i ==> !Matches(probe, pool[j])
    {
      if Matches(probe, pool[i]) {
        FirstMatchIsUnique(pool, probe, i);
        matched := Some(pool[i]);
        break;
      }
      i := i + 1;
    }
  }

  lemma FirstMatchIsUnique(pool: seq<User>, probe: seq<real>, i: nat)
    requires i < |pool| && Matches(probe, pool[i])
    requires forall j :: 0 <= j < i ==> !Matches(probe, pool[j])
    ensures FirstMatch(pool, probe) == Some(i)
  {
    var r := FirstMatch(pool, probe);
    assert r.Some?;
  }

  /**
   * The class window, lines 79-90: `now < start || now > end` rejects. An
   * unreadable date or time gives an Invalid Date, against which every
   * comparison is false, so that side never rejects.
   */
  predicate InWindow(c: ClassSession, now: int)
  {
    var start := At(c.date, c.startTime);
    var end := At(c.date, c.endTime);
    !(start.Some? && now < start.value) && !(end.Some? && now > end.value)
  }

  /** The position, in the chain of guards, of the guard that gives an outcome. */
  function Phase(o: MarkOutcome): nat
  {
    match o
    case IncompleteData => 0
    case Unauthorized => 1
    case FaceNotRecognized => 2
    case NotSelf => 3
    case ServerError => 4
    case ClassNotFound => 5
    case OutOfRange => 6
    case WrongCohort => 7
    case ClassNotActive => 8
    case AlreadyMarked => 9
    case Marked(_) => 10
  }

  /**
   * The guard chain of lines 18-109, in the source's order: lines 18-29 here,
   * the rest in three phases. A mark is for the caller, present, now, for the
   * class the body names, and only when no record for the pair existed.
   */
  function MarkDecision(s: Store, caller: Id, body: MarkBody, now: int, near: Geofence): (o: MarkOutcome)
    ensures o.Marked? ==> (Complete(body) && o.record == AttendanceRecord(caller, o.record.classId, Present, now) &&
      CastId(body.classId.value) == Some(o.record.classId) && FindRecord(s.attendance, caller, o.record.classId).None?)
  {
    if !Complete(body) then IncompleteData
    else match FindUser(s.users, caller)
      case None => Unauthorized
      case Some(me) =>
        if me.role != Student then Unauthorized
        else Identify(s, caller, body, now, near, me)
  }

  /** Lines 31-52: the face scan over the caller's cohort must pick the caller. */
  function Identify(s: Store, caller: Id, body: MarkBody, now: int, near: Geofence, me: User): (o: MarkOutcome)
    requires Complete(body)
    ensures Phase(o) >= 2
    ensures o.Marked? ==> (o.record == AttendanceRecord(caller, o.record.classId, Present, now) &&
      CastId(body.classId.value) == Some(o.record.classId) && FindRecord(s.attendance, caller, o.record.classId).None?)
  {
    var pool := CandidatePool(s.users, me);
    match FirstMatch(pool, body.faceDescriptor.value)
    case None => FaceNotRecognized
    case Some(k) =>
      if pool[k].id != caller then NotSelf
      else LocateClass(s, caller, body, now, near, me)
  }

  /** Lines 54-56: `Class.findById(classId)`; an id that is no ObjectId throws, and the catch answers 500. */
  function LocateClass(s: Store, caller: Id, body: MarkBody, now: int, near: Geofence, me: User): (o: MarkOutcome)
    requires Complete(body)
    ensures Phase(o) >= 4
    ensures o.Marked? ==> (o.record == AttendanceRecord(caller, o.record.classId, Present, now) &&
      CastId(body.classId.value) == Some(o.record.classId) && FindRecord(s.attendance, caller, o.record.classId).None?)
  {
    match CastId(body.classId.value)
    case None => ServerError
    case Some(cid) =>
      match FindClass(s.classes, cid)
      case None => ClassNotFound
      case Some(c) => CheckClass(s, caller, body, now, near, me, c)
  }

  /** Lines 58-109: the checks on the class found, then the new record. */
  function CheckClass(s: Store, caller: Id, body: MarkBody, now: int, near: Geofence, me: User, c: ClassSession): (o: MarkOutcome)
    requires Complete(body)
    ensures Phase(o) >= 6
    ensures o.Marked? ==> o.record == AttendanceRecord(caller, c.id, Present, now) && FindRecord(s.attendance, caller, c.id).None?
  {
    if !near(Point(body.latitude.value, body.longitude.value), Point(c.latitude, c.longitude), AttendanceRadius)
    then OutOfRange
    else if Some(c.semester) != me.semester || Some(c.course) != me.course then WrongCohort
    else if !InWindow(c, now) then ClassNotActive
    else if FindRecord(s.attendance, caller, c.id).Some? then AlreadyMarked
    else Marked(AttendanceRecord(caller, c.id, Present, now))
  }

  /** The store after a decision: a successful one appends its record, any other leaves it as it was. */
  function Apply(s: Store, o: MarkOutcome): Store
  {
    if o.Marked? then s.(attendance := s.attendance + [o.record]) else s
  }

  /**
   * Runs the decision against the database, scanning the candidate pool with
   * a loop; only a successful decision writes, and it writes one record.
   */
  method MarkAttendance(db: Database, caller: Id, body: MarkBody, now: int, near: Geofence) returns (o: MarkOutcome)
    requires db.Valid()
    modifies db
    ensures o == MarkDecision(old(db.Snapshot()), caller, body, now, near)
    ensures db.Snapshot() == Apply(old(db.Snapshot()), o)
    ensures db.Valid()
  {
    if !Complete(body) {
      return IncompleteData;
    }
    ghost var s := db.Snapshot();
    var me := FindUser(db.users, caller);
    if me.None? || me.value.role != Student {
      return Unauthorized;
    }
    assert MarkDecision(s, caller, body, now, near) == Identify(s, caller, body, now, near, me.value);
    var pool := CandidatePool(db.users, me.value);
    var matched := ScanForMatch(pool, body.faceDescriptor.value);
    if matched.None? {
      return FaceNotRecognized;
    }
    if matched.value.id != caller {
      return NotSelf;
    }
    assert Identify(s, caller, body, now, near, me.value) == LocateClass(s, caller, body, now, near, me.value);
    var cid := CastId(body.classId.value);
    if cid.None? {
      return ServerError;
    }
    var c := FindClass(db.classes, cid.value);
    if c.None? {
      return ClassNotFound;
    }
    var cls := c.value;
    assert LocateClass(s, caller, body, now, near, me.value) == CheckClass(s, caller, body, now, near, me.value, cls);
    if !near(Point(body.latitude.value, body.longitude.value), Point(cls.latitude, cls.longitude), AttendanceRadius) {
      return OutOfRange;
    }
    if Some(cls.semester) != me.value.semester || Some(cls.course) != me.value.course {
      return WrongCohort;
    }
    if !InWindow(cls, now) {
      return ClassNotActive;
    }
    if FindRecord(db.attendance, caller, cls.id).Some? {
      return AlreadyMarked;
    }
    var record := AttendanceRecord(caller, cls.id, Present, now);
    AppendKeepsKeysUnique(db.attendance, record);
    db.attendance := db.attendance + [record];
    o := Marked(record);
  }

  // ---------------------------------------------------------------------
  // Properties of the decision
  // ---------------------------------------------------------------------

  /**
   * The scan of lines 38-46 stops at the user stored at position i of the
   * collection: that user matches the probe, and no student of its cohort
   * stored before it does.
   */
  predicate ScanPicks(users: seq<User>, i: nat, probe: seq<real>)
    requires i < |users|
  {
    Matches(probe, users[i]) &&
    forall j :: 0 <= j < i && CohortOf(users[i])(users[j]) ==> !Matches(probe, users[j])
  }

  /** The caller's own document sits at position i and is a student's (lines 23-29). */
  predicate CallerAt(s: Store, caller: Id, i: nat)
  {
    i < |s.users| && s.users[i].id == caller && s.users[i].role == Student
  }

  /** The first four guards pass: the data is complete and the scan picks the caller (lines 18-52). */
  predicate Recognised(s: Store, caller: Id, body: MarkBody, i: nat)
  {
    Complete(body) && CallerAt(s, caller, i) && ScanPicks(s.users, i, body.faceDescriptor.value)
  }

  /** The body's class id casts to an ObjectId that names the class c (lines 54-56). */
  predicate NamesClass(s: Store, body: MarkBody, c: ClassSession)
  {
    Complete(body) && CastId(body.classId.value).Some? && FindClass(s.classes, CastId(body.classId.value).value) == Some(c)
  }

  /** The body's position lies within the radius of the class (lines 58-67). */
  predicate Nearby(body: MarkBody, c: ClassSession, near: Geofence)
  {
    Complete(body) && near(Point(body.latitude.value, body.longitude.value), Point(c.latitude, c.longitude), AttendanceRadius)
  }

  /** The class is for the student's semester and course (lines 70-77). */
  predicate ClassInCohort(me: User, c: ClassSession)
  {
    me.semester == Some(c.semester) && me.course == Some(c.course)
  }

  /** Every guard of lines 18-100 passes, for the caller stored at position i and the class c. */
  predicate GuardsPass(s: Store, caller: Id, body: MarkBody, now: int, near: Geofence, i: nat, c: ClassSession)
  {
    Recognised(s, caller, body, i) && NamesClass(s, body, c) && Nearby(body, c, near) &&
    ClassInCohort(s.users[i], c) && InWindow(c, now) && FindRecord(s.attendance, caller, c.id).None?
  }

  /** Under unique ids, the user a lookup by id finds is the one stored at position i. */
  lemma FoundUserAt(users: seq<User>, i: nat)
    requires UsersValid(users) && i < |users|
    ensures FindUser(users, users[i].id) == Some(users[i])
  {
    var u := FindUser(users, users[i].id);
    assert users[i] in users;
    SameIdSameUser(users, u.value, users[i]);
  }

  /**
   * The pool's first match is the student stored at position i exactly when
   * the scan picks that student: a match of the same cohort stored earlier
   * is found first.
   */
  lemma PickedIsCaller(users: seq<User>, i: nat, probe: seq<real>)
    requires UsersValid(users) && i < |users| && users[i].role == Student
    ensures var pool := CandidatePool(users, users[i]);
      (FirstMatch(pool, probe).Some? && pool[FirstMatch(pool, probe).value].id == users[i].id) <==> ScanPicks(users, i, probe)
  {
    var me := users[i];
    var pool := CandidatePool(users, me);
    var k := FirstMatch(pool, probe);
    if k.Some? && pool[k.value].id == me.id {
      assert pool[k.value] in pool;
      SameIdSameUser(users, pool[k.value], me);
      forall j | 0 <= j < i && CohortOf(me)(users[j])
        ensures !Matches(probe, users[j])
      {
        if Matches(probe, users[j]) {
          MatchedBeforeCaller(users, me, probe, j, i);
          assert false;
        }
      }
    }
    if ScanPicks(users, i, probe) {
      var m := FirstInFilterComesEarly(users, CohortOf(me), MatchesProbe(probe), i);
      assert pool[k.value] == users[m];
      assert pool[k.value] in pool;
      assert m == i;
    }
  }

  /** The pool has a match exactly when some student of the cohort matches the probe. */
  lemma PoolMatchIffCohortMatch(users: seq<User>, me: User, probe: seq<real>)
    ensures FirstMatch(CandidatePool(users, me), probe).Some? <==>
      exists u :: u in users && CohortOf(me)(u) && Matches(probe, u)
  {
    var pool := CandidatePool(users, me);
    var k := FirstMatch(pool, probe);
    if k.Some? {
      assert pool[k.value] in pool;
      assert pool[k.value] in users && CohortOf(me)(pool[k.value]) && Matches(probe, pool[k.value]);
    } else {
      forall u | u in users && CohortOf(me)(u)
        ensures !Matches(probe, u)
      {
        assert u in pool;
        var j :| 0 <= j < |pool| && pool[j] == u;
      }
    }
  }

  /** The face phase answers 401 without a match and 403 when the first match is someone else. */
  lemma IdentifyRefusals(s: Store, caller: Id, body: MarkBody, now: int, near: Geofence, me: User)
    requires Complete(body)
    ensures var pool := CandidatePool(s.users, me);
      var k := FirstMatch(pool, body.faceDescriptor.value);
      (Identify(s, caller, body, now, near, me) == FaceNotRecognized <==> k.None?) &&
      (Identify(s, caller, body, now, near, me) == NotSelf <==> k.Some? && pool[k.value].id != caller)
  {
  }

  /** The lookup phase answers 500 for an id that does not cast and 400 for an id that names no class. */
  lemma LocateRefusals(s: Store, caller: Id, body: MarkBody, now: int, near: Geofence, me: User)
    requires Complete(body)
    ensures var cid := CastId(body.classId.value);
      (LocateClass(s, caller, body, now, near, me) == ServerError <==> cid.None?) &&
      (LocateClass(s, caller, body, now, near, me) == ClassNotFound <==> cid.Some? && FindClass(s.classes, cid.value).None?)
  {
  }

  /** With complete data and a student caller stored at position i, the decision is the face scan's. */
  lemma StudentStage(s: Store, caller: Id, body: MarkBody, now: int, near: Geofence, i: nat)
    requires UsersValid(s.users) && Complete(body) && CallerAt(s, caller, i)
    ensures MarkDecision(s, caller, body, now, near) == Identify(s, caller, body, now, near, s.users[i])
  {
    FoundUserAt(s.users, i);
  }

  /** Once the scan picks the caller, the decision is the class lookup's. */
  lemma ScanStage(s: Store, caller: Id, body: MarkBody, now: int, near: Geofence, i: nat)
    requires UsersValid(s.users) && Recognised(s, caller, body, i)
    ensures MarkDecision(s, caller, body, now, near) == LocateClass(s, caller, body, now, near, s.users[i])
  {
    StudentStage(s, caller, body, now, near, i);
    PickedIsCaller(s.users, i, body.faceDescriptor.value);
  }

  /** Once the body names the class c, the decision is that of the checks on c. */
  lemma ClassStage(s: Store, caller: Id, body: MarkBody, now: int, near: Geofence, i: nat, c: ClassSession)
    requires UsersValid(s.users) && Recognised(s, caller, body, i) && NamesClass(s, body, c)
    ensures MarkDecision(s, caller, body, now, near) == CheckClass(s, caller, body, now, near, s.users[i], c)
  {
    ScanStage(s, caller, body, now, near, i);
  }

  /** Lines 18-20: 400 exactly when a body field is missing or falsy. */
  lemma IncompleteIffFalsyField(s: Store, caller: Id, body: MarkBody, now: int, near: Geofence)
    ensures MarkDecision(s, caller, body, now, near) == IncompleteData <==> !Complete(body)
  {
  }

  /** Lines 23-29: with complete data, 403 exactly when no student has the caller's id. */
  lemma UnauthorizedIffNoStudent(s: Store, caller: Id, body: MarkBody, now: int, near: Geofence)
    requires UsersValid(s.users) && Complete(body)
    ensures MarkDecision(s, caller, body, now, near) == Unauthorized <==>
      forall u :: u in s.users && u.id == caller ==> u.role != Student
  {
    var me := FindUser(s.users, caller);
    if me.Some? {
      forall u | u in s.users && u.id == caller
        ensures u == me.value
      {
        SameIdSameUser(s.users, u, me.value);
      }
    }
  }

  /** Lines 31-49: for a student caller, 401 exactly when no student of the caller's cohort matches the probe. */
  lemma FaceNotRecognizedIffNoCohortMatch(s: Store, caller: Id, body: MarkBody, now: int, near: Geofence, i: nat)
    requires UsersValid(s.users) && Complete(body) && CallerAt(s, caller, i)
    ensures MarkDecision(s, caller, body, now, near) == FaceNotRecognized <==>
      forall u :: u in s.users && CohortOf(s.users[i])(u) ==> !Matches(body.faceDescriptor.value, u)
  {
    StudentStage(s, caller, body, now, near, i);
    IdentifyRefusals(s, caller, body, now, near, s.users[i]);
    PoolMatchIffCohortMatch(s.users, s.users[i], body.faceDescriptor.value);
  }


  /**
   * Lines 48-52: for a student caller, 403 "You cannot mark for others"
   * exactly when some student of the cohort matches but the scan does not
   * pick the caller.
   */
  lemma NotSelfIffScanPicksAnother(s: Store, caller: Id, body: MarkBody, now: int, near: Geofence, i: nat)
    requires UsersValid(s.users) && Complete(body) && CallerAt(s, caller, i)
    ensures MarkDecision(s, caller, body, now, near) == NotSelf <==>
      (exists u :: u in s.users && CohortOf(s.users[i])(u) && Matches(body.faceDescriptor.value, u)) &&
      !ScanPicks(s.users, i, body.faceDescriptor.value)
  {
    StudentStage(s, caller, body, now, near, i);
    IdentifyRefusals(s, caller, body, now, near, s.users[i]);
    PoolMatchIffCohortMatch(s.users, s.users[i], body.faceDescriptor.value);
    PickedIsCaller(s.users, i, body.faceDescriptor.value);
  }


  /** Lines 54-56: once the caller is recognised, a class id that is no ObjectId fails the cast, and the catch answers 500. */
  lemma ServerErrorIffNoObjectId(s: Store, caller: Id, body: MarkBody, now: int, near: Geofence, i: nat)
    requires UsersValid(s.users) && Recognised(s, caller, body, i)
    ensures MarkDecision(s, caller, body, now, near) == ServerError <==> CastId(body.classId.value).None?
  {
    ScanStage(s, caller, body, now, near, i);
    LocateRefusals(s, caller, body, now, near, s.users[i]);
  }


  /** Lines 54-56: once the caller is recognised, 400 exactly when the cast id names no class. */
  lemma ClassNotFoundIffNoClass(s: Store, caller: Id, body: MarkBody, now: int, near: Geofence, i: nat)
    requires UsersValid(s.users) && Recognised(s, caller, body, i)
    ensures MarkDecision(s, caller, body, now, near) == ClassNotFound <==>
      CastId(body.classId.value).Some? && forall c :: c in s.classes ==> c.id != CastId(body.classId.value).value
  {
    ScanStage(s, caller, body, now, near, i);
    LocateRefusals(s, caller, body, now, near, s.users[i]);
  }


  /** Lines 58-67: once the class is found, 403 exactly when the body's position is outside the radius. */
  lemma OutOfRangeIffFar(s: Store, caller: Id, body: MarkBody, now: int, near: Geofence, i: nat, c: ClassSession)
    requires UsersValid(s.users) && Recognised(s, caller, body, i) && NamesClass(s, body, c)
    ensures MarkDecision(s, caller, body, now, near) == OutOfRange <==> !Nearby(body, c, near)
  {
    ClassStage(s, caller, body, now, near, i, c);
  }

  /** Lines 70-77: once in range, 403 exactly when the class is for another semester or course. */
  lemma WrongCohortIffOtherCohort(s: Store, caller: Id, body: MarkBody, now: int, near: Geofence, i: nat, c: ClassSession)
    requires UsersValid(s.users) && Recognised(s, caller, body, i) && NamesClass(s, body, c) && Nearby(body, c, near)
    ensures MarkDecision(s, caller, body, now, near) == WrongCohort <==> !ClassInCohort(s.users[i], c)
  {
    ClassStage(s, caller, body, now, near, i, c);
  }

  /** Lines 79-90: once the cohort agrees, 400 exactly when now lies outside the class window. */
  lemma NotActiveIffOutsideWindow(s: Store, caller: Id, body: MarkBody, now: int, near: Geofence, i: nat, c: ClassSession)
    requires UsersValid(s.users) && Recognised(s, caller, body, i) && NamesClass(s, body, c) && Nearby(body, c, near)
    requires ClassInCohort(s.users[i], c)
    ensures MarkDecision(s, caller, body, now, near) == ClassNotActive <==> !InWindow(c, now)
  {
    ClassStage(s, caller, body, now, near, i, c);
  }

  /** Lines 92-100: inside the window, 400 exactly when a record for the caller and the class exists. */
  lemma AlreadyMarkedIffRecordExists(s: Store, caller: Id, body: MarkBody, now: int, near: Geofence, i: nat, c: ClassSession)
    requires UsersValid(s.users) && Recognised(s, caller, body, i) && NamesClass(s, body, c) && Nearby(body, c, near)
    requires ClassInCohort(s.users[i], c) && InWindow(c, now)
    ensures MarkDecision(s, caller, body, now, near) == AlreadyMarked <==>
      exists k :: 0 <= k < |s.attendance| && HasKey(s.attendance[k], caller, c.id)
  {
    ClassStage(s, caller, body, now, near, i, c);
  }

  /** Lines 102-109: when every guard passes, the caller is marked present for the class, now. */
  lemma GuardsPassMeansMarked(s: Store, caller: Id, body: MarkBody, now: int, near: Geofence, i: nat, c: ClassSession)
    requires UsersValid(s.users) && GuardsPass(s, caller, body, now, near, i, c)
    ensures MarkDecision(s, caller, body, now, near) == Marked(AttendanceRecord(caller, c.id, Present, now))
  {
    ClassStage(s, caller, body, now, near, i, c);
  }

  /**
   * A successful decision means every guard passed: the caller is a student
   * whom the scan picks, the class exists, is in range and in the caller's
   * cohort, the time is inside the window, and no record for the pair
   * existed. The record is "present", for the caller and that class, stamped now.
   */
  lemma MarkedMeansAllGuardsPassed(s: Store, caller: Id, body: MarkBody, now: int, near: Geofence)
    requires UsersValid(s.users)
    requires MarkDecision(s, caller, body, now, near).Marked?
    ensures var r := MarkDecision(s, caller, body, now, near).record;
      Complete(body) &&
      r.student == caller && r.status == Present && r.timestamp == now &&
      CastId(body.classId.value) == Some(r.classId) &&
      FindRecord(s.attendance, caller, r.classId).None? &&
      exists i, c :: GuardsPass(s, caller, body, now, near, i, c) && c.id == r.classId
  {
    var me := FindUser(s.users, caller).value;
    var i :| 0 <= i < |s.users| && s.users[i] == me;
    PickedIsCaller(s.users, i, body.faceDescriptor.value);
    var c := FindClass(s.classes, CastId(body.classId.value).value).value;
    assert GuardsPass(s, caller, body, now, near, i, c);
  }

  /** A mark happens exactly when every guard passes, for some stored position of the caller and some class. */
  lemma MarkedIffGuardsPass(s: Store, caller: Id, body: MarkBody, now: int, near: Geofence)
    requires UsersValid(s.users)
    ensures MarkDecision(s, caller, body, now, near).Marked? <==>
      exists i, c :: GuardsPass(s, caller, body, now, near, i, c)
  {
    if MarkDecision(s, caller, body, now, near).Marked? {
      MarkedMeansAllGuardsPassed(s, caller, body, now, near);
    }
    if exists i, c :: GuardsPass(s, caller, body, now, near, i, c) {
      var i, c :| GuardsPass(s, caller, body, now, near, i, c);
      GuardsPassMeansMarked(s, caller, body, now, near, i, c);
    }
  }

  /** A latitude or longitude of exactly 0 is falsy and so is refused as incomplete data. */
  lemma ZeroCoordinateIsIncomplete(s: Store, caller: Id, body: MarkBody, now: int, near: Geofence)
    requires body.latitude == Some(0.0) || body.longitude == Some(0.0)
    ensures MarkDecision(s, caller, body, now, near) == IncompleteData
  {
  }

  /**
   * The scan picks the first match, not the nearest: if a different student of
   * the caller's cohort, stored before the caller, also matches the probe,
   * the caller is told they cannot mark for others, however close their own
   * descriptor is.
   */
  lemma {:induction false} EarlierLookalikeBlocksCaller(s: Store, caller: Id, body: MarkBody, now: int, near: Geofence, i: nat, j: nat)
    requires Complete(body) && UsersValid(s.users)
    requires i < j < |s.users|
    requires s.users[j].id == caller && s.users[j].role == Student
    requires s.users[i].role == Student && s.users[i].course == s.users[j].course && s.users[i].semester == s.users[j].semester
    requires Matches(body.faceDescriptor.value, s.users[i])
    ensures MarkDecision(s, caller, body, now, near) == NotSelf
  {
    var me := s.users[j];
    assert FindUser(s.users, caller) == Some(me);
    var pool := CandidatePool(s.users, me);
    assert s.users[i] in pool;
    var k := FirstMatch(pool, body.faceDescriptor.value);
    assert k.Some?;
    var m := pool[k.value];
    MatchedBeforeCaller(s.users, me, body.faceDescriptor.value, i, j);
  }

  /**
   * In the filtered pool the first match comes from no later than position
   * i of the collection, so it is not the caller, who sits at j > i.
   */
  lemma MatchedBeforeCaller(users: seq<User>, me: User, probe: seq<real>, i: nat, j: nat)
    requires UsersValid(users)
    requires i < j < |users| && users[j] == me && me.role == Student
    requires users[i].role == Student && users[i].course == me.course && users[i].semester == me.semester
    requires Matches(probe, users[i])
    ensures var pool := CandidatePool(users, me);
      FirstMatch(pool, probe).Some? && pool[FirstMatch(pool, probe).value].id != me.id
  {
    var m := FirstInFilterComesEarly(users, CohortOf(me), MatchesProbe(probe), i);
    assert m < j;
  }

  /**
   * The window is inclusive at both ends: with a readable date and times the
   * class is active exactly when start <= now <= end.
   */
  lemma WindowIsInclusive(c: ClassSession, now: int)
    requires At(c.date, c.startTime).Some? && At(c.date, c.endTime).Some?
    ensures InWindow(c, now) <==> At(c.date, c.startTime).value <= now <= At(c.date, c.endTime).value
  {
  }

  /** An unreadable class date makes both comparisons false, so the window never rejects. */
  lemma UnreadableDateNeverRejects(c: ClassSession, now: int)
    requires ParseDate(c.date).None?
    ensures InWindow(c, now)
  {
  }

  /** Two users of a valid collection with the same id are the same user. */
  lemma SameIdSameUser(users: seq<User>, u: User, v: User)
    requires UsersValid(users) && u in users && v in users && u.id == v.id
    ensures u == v
  {
    var a :| 0 <= a < |users| && users[a] == u;
    var b :| 0 <= b < |users| && users[b] == v;
  }

  /**
   * Duplicate rejection: once a record exists for the caller and the class
   * named in the body, the decision is never a new mark, so nothing is written.
   */
  lemma RecordedPairIsNeverMarked(s: Store, caller: Id, body: MarkBody, now: int, near: Geofence)
    requires Complete(body) && CastId(body.classId.value).Some?
    requires FindRecord(s.attendance, caller, CastId(body.classId.value).value).Some?
    ensures !MarkDecision(s, caller, body, now, near).Marked?
    ensures Apply(s, MarkDecision(s, caller, body, now, near)) == s
  {
  }

  /**
   * Marking is once only: after a successful mark, the same request from the
   * same caller never produces a second record, at any later instant.
   */
  lemma SecondMarkIsRefused(s: Store, caller: Id, body: MarkBody, now: int, later: int, near: Geofence)
    requires UsersValid(s.users)
    requires MarkDecision(s, caller, body, now, near).Marked?
    ensures var s' := Apply(s, MarkDecision(s, caller, body, now, near));
      !MarkDecision(s', caller, body, later, near).Marked? &&
      Apply(s', MarkDecision(s', caller, body, later, near)) == s'
  {
    var o := MarkDecision(s, caller, body, now, near);
    MarkedMeansAllGuardsPassed(s, caller, body, now, near);
    var s' := Apply(s, o);
    assert s'.attendance[|s.attendance|] == o.record;
    assert FindRecord(s'.attendance, caller, o.record.classId).Some?;
    RecordedPairIsNeverMarked(s', caller, body, later, near);
  }

  /** A decision keeps the store's invariants, the unique (student, class) key included. */
  lemma DecisionKeepsStoreValid(s: Store, caller: Id, body: MarkBody, now: int, near: Geofence)
    requires ValidStore(s)
    ensures ValidStore(Apply(s, MarkDecision(s, caller, body, now, near)))
  {
    var o := MarkDecision(s, caller, body, now, near);
    if o.Marked? {
      MarkedMeansAllGuardsPassed(s, caller, body, now, near);
      AppendKeepsKeysUnique(s.attendance, o.record);
    }
  }
}
