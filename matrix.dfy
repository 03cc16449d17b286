/**
 * `getTeacherStudentsAttendance` (backend/controllers/attendanceController.js:389-475):
 * for one course, semester and subject name of the calling teacher, one row
 * per student of that cohort holding the student's status in each selected
 * class, keyed by "date start-end", with the number of classes attended and
 * a percentage. The classes are all of them (`overall=true`) or those of one
 * month and year.
 */
module Matrix {
  import opened Options
  import opened Strings
  import opened Seqs
  import opened JsDate
  import opened Models
  import opened Reports
  import opened Analytics

  /** The query string; every parameter may be missing. */
  datatype MatrixQuery = MatrixQuery(
    course: Option<string>,
    semester: Option<string>,
    subject: Option<string>,
    month: Option<string>,
    year: Option<string>,
    overall: Option<string>)

  /** `overall === "true"`: any other value, or none, asks for the monthly view. */
  predicate Overall(q: MatrixQuery)
  {
    q.overall == Some("true")
  }

  /** `classDate.getMonth() + 1 === parseInt(month) && classDate.getFullYear() === parseInt(year)`. */
  predicate InMonth(c: ClassSession, month: string, year: string)
  {
    match YearMonth(c.date)
    case None => false
    case Some((y, m)) => ParseInt(month) == Some(m) && ParseInt(year) == Some(y)
  }

  function InMonthOf(month: string, year: string): ClassSession -> bool
  {
    (c: ClassSession) => InMonth(c, month, year)
  }

  /** `Class.find({ teacher, course, semester })` followed by the filter on the subject's name. */
  function SubjectClasses(s: Store, teacher: Id, course: string, semester: int, subject: string): (r: seq<ClassSession>)
    ensures forall c :: c in r <==>
      c in s.classes && c.teacher == teacher && c.course == course && c.semester == semester && SubjectNameOf(s, c) == Some(subject)
  {
    var taught := Filter(s.classes, (c: ClassSession) => c.teacher == teacher && c.course == course && c.semester == semester);
    Filter(taught, (c: ClassSession) => SubjectNameOf(s, c) == Some(subject))
  }

  /** The key of a class in a row's `attendance` object. */
  function SlotKey(c: ClassSession): string
  {
    c.date + " " + c.startTime + "-" + c.endTime
  }

  /** `record ? record.status : "absent"` for the first record of the student in the class. */
  function CellStatus(s: Store, student: Id, c: ClassSession): Status
  {
    match FindRecord(s.attendance, student, c.id)
    case None => Absent
    case Some(i) => s.attendance[i].status
  }

  function PresentFor(s: Store, student: Id): ClassSession -> bool
  {
    (c: ClassSession) => CellStatus(s, student, c) == Present
  }

  /** The status of the last class of `classes` with slot key `k`: a later assignment to the key wins. */
  function LastStatus(s: Store, student: Id, classes: seq<ClassSession>, k: string): Status
  {
    if classes == [] then Absent
    else if SlotKey(classes[|classes| - 1]) == k then CellStatus(s, student, classes[|classes| - 1])
    else LastStatus(s, student, classes[..|classes| - 1], k)
  }

  /**
   * Reference definition of a row's `attendance` object: its keys are the
   * distinct slot keys in order of first appearance (the insertion order
   * of a JavaScript object's string keys), each holding the status of the
   * last class with that key.
   */
  function Entries(s: Store, student: Id, classes: seq<ClassSession>): (e: seq<(string, Status)>)
    ensures |e| == |Dedup(Map(classes, SlotKey))|
    ensures forall i :: 0 <= i < |e| ==> e[i].0 == Dedup(Map(classes, SlotKey))[i]
  {
    var keys := Dedup(Map(classes, SlotKey));
    seq(|keys|, i requires 0 <= i < |keys| => (keys[i], LastStatus(s, student, classes, keys[i])))
  }

  /** The position of key `k` in an object's entries. */
  function KeyIndex(obj: seq<(string, Status)>, k: string): (r: Option<nat>)
    ensures r.Some? ==> r.value < |obj| && obj[r.value].0 == k
    ensures r.None? ==> forall i :: 0 <= i < |obj| ==> obj[i].0 != k
  {
    FindFirst(obj, (e: (string, Status)) => e.0 == k)
  }

  /** `obj[k] = v`: an existing key keeps its place and takes the new value, a new key goes last. */
  function Assign(obj: seq<(string, Status)>, k: string, v: Status): seq<(string, Status)>
  {
    match KeyIndex(obj, k)
    case None => obj + [(k, v)]
    case Some(i) => obj[i := (k, v)]
  }

  /** The number of selected classes in which the student is present. */
  function PresentCount(s: Store, student: Id, classes: seq<ClassSession>): (n: nat)
    ensures n <= |classes|
  {
    Count(classes, PresentFor(s, student))
  }

  /** One element of `attendanceMatrix`. */
  datatype MatrixRow = MatrixRow(
    student: StudentSummary,
    attendance: seq<(string, Status)>,
    totalClasses: nat,
    presentCount: nat,
    percentage: real)

  function RowFor(s: Store, classes: seq<ClassSession>, u: User): MatrixRow
  {
    var present := PresentCount(s, u.id, classes);
    MatrixRow(Summary(u), Entries(s, u.id, classes), |classes|, present, Percentage(present, |classes|))
  }

  function RowOf(s: Store, classes: seq<ClassSession>): User -> MatrixRow
  {
    (u: User) => RowFor(s, classes, u)
  }

  datatype MatrixOutcome =
    | MatrixMissingQuery             // 400 "Course, semester, and subject required"
    | MatrixMissingMonth             // 400 "Month and year required for monthly view"
    | MatrixCastError                // 500: the semester does not cast to a number
    | Matrix(rows: seq<MatrixRow>)   // 200

  /** The classes the rows are built from, once the query has passed its checks. */
  function MatrixClasses(s: Store, teacher: Id, q: MatrixQuery, semester: int): seq<ClassSession>
    requires Given(q.course) && Given(q.subject)
    requires !Overall(q) ==> Given(q.month) && Given(q.year)
  {
    var chosen := SubjectClasses(s, teacher, q.course.value, semester, q.subject.value);
    if Overall(q) then chosen else Filter(chosen, InMonthOf(q.month.value, q.year.value))
  }

  /** Reference definition of the endpoint. */
  function TeacherStudentsAttendance(s: Store, teacher: Id, q: MatrixQuery): (o: MatrixOutcome)
    ensures o.MatrixMissingQuery? <==> !Given(q.course) || !Given(q.semester) || !Given(q.subject)
    ensures o.MatrixCastError? <==>
      Given(q.course) && Given(q.semester) && Given(q.subject) && NumberOf(q.semester.value).None?
    ensures o.MatrixMissingMonth? <==>
      Given(q.course) && Given(q.semester) && Given(q.subject) && NumberOf(q.semester.value).Some? &&
      !Overall(q) && (!Given(q.month) || !Given(q.year))
  {
    if !Given(q.course) || !Given(q.semester) || !Given(q.subject) then MatrixMissingQuery
    else match NumberOf(q.semester.value)
      case None => MatrixCastError
      case Some(sem) =>
        if !Overall(q) && (!Given(q.month) || !Given(q.year)) then MatrixMissingMonth
        else
          var classes := MatrixClasses(s, teacher, q, sem);
          if classes == [] then Matrix([])
          else Matrix(Map(Cohort(s.users, q.course.value, sem), RowOf(s, classes)))
  }

  // ---------------------------------------------------------------------
  // The loops of lines 436-469
  // ---------------------------------------------------------------------

  lemma {:induction false} LastStatusLast(s: Store, student: Id, xs: seq<ClassSession>, c: ClassSession, k: string)
    ensures LastStatus(s, student, xs + [c], k) ==
      if SlotKey(c) == k then CellStatus(s, student, c) else LastStatus(s, student, xs, k)
  {
    assert (xs + [c])[..|xs + [c]| - 1] == xs;
  }

  /** A class with a new slot key adds an entry at the end. */
  lemma {:induction false} EntriesStepFresh(s: Store, student: Id, xs: seq<ClassSession>, c: ClassSession)
    requires SlotKey(c) !in Dedup(Map(xs, SlotKey))
    ensures Entries(s, student, xs + [c]) == Entries(s, student, xs) + [(SlotKey(c), CellStatus(s, student, c))]
  {
    MapLast(xs, c, SlotKey);
    DedupLast(Map(xs, SlotKey), SlotKey(c));
    var e' := Entries(s, student, xs + [c]);
    var expected := Entries(s, student, xs) + [(SlotKey(c), CellStatus(s, student, c))];
    forall i | 0 <= i < |e'| ensures e'[i] == expected[i] {
      FreshEntryAt(s, student, xs, c, i);
    }
    assert e' == expected;
  }

  lemma FreshEntryAt(s: Store, student: Id, xs: seq<ClassSession>, c: ClassSession, i: nat)
    requires Dedup(Map(xs + [c], SlotKey)) == Dedup(Map(xs, SlotKey)) + [SlotKey(c)]
    requires SlotKey(c) !in Dedup(Map(xs, SlotKey))
    requires i <= |Dedup(Map(xs, SlotKey))|
    ensures Entries(s, student, xs + [c])[i] == (Entries(s, student, xs) + [(SlotKey(c), CellStatus(s, student, c))])[i]
  {
    var d := Dedup(Map(xs, SlotKey));
    var keys := d + [SlotKey(c)];
    LastStatusLast(s, student, xs, c, keys[i]);
    if i < |d| {
      assert keys[i] == d[i] != SlotKey(c);
    }
  }

  /** A class with a slot key already present overwrites that entry's status in place. */
  lemma {:induction false} EntriesStepSeen(s: Store, student: Id, xs: seq<ClassSession>, c: ClassSession, j: nat)
    requires j < |Dedup(Map(xs, SlotKey))| && Dedup(Map(xs, SlotKey))[j] == SlotKey(c)
    ensures Entries(s, student, xs + [c]) == Entries(s, student, xs)[j := (SlotKey(c), CellStatus(s, student, c))]
  {
    MapLast(xs, c, SlotKey);
    DedupLast(Map(xs, SlotKey), SlotKey(c));
    var e' := Entries(s, student, xs + [c]);
    var expected := Entries(s, student, xs)[j := (SlotKey(c), CellStatus(s, student, c))];
    forall i | 0 <= i < |e'| ensures e'[i] == expected[i] {
      SeenEntryAt(s, student, xs, c, j, i);
    }
    assert e' == expected;
  }

  lemma SeenEntryAt(s: Store, student: Id, xs: seq<ClassSession>, c: ClassSession, j: nat, i: nat)
    requires Dedup(Map(xs + [c], SlotKey)) == Dedup(Map(xs, SlotKey))
    requires j < |Dedup(Map(xs, SlotKey))| && Dedup(Map(xs, SlotKey))[j] == SlotKey(c)
    requires i < |Dedup(Map(xs, SlotKey))|
    ensures Entries(s, student, xs + [c])[i] == Entries(s, student, xs)[j := (SlotKey(c), CellStatus(s, student, c))][i]
  {
    var d := Dedup(Map(xs, SlotKey));
    LastStatusLast(s, student, xs, c, d[i]);
    if i != j {
      assert d[i] != d[j];
    }
  }

  lemma NoClassNoEntry(s: Store, student: Id)
    ensures Entries(s, student, []) == []
  {
    assert Map([], SlotKey) == [];
  }

  /** One pass of the inner loop: `attendance[dateTimeKey] = status`. */
  lemma EntriesStep(s: Store, student: Id, xs: seq<ClassSession>, c: ClassSession)
    ensures Entries(s, student, xs + [c]) == Assign(Entries(s, student, xs), SlotKey(c), CellStatus(s, student, c))
  {
    match KeyIndex(Entries(s, student, xs), SlotKey(c))
    case None => EntriesStepFresh(s, student, xs, c);
    case Some(j) => EntriesStepSeen(s, student, xs, c, j);
  }

  /** One pass of the inner loop, stated on prefixes of the class list. */
  lemma RowStep(s: Store, student: Id, classes: seq<ClassSession>, j: nat)
    requires j < |classes|
    ensures Entries(s, student, classes[..j + 1]) ==
      Assign(Entries(s, student, classes[..j]), SlotKey(classes[j]), CellStatus(s, student, classes[j]))
    ensures PresentCount(s, student, classes[..j + 1]) ==
      PresentCount(s, student, classes[..j]) + if CellStatus(s, student, classes[j]) == Present then 1 else 0
  {
    assert classes[..j + 1] == classes[..j] + [classes[j]];
    EntriesStep(s, student, classes[..j], classes[j]);
    CountLast(classes[..j], classes[j], PresentFor(s, student));
  }

  /** Lines 437-460 for one student: the inner loop over the classes, then the totals. */
  method BuildRow(s: Store, classes: seq<ClassSession>, u: User) returns (row: MatrixRow)
    ensures row == RowFor(s, classes, u)
  {
    var attendance: seq<(string, Status)> := [];
    var presentCount := 0;
    var j := 0;
    assert classes[..0] == [];
    NoClassNoEntry(s, u.id);
    while j < |classes|
      invariant 0 <= j <= |classes|
      invariant attendance == Entries(s, u.id, classes[..j])
      invariant presentCount == PresentCount(s, u.id, classes[..j])
    {
      var c := classes[j];
      var record := FindRecord(s.attendance, u.id, c.id);
      var status := if record.Some? then s.attendance[record.value].status else Absent;
      assert status == CellStatus(s, u.id, c);
      var key := SlotKey(c);
      RowStep(s, u.id, classes, j);
      attendance := Assign(attendance, key, status);
      if status == Present {
        presentCount := presentCount + 1;
      }
      j := j + 1;
    }
    assert classes[..j] == classes;
    row := MatrixRow(Summary(u), attendance, |classes|, presentCount, Percentage(presentCount, |classes|));
  }

  /** Lines 393-475: the checks, the class selection, then one row per student of the cohort. */
  method ComputeTeacherStudentsAttendance(s: Store, teacher: Id, q: MatrixQuery) returns (o: MatrixOutcome)
    ensures o == TeacherStudentsAttendance(s, teacher, q)
  {
    if q.course.None? || q.course.value == "" || q.semester.None? || q.semester.value == "" ||
       q.subject.None? || q.subject.value == "" {
      return MatrixMissingQuery;
    }
    var sem := NumberOf(q.semester.value);
    if sem.None? {
      return MatrixCastError;
    }
    if !Overall(q) && (q.month.None? || q.month.value == "" || q.year.None? || q.year.value == "") {
      return MatrixMissingMonth;
    }
    var classes := MatrixClasses(s, teacher, q, sem.value);
    if |classes| == 0 {
      return Matrix([]);
    }
    var rows := BuildRows(s, classes, Cohort(s.users, q.course.value, sem.value));
    o := Matrix(rows);
  }

  /** Lines 436-469: the outer loop, one row per student. */
  method BuildRows(s: Store, classes: seq<ClassSession>, students: seq<User>) returns (rows: seq<MatrixRow>)
    ensures rows == Map(students, RowOf(s, classes))
  {
    rows := [];
    var i := 0;
    while i < |students|
      invariant 0 <= i <= |students|
      invariant rows == Map(students[..i], RowOf(s, classes))
    {
      var row := BuildRow(s, classes, students[i]);
      MapLast(students[..i], students[i], RowOf(s, classes));
      assert students[..i + 1] == students[..i] + [students[i]];
      rows := rows + [row];
      i := i + 1;
    }
    assert students[..i] == students;
  }

  // ---------------------------------------------------------------------
  // Properties
  // ---------------------------------------------------------------------

  /**
   * A cell reads present exactly when the student's record for that class
   * says present; a missing record counts as absent.
   */
  lemma CellReadsTheRecord(s: Store, student: Id, c: ClassSession)
    requires UniqueKeys(s.attendance)
    ensures CellStatus(s, student, c) == Present <==>
      exists i :: 0 <= i < |s.attendance| && HasKey(s.attendance[i], student, c.id) && s.attendance[i].status == Present
    ensures FindRecord(s.attendance, student, c.id).None? ==> CellStatus(s, student, c) == Absent
  {
    if exists i :: 0 <= i < |s.attendance| && HasKey(s.attendance[i], student, c.id) && s.attendance[i].status == Present {
      var i :| 0 <= i < |s.attendance| && HasKey(s.attendance[i], student, c.id) && s.attendance[i].status == Present;
      FoundRecordIsOnly(s.attendance, student, c.id, i);
    }
  }

  /** The keys of a row's object are distinct and are exactly the slot keys of the classes. */
  lemma EntryKeysAreSlots(s: Store, student: Id, classes: seq<ClassSession>)
    ensures var e := Entries(s, student, classes);
      (forall i, j :: 0 <= i < j < |e| ==> e[i].0 != e[j].0) &&
      (forall i :: 0 <= i < |e| ==> exists c :: c in classes && SlotKey(c) == e[i].0) &&
      (forall c :: c in classes ==> exists i :: 0 <= i < |e| && e[i].0 == SlotKey(c))
  {
    var e := Entries(s, student, classes);
    var keys := Map(classes, SlotKey);
    var d := Dedup(keys);
    forall i | 0 <= i < |e| ensures exists c :: c in classes && SlotKey(c) == e[i].0 {
      assert d[i] in keys;
      var k :| 0 <= k < |classes| && keys[k] == d[i];
      assert classes[k] in classes;
    }
    forall c | c in classes ensures exists i :: 0 <= i < |e| && e[i].0 == SlotKey(c) {
      var k :| 0 <= k < |classes| && classes[k] == c;
      assert keys[k] == SlotKey(c);
      var i := IndexOf(d, SlotKey(c));
      assert e[i].0 == SlotKey(c);
    }
  }

  function Cell(s: Store, student: Id): ClassSession -> (string, Status)
  {
    (c: ClassSession) => (SlotKey(c), CellStatus(s, student, c))
  }

  /**
   * When no two selected classes share a date and times, nothing is
   * overwritten: the object has one entry per class, in class order.
   */
  lemma {:induction false} DistinctSlotsKeepEveryClass(s: Store, student: Id, classes: seq<ClassSession>)
    requires Distinct(Map(classes, SlotKey))
    ensures Entries(s, student, classes) == Map(classes, Cell(s, student))
  {
    if classes != [] {
      var xs := classes[..|classes| - 1];
      var c := classes[|classes| - 1];
      assert classes == xs + [c];
      MapLast(xs, c, SlotKey);
      MapLast(xs, c, Cell(s, student));
      var keys := Map(xs, SlotKey);
      assert Map(classes, SlotKey) == keys + [SlotKey(c)];
      assert Distinct(keys) by {
        forall i, j | 0 <= i < j < |keys| ensures keys[i] != keys[j] {
          assert keys[i] == Map(classes, SlotKey)[i] && keys[j] == Map(classes, SlotKey)[j];
        }
      }
      assert SlotKey(c) !in Dedup(keys) by {
        forall i | 0 <= i < |keys| ensures keys[i] != SlotKey(c) {
          assert Map(classes, SlotKey)[i] == keys[i];
          assert Map(classes, SlotKey)[|xs|] == SlotKey(c);
        }
      }
      DistinctSlotsKeepEveryClass(s, student, xs);
      EntriesStepFresh(s, student, xs, c);
    }
  }

  /** Every row counts at most as many presences as classes, so its percentage lies in 0..100. */
  lemma RowIsBounded(s: Store, classes: seq<ClassSession>, u: User)
    ensures var row := RowFor(s, classes, u);
      row.presentCount <= row.totalClasses && 0.0 <= row.percentage <= 100.0
  {
    PercentageAtMostHundred(PresentCount(s, u.id, classes), |classes|);
  }

  /**
   * The rows of a successful answer: none when no class is selected,
   * otherwise one per student of the course and semester, in their order,
   * each over the same selected classes.
   */
  lemma RowsFollowTheCohort(s: Store, teacher: Id, q: MatrixQuery)
    requires TeacherStudentsAttendance(s, teacher, q).Matrix?
    ensures var o := TeacherStudentsAttendance(s, teacher, q);
      var sem := NumberOf(q.semester.value).value;
      var cohort := Cohort(s.users, q.course.value, sem);
      var classes := MatrixClasses(s, teacher, q, sem);
      (classes == [] ==> o.rows == []) &&
      (classes != [] ==>
        |o.rows| == |cohort| &&
        forall i :: 0 <= i < |o.rows| ==> o.rows[i].student == Summary(cohort[i]) && o.rows[i].totalClasses == |classes|)
  {
  }

  /** The selected classes are the teacher's classes of the subject, restricted to the month unless `overall`. */
  lemma SelectedClasses(s: Store, teacher: Id, q: MatrixQuery, semester: int, c: ClassSession)
    requires Given(q.course) && Given(q.subject)
    requires !Overall(q) ==> Given(q.month) && Given(q.year)
    ensures c in MatrixClasses(s, teacher, q, semester) <==>
      c in s.classes && c.teacher == teacher && c.course == q.course.value && c.semester == semester &&
      SubjectNameOf(s, c) == q.subject && (Overall(q) || InMonth(c, q.month.value, q.year.value))
  {
  }

  /** With `overall=true` the month and year parameters play no part. */
  lemma OverallIgnoresMonth(s: Store, teacher: Id, q: MatrixQuery, month: Option<string>, year: Option<string>)
    requires Overall(q)
    ensures TeacherStudentsAttendance(s, teacher, q.(month := month, year := year)) == TeacherStudentsAttendance(s, teacher, q)
  {
  }
}
