/**
 * The per-subject percentages of backend/controllers/attendanceController.js:
 * a student's own view (`getStudentAnalytics`, lines 138-195) and a
 * teacher's view over their classes (`getTeacherAnalytics`, lines 333-382).
 * Both build a plain object keyed by subject name in a loop; the model keeps
 * the object's own entries as a sequence in creation order, proves each loop
 * against a reference definition made of `Dedup` and `Count`, and lists the
 * entries as `Object.entries` does (`JsObject.EntriesOrder`). A subject named
 * after a member of `Object.prototype` ("constructor", "toString", ...)
 * already reads as truthy: the student view gets no entry for it, and the
 * teacher view fails on `push`.
 */
module Analytics {
  import opened Options
  import opened Strings
  import opened Seqs
  import opened Models
  import opened Reports
  import opened JsObject

  /** `cls.subject?.name || "Unknown"`. */
  function DisplayName(s: Store, c: ClassSession): (n: string)
    ensures n != ""
    ensures n != "Unknown" ==> SubjectNameOf(s, c) == Some(n)
  {
    match SubjectNameOf(s, c)
    case Some(n) => if n != "" then n else "Unknown"
    case None => "Unknown"
  }

  /**
   * `total === 0 ? 0 : (present / total) * 100`, as an exact rational; the
   * rounding of `toFixed(2)` and `Math.round` is not modelled.
   */
  function Percentage(part: nat, whole: nat): (p: real)
    ensures whole == 0 ==> p == 0.0
    ensures whole > 0 ==> p * (whole as real) == (part as real) * 100.0
  {
    if whole == 0 then 0.0 else (part as real * 100.0) / whole as real
  }

  /** A share of at most the whole is at most 100 percent. */
  lemma PercentageAtMostHundred(part: nat, whole: nat)
    requires part <= whole
    ensures 0.0 <= Percentage(part, whole) <= 100.0
  {
    if whole > 0 {
      var p := Percentage(part, whole);
      var w := whole as real;
      assert p * w == part as real * 100.0;
      assert part as real * 100.0 <= w * 100.0;
    }
  }

  datatype SubjectPercentage = SubjectPercentage(subject: string, percentage: real)

  function NameOf(s: Store): ClassSession -> string
  {
    (c: ClassSession) => DisplayName(s, c)
  }

  function ClassNames(s: Store, classes: seq<ClassSession>): seq<string>
  {
    Map(classes, NameOf(s))
  }

  function NamedAs(s: Store, n: string): ClassSession -> bool
  {
    (c: ClassSession) => DisplayName(s, c) == n
  }

  /** A class whose subject name is not one the empty object already answers. */
  function OwnKeyed(s: Store): ClassSession -> bool
  {
    (c: ClassSession) => DisplayName(s, c) !in InheritedNames
  }

  /** The classes that give the dictionary an own entry. */
  function OwnClasses(s: Store, classes: seq<ClassSession>): seq<ClassSession>
  {
    Filter(classes, OwnKeyed(s))
  }

  lemma OwnClassesStep(s: Store, classes: seq<ClassSession>, i: nat)
    requires i < |classes|
    ensures OwnClasses(s, classes[..i + 1]) ==
      OwnClasses(s, classes[..i]) + if OwnKeyed(s)(classes[i]) then [classes[i]] else []
  {
    assert classes[..i + 1] == classes[..i] + [classes[i]];
    FilterAppend(classes[..i], [classes[i]], OwnKeyed(s));
    assert [classes[i]][1..] == [];
  }

  // ---------------------------------------------------------------------
  // getStudentAnalytics
  // ---------------------------------------------------------------------

  /** One entry of `subjectStats`. */
  datatype SubjectTally = SubjectTally(name: string, total: nat, present: nat)

  /** The subject a record counts for: present, and its class still exists. */
  function PresentSubject(s: Store, r: AttendanceRecord): Option<string>
  {
    if r.status != Present then None
    else match FindClass(s.classes, r.classId)
      case None => None
      case Some(c) => Some(DisplayName(s, c))
  }

  function CountsFor(s: Store, n: string): AttendanceRecord -> bool
  {
    (r: AttendanceRecord) => PresentSubject(s, r) == Some(n)
  }

  /**
   * Reference definition of `subjectStats` after both loops, for classes
   * whose names are all own keys: one entry per
   * distinct subject name of `classes`, in order of first appearance, with
   * the number of those classes and the number of `records` marking a class
   * of that subject present.
   */
  function StudentTallies(s: Store, classes: seq<ClassSession>, records: seq<AttendanceRecord>): (t: seq<SubjectTally>)
    ensures |t| == |Dedup(ClassNames(s, classes))|
    ensures forall i :: 0 <= i < |t| ==> t[i].name == Dedup(ClassNames(s, classes))[i]
  {
    var names := Dedup(ClassNames(s, classes));
    seq(|names|, i requires 0 <= i < |names| =>
      SubjectTally(names[i], Count(classes, NamedAs(s, names[i])), Count(records, CountsFor(s, names[i]))))
  }

  /** The entry of `subjectStats` for a name, if there is one. */
  function FindTally(t: seq<SubjectTally>, n: string): (r: Option<nat>)
    ensures r.Some? ==> r.value < |t| && t[r.value].name == n
    ensures r.None? ==> forall i :: 0 <= i < |t| ==> t[i].name != n
  {
    FindFirst(t, (e: SubjectTally) => e.name == n)
  }

  lemma {:induction false} CountLast<T(!new)>(xs: seq<T>, x: T, p: T -> bool)
    ensures Count(xs + [x], p) == Count(xs, p) + (if p(x) then 1 else 0)
  {
    CountAppend(xs, [x], p);
    assert [x][1..] == [];
  }

  /** A name no class of `xs` carries counts no class. */
  lemma AbsentNameCountsNothing(s: Store, xs: seq<ClassSession>, n: string)
    requires n !in ClassNames(s, xs)
    ensures Filter(xs, NamedAs(s, n)) == []
  {
    forall x | x in xs ensures DisplayName(s, x) != n {
      var k :| 0 <= k < |xs| && xs[k] == x;
      assert ClassNames(s, xs)[k] == DisplayName(s, x);
    }
  }

  /** A class whose subject name is new opens an entry counting one class. */
  lemma {:induction false} ClassStepFresh(s: Store, xs: seq<ClassSession>, c: ClassSession)
    requires DisplayName(s, c) !in Dedup(ClassNames(s, xs))
    ensures StudentTallies(s, xs + [c], []) == StudentTallies(s, xs, []) + [SubjectTally(DisplayName(s, c), 1, 0)]
  {
    MapLast(xs, c, NameOf(s));
    DedupLast(ClassNames(s, xs), DisplayName(s, c));
    var t' := StudentTallies(s, xs + [c], []);
    var e := StudentTallies(s, xs, []) + [SubjectTally(DisplayName(s, c), 1, 0)];
    forall i | 0 <= i < |t'| ensures t'[i] == e[i] {
      FreshTallyAt(s, xs, c, i);
    }
    assert t' == e;
  }

  lemma FreshTallyAt(s: Store, xs: seq<ClassSession>, c: ClassSession, i: nat)
    requires DisplayName(s, c) !in Dedup(ClassNames(s, xs))
    requires Dedup(ClassNames(s, xs + [c])) == Dedup(ClassNames(s, xs)) + [DisplayName(s, c)]
    requires i <= |Dedup(ClassNames(s, xs))|
    ensures StudentTallies(s, xs + [c], [])[i] == (StudentTallies(s, xs, []) + [SubjectTally(DisplayName(s, c), 1, 0)])[i]
  {
    var n := DisplayName(s, c);
    var d := Dedup(ClassNames(s, xs));
    var names := d + [n];
    CountLast(xs, c, NamedAs(s, names[i]));
    if i == |d| {
      AbsentNameCountsNothing(s, xs, n);
    } else {
      assert names[i] == d[i] != n;
    }
  }

  /** A class whose subject name is already listed adds one to that entry's total. */
  lemma {:induction false} ClassStepSeen(s: Store, xs: seq<ClassSession>, c: ClassSession, k: nat)
    requires k < |Dedup(ClassNames(s, xs))| && Dedup(ClassNames(s, xs))[k] == DisplayName(s, c)
    ensures var t := StudentTallies(s, xs, []);
      StudentTallies(s, xs + [c], []) == t[k := t[k].(total := t[k].total + 1)]
  {
    MapLast(xs, c, NameOf(s));
    DedupLast(ClassNames(s, xs), DisplayName(s, c));
    var t := StudentTallies(s, xs, []);
    var t' := StudentTallies(s, xs + [c], []);
    var e := t[k := t[k].(total := t[k].total + 1)];
    forall i | 0 <= i < |t'| ensures t'[i] == e[i] {
      SeenTallyAt(s, xs, c, k, i);
    }
    assert t' == e;
  }

  lemma SeenTallyAt(s: Store, xs: seq<ClassSession>, c: ClassSession, k: nat, i: nat)
    requires k < |Dedup(ClassNames(s, xs))| && Dedup(ClassNames(s, xs))[k] == DisplayName(s, c)
    requires Dedup(ClassNames(s, xs + [c])) == Dedup(ClassNames(s, xs))
    requires i < |Dedup(ClassNames(s, xs))|
    ensures var t := StudentTallies(s, xs, []);
      StudentTallies(s, xs + [c], [])[i] == t[k := t[k].(total := t[k].total + 1)][i]
  {
    var d := Dedup(ClassNames(s, xs));
    CountLast(xs, c, NamedAs(s, d[i]));
    if i != k {
      assert d[i] != d[k];
    }
  }

  /** One pass of the first loop (lines 160-166): the class's subject is counted once more. */
  lemma ClassStep(s: Store, xs: seq<ClassSession>, c: ClassSession)
    ensures var t := StudentTallies(s, xs, []);
      var n := DisplayName(s, c);
      StudentTallies(s, xs + [c], []) ==
        match FindTally(t, n)
        case None => t + [SubjectTally(n, 1, 0)]
        case Some(k) => t[k := t[k].(total := t[k].total + 1)]
  {
    var t := StudentTallies(s, xs, []);
    var n := DisplayName(s, c);
    var d := Dedup(ClassNames(s, xs));
    match FindTally(t, n)
    case None =>
      forall i | 0 <= i < |d| ensures d[i] != n {
        assert t[i].name == d[i];
      }
      ClassStepFresh(s, xs, c);
    case Some(k) =>
      assert d[k] == t[k].name == n;
      ClassStepSeen(s, xs, c, k);
  }

  /** One pass of the second loop (lines 169-180): a present record adds one to its subject, if listed. */
  lemma {:induction false} RecordStep(s: Store, classes: seq<ClassSession>, rs: seq<AttendanceRecord>, r: AttendanceRecord)
    ensures var t := StudentTallies(s, classes, rs);
      StudentTallies(s, classes, rs + [r]) ==
        match PresentSubject(s, r)
        case None => t
        case Some(n) =>
          (match FindTally(t, n)
           case None => t
           case Some(k) => t[k := t[k].(present := t[k].present + 1)])
  {
    var t := StudentTallies(s, classes, rs);
    var t' := StudentTallies(s, classes, rs + [r]);
    var e := match PresentSubject(s, r)
      case None => t
      case Some(n) =>
        (match FindTally(t, n)
         case None => t
         case Some(k) => t[k := t[k].(present := t[k].present + 1)]);
    forall i | 0 <= i < |t'| ensures t'[i] == e[i] {
      CountLast(rs, r, CountsFor(s, t[i].name));
    }
    assert t' == e;
  }

  function ToPercentage(t: SubjectTally): SubjectPercentage
  {
    SubjectPercentage(t.name, Percentage(t.present, t.total))
  }

  datatype StudentAnalyticsOutcome = StudentUnauthorized | StudentStats(rows: seq<SubjectPercentage>)

  /** The classes of the student's course and semester. */
  function CohortClasses(s: Store, me: User): seq<ClassSession>
  {
    Filter(s.classes, (c: ClassSession) => me.course == Some(c.course) && me.semester == Some(c.semester))
  }

  /** `Attendance.find({ student })`. */
  function RecordsOf(s: Store, student: Id): seq<AttendanceRecord>
  {
    Filter(s.attendance, (r: AttendanceRecord) => r.student == student)
  }

  function TallyName(t: SubjectTally): string
  {
    t.name
  }

  /**
   * Reference definition of the whole endpoint: 401 for a non-student, else
   * one percentage per own subject entry, in `Object.entries` order.
   */
  function StudentAnalytics(s: Store, caller: Id): StudentAnalyticsOutcome
  {
    match FindUser(s.users, caller)
    case None => StudentUnauthorized
    case Some(me) =>
      if me.role != Student then StudentUnauthorized
      else
        var t := StudentTallies(s, OwnClasses(s, CohortClasses(s, me)), RecordsOf(s, caller));
        StudentStats(Map(EntriesOrder(t, TallyName), ToPercentage))
  }

  /** `subjectStats[name]` is created on first sight, then its `total` goes up by one. */
  function AddClass(t: seq<SubjectTally>, n: string): seq<SubjectTally>
  {
    match FindTally(t, n)
    case None => t + [SubjectTally(n, 1, 0)]
    case Some(k) => t[k := t[k].(total := t[k].total + 1)]
  }

  /**
   * `subjectStats[name].present++`, only when the entry exists. An inherited
   * name passes the truthiness test too, but the increment lands on the
   * prototype's member and no own entry changes: the `None` case here.
   */
  function AddPresent(t: seq<SubjectTally>, n: string): seq<SubjectTally>
  {
    match FindTally(t, n)
    case None => t
    case Some(k) => t[k := t[k].(present := t[k].present + 1)]
  }

  lemma ClassPrefixStep(s: Store, classes: seq<ClassSession>, i: nat)
    requires i < |classes|
    ensures var n := DisplayName(s, classes[i]);
      var before := StudentTallies(s, OwnClasses(s, classes[..i]), []);
      StudentTallies(s, OwnClasses(s, classes[..i + 1]), []) ==
        if n in InheritedNames then before else AddClass(before, n)
  {
    OwnClassesStep(s, classes, i);
    if OwnKeyed(s)(classes[i]) {
      ClassStep(s, OwnClasses(s, classes[..i]), classes[i]);
    } else {
      assert OwnClasses(s, classes[..i]) + [] == OwnClasses(s, classes[..i]);
    }
  }

  lemma RecordPrefixStep(s: Store, classes: seq<ClassSession>, records: seq<AttendanceRecord>, j: nat,
                         before: seq<SubjectTally>, after: seq<SubjectTally>)
    requires j < |records| && before == StudentTallies(s, classes, records[..j])
    requires var r := records[j];
      after == if r.status == Present && FindClass(s.classes, r.classId).Some?
        then AddPresent(before, DisplayName(s, FindClass(s.classes, r.classId).value))
        else before
    ensures after == StudentTallies(s, classes, records[..j + 1])
  {
    assert records[..j + 1] == records[..j] + [records[j]];
    RecordStep(s, classes, records[..j], records[j]);
  }

  /**
   * Lines 160-166: one entry per subject name, counting its classes; an
   * inherited name is already truthy, so its entry is never created.
   */
  method TallyClasses(s: Store, classes: seq<ClassSession>) returns (stats: seq<SubjectTally>)
    ensures stats == StudentTallies(s, OwnClasses(s, classes), [])
  {
    stats := [];
    var i := 0;
    while i < |classes|
      invariant 0 <= i <= |classes|
      invariant stats == StudentTallies(s, OwnClasses(s, classes[..i]), [])
    {
      ClassPrefixStep(s, classes, i);
      var name := DisplayName(s, classes[i]);
      if name !in InheritedNames {
        stats := AddClass(stats, name);
      }
      i := i + 1;
    }
    assert classes[..i] == classes;
  }

  /**
   * Lines 169-180: starting from the first loop's entries for the classes
   * `own`, each present record of a still existing class adds one to its
   * subject's entry.
   */
  method TallyRecords(s: Store, ghost own: seq<ClassSession>, start: seq<SubjectTally>, records: seq<AttendanceRecord>)
    returns (stats: seq<SubjectTally>)
    requires start == StudentTallies(s, own, [])
    ensures stats == StudentTallies(s, own, records)
  {
    stats := start;
    assert records[..0] == [];
    var j := 0;
    while j < |records|
      invariant 0 <= j <= |records|
      invariant stats == StudentTallies(s, own, records[..j])
    {
      var r := records[j];
      ghost var before := stats;
      var c := FindClass(s.classes, r.classId);
      if c.Some? && r.status == Present {
        stats := AddPresent(stats, DisplayName(s, c.value));
      }
      RecordPrefixStep(s, own, records, j, before, stats);
      j := j + 1;
    }
    assert records[..j] == records;
  }

  /**
   * Lines 138-195: the two loops fill `subjectStats`, then each entry, in
   * `Object.entries` order, becomes a percentage.
   */
  method ComputeStudentAnalytics(s: Store, caller: Id) returns (o: StudentAnalyticsOutcome)
    ensures o == StudentAnalytics(s, caller)
  {
    var me := FindUser(s.users, caller);
    if me.None? || me.value.role != Student {
      return StudentUnauthorized;
    }
    var cohort := CohortClasses(s, me.value);
    var stats := TallyClasses(s, cohort);
    stats := TallyRecords(s, OwnClasses(s, cohort), stats, RecordsOf(s, caller));
    o := StudentStats(Map(EntriesOrder(stats, TallyName), ToPercentage));
  }

  function RowSubject(p: SubjectPercentage): string
  {
    p.subject
  }

  lemma TallyRowNamedAsTally()
    ensures forall t :: RowSubject(ToPercentage(t)) == TallyName(t)
  {
  }

  /** The rows listed from some tallies: the tallies' names, numeric names first, ascending. */
  lemma TallyRows(t: seq<SubjectTally>)
    ensures var rows := Map(EntriesOrder(t, TallyName), ToPercentage);
      |rows| == |t| &&
      (forall n :: n in Map(rows, RowSubject) <==> n in Map(t, TallyName)) &&
      (forall i, j :: 0 <= i < j < |rows| && IsArrayIndex(RowSubject(rows[j])) ==>
         IsArrayIndex(RowSubject(rows[i])) && DigitsValue(RowSubject(rows[i])) <= DigitsValue(RowSubject(rows[j])))
  {
    var rows := Map(EntriesOrder(t, TallyName), ToPercentage);
    var image := Map(t, ToPercentage);
    MappedEntriesCover(t, TallyName, ToPercentage);
    TallyRowNamedAsTally();
    MappedEntriesOrder(t, TallyName, ToPercentage, RowSubject);
    forall n | n in Map(rows, RowSubject) ensures n in Map(t, TallyName) {
      var i :| 0 <= i < |rows| && RowSubject(rows[i]) == n;
      assert rows[i] in image;
      var k :| 0 <= k < |t| && image[k] == rows[i];
      assert Map(t, TallyName)[k] == n;
    }
    forall n | n in Map(t, TallyName) ensures n in Map(rows, RowSubject) {
      var k :| 0 <= k < |t| && TallyName(t[k]) == n;
      assert image[k] in rows;
      var i :| 0 <= i < |rows| && rows[i] == image[k];
      assert Map(rows, RowSubject)[i] == n;
    }
  }

  /**
   * The student's listed subjects are exactly the names of their cohort's
   * classes that are not inherited from `Object.prototype`; numeric names
   * come first, ascending.
   */
  lemma StudentRowsAreOwnSubjects(s: Store, caller: Id, me: User)
    requires FindUser(s.users, caller) == Some(me) && me.role == Student
    ensures var rows := StudentAnalytics(s, caller).rows;
      (forall n :: n in Map(rows, RowSubject) <==>
         n !in InheritedNames && n in ClassNames(s, CohortClasses(s, me))) &&
      (forall i, j :: 0 <= i < j < |rows| && IsArrayIndex(rows[j].subject) ==>
         IsArrayIndex(rows[i].subject) && DigitsValue(rows[i].subject) <= DigitsValue(rows[j].subject))
  {
    var cohort := CohortClasses(s, me);
    var own := OwnClasses(s, cohort);
    var t := StudentTallies(s, own, RecordsOf(s, caller));
    var rows := StudentAnalytics(s, caller).rows;
    assert rows == Map(EntriesOrder(t, TallyName), ToPercentage);
    TallyRows(t);
    forall n ensures n in Map(t, TallyName) <==> n !in InheritedNames && n in ClassNames(s, cohort) {
      OwnTallyNames(s, cohort, RecordsOf(s, caller), n);
    }
  }

  /** A name has an entry exactly when some class of the own classes carries it. */
  lemma OwnTallyNames(s: Store, classes: seq<ClassSession>, records: seq<AttendanceRecord>, n: string)
    ensures var t := StudentTallies(s, OwnClasses(s, classes), records);
      n in Map(t, TallyName) <==> n !in InheritedNames && n in ClassNames(s, classes)
  {
    var own := OwnClasses(s, classes);
    var t := StudentTallies(s, own, records);
    assert Map(t, TallyName) == Dedup(ClassNames(s, own));
    MapMembers(own, NameOf(s));
    MapMembers(classes, NameOf(s));
    if n in ClassNames(s, own) {
      var c :| c in own && NameOf(s)(c) == n;
      assert c in classes && OwnKeyed(s)(c);
    }
    if n !in InheritedNames && n in ClassNames(s, classes) {
      var c :| c in classes && NameOf(s)(c) == n;
      assert c in own;
    }
  }

  /**
   * Every listed subject has at least one class, so the zero-denominator
   * branch of the percentage never fires here.
   */
  lemma TallyTotalsArePositive(s: Store, classes: seq<ClassSession>, records: seq<AttendanceRecord>)
    ensures var t := StudentTallies(s, classes, records);
      forall i :: 0 <= i < |t| ==> t[i].total >= 1
  {
    var t := StudentTallies(s, classes, records);
    var names := ClassNames(s, classes);
    forall i | 0 <= i < |t| ensures t[i].total >= 1 {
      var n := t[i].name;
      assert n in names;
      var k :| 0 <= k < |classes| && names[k] == n;
      assert classes[k] in Filter(classes, NamedAs(s, n));
    }
  }

  /** The entries are named after exactly the subjects of the classes, each once. */
  lemma TallyNamesAreSubjects(s: Store, classes: seq<ClassSession>, records: seq<AttendanceRecord>)
    ensures var t := StudentTallies(s, classes, records);
      (forall i, j :: 0 <= i < j < |t| ==> t[i].name != t[j].name) &&
      (forall i :: 0 <= i < |t| ==> exists c :: c in classes && DisplayName(s, c) == t[i].name) &&
      (forall c :: c in classes ==> exists i :: 0 <= i < |t| && t[i].name == DisplayName(s, c))
  {
    var t := StudentTallies(s, classes, records);
    forall i | 0 <= i < |t| ensures exists c :: c in classes && DisplayName(s, c) == t[i].name {
      TallyNameHasClass(s, classes, records, i);
    }
    forall c | c in classes ensures exists i :: 0 <= i < |t| && t[i].name == DisplayName(s, c) {
      ClassHasTally(s, classes, records, c);
    }
  }

  lemma TallyNameHasClass(s: Store, classes: seq<ClassSession>, records: seq<AttendanceRecord>, i: nat)
    requires i < |StudentTallies(s, classes, records)|
    ensures exists c :: c in classes && DisplayName(s, c) == StudentTallies(s, classes, records)[i].name
  {
    var names := ClassNames(s, classes);
    var d := Dedup(names);
    assert d[i] in names;
    var k :| 0 <= k < |classes| && names[k] == d[i];
    assert classes[k] in classes;
  }

  lemma ClassHasTally(s: Store, classes: seq<ClassSession>, records: seq<AttendanceRecord>, c: ClassSession)
    requires c in classes
    ensures var t := StudentTallies(s, classes, records);
      exists i :: 0 <= i < |t| && t[i].name == DisplayName(s, c)
  {
    var t := StudentTallies(s, classes, records);
    var names := ClassNames(s, classes);
    var d := Dedup(names);
    var k :| 0 <= k < |classes| && classes[k] == c;
    assert names[k] == DisplayName(s, c);
    assert DisplayName(s, c) in d;
    var i := IndexOf(d, DisplayName(s, c));
    assert t[i].name == DisplayName(s, c);
  }

  /** Only "present" counts: an absent record leaves every tally as it was. */
  lemma AbsentRecordChangesNothing(s: Store, classes: seq<ClassSession>, rs: seq<AttendanceRecord>, r: AttendanceRecord)
    requires r.status == Absent
    ensures StudentTallies(s, classes, rs + [r]) == StudentTallies(s, classes, rs)
  {
    RecordStep(s, classes, rs, r);
  }

  /**
   * A present record for an existing class of a listed subject adds exactly
   * one to that subject's present count and changes nothing else.
   */
  lemma PresentRecordCountsOnce(s: Store, classes: seq<ClassSession>, rs: seq<AttendanceRecord>, r: AttendanceRecord, k: nat)
    requires r.status == Present && FindClass(s.classes, r.classId).Some?
    requires var t := StudentTallies(s, classes, rs); k < |t| && t[k].name == DisplayName(s, FindClass(s.classes, r.classId).value)
    ensures var t := StudentTallies(s, classes, rs);
      StudentTallies(s, classes, rs + [r]) == t[k := t[k].(present := t[k].present + 1)]
  {
    var t := StudentTallies(s, classes, rs);
    RecordStep(s, classes, rs, r);
    var n := t[k].name;
    var f := FindTally(t, n);
    assert f.Some?;
  }

  // ---------------------------------------------------------------------
  // getTeacherAnalytics
  // ---------------------------------------------------------------------

  /** One entry of `subjectMap`: a subject name and the ids of its classes. */
  datatype SubjectGroup = SubjectGroup(name: string, classIds: seq<Id>)

  function IdOf(c: ClassSession): Id
  {
    c.id
  }

  /** Reference definition of `subjectMap`: the class ids of each subject name, names in first-appearance order. */
  function Groups(s: Store, classes: seq<ClassSession>): (g: seq<SubjectGroup>)
    ensures |g| == |Dedup(ClassNames(s, classes))|
    ensures forall i :: 0 <= i < |g| ==> g[i].name == Dedup(ClassNames(s, classes))[i]
  {
    var names := Dedup(ClassNames(s, classes));
    seq(|names|, i requires 0 <= i < |names| =>
      SubjectGroup(names[i], Map(Filter(classes, NamedAs(s, names[i])), IdOf)))
  }

  function FindGroup(g: seq<SubjectGroup>, n: string): (r: Option<nat>)
    ensures r.Some? ==> r.value < |g| && g[r.value].name == n
    ensures r.None? ==> forall i :: 0 <= i < |g| ==> g[i].name != n
  {
    FindFirst(g, (e: SubjectGroup) => e.name == n)
  }

  lemma {:induction false} MapFilterLast(xs: seq<ClassSession>, c: ClassSession, p: ClassSession -> bool)
    ensures Map(Filter(xs + [c], p), IdOf) == Map(Filter(xs, p), IdOf) + (if p(c) then [c.id] else [])
  {
    FilterAppend(xs, [c], p);
    assert [c][1..] == [];
    assert Filter(xs + [c], p) == Filter(xs, p) + (if p(c) then [c] else []);
  }

  /** A class whose subject name is new opens a group holding its id alone. */
  lemma {:induction false} GroupStepFresh(s: Store, xs: seq<ClassSession>, c: ClassSession)
    requires DisplayName(s, c) !in Dedup(ClassNames(s, xs))
    ensures Groups(s, xs + [c]) == Groups(s, xs) + [SubjectGroup(DisplayName(s, c), [c.id])]
  {
    MapLast(xs, c, NameOf(s));
    DedupLast(ClassNames(s, xs), DisplayName(s, c));
    var g' := Groups(s, xs + [c]);
    var e := Groups(s, xs) + [SubjectGroup(DisplayName(s, c), [c.id])];
    forall i | 0 <= i < |g'| ensures g'[i] == e[i] {
      FreshGroupAt(s, xs, c, i);
    }
    assert g' == e;
  }

  lemma FreshGroupAt(s: Store, xs: seq<ClassSession>, c: ClassSession, i: nat)
    requires DisplayName(s, c) !in Dedup(ClassNames(s, xs))
    requires Dedup(ClassNames(s, xs + [c])) == Dedup(ClassNames(s, xs)) + [DisplayName(s, c)]
    requires i <= |Dedup(ClassNames(s, xs))|
    ensures Groups(s, xs + [c])[i] == (Groups(s, xs) + [SubjectGroup(DisplayName(s, c), [c.id])])[i]
  {
    var n := DisplayName(s, c);
    var d := Dedup(ClassNames(s, xs));
    var names := d + [n];
    MapFilterLast(xs, c, NamedAs(s, names[i]));
    if i == |d| {
      AbsentNameCountsNothing(s, xs, n);
    } else {
      assert names[i] == d[i] != n;
    }
  }

  /** A class whose subject name is already grouped joins the end of that group. */
  lemma {:induction false} GroupStepSeen(s: Store, xs: seq<ClassSession>, c: ClassSession, k: nat)
    requires k < |Dedup(ClassNames(s, xs))| && Dedup(ClassNames(s, xs))[k] == DisplayName(s, c)
    ensures var g := Groups(s, xs);
      Groups(s, xs + [c]) == g[k := g[k].(classIds := g[k].classIds + [c.id])]
  {
    MapLast(xs, c, NameOf(s));
    DedupLast(ClassNames(s, xs), DisplayName(s, c));
    var g := Groups(s, xs);
    var g' := Groups(s, xs + [c]);
    var e := g[k := g[k].(classIds := g[k].classIds + [c.id])];
    forall i | 0 <= i < |g'| ensures g'[i] == e[i] {
      SeenGroupAt(s, xs, c, k, i);
    }
    assert g' == e;
  }

  lemma SeenGroupAt(s: Store, xs: seq<ClassSession>, c: ClassSession, k: nat, i: nat)
    requires k < |Dedup(ClassNames(s, xs))| && Dedup(ClassNames(s, xs))[k] == DisplayName(s, c)
    requires Dedup(ClassNames(s, xs + [c])) == Dedup(ClassNames(s, xs))
    requires i < |Dedup(ClassNames(s, xs))|
    ensures var g := Groups(s, xs);
      Groups(s, xs + [c])[i] == g[k := g[k].(classIds := g[k].classIds + [c.id])][i]
  {
    var d := Dedup(ClassNames(s, xs));
    MapFilterLast(xs, c, NamedAs(s, d[i]));
    if i != k {
      assert d[i] != d[k];
    }
  }

  /** One pass of `classes.forEach` (lines 346-350): the class id joins its subject's list. */
  lemma GroupStep(s: Store, xs: seq<ClassSession>, c: ClassSession)
    ensures var g := Groups(s, xs);
      var n := DisplayName(s, c);
      Groups(s, xs + [c]) ==
        match FindGroup(g, n)
        case None => g + [SubjectGroup(n, [c.id])]
        case Some(k) => g[k := g[k].(classIds := g[k].classIds + [c.id])]
  {
    var g := Groups(s, xs);
    var n := DisplayName(s, c);
    var d := Dedup(ClassNames(s, xs));
    match FindGroup(g, n)
    case None =>
      forall i | 0 <= i < |d| ensures d[i] != n {
        assert g[i].name == d[i];
      }
      GroupStepFresh(s, xs, c);
    case Some(k) =>
      assert d[k] == g[k].name == n;
      GroupStepSeen(s, xs, c, k);
  }

  function InClasses(ids: seq<Id>): AttendanceRecord -> bool
  {
    (r: AttendanceRecord) => r.classId in ids
  }

  function StudentOf(r: AttendanceRecord): Id
  {
    r.student
  }

  function IsPresent(r: AttendanceRecord): bool
  {
    r.status == Present
  }

  /**
   * One subject's figure (lines 356-375): present records of its classes
   * against (distinct students with any record there) × (number of classes).
   */
  function GroupStat(s: Store, g: SubjectGroup): SubjectPercentage
  {
    var records := Filter(s.attendance, InClasses(g.classIds));
    var students: nat := |Dedup(Map(records, StudentOf))|;
    var sessions: nat := |g.classIds|;
    SubjectPercentage(g.name, Percentage(Count(records, IsPresent), students * sessions))
  }

  function TaughtBy(s: Store, teacher: Id): seq<ClassSession>
  {
    Filter(s.classes, (c: ClassSession) => c.teacher == teacher)
  }

  /** 500 from the `catch` block, or the figures. */
  datatype TeacherAnalyticsOutcome = TeacherServerError | TeacherStats(rows: seq<SubjectPercentage>)

  /** Some class is named after a member of `Object.prototype`, which has no `push`. */
  predicate HasInheritedName(s: Store, classes: seq<ClassSession>)
  {
    exists c :: c in classes && DisplayName(s, c) in InheritedNames
  }

  function GroupName(g: SubjectGroup): string
  {
    g.name
  }

  /**
   * Reference definition of the endpoint: nothing for a teacher without
   * classes, 500 when a subject name is inherited, else one figure per
   * subject in `Object.entries` order.
   */
  function TeacherAnalytics(s: Store, teacher: Id): TeacherAnalyticsOutcome
  {
    var classes := TaughtBy(s, teacher);
    if classes == [] then TeacherStats([])
    else if HasInheritedName(s, classes) then TeacherServerError
    else TeacherStats(Map(EntriesOrder(Groups(s, classes), GroupName), StatOf(s)))
  }

  function StatOf(s: Store): SubjectGroup -> SubjectPercentage
  {
    (g: SubjectGroup) => GroupStat(s, g)
  }

  /** The subject's list is created empty on first sight, then the class id is pushed onto it. */
  function AddToGroup(g: seq<SubjectGroup>, n: string, id: Id): seq<SubjectGroup>
  {
    match FindGroup(g, n)
    case None => g + [SubjectGroup(n, [id])]
    case Some(k) => g[k := g[k].(classIds := g[k].classIds + [id])]
  }

  lemma GroupPrefixStep(s: Store, classes: seq<ClassSession>, i: nat)
    requires i < |classes|
    ensures Groups(s, classes[..i + 1]) == AddToGroup(Groups(s, classes[..i]), DisplayName(s, classes[i]), classes[i].id)
  {
    assert classes[..i + 1] == classes[..i] + [classes[i]];
    GroupStep(s, classes[..i], classes[i]);
  }

  /**
   * Lines 346-350: `subjectMap` after the loop over the teacher's classes,
   * or `None` when `subjectMap[name]` is an inherited member and `push` throws.
   */
  method GroupClasses(s: Store, classes: seq<ClassSession>) returns (r: Option<seq<SubjectGroup>>)
    ensures r == if HasInheritedName(s, classes) then None else Some(Groups(s, classes))
  {
    var subjectMap := [];
    var i := 0;
    while i < |classes|
      invariant 0 <= i <= |classes|
      invariant !HasInheritedName(s, classes[..i])
      invariant subjectMap == Groups(s, classes[..i])
    {
      var name := DisplayName(s, classes[i]);
      if name in InheritedNames {
        assert classes[i] in classes;
        return None;
      }
      GroupPrefixStep(s, classes, i);
      assert classes[..i + 1] == classes[..i] + [classes[i]];
      subjectMap := AddToGroup(subjectMap, name, classes[i].id);
      i := i + 1;
    }
    assert classes[..i] == classes;
    return Some(subjectMap);
  }

  /**
   * Lines 333-382: group the classes by subject, then compute the figure of
   * each `Object.entries` entry in a second loop.
   */
  method ComputeTeacherAnalytics(s: Store, teacher: Id) returns (o: TeacherAnalyticsOutcome)
    ensures o == TeacherAnalytics(s, teacher)
  {
    var classes := TaughtBy(s, teacher);
    if |classes| == 0 {
      return TeacherStats([]);
    }
    var subjectMap := GroupClasses(s, classes);
    if subjectMap.None? {
      return TeacherServerError;
    }
    var entries := EntriesOrder(subjectMap.value, GroupName);
    var analytics := [];
    var j := 0;
    while j < |entries|
      invariant 0 <= j <= |entries|
      invariant analytics == Map(entries[..j], StatOf(s))
    {
      MapPrefixStep(entries, StatOf(s), j);
      analytics := analytics + [GroupStat(s, entries[j])];
      j := j + 1;
    }
    assert entries[..j] == entries;
    return TeacherStats(analytics);
  }

  lemma GroupStatNamedAsGroup(s: Store)
    ensures forall g :: RowSubject(StatOf(s)(g)) == GroupName(g)
  {
  }

  /**
   * Without an inherited name, a teacher with classes gets one figure per
   * subject group and nothing else, numeric subject names first, ascending;
   * with one, the answer is 500.
   */
  lemma TeacherRowsFollowEntriesOrder(s: Store, teacher: Id)
    requires TaughtBy(s, teacher) != []
    ensures HasInheritedName(s, TaughtBy(s, teacher)) <==> TeacherAnalytics(s, teacher).TeacherServerError?
    ensures !HasInheritedName(s, TaughtBy(s, teacher)) ==>
      var rows := TeacherAnalytics(s, teacher).rows;
      var g := Groups(s, TaughtBy(s, teacher));
      |rows| == |g| &&
      (forall p :: p in rows <==> p in Map(g, StatOf(s))) &&
      (forall i, j :: 0 <= i < j < |rows| && IsArrayIndex(rows[j].subject) ==>
         IsArrayIndex(rows[i].subject) && DigitsValue(rows[i].subject) <= DigitsValue(rows[j].subject))
  {
    var g := Groups(s, TaughtBy(s, teacher));
    MappedEntriesCover(g, GroupName, StatOf(s));
    GroupStatNamedAsGroup(s);
    MappedEntriesOrder(g, GroupName, StatOf(s), RowSubject);
  }

  lemma {:induction false} FilterKeepsKeysUnique(records: seq<AttendanceRecord>, p: AttendanceRecord -> bool)
    requires UniqueKeys(records)
    ensures UniqueKeys(Filter(records, p))
  {
    if records != [] {
      FilterKeepsKeysUnique(records[1..], p);
      var rest := Filter(records[1..], p);
      forall x | x in rest
        ensures x.student != records[0].student || x.classId != records[0].classId
      {
        var k :| 0 <= k < |records[1..]| && records[1..][k] == x;
        assert records[k + 1] == x;
      }
    }
  }

  function KeyOf(r: AttendanceRecord): (Id, Id)
  {
    (r.student, r.classId)
  }

  /** The key of a present record of the group is a (student with a record there, class of the group) pair. */
  lemma PresentKeyIsPair(s: Store, g: SubjectGroup, x: (Id, Id))
    requires x in Map(Filter(Filter(s.attendance, InClasses(g.classIds)), IsPresent), KeyOf)
    ensures x in Pairs(Dedup(Map(Filter(s.attendance, InClasses(g.classIds)), StudentOf)), g.classIds)
  {
    var records := Filter(s.attendance, InClasses(g.classIds));
    var present := Filter(records, IsPresent);
    var keys := Map(present, KeyOf);
    var k :| 0 <= k < |keys| && keys[k] == x;
    var r := present[k];
    assert r in records;
    var m :| 0 <= m < |records| && records[m] == r;
    assert Map(records, StudentOf)[m] == r.student;
  }

  /**
   * Under the unique (student, class) index, the present records of a
   * subject never outnumber (distinct students) × (classes), so a teacher's
   * percentage lies between 0 and 100.
   */
  lemma TeacherPercentageAtMostHundred(s: Store, g: SubjectGroup)
    requires UniqueKeys(s.attendance)
    ensures 0.0 <= GroupStat(s, g).percentage <= 100.0
  {
    var records := Filter(s.attendance, InClasses(g.classIds));
    var students := Dedup(Map(records, StudentOf));
    var present := Filter(records, IsPresent);
    FilterKeepsKeysUnique(s.attendance, InClasses(g.classIds));
    FilterKeepsKeysUnique(records, IsPresent);
    var keys := Map(present, KeyOf);
    var pairs := Pairs(students, g.classIds);
    forall x | x in keys ensures x in pairs {
      PresentKeyIsPair(s, g, x);
    }
    Pigeonhole(keys, pairs);
    PercentageAtMostHundred(Count(records, IsPresent), |students| * |g.classIds|);
  }
}
