# Attendance backend: a verified model

This project models the server side of a face-recognition and geolocation
attendance system. It covers:

- how a student marks attendance for a class session. The checks are:
  required fields, the caller's role, a face match against the students of
  the same cohort, that the matched student is the caller, the class, a 50 m
  geofence, the caller's course and semester, the class time window, and the
  one-record-per-(student, class) rule;
- the teacher's manual correction of a record;
- the read-only views: the class roster, pending classes, student and
  teacher analytics, the monthly or overall attendance matrix, a teacher's
  options and the months in which a subject has classes;
- class scheduling and class listings;
- the admin's assignment of a teacher to a subject, and the subject and
  teacher listings;
- the request validators;
- the one-off data migration script.

The four collections (users, subjects, classes, attendance records) form a
store. Its invariants are the schemas' required fields, unique ids and the
unique (student, class) index on attendance. Each controller is a pure
decision function over the store, plus a method on a `Database` object that
applies the decision in place. The loops of the source are methods proved
equal to reference functions, and the properties are proved about those
functions. The migration works on a `LegacyDatabase`. Its documents have
fields that may be missing, null or stored, because the script's queries
(`$exists`) and tests (`!x`, `=== undefined`) tell those three apart.

Module layout:

| module | file | models |
|---|---|---|
| `Options`, `Json`, `Seqs` | options.dfy, json.dfy, seqs.dfy | Option, JSON values, JavaScript array helpers (filter, map, `new Set`, sort by key) |
| `Strings` | strings.dfy | lower-casing, trimming, ObjectId casting, number printing and `padStart` |
| `JsObject` | jsobject.dfy | a plain object `{}` used as a dictionary: the names it inherits from `Object.prototype` and the order of `Object.entries` |
| `JsDate` | jsdate.dfy | `Number`, `parseInt`, `new Date("YYYY-MM-DD")`, `setHours`, `getMonth`/`getFullYear` |
| `Face` | face.dfy | backend/utils/faceRecognition.js |
| `Models` | models.dfy | backend/models/*.js and the store invariants |
| `Marking`, `Correction`, `Reports`, `Analytics`, `Matrix` | marking.dfy, correction.dfy, reports.dfy, analytics.dfy, matrix.dfy | backend/controllers/attendanceController.js |
| `Classes` | classes.dfy | backend/controllers/classController.js |
| `Admin` | admin.dfy | backend/controllers/adminController.js |
| `Validators` | validators.dfy | backend/middleware/validators.js |
| `Migration` | migration.dfy | backend/scripts/migrateData.js |

In several places the system's documented behaviour differs from its code.
The model follows the code:

- The documentation describes late marking with grace periods. The code
  records every accepted mark as `present`, inside the inclusive window
  [start, end] (`Marking.WindowIsInclusive`).
- The documentation describes nearest-neighbour face matching. The code
  takes the first student of the cohort whose distance is below 0.6
  (`Marking.FirstMatch`, `Marking.EarlierLookalikeBlocksCaller`).
- The documentation describes a per-class radius. The code uses a fixed
  50 m radius.
- The documentation describes gating on enrollment date and on
  `isActive`. The code has neither; those fields appear only in the
  migration script.
- The documentation makes the geofence boundary inclusive. In the model,
  the geofence is a parameter, so its boundary is left to the caller.

## Model

| member | source | states |
|---|---|---|
| Face.SumOfSquares | backend/utils/faceRecognition.js:15-17 | the sum of squared component differences is never negative |
| Face.SquaredDistance | backend/utils/faceRecognition.js:11-17 | a distance exists iff both descriptors are present and have the same length (otherwise the source's Infinity); it is never negative |
| Face.SqrtComparison | backend/utils/faceRecognition.js:15-24 | `sqrt(r) < 0.6` iff `r < 0.36`, so comparing the squared distance with the squared threshold decides the same match as the source |
| Face.SumOfSquaresSymmetric | backend/utils/faceRecognition.js:15-17 | the sum of squares does not depend on the order of the two descriptors |
| Face.DistanceSymmetric | backend/utils/faceRecognition.js:11-24 | the distance and the match test are symmetric |
| Face.SumOfSquaresZero | backend/utils/faceRecognition.js:15-17 | the sum of squares is zero iff the descriptors are equal |
| Face.DistanceZeroIffEqual | backend/utils/faceRecognition.js:11-24 | the distance is 0 iff the descriptors are equal; any descriptor, the empty one included, matches itself |
| Face.NoMatchWithoutEqualLength | backend/utils/faceRecognition.js:12-13 | a missing or differently sized descriptor never matches |
| Strings.Lower | backend/middleware/validators.js:47-50 | same length; each character is lower-cased |
| Strings.CastId | backend/controllers/attendanceController.js:54 | a cast id is canonical; a 24-hex-digit string casts to its lower-case form; the cast fails iff the string is neither 24 hex digits nor 12 ASCII characters (bson 4's rule) |
| Strings.CanonicalIdCastsToItself | backend/controllers/attendanceController.js:51 | a canonical id casts to itself, so the id comparisons in the controllers agree with equality of cast ids |
| Strings.HexOfBytes | backend/controllers/attendanceController.js:54 | under bson 4's rule, the id of a 12-character string is its 24 lower-case hex digits |
| Strings.TrimStart | backend/middleware/validators.js:36-38 | the result is a suffix of the input that does not start with whitespace |
| Strings.TrimEnd | backend/middleware/validators.js:36-38 | the result is a prefix of the input that does not end with whitespace |
| Strings.Trim | backend/middleware/validators.js:36-38 | the result is no longer than the input and has no whitespace at either end |
| Strings.TrimUntouched | backend/middleware/validators.js:36-38 | a string without whitespace at its ends is left unchanged |
| Strings.NatToString | backend/controllers/attendanceController.js:519-521 | printing a number gives a non-empty digit string |
| Strings.NatToStringRoundTrip | backend/controllers/attendanceController.js:519-521 | reading a printed number gives the number back |
| Strings.DigitsRoundTrip | backend/controllers/attendanceController.js:519-521 | printing the value of a digit string without a leading zero gives the string back |
| Strings.PadTwo | backend/controllers/attendanceController.js:519-521 | `padStart(2, "0")` of a number below 100 has two digits and the number's value |
| Strings.PadTwoRoundTrip | backend/controllers/attendanceController.js:519-521 | padding the value of a two-digit string gives the string back |
| JsDate.NumberOf | backend/controllers/attendanceController.js:79-80 | `Number(part)` is a number iff the part is a digit string |
| JsDate.DigitPrefix | backend/controllers/attendanceController.js:420-421 | the longest prefix of decimal digits that `parseInt` reads |
| JsDate.HexPrefix | backend/controllers/attendanceController.js:420-421 | the longest prefix of hex digits that `parseInt` reads after `0x` |
| JsDate.ParseIntOfDecimal | backend/controllers/attendanceController.js:420-421 | `parseInt` of a printed number gives the number back |
| JsDate.ParseIntStopsAtNonDigit | backend/controllers/attendanceController.js:420-421 | `parseInt("3abc")` is 3 |
| JsDate.ParseIntNeedsADigit | backend/controllers/attendanceController.js:420-421 | `parseInt("abc")` is NaN |
| JsDate.ParseIntPrefixes | backend/controllers/attendanceController.js:420-421 | `parseInt("07")` is 7 and `parseInt("0x1F")` is 31 |
| JsDate.FirstIndex | backend/controllers/attendanceController.js:79-80 | the position of the first separator that `split(":")` cuts at, or none when there is none |
| JsDate.ParseDate | backend/controllers/attendanceController.js:82 | a "YYYY-MM-DD" string read as a date has month 1-12, day 1-31 and year 0-9999 |
| JsDate.DaysInMonth | backend/controllers/attendanceController.js:82 | every month has 28 to 31 days |
| JsDate.EpochIsDayZero | backend/controllers/attendanceController.js:82 | 1970-01-01 is day 0 of the day count |
| JsDate.At | backend/controllers/attendanceController.js:82-86 | the instant exists iff both the date and the "HH:MM" string read; it is midnight of the date plus the minutes |
| JsDate.YearMonth | backend/controllers/attendanceController.js:418-421 | year and month exist iff the date reads; the month is 1-12 |
| Seqs.Filter | backend/controllers/attendanceController.js:278-280 | the kept elements are exactly those satisfying the predicate, in order |
| Seqs.FindFirst | backend/controllers/attendanceController.js:220-222 | `Array.find`: the first position satisfying the predicate, none before it, or none at all |
| Seqs.Dedup | backend/controllers/attendanceController.js:487-489 | `[...new Set(xs)]`: same members as the input, no repeats |
| Seqs.DedupKeepsFirstOccurrenceOrder | backend/controllers/attendanceController.js:487-489 | a `Set` lists its members in the order of their first occurrence in the input |
| Seqs.DedupLast | backend/controllers/attendanceController.js:487-489 | adding an element to a Set appends it unless it is already there |
| Seqs.SortBy | backend/controllers/classController.js:55 | `sort({ date: 1 })`: a permutation of the input, sorted by the key |
| Seqs.FilterSorted | backend/controllers/attendanceController.js:269-280 | filtering a sorted list keeps it sorted |
| Models.FindUser | backend/controllers/attendanceController.js:23-25 | a found user is in the collection with that id; nothing is found iff no user has it |
| Models.FindClass | backend/controllers/attendanceController.js:54-56 | a found class is in the collection with that id; nothing is found iff no class has it |
| Models.FindSubject | backend/controllers/classController.js:18-19 | a found subject is in the collection with that id; nothing is found iff no subject has it |
| Models.FindRecord | backend/controllers/attendanceController.js:92-95 | the position of a record with the (student, class) key; none iff no record has the key |
| Models.FindRecordAt | backend/controllers/attendanceController.js:92-95 | the first record with the key is the one found |
| Models.FoundRecordIsOnly | backend/models/Attendance.js:26 | under the unique index, any record with the key is the one found |
| Models.AppendKeepsKeysUnique | backend/models/Attendance.js:26 | adding a record whose key is new keeps the unique index |
| Models.Database.constructor | backend/models/Attendance.js:3-26 | a database starts from a store that meets the schemas and indexes |
| Marking.HttpStatus | backend/controllers/attendanceController.js:18-111 | the answer is 200 iff attendance was marked, and 401 iff the face was not recognised |
| Marking.CandidatePool | backend/controllers/attendanceController.js:32-36 | the pool is exactly the students of the caller's course and semester |
| Marking.FirstMatch | backend/controllers/attendanceController.js:38-46 | the first pool position whose distance is below the threshold; no earlier one matches; none iff nobody matches |
| Marking.ScanForMatch | backend/controllers/attendanceController.js:38-46 | the loop with `break` returns the user at the first matching position, or nobody |
| Marking.FirstMatchIsUnique | backend/controllers/attendanceController.js:40-45 | a matching position with no match before it is the one the scan stops at |
| Marking.MarkDecision | backend/controllers/attendanceController.js:14-113 | the guard chain in the source's order; a mark is for the caller, present, stamped now, for the class the body's id casts to, and only when no record for that pair existed |
| Marking.Identify | backend/controllers/attendanceController.js:31-52 | the face phase never gives an earlier refusal; a mark it leads to is the caller's, present, now, for the body's class, with no earlier record |
| Marking.LocateClass | backend/controllers/attendanceController.js:54-56 | the class lookup gives none of the earlier refusals; a mark it leads to is as above |
| Marking.CheckClass | backend/controllers/attendanceController.js:58-109 | the checks on the found class give only the range, cohort, window or duplicate refusal, or a mark of the caller for that class, present, now, when no record for the pair exists |
| Marking.MarkAttendance | backend/controllers/attendanceController.js:14-113 | answers the decision on the old store, appends the record only on success, and keeps the store valid |
| Marking.MarkedMeansAllGuardsPassed | backend/controllers/attendanceController.js:18-109 | a mark implies complete data, a record of the caller, present, now, for the body's class, no earlier record, and every guard passing, including that the caller is the first match of the cohort scan |
| Marking.MarkedIffGuardsPass | backend/controllers/attendanceController.js:18-109 | a mark happens iff every guard passes for the stored caller and the named class |
| Marking.GuardsPassMeansMarked | backend/controllers/attendanceController.js:102-109 | when every guard passes, the caller is marked present for the class, now |
| Marking.PickedIsCaller | backend/controllers/attendanceController.js:38-52 | the first match of the cohort pool is the caller iff the caller matches and no cohort student stored earlier matches |
| Marking.PoolMatchIffCohortMatch | backend/controllers/attendanceController.js:32-49 | the pool has a match iff some student of the caller's course and semester matches the probe |
| Marking.IdentifyRefusals | backend/controllers/attendanceController.js:38-52 | the face phase answers 401 iff the pool has no match, and 403 "cannot mark for others" iff the first match has another id |
| Marking.LocateRefusals | backend/controllers/attendanceController.js:54-56 | the lookup answers 500 iff the class id does not cast, and 400 iff the cast id names no class |
| Marking.StudentStage | backend/controllers/attendanceController.js:18-29 | with complete data and a student caller, the decision is the face phase's |
| Marking.ScanStage | backend/controllers/attendanceController.js:48-52 | once the scan picks the caller, the decision is the class lookup's |
| Marking.ClassStage | backend/controllers/attendanceController.js:54-56 | once the body names a stored class, the decision is that of the checks on it |
| Marking.IncompleteIffFalsyField | backend/controllers/attendanceController.js:18-20 | 400 "Incomplete data" iff a body field is missing or falsy |
| Marking.UnauthorizedIffNoStudent | backend/controllers/attendanceController.js:23-29 | with complete data, 403 "Unauthorized" iff no stored student has the caller's id |
| Marking.FaceNotRecognizedIffNoCohortMatch | backend/controllers/attendanceController.js:31-49 | for a student caller, 401 iff no student of the caller's course and semester matches the probe |
| Marking.NotSelfIffScanPicksAnother | backend/controllers/attendanceController.js:48-52 | for a student caller, 403 "cannot mark for others" iff a cohort student matches but the scan does not pick the caller |
| Marking.ServerErrorIffNoObjectId | backend/controllers/attendanceController.js:54-56 | once the caller is recognised, 500 iff the class id is not an ObjectId |
| Marking.ClassNotFoundIffNoClass | backend/controllers/attendanceController.js:54-56 | once the caller is recognised, 400 "Class not found" iff the cast id names no stored class |
| Marking.OutOfRangeIffFar | backend/controllers/attendanceController.js:58-67 | once the class is found, 403 iff the body's position is outside the 50 m radius |
| Marking.WrongCohortIffOtherCohort | backend/controllers/attendanceController.js:70-77 | once in range, 403 iff the class's semester or course differs from the caller's |
| Marking.NotActiveIffOutsideWindow | backend/controllers/attendanceController.js:79-90 | once the cohort agrees, 400 iff now lies outside the class window |
| Marking.AlreadyMarkedIffRecordExists | backend/controllers/attendanceController.js:92-100 | inside the window, 400 iff a record for the caller and the class exists |
| Marking.ZeroCoordinateIsIncomplete | backend/controllers/attendanceController.js:18-20 | a latitude or longitude of exactly 0 is refused as incomplete data (JavaScript falsiness) |
| Marking.EarlierLookalikeBlocksCaller | backend/controllers/attendanceController.js:40-52 | a cohort student listed before the caller whose face also matches makes the request fail with "cannot mark for others" |
| Marking.MatchedBeforeCaller | backend/controllers/attendanceController.js:40-46 | such an earlier lookalike is the one the scan returns |
| Marking.WindowIsInclusive | backend/controllers/attendanceController.js:79-90 | the window admits exactly the instants from start to end, both included |
| Marking.UnreadableDateNeverRejects | backend/controllers/attendanceController.js:82-90 | a class date that does not read as a date gives Invalid Date, and the window check then never rejects |
| Marking.RecordedPairIsNeverMarked | backend/controllers/attendanceController.js:92-100 | a student who already has a record for the class is never marked again, and the store is unchanged |
| Marking.SecondMarkIsRefused | backend/controllers/attendanceController.js:92-108 | marking is idempotent: after a successful mark, the same request at any later instant changes nothing |
| Marking.DecisionKeepsStoreValid | backend/models/Attendance.js:26 | every marking decision keeps the store's invariants, the unique (student, class) index included |
| Correction.StatusFor | backend/controllers/attendanceController.js:310 | the status is present iff `present` is given and truthy |
| Correction.UpdateAttendance | backend/controllers/attendanceController.js:293-326 | answers the decision, sets the records to the updated collection and nothing else, and keeps the store valid |
| Correction.UpdateSetsTheStatus | backend/controllers/attendanceController.js:297-320 | the update succeeds iff both ids are given; afterwards exactly one record has the key, with the requested status; otherwise nothing changes |
| Correction.UpdateTouchesNothingElse | backend/controllers/attendanceController.js:303-320 | records with other keys are untouched; the collection grows by one iff no record had the key |
| Correction.UpdateKeepsKeysUnique | backend/controllers/attendanceController.js:303-320 | the update keeps one record per (student, class) |
| Correction.UpdateIsIdempotent | backend/controllers/attendanceController.js:303-320 | repeating the same update, at any later instant, changes nothing |
| Reports.Cohort | backend/controllers/attendanceController.js:209-213 | exactly the students of the course and semester |
| Reports.RowStatus | backend/controllers/attendanceController.js:219-230 | a roster status is "Present" or "Absent" |
| Reports.ClassAttendance | backend/controllers/attendanceController.js:202-237 | a roster has one row per student of the class's cohort; "class not found" iff the id casts but no class has it |
| Reports.RosterReadsTheRecord | backend/controllers/attendanceController.js:216-231 | row i is cohort student i, and it reads "Present" iff that student has a present record for the class |
| Reports.StatusReadsTheRecord | backend/controllers/attendanceController.js:219-230 | under the unique index, a student's status for a class is "Present" iff the student's record for that class says present |
| Reports.PendingClasses | backend/controllers/attendanceController.js:245-286 | unauthorized iff the caller is not a student; otherwise exactly the cohort's classes dated today or later without a record of the caller, sorted by date then start time |
| Reports.OptionsOf | backend/controllers/attendanceController.js:482-495 | courses, semesters and subject names of the teacher's subjects, each list without repeats and complete |
| Reports.MonthKey | backend/controllers/attendanceController.js:517-522 | a date that does not read gives "NaN-NaN" |
| Reports.MonthKeyIsDatePrefix | backend/controllers/attendanceController.js:517-522 | for a real calendar date, the month key is the "YYYY-MM" prefix of the date |
| Reports.AttendanceMonths | backend/controllers/attendanceController.js:497-530 | 400 iff a query parameter is missing; otherwise distinct keys, exactly the months of the subject's classes of that course and semester |
| Analytics.DisplayName | backend/controllers/attendanceController.js:161 | never empty; anything but "Unknown" is the class's subject name |
| Analytics.Percentage | backend/controllers/attendanceController.js:183-189 | 0 for no classes, otherwise part/whole × 100 |
| Analytics.PercentageAtMostHundred | backend/controllers/attendanceController.js:183-189 | a part of a whole gives a percentage between 0 and 100 |
| Analytics.StudentTallies | backend/controllers/attendanceController.js:157-180 | one tally per distinct subject name of the classes, in order of first appearance |
| Analytics.FindTally | backend/controllers/attendanceController.js:162 | the entry of `subjectStats` with that name, or none |
| Analytics.ClassStepFresh | backend/controllers/attendanceController.js:160-166 | a class of a new subject adds a tally with total 1 |
| Analytics.ClassStepSeen | backend/controllers/attendanceController.js:160-166 | a class of a known subject adds 1 to that subject's total |
| Analytics.ClassStep | backend/controllers/attendanceController.js:160-166 | one pass of the first loop, as the source writes it |
| Analytics.RecordStep | backend/controllers/attendanceController.js:169-180 | one pass of the second loop: a present record of an existing, listed class adds 1 to its subject |
| Analytics.ClassPrefixStep | backend/controllers/attendanceController.js:160-166 | one pass of the first loop: a name inherited from `Object.prototype` leaves the entries as they were, any other is counted |
| Analytics.TallyClasses | backend/controllers/attendanceController.js:159-166 | the first loop computes the tallies of the classes whose names are not inherited, with no records counted |
| Analytics.TallyRecords | backend/controllers/attendanceController.js:168-180 | the second loop, started from the first loop's tallies of the own classes, computes those tallies with all records counted |
| Analytics.ComputeStudentAnalytics | backend/controllers/attendanceController.js:138-195 | the endpoint's loops and `Object.entries` compute the reference result |
| Analytics.OwnTallyNames | backend/controllers/attendanceController.js:160-166 | a name gets an entry iff it is not inherited and some class carries it |
| Analytics.TallyRows | backend/controllers/attendanceController.js:183-189 | one row per entry, named as the entries, numeric names first and ascending |
| Analytics.StudentRowsAreOwnSubjects | backend/controllers/attendanceController.js:138-195 | the listed subjects are exactly the names of the cohort's classes not inherited from `Object.prototype`, numeric names first and ascending |
| Analytics.TallyTotalsArePositive | backend/controllers/attendanceController.js:160-166 | every listed subject has at least one class |
| Analytics.TallyNamesAreSubjects | backend/controllers/attendanceController.js:157-166 | the tally names are distinct and are exactly the subject names of the classes |
| Analytics.AbsentRecordChangesNothing | backend/controllers/attendanceController.js:174 | an absent record changes no tally |
| Analytics.PresentRecordCountsOnce | backend/controllers/attendanceController.js:174-178 | a present record adds exactly 1 to its subject's count |
| Analytics.Groups | backend/controllers/attendanceController.js:345-350 | one group per distinct subject name, in order of first appearance |
| Analytics.FindGroup | backend/controllers/attendanceController.js:348 | the entry of `subjectMap` with that name, or none |
| Analytics.GroupStepFresh | backend/controllers/attendanceController.js:346-350 | a class of a new subject opens a group holding its id |
| Analytics.GroupStepSeen | backend/controllers/attendanceController.js:346-350 | a class of a known subject appends its id to that group |
| Analytics.GroupStep | backend/controllers/attendanceController.js:346-350 | one pass of `forEach`, as the source writes it |
| Analytics.GroupClasses | backend/controllers/attendanceController.js:344-350 | the loop computes the reference grouping, or fails (`push` of an inherited member) iff some class has an inherited name |
| Analytics.ComputeTeacherAnalytics | backend/controllers/attendanceController.js:333-382 | the endpoint computes the reference result: nothing without classes, 500 when a subject name is inherited, else one figure per subject in `Object.entries` order |
| Analytics.TeacherRowsFollowEntriesOrder | backend/controllers/attendanceController.js:342-382 | with classes: 500 iff a subject name is inherited; otherwise exactly one figure per subject group, numeric names first and ascending |
| Analytics.TeacherPercentageAtMostHundred | backend/controllers/attendanceController.js:356-375 | under the unique index, present records never outnumber students × classes, so each percentage lies between 0 and 100 |
| Matrix.SubjectClasses | backend/controllers/attendanceController.js:400-408 | exactly the teacher's classes of the course, semester and subject name |
| JsObject.InsertByIndex | backend/controllers/attendanceController.js:183 | inserting keeps the numeric keys ascending and adds exactly the one entry |
| JsObject.SortByIndex | backend/controllers/attendanceController.js:183 | a permutation of the entries, ascending by numeric key |
| JsObject.EntriesArePermutation | backend/controllers/attendanceController.js:183 | `Object.entries` lists every own entry exactly once |
| JsObject.IndexKeysComeFirstAscending | backend/controllers/attendanceController.js:183 | whatever is listed before an array-index key is an array-index key no larger than it |
| JsObject.NamedKeysKeepCreationOrder | backend/controllers/attendanceController.js:183 | the keys that are not array indices are listed in creation order |
| JsObject.NoIndexKeyKeepsCreationOrder | backend/controllers/attendanceController.js:355 | without array-index keys, `Object.entries` is the creation order |
| JsObject.MappedEntriesCover | backend/controllers/attendanceController.js:355 | mapping the listed entries gives as many results as entries, and the same ones as mapping the entries |
| JsObject.MappedEntriesOrder | backend/controllers/attendanceController.js:355 | mapped results named like their keys keep the numeric names first and ascending |
| JsObject.NumericNameMovesToTheFront | backend/controllers/attendanceController.js:183 | an entry "B" created before "101" is listed after it |
| JsObject.NumericNamesAscendAsNumbers | backend/controllers/attendanceController.js:183 | "9" is listed before "10" |
| Matrix.Entries | backend/controllers/attendanceController.js:442-452 | one entry per distinct "date start-end" key, in order of first appearance |
| Matrix.KeyIndex | backend/controllers/attendanceController.js:451 | the position of an object key, or none |
| Matrix.PresentCount | backend/controllers/attendanceController.js:440-453 | a student attends at most as many classes as were selected |
| Matrix.TeacherStudentsAttendance | backend/controllers/attendanceController.js:389-475 | 400 iff course, semester or subject is missing; a server error iff the semester is not numeric; 400 iff the monthly view lacks month or year |
| Matrix.LastStatusLast | backend/controllers/attendanceController.js:442-452 | a later class with the same key overwrites the earlier status |
| Matrix.EntriesStepFresh | backend/controllers/attendanceController.js:449-451 | a class with a new key adds an entry |
| Matrix.EntriesStepSeen | backend/controllers/attendanceController.js:449-451 | a class with a known key overwrites that entry in place |
| Matrix.NoClassNoEntry | backend/controllers/attendanceController.js:439 | with no classes, the attendance object is empty |
| Matrix.EntriesStep | backend/controllers/attendanceController.js:449-451 | one pass of the inner loop is an object assignment |
| Matrix.BuildRow | backend/controllers/attendanceController.js:438-468 | the inner loop computes the reference row of a student |
| Matrix.ComputeTeacherStudentsAttendance | backend/controllers/attendanceController.js:389-475 | the endpoint's loops compute the reference result |
| Matrix.BuildRows | backend/controllers/attendanceController.js:436-469 | the outer loop gives one reference row per student, in order |
| Matrix.CellReadsTheRecord | backend/controllers/attendanceController.js:443-447 | a cell is present iff the student has a present record for the class; no record means absent |
| Matrix.EntryKeysAreSlots | backend/controllers/attendanceController.js:449-451 | the keys are distinct and are exactly the classes' "date start-end" keys |
| Matrix.DistinctSlotsKeepEveryClass | backend/controllers/attendanceController.js:449-451 | when no two classes share a key, there is one entry per class, in order |
| Matrix.RowIsBounded | backend/controllers/attendanceController.js:453-460 | the present count is at most the class count, and the percentage lies between 0 and 100 |
| Matrix.RowsFollowTheCohort | backend/controllers/attendanceController.js:426-469 | no classes gives no rows; otherwise row i is cohort student i, over all selected classes |
| Matrix.SelectedClasses | backend/controllers/attendanceController.js:400-424 | a class is selected iff it is the teacher's, of the course, semester and subject, and, in the monthly view, of that month and year |
| Matrix.OverallIgnoresMonth | backend/controllers/attendanceController.js:410-424 | with `overall=true`, month and year make no difference |
| Validators.Lookup | backend/middleware/validators.js:10 | the value of a key in the checked object, or none iff the key is absent |
| Validators.Tagged | backend/middleware/validators.js:18-21 | each failure is reported with the field it belongs to |
| Validators.Resolve | backend/middleware/validators.js:75-100 | `Joi.when` on a sibling key resolves to a plain field rule |
| Validators.Request.constructor | backend/middleware/validators.js:8-10 | a request holds its body, params and query |
| Validators.Validate | backend/middleware/validators.js:8-29 | rejects with every failure and leaves the request alone, or replaces only the checked part with the cleaned value and goes on |
| Validators.NoErrorsIffEveryFieldPasses | backend/middleware/validators.js:10-13 | with `abortEarly: false`, no failure is reported iff every key of the schema passes |
| Validators.SanitizedKeys | backend/middleware/validators.js:10-13 | with `stripUnknown`, the cleaned value has a key iff the input has it and the schema names it |
| Validators.CleanedValueAt | backend/middleware/validators.js:10-26 | each schema key the input carries appears in the cleaned value with its converted value |
| Validators.NoItemErrorsIffNumbers | backend/middleware/validators.js:102-104 | an array's items pass iff every item is a number |
| Validators.DescriptorFieldPasses | backend/middleware/validators.js:102-109 | a face descriptor passes iff it is an array of exactly 128 numbers |
| Validators.PatternFieldPasses | backend/middleware/validators.js:134-141 | a pattern field passes iff it is a string matching the pattern |
| Validators.RangeFieldPasses | backend/middleware/validators.js:152-170 | a coordinate passes iff it is a number within its bounds |
| Validators.IntegerFieldPasses | backend/middleware/validators.js:89-98 | an integer field passes iff it is an integer within its bounds |
| Validators.TextFieldPasses | backend/middleware/validators.js:36-55 | a string field passes iff, after trim and lower-case, it is non-empty and meets its length, pattern and e-mail rules |
| Validators.CreateClassAccepts | backend/middleware/validators.js:209-261 | a class passes iff subject, date, times and both coordinates have their shapes and ranges |
| Validators.MarkAttendanceAccepts | backend/middleware/validators.js:134-171 | a mark passes iff the class id, a 128-number descriptor and both coordinates are valid |
| Validators.AssignTeacherAccepts | backend/middleware/validators.js:288-304 | an assignment passes iff both ids are ObjectId strings |
| Validators.RegisterAccepted | backend/middleware/validators.js:35-110 | an accepted registration has a trimmed name of 2-100 characters, a password of 6-128, a known role and a 128-number descriptor; a student also has course MCA and a semester from 1 to 8 |
| Validators.RegisterFieldsPass | backend/middleware/validators.js:35-110 | an accepted registration passes each field's own rule |
| Validators.CohortOptionalForStaff | backend/middleware/validators.js:75-100 | a non-student may leave course and semester out |
| Validators.RegisterCleansEmail | backend/middleware/validators.js:47-55 | the cleaned e-mail is the trimmed, lower-cased input |
| Validators.TeacherQueryAccepted | backend/middleware/validators.js:318-325 | an accepted matrix query has a semester from 1 to 8, and any month from 1 to 12, year from 2020 to 2100, and `overall` of "true" or "false" |
| Validators.CancelReasonLength | backend/middleware/validators.js:272-281 | a cancellation reason passes iff, trimmed, it has 5 to 500 characters |
| Validators.UpdateReasonOptional | backend/middleware/validators.js:196-202 | an update reason passes iff it is absent, or, trimmed, non-empty and at most 500 characters |
| Validators.ClockShapeIsMinuteOfDay | backend/middleware/validators.js:226-240 | a time passing the pattern reads as a minute of the day from 0 to 1439 |
| Validators.DateShapeAdmitsInvalidDates | backend/middleware/validators.js:218-224 | the date pattern accepts "2025-13-01", which is not a date |
| Classes.Admit | backend/controllers/classController.js:11-25 | an admitted request names a subject of the store assigned to the caller |
| Classes.Save | backend/models/Class.js:3-41 | the save succeeds iff every required field is present and the id is new; the saved class meets the schema |
| Classes.CreateDecision | backend/controllers/classController.js:9-46 | the corrected decision of the Findings table, with the body's coordinates copied into the class: a scheduled class has the given fields, the subject's course and semester, the caller as teacher and the given coordinates. The code as written is `Classes.CreateDecisionAsWritten`, which never schedules (`Classes.AsWrittenNeverSchedules`) |
| Classes.CreateClass | backend/controllers/classController.js:9-46 | applies the corrected decision of the Findings table: answers it, appends the class only when scheduled, and keeps the store valid |
| Classes.RefusalsFollowTheGuards | backend/controllers/classController.js:13-25 | 400 iff a field is missing; 404 iff the subject is not found; 403 iff it is assigned to another teacher; a refusal changes nothing |
| Classes.ScheduledIffAssignedTeacher | backend/controllers/classController.js:13-41 | a class is scheduled iff all fields are given, the subject exists and is assigned to the caller, the coordinates are given and the id is new; it is then appended and found by its id |
| Classes.CreateKeepsStoreValid | backend/models/Class.js:3-41 | scheduling keeps the store's invariants |
| Classes.AsWrittenNeverSchedules | backend/controllers/classController.js:27-37 | as written, no request is ever scheduled: where the corrected code schedules, the written code fails with 500; elsewhere the two agree |
| Classes.TeacherClasses | backend/controllers/classController.js:53-61 | exactly the caller's classes, as a permutation sorted by date |
| Classes.StudentClassesFor | backend/controllers/classController.js:68-88 | 401 iff the caller is not a student; otherwise exactly the cohort's classes, sorted by date |
| Classes.ScheduledClassIsListed | backend/controllers/classController.js:53-83 | a newly scheduled class appears in its teacher's list and in the list of every student of its cohort |
| Admin.SetTeacher | backend/controllers/adminController.js:14-18 | the update keeps the number and ids of the subjects |
| Admin.AssignDecision | backend/controllers/adminController.js:5-24 | an updated subject has the requested id and the requested teacher |
| Admin.AssignTeacher | backend/controllers/adminController.js:5-24 | answers the decision, applies the update, and keeps the store valid |
| Admin.RefusalChangesNothing | backend/controllers/adminController.js:9-20 | 400 iff the teacher id is missing, unknown or not a teacher's; without an update nothing changes; an unknown subject gives a null subject |
| Admin.AssignTouchesOnlyTheSubject | backend/controllers/adminController.js:14-18 | only the named subject's teacher changes |
| Admin.AssignKeepsStoreValid | backend/controllers/adminController.js:14-18 | an assignment keeps the store's invariants |
| Admin.AssignIsIdempotent | backend/controllers/adminController.js:14-18 | repeating an assignment changes nothing |
| Admin.AssignedTeacherMaySchedule | backend/controllers/adminController.js:14-18 | after an assignment, the teacher's request to schedule a class of that subject is neither "not found" nor "not assigned" |
| Admin.SubjectsWithTeachers | backend/controllers/adminController.js:27-34 | one entry per subject, in order; the teacher is populated iff it refers to an existing user, with that user's name and e-mail |
| Admin.Teachers | backend/controllers/adminController.js:36-44 | one view per teacher and only teachers; every teacher is listed |
| Admin.TeachersHideSecrets | backend/controllers/adminController.js:38 | the listing does not depend on passwords or face descriptors |
| Migration.MigrateUserFillsDefaults | backend/scripts/migrateData.js:44-65 | stored values are kept; a missing `isActive` becomes true; a missing or null enrollment date becomes `createdAt` when the user has one; a student without history gets one active entry; an unselected user is untouched |
| Migration.UserMigrationSettles | backend/scripts/migrateData.js:36-71 | migrating a user twice is the same as once; a migrated user is written again only when it has no `createdAt` |
| Migration.MigrateClassFillsDefaults | backend/scripts/migrateData.js:87-118 | the status becomes completed or scheduled by the class's end instant; radius 50 and grace minutes 10 and 5 fill missing fields; stored values are kept; a class is written iff it is selected |
| Migration.ClassMigrationSettles | backend/scripts/migrateData.js:79-118 | a migrated class is never selected again, at any later instant |
| Migration.MigrateRecordLowersStatus | backend/scripts/migrateData.js:143-148 | "Present" and "Absent" become lower-case; other statuses are kept; no capitalised status remains |
| Migration.MigrateRecordStampsMarkedAt | backend/scripts/migrateData.js:138-141 | a missing or null `markedAt` becomes `createdAt`, else `timestamp`, else now; a stored one is kept; a record is written iff it is selected |
| Migration.RecordMigrationSettles | backend/scripts/migrateData.js:126-154 | a migrated record is never selected again, at any later instant |
| Migration.LegacyDatabase.constructor | backend/scripts/migrateData.js:16-18 | the database holds the given users, classes and attendance records |
| Migration.UpdateUser | backend/scripts/migrateData.js:44-70 | the loop body writes a user of the query exactly when its update has a key, and what it writes is the migrated user; an unwritten user is left as it was |
| Migration.UpdateClass | backend/scripts/migrateData.js:87-117 | the loop body writes a class of the query exactly when its update has a key, and what it writes is the migrated class; an unwritten class is left as it was |
| Migration.UpdateRecord | backend/scripts/migrateData.js:135-153 | the loop body writes a record of the query exactly when its update has a key, and what it writes is the migrated record; an unwritten record is left as it was |
| Migration.LegacyDatabase.MigrateUsers | backend/scripts/migrateData.js:36-72 | every user is replaced by its migration, the count is the number written, and the other collections are unchanged |
| Migration.LegacyDatabase.MigrateClasses | backend/scripts/migrateData.js:79-119 | every class is replaced by its migration, the count is the number written, and the other collections are unchanged |
| Migration.LegacyDatabase.MigrateAttendance | backend/scripts/migrateData.js:126-155 | every record is replaced by its migration, the count is the number written, and the other collections are unchanged |
| Migration.LegacyDatabase.Migrate | backend/scripts/migrateData.js:22-173 | the three passes in order, with their three counts |
| Migration.SecondRunWritesNothing | backend/scripts/migrateData.js:79-154 | running the class and attendance passes again changes and counts nothing |

## Left out

- Geodesic distance: `geolib.isPointWithinRadius` is the parameter `near` of `Marking.MarkDecision`. Its boundary and its accuracy are not modelled.
- Square root, `toFixed(2)` and `Math.round`: percentages are exact reals. Face distances are compared squared, which `Face.SqrtComparison` shows is equivalent.
- Time zones: local time is taken to be UTC. `new Date()` is a parameter `now`, in milliseconds.
- Persistence and concurrency: every request is one atomic step on the store. There are no races between the find and the save, and no partial writes.
- Populate projections: the model keeps the fields the code reads.
- Transport, authentication, rate limiting and the user interface. The caller's id is a parameter and is assumed to be a canonical ObjectId string.
- Numeric strings: only digit strings are converted (`Number`, the query's semester, the validators' numbers). Numbers are unbounded integers and reals, so Joi's refusal of unsafe numbers beyond ±2^53 (`number.unsafe`) is not modelled.
- Character handling: lower-casing is ASCII only, and lengths count code points rather than UTF-16 units.
- The e-mail format check is the parameter `isEmail`.
- Validation messages are not modelled; each failure is a kind.
- Validators.Sanitized: the cleaned object's keys follow the schema's order rather than the input's.
- `getStudentHistory` and `getAllClasses` are single queries with no rules of their own, so they are not modelled.
- Routes whose handlers fail before reaching the core are not modelled. The registration route's descriptor check, the user routes, and the mark route's validator fall in this group. Of the schemas, only the create-class schema is wired to a route; the others are modelled as they are written.
- Server start-up: backend/routes/classRoutes.js:35, 42 and 75 register `cancelClass`, `updateClass` and `getClassById`, which backend/controllers/classController.js does not export. Express throws when given an undefined handler, so the `require` at backend/server.js:59 throws before `app.listen` at backend/server.js:145, and the server as written never starts. The model describes the controllers as if the router had loaded.
- Classes.StudentClassesFor: `getStudentClasses` uses `User` without importing it, so as written it always answers 500. The model states the evidently intended query.
- Date strings: `JsDate.ParseDate` accepts only the "YYYY-MM-DD" shape, with month 01-12 and day 01-31; anything else is Invalid Date. A day past the month's end rolls into the next month, as V8 does: "2025-02-30" is 2 March 2025 in `JsDate.Midnight`, `JsDate.At` and `JsDate.YearMonth`. The other formats V8's legacy parser accepts are not modelled.
- Query parameters that arrive as arrays, and ids in bodies that are not strings.
- Strings.CastId: no Mongoose or bson version is fixed by the repository. The model follows bson 4 (Mongoose up to version 6), where a 12-character ASCII string casts to the id of its 12 bytes. Under bson 6 (Mongoose 8) only 24 hex digits cast, and every other string is a CastError. For a 12-character id such as "abcdefghijkl", `Marking.LocateClass` then answers 400 "Class not found" where bson 6 gives 500, `Correction.UpdateDecision` creates a record where bson 6 gives 500, and the roster, admin and class guards differ in the same way.
- Marking.MarkBody, Marking.Complete: the mark route's validator is not wired, so the raw JSON body reaches the controller (backend/controllers/attendanceController.js:18). The model takes the coordinates as numbers and the face descriptor as an array of numbers. A string coordinate such as "0" (truthy, unlike the number 0), a descriptor that is not an array, and descriptor items that are not numbers are not modelled.
- Marking.CandidatePool, Marking.CohortOf, Analytics.CohortClasses, Reports.PendingClasses, Classes.InCohort, Classes.StudentClassesFor: the user schema leaves `course` and `semester` optional. For a student without them, the source queries with `course: undefined, semester: undefined` (backend/controllers/attendanceController.js:32-36 and the matching class queries). The model treats that filter as matching only the documents that also lack the field: only course-less students, and no class. If Mongoose drops the undefined keys, as the `Admin.AssignDecision` line below describes for `{ _id: undefined }`, the pool would be every student and the class list every class; that reading is not modelled. The registration schema (`Validators.RegisterAccepted`) requires both fields of a student, so this case arises only for student documents stored without them.
- The order of equal sort keys: `Seqs.SortBy` promises a sorted permutation, not the database's tie order.
- Migration clock: the script reads the clock for every class and record. The model reads it once per pass.
- Migration.LegacyDatabase.MigrateUsers, Migration.LegacyDatabase.MigrateClasses, Migration.LegacyDatabase.MigrateAttendance, Migration.MigrateUser, Migration.MigrateClass, Migration.MigrateRecord: the model captures the raw-document intent of the script, not what Mongoose writes. None of the fields the script sets is in a schema: `enrollmentDate`, `isActive` and `enrollmentHistory` are not in backend/models/User.js; `status`, `attendanceRadius`, `lateGraceMinutes` and `endGraceMinutes` are not in backend/models/Class.js; `markedAt` is not in backend/models/Attendance.js. Under Mongoose's default strict mode, `updateOne` strips them from `$set` (backend/scripts/migrateData.js:68, 115 and 151). So the only change actually written is the lower-casing of attendance statuses, yet every selected document is counted. Strict mode also hides those fields from the `!x` tests.
- Migration queries: the `$or` filters are applied by the model as a predicate over all documents. An undefined `$set` value is dropped, as the driver drops it.
- Admin.AssignDecision: a missing `subjectId` is modelled as matching no subject (200 with a null subject, nothing written). Mongoose's `findByIdAndUpdate(undefined, …)` filters on `{ _id: undefined }`, which Mongoose may drop, so it may update an arbitrary subject instead. Which subject that would be depends on the database's natural order, so it is not modelled.
- Object.prototype pollution: a subject named "__proto__" makes the student view's `total += 1` write `NaN` into `Object.prototype.total`. Its effect on later requests in the same process is not modelled; within the request, such a name gets no entry (`Analytics.StudentRowsAreOwnSubjects`).
- Migration exits: the connect, disconnect and exit-on-error paths are not modelled.
- Class status values: only "scheduled" and "completed" are written. The other values of `CLASS_STATUS` are never used by the core.

## Findings

| source | as written | input that shows it | evidently intended | confidence | as-written member | corrected member |
|---|---|---|---|---|---|---|
| backend/controllers/classController.js:27-35 | the new class is built without `latitude` and `longitude`, which backend/models/Class.js:34-41 requires, so `save` always throws and the answer is 500 | any request that passes the guards: an assigned teacher, all fields, both coordinates, and an unused id | copy the request's latitude and longitude into the class, so it is saved and answered with 201 | not executed | Classes.AsWrittenNeverSchedules | Classes.ScheduledIffAssignedTeacher |
