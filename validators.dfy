/**
 * The request checks of backend/middleware/validators.js. Each schema is a
 * list of (key, rule) pairs read by a small interpreter of the rule kinds the
 * schemas use: strings with trim, lower-casing, length bounds, a pattern or
 * an e-mail check; allow-lists; numbers with integer and range checks;
 * booleans; arrays of numbers of a fixed length; and a rule chosen by the
 * value of a sibling key. Checking never stops at the first failure, unknown
 * keys are dropped from the cleaned value, and the middleware either answers
 * 400 with every failure or replaces the checked part of the request with the
 * cleaned value and passes it on.
 */
module Validators {
  import opened Options
  import opened Strings
  import opened Seqs
  import opened JsDate
  import opened Json

  // ---------------------------------------------------------------------
  // Patterns
  // ---------------------------------------------------------------------

  datatype Pattern = ObjectIdPattern | DatePattern | ClockPattern

  /** `^\d{4}-\d{2}-\d{2}$`: the shape of an ISO 8601 calendar date, with no range check. */
  predicate DateShape(s: string)
  {
    |s| == 10 && AllDigits(s[0..4]) && s[4] == '-' && AllDigits(s[5..7]) && s[7] == '-' && AllDigits(s[8..10])
  }

  /** `^([01]\d|2[0-3]):([0-5]\d)$`: a 24-hour "HH:mm" time of day. */
  predicate ClockShape(s: string)
  {
    |s| == 5 &&
    (('0' <= s[0] <= '1' && IsDigit(s[1])) || (s[0] == '2' && '0' <= s[1] <= '3')) &&
    s[2] == ':' && '0' <= s[3] <= '5' && IsDigit(s[4])
  }

  predicate Matches(p: Pattern, s: string)
  {
    match p
    case ObjectIdPattern => IsObjectId(s)
    case DatePattern => DateShape(s)
    case ClockPattern => ClockShape(s)
  }

  // ---------------------------------------------------------------------
  // Rules
  // ---------------------------------------------------------------------

  datatype Kind =
    | Text(trim: bool, lower: bool, minLength: Option<nat>, maxLength: Option<nat>, pattern: Option<Pattern>, email: bool)
    | Choice(allowed: seq<string>)
    | Number(integer: bool, min: Option<real>, max: Option<real>)
    | Boolean
    | NumberArray(length: nat)

  /** A field's rule; `When` picks one of two rules by the value of a sibling key. */
  datatype Rule =
    | Field(kind: Kind, required: bool)
    | When(sibling: string, equals: string, whenEqual: Rule, otherwise: Rule)

  type Schema = seq<(string, Rule)>

  datatype Failure =
    | Required | NotString | Empty | TooShort | TooLong | PatternMismatch | NotEmail | NotAllowed
    | NotNumber | NotInteger | TooSmall | TooLarge | NotBoolean | NotArray | WrongLength | NotObject

  /** One entry of the 400 answer's `errors`: the dotted path of the value and what is wrong with it. */
  datatype FieldError = FieldError(field: string, failure: Failure)

  /** The value of a key in a parsed object; the last occurrence wins, as with `JSON.parse`. */
  function Lookup(entries: seq<(string, Value)>, key: string): (r: Option<Value>)
    ensures r.Some? ==> (key, r.value) in entries
    ensures r.None? ==> forall i :: 0 <= i < |entries| ==> entries[i].0 != key
  {
    if entries == [] then None
    else if entries[|entries| - 1].0 == key then Some(entries[|entries| - 1].1)
    else Lookup(entries[..|entries| - 1], key)
  }

  /**
   * The number a value converts to: a number, or a string of decimal digits
   * (query strings carry numbers as text).
   */
  function NumberValue(v: Value): Option<real>
  {
    match v
    case Num(n) => Some(n)
    case Str(s) => if s != "" && AllDigits(s) then Some(DigitsValue(s) as real) else None
    case _ => None
  }

  predicate IsIntegral(n: real)
  {
    n.Floor as real == n
  }

  /** A string after the conversions of a text rule. */
  function Converted(k: Kind, raw: string): string
    requires k.Text?
  {
    var t := if k.trim then Trim(raw) else raw;
    if k.lower then Lower(t) else t
  }

  /** The failures of a converted, non-empty string, in the order the rules are declared. */
  function TextFailures(k: Kind, t: string, isEmail: string -> bool): seq<Failure>
    requires k.Text?
  {
    (if k.minLength.Some? && |t| < k.minLength.value then [TooShort] else []) +
    (if k.maxLength.Some? && |t| > k.maxLength.value then [TooLong] else []) +
    (if k.pattern.Some? && !Matches(k.pattern.value, t) then [PatternMismatch] else []) +
    (if k.email && !isEmail(t) then [NotEmail] else [])
  }

  function NumberFailures(k: Kind, n: real): seq<Failure>
    requires k.Number?
  {
    (if k.integer && !IsIntegral(n) then [NotInteger] else []) +
    (if k.min.Some? && n < k.min.value then [TooSmall] else []) +
    (if k.max.Some? && n > k.max.value then [TooLarge] else [])
  }

  function ItemErrors(field: string, items: seq<Value>, from: nat): seq<FieldError>
    decreases |items|
  {
    if items == [] then []
    else
      var head := if NumberValue(items[0]).None? then [FieldError(field + "." + NatToString(from), NotNumber)] else [];
      head + ItemErrors(field, items[1..], from + 1)
  }

  function AsNumber(v: Value): Value
  {
    match NumberValue(v)
    case Some(n) => Num(n)
    case None => v
  }

  function Tagged(field: string, fs: seq<Failure>): (r: seq<FieldError>)
    ensures |r| == |fs|
    ensures forall i :: 0 <= i < |r| ==> r[i] == FieldError(field, fs[i])
  {
    Map(fs, (f: Failure) => FieldError(field, f))
  }

  /** The failures of a present value under a rule kind, and the value after conversion. */
  function Check(field: string, k: Kind, v: Value, isEmail: string -> bool): (seq<FieldError>, Value)
  {
    match k
    case Text(_, _, _, _, _, _) =>
      (match v
       case Str(raw) =>
         var t := Converted(k, raw);
         if t == "" then ([FieldError(field, Empty)], Str(t))
         else (Tagged(field, TextFailures(k, t, isEmail)), Str(t))
       case _ => ([FieldError(field, NotString)], v))
    case Choice(allowed) =>
      if v.Str? && v.s in allowed then ([], v) else ([FieldError(field, NotAllowed)], v)
    case Number(_, _, _) =>
      (match NumberValue(v)
       case None => ([FieldError(field, NotNumber)], v)
       case Some(n) => (Tagged(field, NumberFailures(k, n)), Num(n)))
    case Boolean =>
      (match v
       case Bool(_) => ([], v)
       case Str(s) =>
         if Lower(s) == "true" then ([], Bool(true))
         else if Lower(s) == "false" then ([], Bool(false))
         else ([FieldError(field, NotBoolean)], v)
       case _ => ([FieldError(field, NotBoolean)], v))
    case NumberArray(length) =>
      (match v
       case Arr(items) =>
         (ItemErrors(field, items, 0) + (if |items| != length then [FieldError(field, WrongLength)] else []),
          Arr(Map(items, AsNumber)))
       case _ => ([FieldError(field, NotArray)], v))
  }

  /** The plain rule that applies to a field, once the sibling conditions are read. */
  function Resolve(rule: Rule, entries: seq<(string, Value)>): (r: Rule)
    ensures r.Field?
  {
    match rule
    case Field(_, _) => rule
    case When(sibling, equals, a, b) =>
      if Lookup(entries, sibling) == Some(Str(equals)) then Resolve(a, entries) else Resolve(b, entries)
  }

  /** The failures of one key of the schema. */
  function FieldErrors(key: string, rule: Rule, entries: seq<(string, Value)>, isEmail: string -> bool): seq<FieldError>
  {
    var f := Resolve(rule, entries);
    match Lookup(entries, key)
    case None => if f.required then [FieldError(key, Required)] else []
    case Some(v) => Check(key, f.kind, v, isEmail).0
  }

  function AllFieldErrors(schema: Schema, entries: seq<(string, Value)>, isEmail: string -> bool): seq<FieldError>
  {
    if schema == [] then []
    else FieldErrors(schema[0].0, schema[0].1, entries, isEmail) + AllFieldErrors(schema[1..], entries, isEmail)
  }

  /** `schema.validate(value, { abortEarly: false })`'s failures: every failing rule of every key. */
  function Errors(schema: Schema, input: Value, isEmail: string -> bool): seq<FieldError>
  {
    match input
    case Obj(entries) => AllFieldErrors(schema, entries, isEmail)
    case _ => [FieldError("", NotObject)]
  }

  /**
   * The cleaned value's entries: each key of the schema that the input
   * carries, converted; every other key is stripped.
   */
  function Sanitized(schema: Schema, entries: seq<(string, Value)>, isEmail: string -> bool): seq<(string, Value)>
  {
    if schema == [] then []
    else
      var key := schema[0].0;
      var rest := Sanitized(schema[1..], entries, isEmail);
      match Lookup(entries, key)
      case None => rest
      case Some(v) => [(key, Check(key, Resolve(schema[0].1, entries).kind, v, isEmail).1)] + rest
  }

  // ---------------------------------------------------------------------
  // The middleware (lines 8-29)
  // ---------------------------------------------------------------------

  datatype Property = Body | Params | Query

  /** The three parts of an incoming request a check can be applied to. */
  class Request {
    var body: Value
    var params: Value
    var query: Value

    constructor (body: Value, params: Value, query: Value)
      ensures this.body == body && this.params == params && this.query == query
    {
      this.body := body;
      this.params := params;
      this.query := query;
    }

    function Get(p: Property): Value
      reads this
    {
      match p
      case Body => body
      case Params => params
      case Query => query
    }
  }

  datatype MiddlewareOutcome =
    | Rejected(errors: seq<FieldError>)   // 400 "Validation failed"
    | Next                                // the handler runs on the cleaned value

  /**
   * `validate(schema, property)(req, res, next)`: any failure answers 400
   * with all of them and leaves the request alone; otherwise the checked part
   * is replaced by the cleaned value and the next handler runs.
   */
  method Validate(req: Request, schema: Schema, property: Property, isEmail: string -> bool) returns (o: MiddlewareOutcome)
    modifies req
    ensures var errors := Errors(schema, old(req.Get(property)), isEmail);
      o == if errors == [] then Next else Rejected(errors)
    ensures o.Rejected? ==> req.body == old(req.body) && req.params == old(req.params) && req.query == old(req.query)
    ensures o.Next? ==> req.Get(property) == Obj(Sanitized(schema, old(req.Get(property)).entries, isEmail))
    ensures o.Next? ==> forall p :: p != property ==> req.Get(p) == old(req.Get(p))
  {
    var input := req.Get(property);
    var errors := Errors(schema, input, isEmail);
    if errors != [] {
      return Rejected(errors);
    }
    var value := Obj(Sanitized(schema, input.entries, isEmail));
    match property {
      case Body => req.body := value;
      case Params => req.params := value;
      case Query => req.query := value;
    }
    o := Next;
  }

  // ---------------------------------------------------------------------
  // The schemas (lines 35-325) and their constants (backend/config/constants.js)
  // ---------------------------------------------------------------------

  const Roles: seq<string> := ["student", "teacher", "admin"]
  const Courses: seq<string> := ["MCA"]

  const IdRule: Rule := Field(Text(false, false, None, None, Some(ObjectIdPattern), false), true)
  const PlainText: Kind := Text(false, false, None, None, None, false)
  const EmailRule: Rule := Field(Text(true, true, None, None, None, true), true)
  const DateRule: Rule := Field(Text(false, false, None, None, Some(DatePattern), false), true)
  const ClockRule: Rule := Field(Text(false, false, None, None, Some(ClockPattern), false), true)
  const DescriptorRule: Rule := Field(NumberArray(128), true)
  const LatitudeRule: Rule := Field(Number(false, Some(-90.0), Some(90.0)), true)
  const LongitudeRule: Rule := Field(Number(false, Some(-180.0), Some(180.0)), true)

  const RegisterSchema: Schema := [
    ("name", NameRule),
    ("email", EmailRule),
    ("password", PasswordRule),
    ("role", Field(Choice(Roles), true)),
    ("course", CourseRule),
    ("semester", SemesterRule),
    ("faceDescriptor", DescriptorRule)
  ]

  const NameRule: Rule := Field(Text(true, false, Some(2), Some(100), None, false), true)
  const PasswordRule: Rule := Field(Text(false, false, Some(6), Some(128), None, false), true)
  const CourseRule: Rule := When("role", "student", Field(Choice(Courses), true), Field(PlainText, false))
  const SemesterRule: Rule :=
    When("role", "student", Field(Number(true, Some(1.0), Some(8.0)), true), Field(Number(false, None, None), false))

  const LoginSchema: Schema := [
    ("email", EmailRule),
    ("password", Field(PlainText, true))
  ]

  const MarkAttendanceSchema: Schema := [
    ("classId", IdRule),
    ("faceDescriptor", DescriptorRule),
    ("latitude", LatitudeRule),
    ("longitude", LongitudeRule)
  ]

  const UpdateAttendanceSchema: Schema := [
    ("classId", IdRule),
    ("studentId", IdRule),
    ("present", Field(Boolean, true)),
    ("reason", Field(Text(true, false, None, Some(500), None, false), false))
  ]

  const CreateClassSchema: Schema := [
    ("subject", IdRule),
    ("date", DateRule),
    ("startTime", ClockRule),
    ("endTime", ClockRule),
    ("latitude", LatitudeRule),
    ("longitude", LongitudeRule)
  ]

  const CancelClassSchema: Schema := [
    ("classId", IdRule),
    ("reason", Field(Text(true, false, Some(5), Some(500), None, false), true))
  ]

  const AssignTeacherSchema: Schema := [
    ("teacherId", IdRule),
    ("subjectId", IdRule)
  ]

  const ObjectIdParamSchema: Schema := [
    ("classId", Field(Text(false, false, None, None, Some(ObjectIdPattern), false), false))
  ]

  const TeacherStudentsQuerySchema: Schema := [
    ("course", Field(PlainText, true)),
    ("semester", Field(Number(true, Some(1.0), Some(8.0)), true)),
    ("subject", Field(PlainText, true)),
    ("month", Field(Number(true, Some(1.0), Some(12.0)), false)),
    ("year", Field(Number(true, Some(2020.0), Some(2100.0)), false)),
    ("overall", Field(Choice(["true", "false"]), false))
  ]

  // ---------------------------------------------------------------------
  // What the interpreter guarantees
  // ---------------------------------------------------------------------

  /** No failure is reported exactly when every key of the schema passes its rule. */
  lemma {:induction false} NoErrorsIffEveryFieldPasses(schema: Schema, entries: seq<(string, Value)>, isEmail: string -> bool)
    ensures AllFieldErrors(schema, entries, isEmail) == [] <==>
      forall i :: 0 <= i < |schema| ==> FieldErrors(schema[i].0, schema[i].1, entries, isEmail) == []
  {
    if schema != [] {
      NoErrorsIffEveryFieldPasses(schema[1..], entries, isEmail);
      assert forall i :: 1 <= i < |schema| ==> schema[1..][i - 1] == schema[i];
    }
  }

  /** The cleaned value carries exactly the schema's keys that the input carries: unknown keys are stripped. */
  lemma {:induction false} SanitizedKeys(schema: Schema, entries: seq<(string, Value)>, isEmail: string -> bool, key: string)
    ensures (exists v :: (key, v) in Sanitized(schema, entries, isEmail)) <==>
      Lookup(entries, key).Some? && exists r :: (key, r) in schema
  {
    if schema != [] {
      SanitizedKeys(schema[1..], entries, isEmail, key);
      var s := Sanitized(schema, entries, isEmail);
      if Lookup(entries, key).Some? && (exists r :: (key, r) in schema) {
        var r :| (key, r) in schema;
        if schema[0].0 != key {
          assert (key, r) in schema[1..];
        }
      }
      if exists r :: (key, r) in schema[1..] {
        var r :| (key, r) in schema[1..];
        assert (key, r) in schema;
      }
    }
  }

  /** A number-array value: `length` items, each a number. */
  predicate IsNumberArray(v: Option<Value>, length: nat)
  {
    v.Some? && v.value.Arr? && |v.value.items| == length &&
    forall i :: 0 <= i < |v.value.items| ==> NumberValue(v.value.items[i]).Some?
  }

  predicate InRange(v: Option<Value>, lo: real, hi: real)
  {
    v.Some? && NumberValue(v.value).Some? && lo <= NumberValue(v.value).value <= hi
  }

  predicate IsIntegerIn(v: Option<Value>, lo: real, hi: real)
  {
    InRange(v, lo, hi) && IsIntegral(NumberValue(v.value).value)
  }

  predicate MatchesText(v: Option<Value>, p: Pattern)
  {
    v.Some? && v.value.Str? && Matches(p, v.value.s)
  }

  lemma {:induction false} NoItemErrorsIffNumbers(field: string, items: seq<Value>, from: nat)
    ensures ItemErrors(field, items, from) == [] <==> forall i :: 0 <= i < |items| ==> NumberValue(items[i]).Some?
  {
    if items != [] {
      NoItemErrorsIffNumbers(field, items[1..], from + 1);
      assert forall i :: 1 <= i < |items| ==> items[1..][i - 1] == items[i];
    }
  }

  /** A descriptor passes iff it is an array of exactly that many numbers. */
  lemma DescriptorFieldPasses(key: string, length: nat, entries: seq<(string, Value)>, isEmail: string -> bool)
    ensures FieldErrors(key, Field(NumberArray(length), true), entries, isEmail) == [] <==>
      IsNumberArray(Lookup(entries, key), length)
  {
    var v := Lookup(entries, key);
    if v.Some? && v.value.Arr? {
      NoItemErrorsIffNumbers(key, v.value.items, 0);
    }
  }

  /** Every pattern demands at least one character, so a text passes its pattern rule iff it matches. */
  lemma PatternFieldPasses(key: string, p: Pattern, entries: seq<(string, Value)>, isEmail: string -> bool)
    ensures FieldErrors(key, Field(Text(false, false, None, None, Some(p), false), true), entries, isEmail) == [] <==>
      MatchesText(Lookup(entries, key), p)
  {
    var k := Text(false, false, None, None, Some(p), false);
    var v := Lookup(entries, key);
    if v.Some? && v.value.Str? {
      var raw := v.value.s;
      assert Converted(k, raw) == raw;
      if raw != [] {
        assert TextFailures(k, raw, isEmail) == if Matches(p, raw) then [] else [PatternMismatch];
      } else {
        assert !Matches(p, raw);
      }
    }
  }

  /** A required number with bounds passes iff it converts to a number within them, both ends included. */
  lemma RangeFieldPasses(key: string, lo: real, hi: real, entries: seq<(string, Value)>, isEmail: string -> bool)
    ensures FieldErrors(key, Field(Number(false, Some(lo), Some(hi)), true), entries, isEmail) == [] <==>
      InRange(Lookup(entries, key), lo, hi)
  {
  }

  /** A required integer with bounds passes iff it converts to a whole number within them. */
  lemma IntegerFieldPasses(key: string, lo: real, hi: real, entries: seq<(string, Value)>, isEmail: string -> bool)
    ensures FieldErrors(key, Field(Number(true, Some(lo), Some(hi)), true), entries, isEmail) == [] <==>
      IsIntegerIn(Lookup(entries, key), lo, hi)
  {
  }

  /**
   * A class is accepted iff the subject is an ObjectId string, the date has
   * the "YYYY-MM-DD" shape, both times have the "HH:mm" shape and both
   * coordinates lie in range; nothing relates the start to the end.
   */
  lemma CreateClassAccepts(entries: seq<(string, Value)>, isEmail: string -> bool)
    ensures Errors(CreateClassSchema, Obj(entries), isEmail) == [] <==>
      MatchesText(Lookup(entries, "subject"), ObjectIdPattern) &&
      MatchesText(Lookup(entries, "date"), DatePattern) &&
      MatchesText(Lookup(entries, "startTime"), ClockPattern) &&
      MatchesText(Lookup(entries, "endTime"), ClockPattern) &&
      InRange(Lookup(entries, "latitude"), -90.0, 90.0) &&
      InRange(Lookup(entries, "longitude"), -180.0, 180.0)
  {
    SixKeys(CreateClassSchema, entries, isEmail);
    PatternFieldPasses("subject", ObjectIdPattern, entries, isEmail);
    PatternFieldPasses("date", DatePattern, entries, isEmail);
    PatternFieldPasses("startTime", ClockPattern, entries, isEmail);
    PatternFieldPasses("endTime", ClockPattern, entries, isEmail);
    RangeFieldPasses("latitude", -90.0, 90.0, entries, isEmail);
    RangeFieldPasses("longitude", -180.0, 180.0, entries, isEmail);
  }

  /** A six-key schema passes iff each of its six keys does. */
  lemma SixKeys(sc: Schema, entries: seq<(string, Value)>, isEmail: string -> bool)
    requires |sc| == 6
    ensures AllFieldErrors(sc, entries, isEmail) == [] <==>
      FieldErrors(sc[0].0, sc[0].1, entries, isEmail) == [] &&
      FieldErrors(sc[1].0, sc[1].1, entries, isEmail) == [] &&
      FieldErrors(sc[2].0, sc[2].1, entries, isEmail) == [] &&
      FieldErrors(sc[3].0, sc[3].1, entries, isEmail) == [] &&
      FieldErrors(sc[4].0, sc[4].1, entries, isEmail) == [] &&
      FieldErrors(sc[5].0, sc[5].1, entries, isEmail) == []
  {
    NoErrorsIffEveryFieldPasses(sc, entries, isEmail);
  }

  /** A four-key schema passes iff each of its four keys does. */
  lemma FourKeys(sc: Schema, entries: seq<(string, Value)>, isEmail: string -> bool)
    requires |sc| == 4
    ensures AllFieldErrors(sc, entries, isEmail) == [] <==>
      FieldErrors(sc[0].0, sc[0].1, entries, isEmail) == [] &&
      FieldErrors(sc[1].0, sc[1].1, entries, isEmail) == [] &&
      FieldErrors(sc[2].0, sc[2].1, entries, isEmail) == [] &&
      FieldErrors(sc[3].0, sc[3].1, entries, isEmail) == []
  {
    NoErrorsIffEveryFieldPasses(sc, entries, isEmail);
  }

  /** A mark request is accepted iff the class id is an ObjectId, the descriptor has 128 numbers and both coordinates lie in range. */
  lemma MarkAttendanceAccepts(entries: seq<(string, Value)>, isEmail: string -> bool)
    ensures Errors(MarkAttendanceSchema, Obj(entries), isEmail) == [] <==>
      MatchesText(Lookup(entries, "classId"), ObjectIdPattern) &&
      IsNumberArray(Lookup(entries, "faceDescriptor"), 128) &&
      InRange(Lookup(entries, "latitude"), -90.0, 90.0) &&
      InRange(Lookup(entries, "longitude"), -180.0, 180.0)
  {
    FourKeys(MarkAttendanceSchema, entries, isEmail);
    PatternFieldPasses("classId", ObjectIdPattern, entries, isEmail);
    DescriptorFieldPasses("faceDescriptor", 128, entries, isEmail);
    RangeFieldPasses("latitude", -90.0, 90.0, entries, isEmail);
    RangeFieldPasses("longitude", -180.0, 180.0, entries, isEmail);
  }

  /** Assigning a teacher is accepted iff both ids are ObjectId strings. */
  lemma AssignTeacherAccepts(entries: seq<(string, Value)>, isEmail: string -> bool)
    ensures Errors(AssignTeacherSchema, Obj(entries), isEmail) == [] <==>
      MatchesText(Lookup(entries, "teacherId"), ObjectIdPattern) &&
      MatchesText(Lookup(entries, "subjectId"), ObjectIdPattern)
  {
    NoErrorsIffEveryFieldPasses(AssignTeacherSchema, entries, isEmail);
    PatternFieldPasses("teacherId", ObjectIdPattern, entries, isEmail);
    PatternFieldPasses("subjectId", ObjectIdPattern, entries, isEmail);
  }

  /**
   * An accepted registration has a trimmed name of 2 to 100 characters, a
   * password of 6 to 128, a known role and a 128-number descriptor; a
   * student also has course "MCA" and a whole semester from 1 to 8.
   */
  lemma RegisterAccepted(entries: seq<(string, Value)>, isEmail: string -> bool)
    requires Errors(RegisterSchema, Obj(entries), isEmail) == []
    ensures var name := Lookup(entries, "name");
      name.Some? && name.value.Str? && 2 <= |Trim(name.value.s)| <= 100
    ensures var password := Lookup(entries, "password");
      password.Some? && password.value.Str? && 6 <= |password.value.s| <= 128
    ensures var role := Lookup(entries, "role");
      role.Some? && role.value.Str? && role.value.s in Roles
    ensures IsNumberArray(Lookup(entries, "faceDescriptor"), 128)
    ensures Lookup(entries, "role") == Some(Str("student")) ==>
      Lookup(entries, "course") == Some(Str("MCA")) && IsIntegerIn(Lookup(entries, "semester"), 1.0, 8.0)
  {
    RegisterFieldsPass(entries, isEmail);
    TextFieldPasses("name", NameRule.kind, entries, isEmail);
    TextFieldPasses("password", PasswordRule.kind, entries, isEmail);
    DescriptorFieldPasses("faceDescriptor", 128, entries, isEmail);
    if Lookup(entries, "role") == Some(Str("student")) {
      StudentFieldsPass(entries, isEmail);
    }
  }

  /** For a student, the conditional course and semester rules become required ones. */
  lemma StudentFieldsPass(entries: seq<(string, Value)>, isEmail: string -> bool)
    requires Lookup(entries, "role") == Some(Str("student"))
    requires FieldErrors("course", CourseRule, entries, isEmail) == []
    requires FieldErrors("semester", SemesterRule, entries, isEmail) == []
    ensures Lookup(entries, "course") == Some(Str("MCA")) && IsIntegerIn(Lookup(entries, "semester"), 1.0, 8.0)
  {
    assert Resolve(CourseRule, entries) == Field(Choice(Courses), true);
    assert Resolve(SemesterRule, entries) == Field(Number(true, Some(1.0), Some(8.0)), true);
    IntegerFieldPasses("semester", 1.0, 8.0, entries, isEmail);
  }

  lemma RegisterFieldsPass(entries: seq<(string, Value)>, isEmail: string -> bool)
    requires Errors(RegisterSchema, Obj(entries), isEmail) == []
    ensures FieldErrors("name", NameRule, entries, isEmail) == []
    ensures FieldErrors("password", PasswordRule, entries, isEmail) == []
    ensures FieldErrors("role", Field(Choice(Roles), true), entries, isEmail) == []
    ensures FieldErrors("course", CourseRule, entries, isEmail) == []
    ensures FieldErrors("semester", SemesterRule, entries, isEmail) == []
    ensures FieldErrors("faceDescriptor", DescriptorRule, entries, isEmail) == []
  {
    var sc := RegisterSchema;
    PassesAt(sc, entries, isEmail, 0);
    PassesAt(sc, entries, isEmail, 2);
    PassesAt(sc, entries, isEmail, 3);
    PassesAt(sc, entries, isEmail, 4);
    PassesAt(sc, entries, isEmail, 5);
    PassesAt(sc, entries, isEmail, 6);
  }

  /** A schema without failures has no failing key. */
  lemma PassesAt(schema: Schema, entries: seq<(string, Value)>, isEmail: string -> bool, i: nat)
    requires AllFieldErrors(schema, entries, isEmail) == [] && i < |schema|
    ensures FieldErrors(schema[i].0, schema[i].1, entries, isEmail) == []
  {
    NoErrorsIffEveryFieldPasses(schema, entries, isEmail);
  }

  /** A required text passes iff it is a string that stays non-empty after conversion and meets every declared bound. */
  lemma TextFieldPasses(key: string, k: Kind, entries: seq<(string, Value)>, isEmail: string -> bool)
    requires k.Text?
    ensures FieldErrors(key, Field(k, true), entries, isEmail) == [] <==>
      var v := Lookup(entries, key);
      v.Some? && v.value.Str? && Converted(k, v.value.s) != "" &&
      (k.minLength.Some? ==> k.minLength.value <= |Converted(k, v.value.s)|) &&
      (k.maxLength.Some? ==> |Converted(k, v.value.s)| <= k.maxLength.value) &&
      (k.pattern.Some? ==> Matches(k.pattern.value, Converted(k, v.value.s))) &&
      (k.email ==> isEmail(Converted(k, v.value.s)))
  {
  }

  /** Course and semester are needed only from students: for any other role they may be left out. */
  lemma CohortOptionalForStaff(entries: seq<(string, Value)>, isEmail: string -> bool)
    requires Lookup(entries, "role") != Some(Str("student"))
    requires Lookup(entries, "course").None? && Lookup(entries, "semester").None?
    ensures FieldErrors("course", CourseRule, entries, isEmail) == []
    ensures FieldErrors("semester", SemesterRule, entries, isEmail) == []
  {
    assert Resolve(CourseRule, entries) == Field(PlainText, false);
    assert Resolve(SemesterRule, entries) == Field(Number(false, None, None), false);
  }

  /** A registered e-mail is stored trimmed and lower-cased. */
  lemma RegisterCleansEmail(entries: seq<(string, Value)>, isEmail: string -> bool)
    requires Lookup(entries, "email").Some? && Lookup(entries, "email").value.Str?
    ensures ("email", Str(Lower(Trim(Lookup(entries, "email").value.s)))) in Sanitized(RegisterSchema, entries, isEmail)
  {
    var raw := Lookup(entries, "email").value.s;
    CleanedValueAt(RegisterSchema, entries, isEmail, 1);
    assert RegisterSchema[1] == ("email", EmailRule);
    assert Check("email", EmailRule.kind, Str(raw), isEmail).1 == Str(Lower(Trim(raw)));
  }

  /** Each schema key the input carries appears in the cleaned value with its converted value. */
  lemma {:induction false} CleanedValueAt(schema: Schema, entries: seq<(string, Value)>, isEmail: string -> bool, i: nat)
    requires i < |schema| && Lookup(entries, schema[i].0).Some?
    ensures var key := schema[i].0;
      (key, Check(key, Resolve(schema[i].1, entries).kind, Lookup(entries, key).value, isEmail).1) in Sanitized(schema, entries, isEmail)
  {
    if i > 0 {
      CleanedValueAt(schema[1..], entries, isEmail, i - 1);
      assert schema[1..][i - 1] == schema[i];
    }
  }

  /**
   * An accepted teacher query has a whole semester from 1 to 8 and, when
   * given, a whole month from 1 to 12, a whole year from 2020 to 2100 and an
   * `overall` of "true" or "false".
   */
  lemma TeacherQueryAccepted(entries: seq<(string, Value)>, isEmail: string -> bool)
    requires Errors(TeacherStudentsQuerySchema, Obj(entries), isEmail) == []
    ensures IsIntegerIn(Lookup(entries, "semester"), 1.0, 8.0)
    ensures Lookup(entries, "month").Some? ==> IsIntegerIn(Lookup(entries, "month"), 1.0, 12.0)
    ensures Lookup(entries, "year").Some? ==> IsIntegerIn(Lookup(entries, "year"), 2020.0, 2100.0)
    ensures Lookup(entries, "overall").Some? ==> Lookup(entries, "overall").value in [Str("true"), Str("false")]
  {
    SixKeys(TeacherStudentsQuerySchema, entries, isEmail);
  }

  /** A cancellation reason is accepted iff it has 5 to 500 characters once trimmed. */
  lemma CancelReasonLength(entries: seq<(string, Value)>, isEmail: string -> bool)
    ensures FieldErrors("reason", CancelClassSchema[1].1, entries, isEmail) == [] <==>
      var r := Lookup(entries, "reason");
      r.Some? && r.value.Str? && 5 <= |Trim(r.value.s)| <= 500
  {
  }

  /** The correction's reason may be left out; when given it has at most 500 characters once trimmed. */
  lemma UpdateReasonOptional(entries: seq<(string, Value)>, isEmail: string -> bool)
    ensures FieldErrors("reason", UpdateAttendanceSchema[3].1, entries, isEmail) == [] <==>
      var r := Lookup(entries, "reason");
      r.None? || (r.value.Str? && Trim(r.value.s) != "" && |Trim(r.value.s)| <= 500)
  {
  }

  // ---------------------------------------------------------------------
  // The patterns against the date and time readers
  // ---------------------------------------------------------------------

  /** An "HH:mm" time that passes the pattern reads as a minute of the day, 0 to 1439. */
  lemma ClockShapeIsMinuteOfDay(s: string)
    requires ClockShape(s)
    ensures ParseClock(s).Some? && 0 <= ParseClock(s).value <= 1439
  {
    assert FirstIndex(s, ':') == Some(2) by {
      assert s[..2] == [s[0], s[1]];
    }
    var rest := s[3..];
    assert FirstIndex(rest, ':') == None;
    var h := s[..2];
    var m := rest;
    assert AllDigits(h) && AllDigits(m);
    assert DigitsValue(h) == (s[0] as int - '0' as int) * 10 + (s[1] as int - '0' as int) by {
      assert h[..1] == [s[0]] && h[..1][..0] == [];
      assert DigitsValue(h[..1]) == s[0] as int - '0' as int;
    }
    assert DigitsValue(m) == (s[3] as int - '0' as int) * 10 + (s[4] as int - '0' as int) by {
      assert m[..1] == [s[3]] && m[..1][..0] == [];
      assert DigitsValue(m[..1]) == s[3] as int - '0' as int;
    }
  }

  /** The date pattern has no range check: a thirteenth month passes it and yet is an Invalid Date. */
  lemma DateShapeAdmitsInvalidDates()
    ensures DateShape("2025-13-01") && ParseDate("2025-13-01").None?
  {
    var s := "2025-13-01";
    assert s[5..7] == "13";
    assert DigitsValue("13") == 13 by { assert "13"[..1] == "1"; assert "1"[..0] == []; }
  }
}
