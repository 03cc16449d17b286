/**
 * The pieces of JavaScript's Number and Date that the controllers and the
 * migration lean on, for the inputs they meet: `Number(part)` on a piece of
 * an "HH:MM" string, `new Date("YYYY-MM-DD")` followed by `setHours(h, m, 0)`,
 * and `getFullYear()` / `getMonth() + 1` of such a date. Instants are
 * milliseconds since the epoch, and local time is taken to be UTC.
 */
module JsDate {
  import opened Options
  import opened Strings

  const MillisPerMinute: int := 60000
  const MillisPerDay: int := 86400000

  /**
   * `Number(s)` for a string of decimal digits (the empty string reads as 0);
   * any other string is modelled as NaN (`None`).
   */
  function NumberOf(s: string): (r: Option<nat>)
    ensures r.Some? <==> AllDigits(s)
  {
    if AllDigits(s) then Some(DigitsValue(s)) else None
  }

  /** The longest prefix of `s` made of decimal digits. */
  function DigitPrefix(s: string): (r: string)
    ensures AllDigits(r) && |r| <= |s| && r == s[..|r|]
    ensures |r| < |s| ==> !IsDigit(s[|r|])
  {
    if s != [] && IsDigit(s[0]) then [s[0]] + DigitPrefix(s[1..]) else []
  }

  /** The longest prefix of `s` made of hexadecimal digits. */
  function HexPrefix(s: string): (r: string)
    ensures (forall i :: 0 <= i < |r| ==> IsHexDigit(r[i])) && |r| <= |s| && r == s[..|r|]
    ensures |r| < |s| ==> !IsHexDigit(s[|r|])
  {
    if s != [] && IsHexDigit(s[0]) then [s[0]] + HexPrefix(s[1..]) else []
  }

  function HexDigitValue(c: char): (v: nat)
    ensures v < 16
  {
    if '0' <= c <= '9' then c as int - '0' as int
    else if 'a' <= c <= 'f' then c as int - 'a' as int + 10
    else if 'A' <= c <= 'F' then c as int - 'A' as int + 10
    else 0
  }

  function HexValue(s: string): nat
  {
    if s == [] then 0 else HexValue(s[..|s| - 1]) * 16 + HexDigitValue(s[|s| - 1])
  }

  /**
   * `parseInt(s)` without a radix: leading white space and one sign are
   * skipped, a "0x" or "0X" prefix selects base 16, and the longest run of
   * digits that follows is read; no digit at all is NaN (`None`).
   */
  function ParseInt(s: string): (r: Option<int>)
  {
    var t := TrimStart(s);
    var negative := t != [] && t[0] == '-';
    var u := if t != [] && (t[0] == '-' || t[0] == '+') then t[1..] else t;
    var magnitude :=
      if |u| >= 2 && u[0] == '0' && (u[1] == 'x' || u[1] == 'X') then
        (var h := HexPrefix(u[2..]); if h == [] then None else Some(HexValue(h)))
      else
        (var d := DigitPrefix(u); if d == [] then None else Some(DigitsValue(d)));
    match magnitude
    case None => None
    case Some(n) => var v: int := n; Some(if negative then -v else v)
  }

  /** `parseInt` reads back the decimal form of every natural number. */
  lemma ParseIntOfDecimal(n: nat)
    ensures ParseInt(NatToString(n)) == Some(n)
  {
    var d := NatToString(n);
    NatToStringRoundTrip(n);
    DigitPrefixOfDigits(d);
    assert !IsJsSpace(d[0]);
    if |d| >= 2 {
      LeadingZeroOnlyAlone(n);
    }
  }

  lemma {:induction false} DigitPrefixOfDigits(s: string)
    requires AllDigits(s)
    ensures DigitPrefix(s) == s
  {
    if s != [] {
      DigitPrefixOfDigits(s[1..]);
    }
  }

  /** The decimal form of a number has no leading zero unless it is "0". */
  lemma {:induction false} LeadingZeroOnlyAlone(n: nat)
    ensures |NatToString(n)| >= 2 ==> NatToString(n)[0] != '0'
  {
    if n >= 10 {
      LeadingZeroOnlyAlone(n / 10);
      assert NatToString(n)[0] == NatToString(n / 10)[0];
    }
  }

  /** Trailing text after the digits is ignored. */
  lemma ParseIntStopsAtNonDigit()
    ensures ParseInt("3abc") == Some(3)
  {
    assert !IsJsSpace('3');
    assert TrimStart("3abc") == "3abc";
    assert DigitPrefix("3abc") == "3";
    assert DigitsValue("3") == 3 by { assert "3"[..0] == []; }
  }

  /** No leading digit is NaN. */
  lemma ParseIntNeedsADigit()
    ensures ParseInt("abc") == None
  {
    assert !IsJsSpace('a');
    assert TrimStart("abc") == "abc";
    assert DigitPrefix("abc") == [];
  }

  /** A leading zero does not select octal; "0x" selects hexadecimal. */
  lemma ParseIntPrefixes()
    ensures ParseInt("07") == Some(7)
    ensures ParseInt("0x1F") == Some(31)
  {
    assert !IsJsSpace('0');
    assert TrimStart("07") == "07" && TrimStart("0x1F") == "0x1F";
    assert DigitPrefix("07") == "07";
    assert DigitsValue("07") == 7 by { assert "07"[..1] == "0"; }
    assert HexPrefix("1F") == "1F";
    assert HexValue("1F") == 31 by { assert "1F"[..1] == "1"; }
  }

  /** Index of the first `c` in `s`, if any. */
  function FirstIndex(s: string, c: char): (r: Option<nat>)
    ensures r.Some? ==> r.value < |s| && s[r.value] == c && c !in s[..r.value]
    ensures r.None? ==> c !in s
  {
    if s == [] then None
    else if s[0] == c then Some(0)
    else match FirstIndex(s[1..], c)
      case None => None
      case Some(k) =>
        assert s[..k + 1] == [s[0]] + s[1..][..k];
        Some(k + 1)
  }

  /** `s.split(":")[0]` and, when a colon exists, `s.split(":")[1]`. */
  function ClockFields(s: string): (string, Option<string>)
  {
    match FirstIndex(s, ':')
    case None => (s, None)
    case Some(i) =>
      var rest := s[i + 1..];
      match FirstIndex(rest, ':')
      case None => (s[..i], Some(rest))
      case Some(j) => (s[..i], Some(rest[..j]))
  }

  /**
   * `const [h, m] = s.split(":").map(Number)` read as minutes after midnight:
   * `None` when either part is NaN, including a missing minute part.
   */
  function ParseClock(s: string): (r: Option<int>)
  {
    var (h, m) := ClockFields(s);
    if m.None? then None
    else match (NumberOf(h), NumberOf(m.value))
      case (Some(hh), Some(mm)) => Some(hh * 60 + mm)
      case _ => None
  }

  datatype CivilDate = CivilDate(year: int, month: int, day: int)

  /**
   * `new Date(s)` for the date-only form "YYYY-MM-DD": readable when month is
   * 01-12 and day is 01-31 (a day past the month's end rolls into the next
   * month, as the ECMAScript date arithmetic does); anything else is an
   * Invalid Date.
   */
  function ParseDate(s: string): (r: Option<CivilDate>)
    ensures r.Some? ==> 1 <= r.value.month <= 12 && 1 <= r.value.day <= 31 && 0 <= r.value.year <= 9999
  {
    if |s| == 10 && AllDigits(s[0..4]) && s[4] == '-' && AllDigits(s[5..7]) && s[7] == '-' && AllDigits(s[8..10])
    then
      var y, m, d := DigitsValue(s[0..4]), DigitsValue(s[5..7]), DigitsValue(s[8..10]);
      assert y <= 9999 by { DigitsBound(s[0..4]); }
      if 1 <= m <= 12 && 1 <= d <= 31 then Some(CivilDate(y, m, d)) else None
    else None
  }

  lemma {:induction false} DigitsBound(s: string)
    requires AllDigits(s)
    ensures DigitsValue(s) < Pow10(|s|)
  {
    if s != [] {
      DigitsBound(s[..|s| - 1]);
    }
  }

  function Pow10(n: nat): (r: nat)
    ensures r >= 1
  {
    if n == 0 then 1 else 10 * Pow10(n - 1)
  }

  predicate IsLeapYear(y: int)
  {
    (y % 4 == 0 && y % 100 != 0) || y % 400 == 0
  }

  function DaysInMonth(y: int, m: int): (n: int)
    requires 1 <= m <= 12
    ensures 28 <= n <= 31
  {
    if m == 2 then (if IsLeapYear(y) then 29 else 28)
    else if m == 4 || m == 6 || m == 9 || m == 11 then 30
    else 31
  }

  /** Days from 1970-01-01 to the given proleptic Gregorian date (day may exceed the month). */
  function DaysFromCivil(y: int, m: int, d: int): int
    requires 1 <= m <= 12
  {
    var y' := if m <= 2 then y - 1 else y;
    var era := y' / 400;
    var yoe := y' - era * 400;
    var doy := (153 * (if m > 2 then m - 3 else m + 9) + 2) / 5 + d - 1;
    var doe := yoe * 365 + yoe / 4 - yoe / 100 + doy;
    era * 146097 + doe - 719468
  }

  lemma EpochIsDayZero()
    ensures DaysFromCivil(1970, 1, 1) == 0
  {
  }

  /** The instant of `new Date(date)` (midnight at the start of that day). */
  function Midnight(date: string): Option<int>
  {
    match ParseDate(date)
    case None => None
    case Some(c) => Some(DaysFromCivil(c.year, c.month, c.day) * MillisPerDay)
  }

  /**
   * `const t = new Date(date); t.setHours(h, m, 0)` with `[h, m]` read from
   * `clock`: `None` is an Invalid Date (NaN time value).
   */
  function At(date: string, clock: string): (r: Option<int>)
    ensures r.Some? <==> Midnight(date).Some? && ParseClock(clock).Some?
    ensures r.Some? ==> r.value == Midnight(date).value + ParseClock(clock).value * MillisPerMinute
  {
    match (Midnight(date), ParseClock(clock))
    case (Some(t), Some(mins)) => Some(t + mins * MillisPerMinute)
    case _ => None
  }

  /**
   * `[d.getFullYear(), d.getMonth() + 1]` of `new Date(date)`, with a day
   * past the month's end carried into the following month.
   */
  function YearMonth(date: string): (r: Option<(int, int)>)
    ensures r.Some? <==> ParseDate(date).Some?
    ensures r.Some? ==> 1 <= r.value.1 <= 12 && 0 <= r.value.0
  {
    match ParseDate(date)
    case None => None
    case Some(c) =>
      if c.day <= DaysInMonth(c.year, c.month) then Some((c.year, c.month))
      else if c.month == 12 then Some((c.year + 1, 1))
      else Some((c.year, c.month + 1))
  }
}
