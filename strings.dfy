/**
 * Character classes and string conversions used by the request checks and
 * the controllers: ObjectId strings, JavaScript `trim`, `toLowerCase`,
 * `toString` and `padStart(2, "0")`.
 */
module Strings {
  import opened Options

  /** A MongoDB ObjectId in its canonical form: 24 lower-case hex digits. */
  type Id = string

  predicate IsDigit(c: char) { '0' <= c <= '9' }

  predicate IsHexDigit(c: char)
  {
    IsDigit(c) || 'a' <= c <= 'f' || 'A' <= c <= 'F'
  }

  predicate AllDigits(s: string)
  {
    forall i :: 0 <= i < |s| ==> IsDigit(s[i])
  }

  /** The regular expression `^[0-9a-fA-F]{24}$`. */
  predicate IsObjectId(s: string)
  {
    |s| == 24 && forall i :: 0 <= i < |s| ==> IsHexDigit(s[i])
  }

  predicate IsCanonicalId(s: string)
  {
    |s| == 24 && forall i :: 0 <= i < |s| ==> IsDigit(s[i]) || 'a' <= s[i] <= 'f'
  }

  function LowerChar(c: char): char
  {
    if 'A' <= c <= 'Z' then (c as int - 'A' as int + 'a' as int) as char else c
  }

  /** `s.toLowerCase()` on the ASCII letters. */
  function Lower(s: string): (r: string)
    ensures |r| == |s|
    ensures forall i :: 0 <= i < |s| ==> r[i] == LowerChar(s[i])
  {
    if s == [] then [] else [LowerChar(s[0])] + Lower(s[1..])
  }

  function HexDigit(n: nat): (c: char)
    requires n < 16
    ensures IsDigit(c) || 'a' <= c <= 'f'
  {
    if n < 10 then ('0' as int + n) as char else ('a' as int + n - 10) as char
  }

  /** Two lower-case hex digits of a byte. */
  function HexByte(n: nat): string
    requires n < 256
  {
    [HexDigit(n / 16), HexDigit(n % 16)]
  }

  predicate IsAscii(s: string)
  {
    forall i :: 0 <= i < |s| ==> s[i] as int < 128
  }

  function HexOfBytes(s: string): (r: string)
    requires IsAscii(s)
    ensures |r| == 2 * |s|
    ensures forall i :: 0 <= i < |r| ==> IsDigit(r[i]) || 'a' <= r[i] <= 'f'
  {
    if s == [] then [] else HexByte(s[0] as int) + HexOfBytes(s[1..])
  }

  /**
   * Casting a request string to an ObjectId, as the ODM does before a query:
   * 24 hex digits denote the id they spell (read case-insensitively), a
   * 12-character ASCII string denotes the id whose 12 bytes it holds, and
   * anything else is a cast error. The 12-character rule is that of bson 4
   * (Mongoose up to version 6); bson 6 casts only 24 hex digits.
   */
  function CastId(s: string): (r: Option<Id>)
    ensures r.Some? ==> IsCanonicalId(r.value)
    ensures IsObjectId(s) ==> r == Some(Lower(s))
    ensures r.None? <==> !IsObjectId(s) && !(|s| == 12 && IsAscii(s))
  {
    if IsObjectId(s) then
      assert forall i :: 0 <= i < |s| ==> IsDigit(Lower(s)[i]) || 'a' <= Lower(s)[i] <= 'f';
      Some(Lower(s))
    else if |s| == 12 && IsAscii(s) then Some(HexOfBytes(s))
    else None
  }

  /** A canonical id casts to itself, so ids read back from the store compare equal. */
  lemma CanonicalIdCastsToItself(s: string)
    requires IsCanonicalId(s)
    ensures CastId(s) == Some(s)
  {
    assert IsObjectId(s);
    assert Lower(s) == s;
  }

  /**
   * The characters JavaScript's `trim` removes: WhiteSpace (tab, vertical
   * tab, form feed, no-break space, the byte order mark and every space
   * separator) and LineTerminator.
   */
  predicate IsJsSpace(c: char)
  {
    var n := c as int;
    n == 0x09 || n == 0x0A || n == 0x0B || n == 0x0C || n == 0x0D || n == 0x20 ||
    n == 0xA0 || n == 0x1680 || (0x2000 <= n <= 0x200A) || n == 0x2028 || n == 0x2029 ||
    n == 0x202F || n == 0x205F || n == 0x3000 || n == 0xFEFF
  }

  function TrimStart(s: string): (r: string)
    ensures |r| <= |s| && r == s[|s| - |r|..]
    ensures r != [] ==> !IsJsSpace(r[0])
  {
    if s != [] && IsJsSpace(s[0]) then TrimStart(s[1..]) else s
  }

  function TrimEnd(s: string): (r: string)
    ensures |r| <= |s| && r == s[..|r|]
    ensures r != [] ==> !IsJsSpace(r[|r| - 1])
  {
    if s != [] && IsJsSpace(s[|s| - 1]) then TrimEnd(s[..|s| - 1]) else s
  }

  /** `s.trim()`: a slice of `s` that neither starts nor ends with white space. */
  function Trim(s: string): (r: string)
    ensures |r| <= |s|
    ensures r != [] ==> !IsJsSpace(r[0]) && !IsJsSpace(r[|r| - 1])
  {
    TrimEnd(TrimStart(s))
  }

  /** A string without surrounding white space is its own trim. */
  lemma TrimUntouched(s: string)
    requires s != [] ==> !IsJsSpace(s[0]) && !IsJsSpace(s[|s| - 1])
    ensures Trim(s) == s
  {
  }

  function DigitChar(d: nat): char
    requires d < 10
  {
    ('0' as int + d) as char
  }

  /** `n.toString()` for a natural number. */
  function NatToString(n: nat): (r: string)
    ensures r != [] && AllDigits(r)
  {
    if n < 10 then [DigitChar(n)] else NatToString(n / 10) + [DigitChar(n % 10)]
  }

  /** Value of a string of decimal digits; the empty string reads as 0. */
  function DigitsValue(s: string): (v: nat)
    requires AllDigits(s)
  {
    if s == [] then 0 else DigitsValue(s[..|s| - 1]) * 10 + (s[|s| - 1] as int - '0' as int)
  }

  lemma {:induction false} NatToStringRoundTrip(n: nat)
    ensures DigitsValue(NatToString(n)) == n
  {
    if n >= 10 {
      var r := NatToString(n);
      assert r[..|r| - 1] == NatToString(n / 10);
      NatToStringRoundTrip(n / 10);
    }
  }

  lemma {:induction false} LeadingDigitPositive(s: string)
    requires s != [] && AllDigits(s) && s[0] != '0'
    ensures DigitsValue(s) >= 1
  {
    if |s| > 1 {
      LeadingDigitPositive(s[..|s| - 1]);
    }
  }

  /**
   * The other direction of the round trip: a digit string without a leading
   * zero is the decimal form of its own value.
   */
  lemma {:induction false} DigitsRoundTrip(s: string)
    requires s != [] && AllDigits(s) && s[0] != '0'
    ensures NatToString(DigitsValue(s)) == s
  {
    if |s| > 1 {
      var init := s[..|s| - 1];
      LeadingDigitPositive(init);
      DigitsRoundTrip(init);
      var v := DigitsValue(s);
      assert v / 10 == DigitsValue(init) && v % 10 == s[|s| - 1] as int - '0' as int;
      assert s == init + [s[|s| - 1]];
    }
  }

  /** `n.toString().padStart(2, "0")`. */
  function PadTwo(n: nat): (r: string)
    ensures AllDigits(r)
    ensures n < 100 ==> |r| == 2 && DigitsValue(r) == n
  {
    var t := NatToString(n);
    NatToStringRoundTrip(n);
    if |t| < 2 then
      assert DigitsValue(['0'] + t) == n by {
        assert (['0'] + t)[..1] == ['0'];
      }
      ['0'] + t
    else t
  }

  /** Two digits are the padded form of their value ("07" for 7, "12" for 12). */
  lemma PadTwoRoundTrip(s: string)
    requires |s| == 2 && AllDigits(s)
    ensures PadTwo(DigitsValue(s)) == s
  {
    assert s[..1] == [s[0]];
    assert s[..1][..0] == [];
    assert DigitsValue(s[..1]) == s[0] as int - '0' as int;
    if s[0] == '0' {
      assert DigitsValue(s) < 10;
      assert s == ['0'] + [s[1]];
    } else {
      DigitsRoundTrip(s);
    }
  }
}
