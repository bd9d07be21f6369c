/**
 * Calendar checks and the timezone suffix parser of the `cstr_` family:
 * `TM_YEAR_IS_LEAP`, `time_is_valid` and `cstr_parse_timezone`.
 */
module CStrDate {
  import opened CTypes

  /**
   * `TM_YEAR_IS_LEAP`, as its nested conditional reads. Only whether each
   * remainder is zero matters, and that is the same for C's truncating `%`
   * and Dafny's, so negative years need no special treatment.
   */
  predicate IsLeap(year: int) {
    if year % 4 != 0 then false
    else if year % 100 != 0 then true
    else year % 400 == 0
  }

  /** The Gregorian rule: divisible by 4, and either not by 100 or by 400. */
  lemma LeapRule(year: int)
    ensures IsLeap(year) <==> year % 4 == 0 && (year % 100 != 0 || year % 400 == 0)
  {
  }

  /** Some years under the rule: 2000 and 2024 are leap years, 1900 and 2023 are not. */
  lemma LeapExamples()
    ensures IsLeap(2000) && IsLeap(2024) && !IsLeap(1900) && !IsLeap(2023)
  {
  }

  /** Days of each month of a common year. */
  const MonthDays: seq<int> := [31, 28, 31, 30, 31, 30, 31, 31, 30, 31, 30, 31]

  /** Days of month `mon` (1 to 12) of `year`: February gains a day in a leap year. */
  function DaysInMonth(year: int, mon: int): (d: int)
    requires 1 <= mon <= 12
    ensures 28 <= d <= 31
    ensures d == 29 <==> mon == 2 && IsLeap(year)
  {
    if mon == 2 && IsLeap(year) then 29 else MonthDays[mon - 1]
  }

  /**
   * `time_is_valid`: the field ranges, then the day against the month: the
   * seven long months take any day up to 31, the four short ones up to 30,
   * and February up to 28, or 29 in a leap year.
   */
  function TimeIsValid(year: int, mon: int, day: int, hour: int, min: int, sec: int): (ok: bool)
    ensures ok ==> 1900 <= year <= 9999 && 1 <= mon <= 12 && 1 <= day <= 31
    ensures ok ==> 0 <= hour <= 24 && 0 <= min <= 59 && 0 <= sec <= 60
  {
    if year < 1900 || year > 9999 || mon <= 0 || mon > 12 || day <= 0 || day > 31
       || hour < 0 || hour > 24 || min < 0 || min > 59 || sec < 0 || sec > 60 then false
    else if mon == 1 || mon == 3 || mon == 5 || mon == 7 || mon == 8 || mon == 10 || mon == 12 then true
    else if mon == 4 || mon == 6 || mon == 9 || mon == 11 then day < 31
    else if day > 29 then false
    else if day < 29 then true
    else IsLeap(year)
  }

  /** `time_is_valid` accepts exactly the dates the calendar has, with the documented time ranges. */
  lemma TimeIsValidIffCalendarDate(year: int, mon: int, day: int, hour: int, min: int, sec: int)
    ensures TimeIsValid(year, mon, day, hour, min, sec) <==>
      && 1900 <= year <= 9999 && 1 <= mon <= 12 && 1 <= day <= DaysInMonth(year, mon)
      && 0 <= hour <= 24 && 0 <= min <= 59 && 0 <= sec <= 60
  {
  }

  /** February 29 is valid exactly in leap years. */
  lemma LeapDayValidIffLeapYear(year: int)
    requires 1900 <= year <= 9999
    ensures TimeIsValid(year, 2, 29, 0, 0, 0) <==> IsLeap(year)
  {
  }

  /** The sign a timezone suffix starts with: `+`/`E` east, `-`/`W` west, 0 for anything else. */
  function TzSign(c: char): (s: int)
    ensures s in {-1, 0, 1}
    ensures s == 1 <==> c == '+' || c == 'E'
    ensures s == -1 <==> c == '-' || c == 'W'
  {
    if c == '+' || c == 'E' then 1 else if c == '-' || c == 'W' then -1 else 0
  }

  /** The character at `i`, or NUL from the end of the string on. */
  function CharAt(s: CStr, i: nat): char {
    if i < |s| then s[i] else NUL
  }

  /** The shape `[+E-W]HH[:.]MM` and nothing after it. */
  predicate TzShape(tz: CStr) {
    && |tz| == 6 && TzSign(tz[0]) != 0
    && IsDigit(tz[1]) && IsDigit(tz[2]) && (tz[3] == ':' || tz[3] == '.')
    && IsDigit(tz[4]) && IsDigit(tz[5])
  }

  /** The two-digit number at `i` and `i + 1`. */
  function TwoDigits(s: seq<char>, i: nat): (v: int)
    requires i + 1 < |s| && IsDigit(s[i]) && IsDigit(s[i + 1])
    ensures 0 <= v <= 99
  {
    DigitValue(s[i]) * 10 + DigitValue(s[i + 1])
  }

  /**
   * `cstr_parse_timezone` as written: `sign * (HH * 100 + MM)` for a
   * suffix of the right shape with hours up to 23 and minutes up to 59,
   * and -1 for anything else.
   */
  function ParseTimezone(tz: CStr): (r: int)
    ensures -2359 <= r <= 2359
    ensures r != -1 ==> TzShape(tz) && TwoDigits(tz, 1) <= 23 && TwoDigits(tz, 4) <= 59
    ensures r != -1 ==> r == TzSign(tz[0]) * (TwoDigits(tz, 1) * 100 + TwoDigits(tz, 4))
  {
    var sign := TzSign(CharAt(tz, 0));
    if sign == 0 then -1
    else if IsDigit(CharAt(tz, 1)) && IsDigit(CharAt(tz, 2)) && (CharAt(tz, 3) == ':' || CharAt(tz, 3) == '.')
            && IsDigit(CharAt(tz, 4)) && IsDigit(CharAt(tz, 5)) && CharAt(tz, 6) == NUL then
      var h := TwoDigits(tz, 1);
      var m := TwoDigits(tz, 4);
      if h > 23 then -1
      else if m > 59 then -1
      else (h * 100 + m) * sign
    else -1
  }

  /** The suffix `sign HH sep MM` for a sign character, hours, minutes and separator. */
  function FormatTimezone(signChar: char, h: nat, m: nat, sep: char): (tz: CStr)
    requires TzSign(signChar) != 0 && h <= 23 && m <= 59 && (sep == ':' || sep == '.')
    ensures TzShape(tz)
  {
    [signChar, DigitChar(h / 10), DigitChar(h % 10), sep, DigitChar(m / 10), DigitChar(m % 10)]
  }

  /** A well-formed suffix parses to its signed `HHMM` value, whichever spelling of the sign and separator it uses. */
  lemma ParseFormatRoundTrip(signChar: char, h: nat, m: nat, sep: char)
    requires TzSign(signChar) != 0 && h <= 23 && m <= 59 && (sep == ':' || sep == '.')
    ensures ParseTimezone(FormatTimezone(signChar, h, m, sep)) == TzSign(signChar) * (h * 100 + m)
  {
    var tz := FormatTimezone(signChar, h, m, sep);
    assert TwoDigits(tz, 1) == h;
    assert TwoDigits(tz, 4) == m;
  }

  /** As written, one minute west of UTC parses to -1, the value that also reports an error. */
  lemma MinuteWestCollidesWithError()
    ensures ParseTimezone("-00:01") == -1
    ensures ParseTimezone("UTC") == -1
  {
    ParseFormatRoundTrip('-', 0, 1, ':');
    assert FormatTimezone('-', 0, 1, ':') == "-00:01";
  }

  /** The parser with its error kept apart from every offset. */
  function ParseTimezoneChecked(tz: CStr): (r: Option<int>)
    ensures r.Some? <==> TzShape(tz) && TwoDigits(tz, 1) <= 23 && TwoDigits(tz, 4) <= 59
    ensures r.Some? ==> -2359 <= r.value <= 2359
  {
    if TzShape(tz) && TwoDigits(tz, 1) <= 23 && TwoDigits(tz, 4) <= 59 then
      Some(TzSign(tz[0]) * (TwoDigits(tz, 1) * 100 + TwoDigits(tz, 4)))
    else None
  }

  /**
   * Every well-formed suffix parses to its own offset and nothing else is
   * taken for an offset, so "-00:01" is told apart from an error; where the
   * offset is not -1 the checked parser agrees with the original.
   */
  lemma ParseCheckedRoundTrip(signChar: char, h: nat, m: nat, sep: char, other: CStr)
    requires TzSign(signChar) != 0 && h <= 23 && m <= 59 && (sep == ':' || sep == '.')
    ensures ParseTimezoneChecked(FormatTimezone(signChar, h, m, sep)) == Some(TzSign(signChar) * (h * 100 + m))
    ensures ParseTimezoneChecked(other).None? ==> ParseTimezone(other) == -1
    ensures ParseTimezone(other) != -1 ==> ParseTimezoneChecked(other) == Some(ParseTimezone(other))
  {
    var tz := FormatTimezone(signChar, h, m, sep);
    assert TwoDigits(tz, 1) == h;
    assert TwoDigits(tz, 4) == m;
  }
}
