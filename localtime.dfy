/**
 * `getlocaltime_safe` and `timezone_format`: epoch seconds broken down
 * into a calendar date and time of day under the Gregorian leap rule, and
 * a timezone offset in seconds written as `+HHMM` or `-HHMM`.
 */
module LocalTime {
  import opened CTypes
  import CStrDate

  const SECONDS_PER_MINUTE: int := 60
  const SECONDS_PER_HOUR: int := 3600
  const SECONDS_PER_DAY: int := 86400

  /** Days of each month of a common year (`mean_mdays`) and of a leap year (`leap_mdays`). */
  const MEAN_MDAYS: seq<int> := [31, 28, 31, 30, 31, 30, 31, 31, 30, 31, 30, 31]
  const LEAP_MDAYS: seq<int> := [31, 29, 31, 30, 31, 30, 31, 31, 30, 31, 30, 31]

  /** The fields of `struct tm` the conversion fills in; `tmYear` counts from 1900 and `tmMon` from 0. */
  datatype Tm = Tm(tmSec: int, tmMin: int, tmHour: int, tmMday: int, tmMon: int,
                   tmYear: int, tmWday: int, tmYday: int, tmIsdst: int)

  /** The length of `year`: 365 days, one more in a leap year. */
  function YearDays(year: int): (n: int)
    ensures n == 365 || n == 366
    ensures n == 366 <==> CStrDate.IsLeap(year)
  {
    365 + (if CStrDate.IsLeap(year) then 1 else 0)
  }

  /** The days from 1970-01-01 to the first day of `year`. */
  function DaysBefore(year: int): (n: nat)
    requires year >= 1970
    decreases year - 1970
  {
    if year == 1970 then 0 else DaysBefore(year - 1) + YearDays(year - 1)
  }

  /** The days of the first `mon` months of `year`. */
  function DaysBeforeMonth(year: int, mon: nat): (n: nat)
    requires mon <= 12
  {
    if mon == 0 then 0 else DaysBeforeMonth(year, mon - 1) + CStrDate.DaysInMonth(year, mon)
  }

  /** The table the month walk uses for `year`. */
  function MonthTable(year: int): (t: seq<int>)
    ensures |t| == 12
  {
    if CStrDate.IsLeap(year) then LEAP_MDAYS else MEAN_MDAYS
  }

  /** Each entry of the table is the length of that month under the leap rule. */
  lemma MonthTableDays(year: int, mon: nat)
    requires mon < 12
    ensures MonthTable(year)[mon] == CStrDate.DaysInMonth(year, mon + 1)
  {
  }

  /** The twelve months fill the year. */
  lemma MonthsFillYear(year: int)
    ensures DaysBeforeMonth(year, 12) == YearDays(year)
  {
    var feb := CStrDate.DaysInMonth(year, 2);
    assert DaysBeforeMonth(year, 1) == 31;
    assert DaysBeforeMonth(year, 2) == 31 + feb;
    assert DaysBeforeMonth(year, 3) == 62 + feb;
    assert DaysBeforeMonth(year, 4) == 92 + feb;
    assert DaysBeforeMonth(year, 5) == 123 + feb;
    assert DaysBeforeMonth(year, 6) == 153 + feb;
    assert DaysBeforeMonth(year, 7) == 184 + feb;
    assert DaysBeforeMonth(year, 8) == 215 + feb;
    assert DaysBeforeMonth(year, 9) == 245 + feb;
    assert DaysBeforeMonth(year, 10) == 276 + feb;
    assert DaysBeforeMonth(year, 11) == 306 + feb;
  }

  /** `t - tz + 3600 * dst`: the epoch seconds moved into the local zone and daylight time. */
  function Adjusted(t: int, tz: int, dst: int): int {
    t - tz + SECONDS_PER_HOUR * dst
  }

  /**
   * `loc` is the broken-down form of the non-negative second count `tp`:
   * the time of day is the remainder of a day, the weekday counts from the
   * Thursday of 1970-01-01, whole years from 1970 plus the day of the year
   * make up the whole days, and the month and its day are the ones the day
   * of the year falls in.
   */
  ghost predicate BrokenDown(tp: nat, loc: Tm) {
    && 0 <= loc.tmHour <= 23 && 0 <= loc.tmMin <= 59 && 0 <= loc.tmSec <= 59
    && loc.tmHour * SECONDS_PER_HOUR + loc.tmMin * SECONDS_PER_MINUTE + loc.tmSec == tp % SECONDS_PER_DAY
    && loc.tmWday == (tp / SECONDS_PER_DAY + 4) % 7
    && loc.tmYear + 1900 >= 1970
    && 0 <= loc.tmYday < YearDays(loc.tmYear + 1900)
    && DaysBefore(loc.tmYear + 1900) + loc.tmYday == tp / SECONDS_PER_DAY
    && 0 <= loc.tmMon <= 11
    && 1 <= loc.tmMday <= CStrDate.DaysInMonth(loc.tmYear + 1900, loc.tmMon + 1)
    && DaysBeforeMonth(loc.tmYear + 1900, loc.tmMon) + loc.tmMday - 1 == loc.tmYday
  }

  /** The time of day C's truncating `/` and `%` give for a non-negative second count. */
  lemma TimeOfDay(tp: nat)
    ensures var seconds := CRem(tp, SECONDS_PER_DAY);
      var hour := CDiv(seconds, SECONDS_PER_HOUR);
      var min := CDiv(CRem(seconds, SECONDS_PER_HOUR), SECONDS_PER_MINUTE);
      var sec := CRem(CRem(seconds, SECONDS_PER_HOUR), SECONDS_PER_MINUTE);
      && 0 <= hour <= 23 && 0 <= min <= 59 && 0 <= sec <= 59
      && hour * SECONDS_PER_HOUR + min * SECONDS_PER_MINUTE + sec == tp % SECONDS_PER_DAY
  {
    var seconds := tp % SECONDS_PER_DAY;
    assert seconds == (seconds / 3600) * 3600 + (seconds % 3600);
    var rest := seconds % 3600;
    assert rest == (rest / 60) * 60 + rest % 60;
  }

  /**
   * The year walk of `getlocaltime_safe`: takes whole years from 1970 off
   * `days` while a whole year still fits, leaving the day of the year.
   */
  method WalkYears(days: int) returns (year: int, yday: int)
    ensures year >= 1970 && DaysBefore(year) + yday == days
    ensures days >= 0 ==> 0 <= yday < YearDays(year)
    ensures days < 0 ==> year == 1970 && yday == days
  {
    year := 1970;
    yday := days;
    while YearDays(year) <= yday
      invariant year >= 1970
      invariant DaysBefore(year) + yday == days
      invariant days >= 0 ==> yday >= 0
      invariant days < 0 ==> year == 1970 && yday == days
      decreases yday
    {
      yday := yday - YearDays(year);
      year := year + 1;
    }
  }

  /**
   * The month walk of `getlocaltime_safe`: takes whole months of `year` off
   * the day of the year while a whole month still fits, using the leap or
   * common table, and returns the 0-based month and the 1-based day.
   */
  method WalkMonths(year: int, yday: int) returns (mon: int, mday: int)
    requires yday < YearDays(year)
    ensures yday >= 0 ==> 0 <= mon <= 11 && 1 <= mday <= CStrDate.DaysInMonth(year, mon + 1)
    ensures yday >= 0 ==> DaysBeforeMonth(year, mon) + mday - 1 == yday
    ensures yday < 0 ==> mon == 0 && mday == yday + 1
  {
    var days := yday;
    var mdays := MonthTable(year);
    mon := 0;
    MonthsFillYear(year);
    while days >= mdays[mon]
      invariant 0 <= mon <= 11
      invariant DaysBeforeMonth(year, mon) + days == yday
      invariant yday >= 0 ==> days >= 0
      invariant yday < 0 ==> mon == 0 && days == yday
      decreases 11 - mon
    {
      MonthTableDays(year, mon);
      if mon == 11 {
        assert false;
      }
      days := days - mdays[mon];
      mon := mon + 1;
    }
    MonthTableDays(year, mon);
    mday := days + 1;
  }

  /**
   * `getlocaltime_safe`: adjusts `t` for the zone and daylight time, splits
   * off the time of day with C's truncating `/` and `%`, then walks whole
   * years from 1970 and whole months of the year found. For a non-negative
   * adjusted time the result is its broken-down form; for a negative one
   * the walk does not start, so the year stays 1970 and the month January.
   */
  method GetLocalTimeSafe(t: int, tz: int, dst: int) returns (loc: Tm)
    ensures loc.tmIsdst == dst
    ensures Adjusted(t, tz, dst) >= 0 ==> BrokenDown(Adjusted(t, tz, dst), loc)
    ensures Adjusted(t, tz, dst) < 0 ==>
      loc.tmYear == 70 && loc.tmMon == 0 && loc.tmYday <= 0 && loc.tmMday == loc.tmYday + 1
  {
    var tp := Adjusted(t, tz, dst);
    var days := CDiv(tp, SECONDS_PER_DAY);
    var seconds := CRem(tp, SECONDS_PER_DAY);
    var hour := CDiv(seconds, SECONDS_PER_HOUR);
    var min := CDiv(CRem(seconds, SECONDS_PER_HOUR), SECONDS_PER_MINUTE);
    var sec := CRem(CRem(seconds, SECONDS_PER_HOUR), SECONDS_PER_MINUTE);
    var wday := CRem(days + 4, 7);
    var year, yday := WalkYears(days);
    var mon, mday := WalkMonths(year, yday);
    loc := Tm(sec, min, hour, mday, mon, year - 1900, wday, yday, dst);
    if tp >= 0 {
      BrokenDownOfWalk(tp, year, yday, mon, mday, loc);
    } else {
      assert days <= 0;
    }
  }

  /** The fields `getlocaltime_safe` computes from a non-negative `tp` and its walks make up its broken-down form. */
  lemma BrokenDownOfWalk(tp: nat, year: int, yday: int, mon: int, mday: int, loc: Tm)
    requires year >= 1970 && DaysBefore(year) + yday == CDiv(tp, SECONDS_PER_DAY) && 0 <= yday < YearDays(year)
    requires 0 <= mon <= 11 && 1 <= mday <= CStrDate.DaysInMonth(year, mon + 1)
    requires DaysBeforeMonth(year, mon) + mday - 1 == yday
    requires var seconds := CRem(tp, SECONDS_PER_DAY);
      && loc.tmSec == CRem(CRem(seconds, SECONDS_PER_HOUR), SECONDS_PER_MINUTE)
      && loc.tmMin == CDiv(CRem(seconds, SECONDS_PER_HOUR), SECONDS_PER_MINUTE)
      && loc.tmHour == CDiv(seconds, SECONDS_PER_HOUR)
      && loc.tmWday == CRem(CDiv(tp, SECONDS_PER_DAY) + 4, 7)
    requires loc.tmMday == mday && loc.tmMon == mon && loc.tmYear == year - 1900 && loc.tmYday == yday
    ensures BrokenDown(tp, loc)
  {
    TimeOfDay(tp);
  }

  /** Whole years are counted in order: a later year starts after the earlier one ends. */
  lemma {:induction false} DaysBeforeGrows(y1: int, y2: int)
    requires 1970 <= y1 < y2
    ensures DaysBefore(y1) + YearDays(y1) <= DaysBefore(y2)
    decreases y2 - y1
  {
    if y2 > y1 + 1 {
      DaysBeforeGrows(y1, y2 - 1);
    }
  }

  /** Months are counted in order within a year. */
  lemma {:induction false} DaysBeforeMonthGrows(year: int, m1: nat, m2: nat)
    requires m1 < m2 <= 12
    ensures DaysBeforeMonth(year, m1) + CStrDate.DaysInMonth(year, m1 + 1) <= DaysBeforeMonth(year, m2)
    decreases m2 - m1
  {
    if m2 > m1 + 1 {
      DaysBeforeMonthGrows(year, m1, m2 - 1);
    }
  }

  /** A count of seconds below a day splits into one hour, minute and second. */
  lemma TimeOfDayUnique(h1: int, m1: int, s1: int, h2: int, m2: int, s2: int)
    requires 0 <= m1 <= 59 && 0 <= s1 <= 59 && 0 <= m2 <= 59 && 0 <= s2 <= 59
    requires h1 * 3600 + m1 * 60 + s1 == h2 * 3600 + m2 * 60 + s2
    ensures h1 == h2 && m1 == m2 && s1 == s2
  {
    var dh := h1 - h2;
    assert dh * 3600 == (m2 * 60 + s2) - (m1 * 60 + s1);
    var dm := m1 - m2;
    assert dh == 0;
    assert dm * 60 == s2 - s1;
  }

  /**
   * The broken-down form is unique: two results for the same second count
   * agree on every calendar and clock field, so the contract of
   * `GetLocalTimeSafe` determines its result.
   */
  lemma BrokenDownUnique(tp: nat, a: Tm, b: Tm)
    requires BrokenDown(tp, a) && BrokenDown(tp, b)
    ensures a.(tmIsdst := 0) == b.(tmIsdst := 0)
  {
    var ya, yb := a.tmYear + 1900, b.tmYear + 1900;
    if ya < yb {
      DaysBeforeGrows(ya, yb);
    } else if yb < ya {
      DaysBeforeGrows(yb, ya);
    }
    assert ya == yb;
    if a.tmMon < b.tmMon {
      DaysBeforeMonthGrows(ya, a.tmMon, b.tmMon);
    } else if b.tmMon < a.tmMon {
      DaysBeforeMonthGrows(ya, b.tmMon, a.tmMon);
    }
    TimeOfDayUnique(a.tmHour, a.tmMin, a.tmSec, b.tmHour, b.tmMin, b.tmSec);
  }

  /** Decimal digits of `n`, at least two, as `%02d` prints a non-negative number. */
  function Pad2(n: nat): (s: seq<char>)
    ensures |s| >= 2
    ensures n < 100 ==> s == [DigitChar(n / 10), DigitChar(n % 10)]
  {
    if n < 100 then [DigitChar(n / 10), DigitChar(n % 10)]
    else Pad2(n / 10) + [DigitChar(n % 10)]
  }

  /**
   * The five characters `timezone_format` writes for `tz` seconds west of
   * UTC: `+` for a zone east of UTC (negative `tz`) and `-` for one west of
   * it, then the hours and the minutes of the truncated quotients, cut to
   * five characters as the 6-byte `snprintf` does; `+0000` for UTC.
   */
  function TzText(tz: int): (s: seq<char>)
    ensures |s| == 5
    ensures s[0] == (if tz > 0 then '-' else '+')
  {
    if tz == 0 then "+0000"
    else
      var h := Abs(CDiv(tz, SECONDS_PER_HOUR));
      var m := Abs(CDiv(CRem(tz, SECONDS_PER_HOUR), SECONDS_PER_MINUTE));
      ([if tz < 0 then '+' else '-'] + Pad2(h) + Pad2(m))[..5]
  }

  /**
   * `timezone_format`: writes the text of `tz` into `tzfmt[0..5]` and a NUL
   * at index 5, and nothing else.
   */
  method TimezoneFormat(tz: int, tzfmt: array<char>)
    requires tzfmt.Length >= 6
    modifies tzfmt
    ensures tzfmt[..6] == TzText(tz) + [NUL]
    ensures tzfmt[6..] == old(tzfmt[6..])
  {
    var text := TzText(tz);
    var i := 0;
    while i < 5
      invariant 0 <= i <= 5
      invariant tzfmt[..i] == text[..i]
      invariant tzfmt[6..] == old(tzfmt[6..])
    {
      tzfmt[i] := text[i];
      i := i + 1;
    }
    tzfmt[5] := NUL;
  }

  /** The value of a formatted offset read back, in minutes east of UTC. */
  function TzTextMinutes(s: seq<char>): int
    requires |s| == 5 && forall i :: 1 <= i < 5 ==> IsDigit(s[i])
  {
    (if s[0] == '-' then -1 else 1) *
      ((DigitValue(s[1]) * 10 + DigitValue(s[2])) * 60 + DigitValue(s[3]) * 10 + DigitValue(s[4]))
  }

  /**
   * For a zone less than 100 hours from UTC the text is a sign and four
   * digits, and reading it back gives the offset east of UTC in whole
   * minutes, truncated toward zero.
   */
  lemma TzTextRoundTrip(tz: int)
    requires -360000 < tz < 360000
    ensures forall i :: 1 <= i < 5 ==> IsDigit(TzText(tz)[i])
    ensures TzTextMinutes(TzText(tz)) == -CDiv(tz, SECONDS_PER_MINUTE)
  {
    if tz != 0 {
      var a := Abs(tz);
      var h := Abs(CDiv(tz, SECONDS_PER_HOUR));
      var m := Abs(CDiv(CRem(tz, SECONDS_PER_HOUR), SECONDS_PER_MINUTE));
      assert h == a / 3600;
      assert m == (a % 3600) / 60;
      assert Abs(CDiv(tz, SECONDS_PER_MINUTE)) == a / 60 == h * 60 + m;
      var s := TzText(tz);
      assert s == [if tz < 0 then '+' else '-'] + Pad2(h) + Pad2(m);
    }
  }
}
