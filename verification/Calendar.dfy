/** Seconds since the epoch as a UTC date, and the "touch -t" argument built from it. */
module Calendar {
  import opened Optional

  const SECONDS_PER_DAY: int := 86400
  const DAYS_BEFORE_1970: int := 719162      // from 0001-01-01
  const FIRST_SECOND: int := -62135596800    // 0001-01-01 00:00:00
  const LAST_SECOND: int := 253402300799     // 9999-12-31 23:59:59

  datatype Tm = Tm(year: int, month: int, day: int, hour: int, minute: int, second: int)

  // ----- the reference: the proleptic Gregorian calendar -----

  predicate IsLeap(year: int) {
    year % 4 == 0 && (year % 100 != 0 || year % 400 == 0)
  }

  /** Days from 0001-01-01 to the first of January of `year`. */
  function DaysBeforeYear(year: int): int {
    365 * (year - 1) + (year - 1) / 4 - (year - 1) / 100 + (year - 1) / 400
  }

  function DaysInMonth(leap: bool, month: int): int
    requires 1 <= month <= 12
  {
    if month == 2 then (if leap then 29 else 28)
    else if month == 4 || month == 6 || month == 9 || month == 11 then 30
    else 31
  }

  function DaysBeforeMonth(leap: bool, month: int): int
    requires 1 <= month <= 13
    decreases month
  {
    if month == 1 then 0 else DaysBeforeMonth(leap, month - 1) + DaysInMonth(leap, month - 1)
  }

  predicate IsDate(tm: Tm) {
    && 1 <= tm.month <= 12 && 1 <= tm.day <= DaysInMonth(IsLeap(tm.year), tm.month)
    && 0 <= tm.hour < 24 && 0 <= tm.minute < 60 && 0 <= tm.second < 60
  }

  /** Seconds since the epoch (POSIX XBD section 4.16, extended to every year). */
  function Epoch(tm: Tm): int
    requires IsDate(tm)
  {
    (DaysBeforeYear(tm.year) + DaysBeforeMonth(IsLeap(tm.year), tm.month) + tm.day - 1 - DAYS_BEFORE_1970) * SECONDS_PER_DAY
    + tm.hour * 3600 + tm.minute * 60 + tm.second
  }

  // ----- gmtime_r -----

  function Min3(n: int): int {
    if n < 3 then n else 3
  }

  /** The year a day falls in, and the day of that year, by cycles of 400, 100, 4 and 1 years. */
  function YearAndDay(days: int): (int, int) {
    var e, inE := days / 146097, days % 146097;
    var c := Min3(inE / 36524);
    var inC := inE - c * 36524;
    var q, inQ := inC / 1461, inC % 1461;
    var y := Min3(inQ / 365);
    (400 * e + 100 * c + 4 * q + y + 1, inQ - 365 * y)
  }

  function MonthOf(leap: bool, doy: int): (m: int)
    requires 0 <= doy < 366
    ensures 1 <= m <= 12
  {
    var k := if leap then 1 else 0;
    if doy < 31 then 1 else if doy < 59 + k then 2 else if doy < 90 + k then 3 else if doy < 120 + k then 4
    else if doy < 151 + k then 5 else if doy < 181 + k then 6 else if doy < 212 + k then 7 else if doy < 243 + k then 8
    else if doy < 273 + k then 9 else if doy < 304 + k then 10 else if doy < 334 + k then 11 else 12
  }

  lemma YearAndDayIsRight(days: int)
    ensures var (year, doy) := YearAndDay(days);
      0 <= doy < (if IsLeap(year) then 366 else 365) && days == DaysBeforeYear(year) + doy
  {
    var e, inE := days / 146097, days % 146097;
    var c := Min3(inE / 36524);
    var inC := inE - c * 36524;
    var q, inQ := inC / 1461, inC % 1461;
    var y := Min3(inQ / 365);
    assert 0 <= inC <= 36524 && (c < 3 ==> inC < 36524);
    assert 0 <= q <= 24;
    CycleCounts(e, c, q, y);
  }

  lemma CycleCounts(e: int, c: int, q: int, y: int)
    requires 0 <= c <= 3 && 0 <= q <= 24 && 0 <= y <= 3
    ensures DaysBeforeYear(400 * e + 100 * c + 4 * q + y + 1) == 146097 * e + 36524 * c + 1461 * q + 365 * y
    ensures IsLeap(400 * e + 100 * c + 4 * q + y + 1) <==> y == 3 && (q != 24 || c == 3)
  {
    hide IsLeap;
    var n := 400 * e + 100 * c + 4 * q + y;
    assert n / 4 == 100 * e + 25 * c + q;
    assert n / 100 == 4 * e + c;
    assert n / 400 == e;
    CycleLeap(e, c, q, y);
  }

  lemma CycleLeap(e: int, c: int, q: int, y: int)
    requires 0 <= c <= 3 && 0 <= q <= 24 && 0 <= y <= 3
    ensures IsLeap(400 * e + 100 * c + 4 * q + y + 1) <==> y == 3 && (q != 24 || c == 3)
  {
    hide IsLeap;
    var year := 400 * e + 100 * c + 4 * q + y + 1;
    if y < 3 {
      Remainder4(100 * e + 25 * c + q, y + 1);
      LeapBy(year, y + 1, 1, 1);
    } else if q < 24 {
      Remainder4(100 * e + 25 * c + q + 1, 0);
      Remainder100(4 * e + c, 4 * q + 4);
      LeapBy(year, 0, 4 * q + 4, 1);
    } else if c < 3 {
      Remainder4(100 * e + 25 * c + 25, 0);
      Remainder100(4 * e + c + 1, 0);
      Remainder400(e, 100 * c + 100);
      LeapBy(year, 0, 0, 100 * c + 100);
    } else {
      Remainder4(100 * e + 100, 0);
      Remainder100(4 * e + 4, 0);
      Remainder400(e + 1, 0);
      LeapBy(year, 0, 0, 0);
    }
  }

  /** The leap rule from the remainders that matter. */
  lemma LeapBy(year: int, by4: int, by100: int, by400: int)
    requires year % 4 == by4 && (by4 == 0 ==> year % 100 == by100) && (by4 == 0 && by100 == 0 ==> year % 400 == by400)
    ensures IsLeap(year) <==> by4 == 0 && (by100 != 0 || by400 == 0)
  {
  }

  lemma Remainder4(n: int, r: int)
    requires 0 <= r < 4
    ensures (4 * n + r) % 4 == r
  {
  }

  lemma Remainder100(n: int, r: int)
    requires 0 <= r < 100
    ensures (100 * n + r) % 100 == r
  {
  }

  lemma Remainder400(n: int, r: int)
    requires 0 <= r < 400
    ensures (400 * n + r) % 400 == r
  {
  }

  lemma MonthTable(leap: bool)
    ensures var k := if leap then 1 else 0;
      && DaysBeforeMonth(leap, 1) == 0 && DaysBeforeMonth(leap, 2) == 31 && DaysBeforeMonth(leap, 3) == 59 + k
      && DaysBeforeMonth(leap, 4) == 90 + k && DaysBeforeMonth(leap, 5) == 120 + k && DaysBeforeMonth(leap, 6) == 151 + k
      && DaysBeforeMonth(leap, 7) == 181 + k && DaysBeforeMonth(leap, 8) == 212 + k && DaysBeforeMonth(leap, 9) == 243 + k
      && DaysBeforeMonth(leap, 10) == 273 + k && DaysBeforeMonth(leap, 11) == 304 + k && DaysBeforeMonth(leap, 12) == 334 + k
      && DaysBeforeMonth(leap, 13) == 365 + k
  {
    assert DaysBeforeMonth(leap, 3) == DaysBeforeMonth(leap, 2) + DaysInMonth(leap, 2);
    assert DaysBeforeMonth(leap, 5) == DaysBeforeMonth(leap, 4) + DaysInMonth(leap, 4);
    assert DaysBeforeMonth(leap, 7) == DaysBeforeMonth(leap, 6) + DaysInMonth(leap, 6);
    assert DaysBeforeMonth(leap, 9) == DaysBeforeMonth(leap, 8) + DaysInMonth(leap, 8);
    assert DaysBeforeMonth(leap, 11) == DaysBeforeMonth(leap, 10) + DaysInMonth(leap, 10);
    assert DaysBeforeMonth(leap, 13) == DaysBeforeMonth(leap, 12) + DaysInMonth(leap, 12);
  }

  lemma MonthOfIsRight(leap: bool, doy: int)
    requires 0 <= doy < if leap then 366 else 365
    ensures var m := MonthOf(leap, doy);
      DaysBeforeMonth(leap, m) <= doy < DaysBeforeMonth(leap, m) + DaysInMonth(leap, m)
  {
    MonthTable(leap);
  }

  /** A day of a year and a second of that day, broken down. */
  function TmOf(year: int, doy: int, secs: int): Tm
    requires 0 <= doy < 366
  {
    var month := MonthOf(IsLeap(year), doy);
    Tm(year, month, doy - DaysBeforeMonth(IsLeap(year), month) + 1, secs / 3600, secs / 60 % 60, secs % 60)
  }

  /** The broken-down UTC time, whatever the year. */
  function CivilTime(t: int): Tm {
    var days := t / SECONDS_PER_DAY + DAYS_BEFORE_1970;
    YearAndDayIsRight(days);
    TmOf(YearAndDay(days).0, YearAndDay(days).1, t % SECONDS_PER_DAY)
  }

  /** It is a date, and the one of that second. */
  lemma CivilTimeIsRight(t: int)
    ensures IsDate(CivilTime(t)) && Epoch(CivilTime(t)) == t
  {
    var days, secs := t / SECONDS_PER_DAY, t % SECONDS_PER_DAY;
    var (year, doy) := YearAndDay(days + DAYS_BEFORE_1970);
    YearAndDayIsRight(days + DAYS_BEFORE_1970);
    MonthOfIsRight(IsLeap(year), doy);
    assert secs == secs / 3600 * 3600 + secs / 60 % 60 * 60 + secs % 60 by {
      assert secs / 60 / 60 == secs / 3600;
    }
  }

  /** The day of the year of a date lies within the year, and months do not overlap. */
  lemma DayOfYear(tm: Tm)
    requires IsDate(tm)
    ensures var doy := DaysBeforeMonth(IsLeap(tm.year), tm.month) + tm.day - 1;
      0 <= doy < (if IsLeap(tm.year) then 366 else 365) && MonthOf(IsLeap(tm.year), doy) == tm.month
  {
    MonthTable(IsLeap(tm.year));
  }

  /** A date has one second and a second has one date: the conversion is the inverse of Epoch both ways. */
  lemma CivilTimeOfEpoch(tm: Tm)
    requires IsDate(tm)
    ensures CivilTime(Epoch(tm)) == tm
  {
    hide YearAndDay, MonthOf, DaysBeforeYear, DaysBeforeMonth, IsLeap;
    var doy := DaysBeforeMonth(IsLeap(tm.year), tm.month) + tm.day - 1;
    var days := DaysBeforeYear(tm.year) + doy;
    DayOfYear(tm);
    SplitSeconds(days - DAYS_BEFORE_1970, tm.hour, tm.minute, tm.second);
    YearAndDayIsOnly(tm.year, doy);
    assert CivilTime(Epoch(tm)) == TmOf(tm.year, doy, Epoch(tm) % SECONDS_PER_DAY);
  }

  lemma YearAndDayIsOnly(year: int, doy: int)
    requires 0 <= doy < if IsLeap(year) then 366 else 365
    ensures YearAndDay(DaysBeforeYear(year) + doy) == (year, doy)
  {
    var days := DaysBeforeYear(year) + doy;
    YearAndDayIsRight(days);
    SameYear(year, doy, YearAndDay(days).0, YearAndDay(days).1);
  }

  lemma SplitSeconds(d: int, h: int, m: int, s: int)
    requires 0 <= h < 24 && 0 <= m < 60 && 0 <= s < 60
    ensures var t := d * SECONDS_PER_DAY + h * 3600 + m * 60 + s; var secs := t % SECONDS_PER_DAY;
      t / SECONDS_PER_DAY == d && secs / 3600 == h && secs / 60 % 60 == m && secs % 60 == s
  {
    var t, secs := d * SECONDS_PER_DAY + h * 3600 + m * 60 + s, h * 3600 + m * 60 + s;
    assert 0 <= secs < SECONDS_PER_DAY && t / SECONDS_PER_DAY == d && t % SECONDS_PER_DAY == secs;
    assert secs / 60 == h * 60 + m;
  }

  lemma SameYear(a: int, i: int, b: int, j: int)
    requires 0 <= i < (if IsLeap(a) then 366 else 365) && 0 <= j < (if IsLeap(b) then 366 else 365)
    requires DaysBeforeYear(a) + i == DaysBeforeYear(b) + j
    ensures a == b && i == j
  {
    YearLength(a);
    YearLength(b);
    if a < b {
      YearStartsGrow(a + 1, b);
    } else if b < a {
      YearStartsGrow(b + 1, a);
    }
  }

  /** tm_year is a 32-bit int; gmtime_r fails when it cannot hold the year. */
  function GmtimeR(t: int): Option<Tm> {
    var tm := CivilTime(t);
    if -0x8000_0000 <= tm.year - 1900 <= 0x7FFF_FFFF then Some(tm) else None
  }

  // ----- the argument of touch -t -----

  function Digit(d: int): char
    requires 0 <= d < 10
  {
    '0' + d as char
  }

  function TwoDigits(n: int): (s: string)
    requires 0 <= n < 100
    ensures |s| == 2
  {
    [Digit(n / 10), Digit(n % 10)]
  }

  function FourDigits(n: int): (s: string)
    requires 0 <= n < 10000
    ensures |s| == 4
  {
    TwoDigits(n / 100) + TwoDigits(n % 100)
  }

  function Fields(tm: Tm): string
    requires 0 <= tm.year < 10000 && 0 <= tm.month < 100 && 0 <= tm.day < 100
    requires 0 <= tm.hour < 100 && 0 <= tm.minute < 100 && 0 <= tm.second < 100
  {
    FourDigits(tm.year) + TwoDigits(tm.month) + TwoDigits(tm.day) + TwoDigits(tm.hour)
    + TwoDigits(tm.minute) + "." + TwoDigits(tm.second)
  }

  /** CCYYMMDDhhmm.ss, or nothing for a time that cannot be written that way. */
  function FormatTouchTArg(epochSeconds: int): Option<string> {
    match GmtimeR(epochSeconds)
    case None => None
    case Some(tm) =>
      if tm.year < 1 || tm.year > 9999 || tm.month < 1 || tm.month > 12 || tm.day < 1 || tm.day > 31
        || tm.hour < 0 || tm.hour > 23 || tm.minute < 0 || tm.minute > 59 || tm.second < 0 || tm.second > 60
      then None
      else Some(Fields(tm))
  }

  predicate IsDigit(c: char) {
    '0' <= c <= '9'
  }

  function DigitValue(c: char): int
    requires IsDigit(c)
  {
    c as int - '0' as int
  }

  function ReadTwo(s: string, i: nat): (v: int)
    requires i + 2 <= |s| && IsDigit(s[i]) && IsDigit(s[i + 1])
    ensures 0 <= v < 100
  {
    10 * DigitValue(s[i]) + DigitValue(s[i + 1])
  }

  /** How touch reads the argument when its time zone is UTC. */
  function ReadTouchT(s: string): Option<int> {
    if |s| != 15 || s[12] != '.' || !forall i :: 0 <= i < 15 && i != 12 ==> IsDigit(s[i]) then None
    else
      var tm := Tm(100 * ReadTwo(s, 0) + ReadTwo(s, 2), ReadTwo(s, 4), ReadTwo(s, 6), ReadTwo(s, 8), ReadTwo(s, 10),
                   ReadTwo(s, 13));
      if IsDate(tm) then Some(Epoch(tm)) else None
  }

  lemma ReadOfTwoDigits(s: string, i: nat, n: int)
    requires 0 <= n < 100 && i + 2 <= |s| && s[i..i + 2] == TwoDigits(n)
    ensures IsDigit(s[i]) && IsDigit(s[i + 1]) && ReadTwo(s, i) == n
  {
    assert s[i] == s[i..i + 2][0] && s[i + 1] == s[i..i + 2][1];
  }

  /** The years whose four digits exist. */
  lemma YearsOfSeconds(t: int)
    ensures 1 <= CivilTime(t).year <= 9999 <==> FIRST_SECOND <= t <= LAST_SECOND
  {
    var days := t / SECONDS_PER_DAY + DAYS_BEFORE_1970;
    YearAndDayIsRight(days);
    var year := CivilTime(t).year;
    assert DaysBeforeYear(1) == 0 && DaysBeforeYear(10000) == 3652059;
    if year < 1 {
      YearStartsGrow(year + 1, 1);
    } else if year > 9999 {
      YearStartsGrow(10000, year);
    } else {
      YearStartsGrow(1, year);
      YearStartsGrow(year + 1, 10000);
    }
    YearLength(year);
  }

  lemma YearLength(year: int)
    ensures DaysBeforeYear(year + 1) == DaysBeforeYear(year) + if IsLeap(year) then 366 else 365
  {
    Step4(year);
    Step100(year);
    Step400(year);
  }

  lemma Step4(n: int)
    ensures n / 4 == (n - 1) / 4 + if n % 4 == 0 then 1 else 0
  {
  }

  lemma Step100(n: int)
    ensures n / 100 == (n - 1) / 100 + if n % 100 == 0 then 1 else 0
    ensures n % 100 == 0 ==> n % 4 == 0
  {
  }

  lemma Step400(n: int)
    ensures n / 400 == (n - 1) / 400 + if n % 400 == 0 then 1 else 0
    ensures n % 400 == 0 ==> n % 100 == 0
  {
  }

  lemma YearStartsGrow(a: int, b: int)
    requires a <= b
    ensures DaysBeforeYear(a) <= DaysBeforeYear(b)
  {
  }

  /** Exactly the seconds of the years 1 to 9999 can be written, always in 15 characters, and reading those in UTC
      gives the second back. */
  lemma TouchTRoundTrip(t: int)
    ensures FormatTouchTArg(t).Some? <==> FIRST_SECOND <= t <= LAST_SECOND
    ensures FormatTouchTArg(t).Some? ==> |FormatTouchTArg(t).value| == 15 && ReadTouchT(FormatTouchTArg(t).value) == Some(t)
  {
    CivilTimeIsRight(t);
    YearsOfSeconds(t);
    var tm := CivilTime(t);
    if 1 <= tm.year <= 9999 {
      ReadOfFields(tm);
    }
  }

  /** What reads as a time has nothing but digits and a period in it. */
  lemma ReadMeansDigits(s: string)
    requires ReadTouchT(s).Some?
    ensures |s| == 15 && forall i :: 0 <= i < 15 ==> s[i] == '.' || IsDigit(s[i])
  {
  }

  lemma FieldsLayout(tm: Tm)
    requires IsDate(tm) && 1 <= tm.year <= 9999
    ensures var s := Fields(tm);
      && |s| == 15 && s[12] == '.'
      && s[0..2] == TwoDigits(tm.year / 100) && s[2..4] == TwoDigits(tm.year % 100) && s[4..6] == TwoDigits(tm.month)
      && s[6..8] == TwoDigits(tm.day) && s[8..10] == TwoDigits(tm.hour) && s[10..12] == TwoDigits(tm.minute)
      && s[13..15] == TwoDigits(tm.second)
  {
  }

  lemma ReadOfFields(tm: Tm)
    requires IsDate(tm) && 1 <= tm.year <= 9999
    ensures |Fields(tm)| == 15 && ReadTouchT(Fields(tm)) == Some(Epoch(tm))
  {
    FieldsLayout(tm);
    var s := Fields(tm);
    ReadOfTwoDigits(s, 0, tm.year / 100);
    ReadOfTwoDigits(s, 2, tm.year % 100);
    ReadOfTwoDigits(s, 4, tm.month);
    ReadOfTwoDigits(s, 6, tm.day);
    ReadOfTwoDigits(s, 8, tm.hour);
    ReadOfTwoDigits(s, 10, tm.minute);
    ReadOfTwoDigits(s, 13, tm.second);
  }
}
