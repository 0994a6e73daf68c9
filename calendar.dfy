/**
 * Day arithmetic of ECMAScript Date values, as section 21.4.1 of ECMA-262
 * defines it, counted in whole days since 1970-01-01 and read in UTC.
 *
 * `new Date("2025-06-13")` yields the time value of that day's UTC midnight;
 * `getMonth()` and `getDay()` then decompose it with YearFromTime,
 * MonthFromTime and WeekDay.  The times of day are always midnight here, so
 * a day number `t` (ECMA-262's Day(t)) carries all the information.
 */
module Calendar {

  /** A proleptic Gregorian calendar date; `month` is 1-based, as written in "YYYY-MM-DD". */
  datatype Date = Date(year: int, month: int, day: int)

  predicate IsLeapYear(y: int) {
    y % 4 == 0 && (y % 100 != 0 || y % 400 == 0)
  }

  /** ECMA-262 DaysInYear. */
  function DaysInYear(y: int): int {
    if IsLeapYear(y) then 366 else 365
  }

  /** Length of a 1-based month, as any calendar prints it. */
  function DaysInMonth(y: int, m: int): int
    requires 1 <= m <= 12
  {
    if m == 2 then (if IsLeapYear(y) then 29 else 28)
    else if m == 4 || m == 6 || m == 9 || m == 11 then 30
    else 31
  }

  /** A date that exists in the calendar. */
  predicate Valid(c: Date) {
    1 <= c.month <= 12 && 1 <= c.day <= DaysInMonth(c.year, c.month)
  }

  /** ECMA-262 DayFromYear: the day number of the first of January of year `y`. */
  function DayFromYear(y: int): int {
    365 * (y - 1970) + (y - 1969) / 4 - (y - 1901) / 100 + (y - 1601) / 400
  }

  /** Day number of the first day of 0-based month `m`, counted from the start of the year
      (the table inside ECMA-262's MonthFromTime and DateFromTime). */
  function MonthStart(m: int, leap: bool): int
    requires 0 <= m < 12
  {
    [0, 31, 59, 90, 120, 151, 181, 212, 243, 273, 304, 334][m] + (if leap && m >= 2 then 1 else 0)
  }

  /** Successive years start DaysInYear apart: ECMA-262's closed form for DayFromYear
      agrees with its year lengths. */
  lemma DayFromYearStep(y: int)
    ensures DayFromYear(y + 1) == DayFromYear(y) + DaysInYear(y)
  {
    LeapStep4(y);
    LeapStep100(y);
    LeapStep400(y);
    LeapDayCount(y);
  }

  /** The three counts add up to the leap day: every year divisible by 400 is divisible by
      100, and every year divisible by 100 is divisible by 4. */
  lemma LeapDayCount(y: int)
    ensures (if y % 4 == 0 then 1 else 0) - (if y % 100 == 0 then 1 else 0) + (if y % 400 == 0 then 1 else 0)
      == (if IsLeapYear(y) then 1 else 0)
  {
    if y % 400 == 0 {
      Multiple400(y);
    } else if y % 100 == 0 {
      Multiple100(y);
    }
  }

  lemma Multiple400(y: int)
    requires y % 400 == 0
    ensures y % 100 == 0 && y % 4 == 0
  {
    var j := y / 400;
    assert y == 100 * (4 * j);
    Multiple100(y);
  }

  lemma Multiple100(y: int)
    requires y % 100 == 0
    ensures y % 4 == 0
  {
    var j := y / 100;
    assert y == 4 * (25 * j);
  }

  /** Each of DayFromYear's three leap-day counts grows by one exactly after a year
      divisible by its period. */
  lemma LeapStep4(y: int)
    ensures (y - 1968) / 4 == (y - 1969) / 4 + (if y % 4 == 0 then 1 else 0)
  {
  }

  lemma LeapStep100(y: int)
    ensures (y - 1900) / 100 == (y - 1901) / 100 + (if y % 100 == 0 then 1 else 0)
  {
  }

  lemma LeapStep400(y: int)
    ensures (y - 1600) / 400 == (y - 1601) / 400 + (if y % 400 == 0 then 1 else 0)
  {
  }

  lemma {:induction false} DayFromYearMonotone(a: int, b: int)
    requires a <= b
    ensures DayFromYear(a) + 365 * (b - a) <= DayFromYear(b)
    decreases b - a
  {
    if a < b {
      DayFromYearStep(b - 1);
      DayFromYearMonotone(a, b - 1);
    }
  }

  /** Walks down from year `y` to a year that starts on or before day `t`. */
  function SearchDown(t: int, y: int): (r: int)
    ensures r <= y && DayFromYear(r) <= t
    decreases DayFromYear(y) - t
  {
    if DayFromYear(y) <= t then y
    else
      DayFromYearStep(y - 1);
      SearchDown(t, y - 1)
  }

  /** Walks up from year `y` to the last year that starts on or before day `t`. */
  function SearchUp(t: int, y: int): (r: int)
    requires DayFromYear(y) <= t
    ensures y <= r && DayFromYear(r) <= t < DayFromYear(r + 1)
    decreases t - DayFromYear(y)
  {
    DayFromYearStep(y);
    if t < DayFromYear(y + 1) then y
    else SearchUp(t, y + 1)
  }

  /** ECMA-262 YearFromTime: the largest year whose first day is not after day `t`.  The
      search starts from the year an average Gregorian year of 365.2425 days points at. */
  function YearFromDay(t: int): (y: int)
    ensures DayFromYear(y) <= t < DayFromYear(y + 1)
  {
    SearchUp(t, SearchDown(t, 1970 + t * 400 / 146097))
  }

  /** Day `t` lies in exactly one year. */
  lemma YearFromDayUnique(t: int, y: int)
    requires DayFromYear(y) <= t < DayFromYear(y + 1)
    ensures YearFromDay(t) == y
  {
    YearsDisjoint(t, y, YearFromDay(t));
  }

  /** Two years whose spans both hold day `t` are the same year. */
  lemma YearsDisjoint(t: int, y: int, r: int)
    requires DayFromYear(y) <= t < DayFromYear(y + 1)
    requires DayFromYear(r) <= t < DayFromYear(r + 1)
    ensures y == r
  {
    if r < y {
      DayFromYearMonotone(r + 1, y);
    } else if y < r {
      DayFromYearMonotone(y + 1, r);
    }
  }

  /** ECMA-262 InLeapYear. */
  predicate InLeapYear(t: int) {
    IsLeapYear(YearFromDay(t))
  }

  /** ECMA-262 DayWithinYear. */
  function DayWithinYear(t: int): int {
    t - DayFromYear(YearFromDay(t))
  }

  /** ECMA-262 MonthFromTime: the 0-based month of day `t` (getUTCMonth). */
  function MonthFromTime(t: int): (m: int)
    ensures 0 <= m < 12
  {
    MonthOfDay(DayWithinYear(t), InLeapYear(t))
  }

  /** The month table of MonthFromTime: the 0-based month in which day `d` of a year
      (counted from 0) falls, in a leap year or not. */
  function MonthOfDay(d: int, leap: bool): (m: int)
    ensures 0 <= m < 12
  {
    var l := if leap then 1 else 0;
    if d < 31 then 0
    else if d < 59 + l then 1
    else if d < 90 + l then 2
    else if d < 120 + l then 3
    else if d < 151 + l then 4
    else if d < 181 + l then 5
    else if d < 212 + l then 6
    else if d < 243 + l then 7
    else if d < 273 + l then 8
    else if d < 304 + l then 9
    else if d < 334 + l then 10
    else 11
  }

  /** The month the table picks starts on or before the day and ends after it. */
  lemma MonthOfDayBounds(d: int, leap: bool)
    requires 0 <= d
    ensures var m := MonthOfDay(d, leap);
      MonthStart(m, leap) <= d && (m < 11 ==> d < MonthStart(m + 1, leap))
  {
  }

  /** A month that starts on or before the day and ends after it is the one the table picks. */
  lemma MonthOfDayUnique(d: int, leap: bool, m: int)
    requires 0 <= m < 12 && MonthStart(m, leap) <= d && (m < 11 ==> d < MonthStart(m + 1, leap))
    ensures MonthOfDay(d, leap) == m
  {
  }

  /** ECMA-262 DateFromTime: the day of the month of day `t` (getUTCDate). */
  function DateFromTime(t: int): int {
    DayWithinYear(t) - MonthStart(MonthFromTime(t), InLeapYear(t)) + 1
  }

  /** ECMA-262 WeekDay: 0 is Sunday; day 0, 1970-01-01, was a Thursday. */
  function WeekDay(t: int): (w: int)
    ensures 0 <= w < 7
  {
    (t + 4) % 7
  }

  /** ECMA-262 MakeDay for a year, a 0-based month that may overflow into later years,
      and a day of the month. */
  function MakeDay(year: int, month: int, date: int): int {
    var ym := year + month / 12;
    var mn := month % 12;
    DayFromYear(ym) + MonthStart(mn, IsLeapYear(ym)) + date - 1
  }

  /** The day number a calendar date denotes. */
  function DayNumber(c: Date): int {
    MakeDay(c.year, c.month - 1, c.day)
  }

  /** The calendar date of day `t`, read with the ECMA-262 decomposition functions. */
  function DateOfDay(t: int): Date {
    Date(YearFromDay(t), MonthFromTime(t) + 1, DateFromTime(t))
  }

  /** Months follow one another without gaps, and the year ends after December. */
  lemma MonthStartStep(y: int, m: int)
    requires 1 <= m <= 12
    ensures m < 12 ==> MonthStart(m, IsLeapYear(y)) == MonthStart(m - 1, IsLeapYear(y)) + DaysInMonth(y, m)
    ensures m == 12 ==> DaysInYear(y) == MonthStart(11, IsLeapYear(y)) + DaysInMonth(y, 12)
  {
  }

  /** The day number of a valid date: the first day of its year, the days of the months
      before it, and its day of the month. */
  lemma DayNumberInYear(c: Date)
    requires Valid(c)
    ensures DayNumber(c) == DayFromYear(c.year) + MonthStart(c.month - 1, IsLeapYear(c.year)) + c.day - 1
  {
    assert (c.month - 1) / 12 == 0 && (c.month - 1) % 12 == c.month - 1;
  }

  /** A month of a year ends no later than the year. */
  lemma MonthInYear(y: int, m: int)
    requires 1 <= m <= 12
    ensures MonthStart(m - 1, IsLeapYear(y)) + DaysInMonth(y, m) <= DaysInYear(y)
  {
  }

  /** Decomposing the day number of a valid date gives that date back:
      getUTCFullYear, getUTCMonth() + 1 and getUTCDate of `new Date(c)` are c's fields. */
  lemma DateOfDayNumber(c: Date)
    requires Valid(c)
    ensures DateOfDay(DayNumber(c)) == c
  {
    var t := DayNumber(c);
    var y, m0, l := c.year, c.month - 1, IsLeapYear(c.year);
    DayNumberInYear(c);
    MonthInYear(y, c.month);
    DayFromYearStep(y);
    YearFromDayUnique(t, y);
    var d := DayWithinYear(t);
    assert d == MonthStart(m0, l) + c.day - 1;
    MonthStartStep(y, c.month);
    MonthOfDayUnique(d, l, m0);
  }

  /** The month MonthFromTime picks holds the day: DateFromTime is a day of that month. */
  lemma MonthFromTimeHolds(t: int)
    ensures var y, m0 := YearFromDay(t), MonthFromTime(t);
      MonthStart(m0, IsLeapYear(y)) <= DayWithinYear(t) < MonthStart(m0, IsLeapYear(y)) + DaysInMonth(y, m0 + 1)
  {
    var y, d := YearFromDay(t), DayWithinYear(t);
    assert MonthFromTime(t) == MonthOfDay(d, IsLeapYear(y));
    assert 0 <= d < DaysInYear(y) by {
      DayFromYearStep(y);
    }
    MonthHoldsDay(y, d);
  }

  /** The month the table picks for day `d` of year `y` holds that day. */
  lemma MonthHoldsDay(y: int, d: int)
    requires 0 <= d < DaysInYear(y)
    ensures var m0 := MonthOfDay(d, IsLeapYear(y));
      MonthStart(m0, IsLeapYear(y)) <= d < MonthStart(m0, IsLeapYear(y)) + DaysInMonth(y, m0 + 1)
  {
    var m0 := MonthOfDay(d, IsLeapYear(y));
    MonthOfDayBounds(d, IsLeapYear(y));
    MonthStartStep(y, m0 + 1);
  }

  /** Every day number is the day number of exactly the date it decomposes into. */
  lemma DayNumberOfDate(t: int)
    ensures Valid(DateOfDay(t)) && DayNumber(DateOfDay(t)) == t
  {
    var y, m0 := YearFromDay(t), MonthFromTime(t);
    MonthFromTimeHolds(t);
    var c := DateOfDay(t);
    assert c == Date(y, m0 + 1, DayWithinYear(t) - MonthStart(m0, IsLeapYear(y)) + 1);
    DayNumberInYear(c);
  }

  /** Zeller's congruence, an independent formula for the day of the week of a Gregorian
      date, before its final reduction modulo 7 (January and February count as months 13
      and 14 of the previous year). */
  function ZellerSum(c: Date): int {
    c.day + ZellerMonth(c.month) + ZellerYear(if c.month <= 2 then c.year - 1 else c.year)
  }

  /** Zeller's month term, floor(13 (m + 1) / 5). */
  function ZellerMonth(month: int): int {
    var m := if month <= 2 then month + 12 else month;
    13 * (m + 1) / 5
  }

  /** Zeller's year terms K + floor(K / 4) + floor(J / 4) + 5 J, for the year of the
      century K and the century J. */
  function ZellerYear(y: int): int {
    var k, j := y % 100, y / 100;
    k + k / 4 + j / 4 + 5 * j
  }

  /** Zeller's day of the week, converted from its numbering (0 is Saturday) to
      ECMA-262's (0 is Sunday). */
  function ZellerWeekday(c: Date): (w: int)
    ensures 0 <= w < 7
  {
    (ZellerSum(c) % 7 + 6) % 7
  }

  /** Days from 0001-01-01 to the first of January of year `y + 1`. */
  function DaysThroughYear(y: int): int {
    365 * y + y / 4 - y / 100 + y / 400
  }

  lemma DayFromYearThrough(y: int)
    ensures DayFromYear(y) == DaysThroughYear(y - 1) - 719162
  {
    assert (y - 1969) / 4 == (y - 1) / 4 - 492;
    assert (y - 1901) / 100 == (y - 1) / 100 - 19;
    assert (y - 1601) / 400 == (y - 1) / 400 - 4;
  }

  /** Zeller's year terms are DaysThroughYear modulo 7. */
  lemma DaysThroughYearMod7(y: int) returns (q: int)
    ensures DaysThroughYear(y) - ZellerYear(y) == 7 * q
  {
    var j, k := y / 100, y % 100;
    assert y == 100 * j + k;
    assert y / 4 == 25 * j + k / 4;
    assert y / 400 == j / 4;
    q := 5217 * j + 52 * k;
  }

  lemma SameMod7(a: int, b: int, q: int)
    requires a - b == 7 * q
    ensures a % 7 == b % 7
  {
  }

  /** Zeller's month term and the month table agree modulo 7 (shifted by one for
      January and February, which Zeller counts at the end of the previous year). */
  lemma MonthTermMod7(month: int) returns (q: int)
    requires 1 <= month <= 12
    ensures MonthStart(month - 1, false) + (if month <= 2 then 1 else 0) - ZellerMonth(month) == 7 * q
  {
    q := [-5, -1, 7, 11, 15, 19, 23, 27, 31, 35, 39, 43][month - 1];
  }

  /** The first day of year `y + 1` and Zeller's year terms for `y` agree modulo 7, up to
      a fixed offset. */
  lemma DayFromYearMod7(y: int) returns (q: int)
    ensures DayFromYear(y + 1) + 719162 - ZellerYear(y) == 7 * q
  {
    DayFromYearThrough(y + 1);
    q := DaysThroughYearMod7(y);
  }

  /** For January and February, the day number shifted to make 0 a Sunday differs from
      Zeller's sum by a multiple of 7. */
  lemma ZellerOffsetEarly(c: Date) returns (q: int)
    requires Valid(c) && c.month <= 2
    ensures DayNumber(c) + 4 - (ZellerSum(c) + 6) == 7 * q
  {
    var qy := DayFromYearMod7(c.year - 1);
    var qm := MonthTermMod7(c.month);
    DayNumberInYear(c);
    assert MonthStart(c.month - 1, IsLeapYear(c.year)) == MonthStart(c.month - 1, false);
    q := qy + qm - 102738;
  }

  /** The same for March to December, where Zeller counts the date's own year. */
  lemma ZellerOffsetLate(c: Date) returns (q: int)
    requires Valid(c) && c.month > 2
    ensures DayNumber(c) + 4 - (ZellerSum(c) + 6) == 7 * q
  {
    var qy := DayFromYearMod7(c.year);
    var qm := MonthTermMod7(c.month);
    DayNumberInYear(c);
    DayFromYearStep(c.year);
    assert MonthStart(c.month - 1, IsLeapYear(c.year)) + 365
      == MonthStart(c.month - 1, false) + DaysInYear(c.year);
    q := qy + qm - 102790;
  }

  /** The weekday ECMA-262 derives from the day number (getUTCDay) is the one
      Zeller's congruence gives for the date. */
  lemma WeekDayIsZeller(c: Date)
    requires Valid(c)
    ensures WeekDay(DayNumber(c)) == ZellerWeekday(c)
  {
    var q;
    if c.month <= 2 {
      q := ZellerOffsetEarly(c);
    } else {
      q := ZellerOffsetLate(c);
    }
    var s := ZellerSum(c);
    SameMod7(DayNumber(c) + 4, s + 6, q);
    SameMod7(s % 7 + 6, s + 6, -(s / 7));
  }
}
