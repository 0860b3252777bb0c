/** The day arithmetic of ECMAScript `Date` (section 21.4.1 of ECMA-262,
    "Time Values and Time Range"), restricted to whole days: day numbers count
    days from 1 January 1970, years follow the proleptic Gregorian calendar and
    months are numbered 0 (January) to 11 (December), as `Date.prototype.getMonth`
    returns them. Dafny's `/` and `%` on `int` with a positive divisor are floor
    division and the non-negative remainder, which is what ECMA-262's `floor`
    and `modulo` mean. */
module EcmaDate {

  /** A calendar date as the getters `getFullYear`, `getMonth` and `getDate` report it. */
  datatype Ymd = Ymd(year: int, month: int, day: int)

  /** DaysInYear(y): 365, or 366 in a leap year. */
  function DaysInYear(y: int): (n: int)
    ensures n == 365 || n == 366
  {
    if y % 4 != 0 then 365
    else if y % 100 != 0 then 366
    else if y % 400 != 0 then 365
    else 366
  }

  predicate IsLeapYear(y: int) {
    DaysInYear(y) == 366
  }

  /** The Gregorian rule, stated as it is usually written. */
  lemma LeapYearRule(y: int)
    ensures IsLeapYear(y) <==> (y % 4 == 0 && y % 100 != 0) || y % 400 == 0
  {
  }

  /** DayFromYear(y): the day number of 1 January of year y, counted year by
      year from 1970. */
  function DayFromYear(y: int): int
    decreases if y >= 1970 then y - 1970 else 1970 - y
  {
    if y == 1970 then 0
    else if y > 1970 then DayFromYear(y - 1) + DaysInYear(y - 1)
    else DayFromYear(y + 1) - DaysInYear(y)
  }

  /** ECMA-262's closed formula for DayFromYear, with floor division. */
  function EcmaDayFromYear(y: int): int {
    365 * (y - 1970) + (y - 1969) / 4 - (y - 1901) / 100 + (y - 1601) / 400
  }

  /** Floor division by 4 steps up by one exactly at the multiples of 4
      (and likewise for 100 and 400 below); the offsets are those of the
      closed formula. */
  lemma FloorStep4(y: int)
    ensures (y - 1968) / 4 - (y - 1969) / 4 == if y % 4 == 0 then 1 else 0
  {
    assert (y - 1968) % 4 == y % 4;
  }

  lemma FloorStep100(y: int)
    ensures (y - 1900) / 100 - (y - 1901) / 100 == if y % 100 == 0 then 1 else 0
  {
    assert (y - 1900) % 100 == y % 100;
  }

  lemma FloorStep400(y: int)
    ensures (y - 1600) / 400 - (y - 1601) / 400 == if y % 400 == 0 then 1 else 0
  {
    assert (y - 1600) % 400 == y % 400;
  }

  /** Multiples of 100 leave no remainder modulo 100 or 4. */
  lemma MultipleOfHundred(m: int)
    ensures (100 * m) % 100 == 0 && (100 * m) % 4 == 0
  {
  }

  /** A multiple of 400 is a multiple of 100, and a multiple of 100 one of 4. */
  lemma DivisibilityChain(y: int)
    ensures y % 400 == 0 ==> y % 100 == 0
    ensures y % 100 == 0 ==> y % 4 == 0
  {
    if y % 400 == 0 {
      MultipleOfHundred(4 * (y / 400));
    }
    if y % 100 == 0 {
      MultipleOfHundred(y / 100);
    }
  }

  /** DaysInYear as 365 plus the three corrections of the closed formula. */
  lemma DaysInYearCorrections(y: int)
    ensures DaysInYear(y) == 365 + (if y % 4 == 0 then 1 else 0)
                                 - (if y % 100 == 0 then 1 else 0)
                                 + (if y % 400 == 0 then 1 else 0)
  {
    DivisibilityChain(y);
  }

  /** The closed formula also grows by DaysInYear from one year to the next. */
  lemma EcmaYearStep(y: int)
    ensures EcmaDayFromYear(y + 1) == EcmaDayFromYear(y) + DaysInYear(y)
  {
    assert EcmaDayFromYear(y + 1) - EcmaDayFromYear(y)
        == 365 + ((y - 1968) / 4 - (y - 1969) / 4)
               - ((y - 1900) / 100 - (y - 1901) / 100)
               + ((y - 1600) / 400 - (y - 1601) / 400);
    FloorStep4(y);
    FloorStep100(y);
    FloorStep400(y);
    DaysInYearCorrections(y);
  }

  /** Counting year by year gives ECMA-262's closed formula. */
  lemma {:induction false} DayFromYearIsEcma(y: int)
    ensures DayFromYear(y) == EcmaDayFromYear(y)
    decreases if y >= 1970 then y - 1970 else 1970 - y
  {
    if y > 1970 {
      DayFromYearIsEcma(y - 1);
      EcmaYearStep(y - 1);
    } else if y < 1970 {
      DayFromYearIsEcma(y + 1);
      EcmaYearStep(y);
    }
  }

  /** Consecutive years' first days are DaysInYear apart. */
  lemma YearLength(y: int)
    ensures DayFromYear(y + 1) == DayFromYear(y) + DaysInYear(y)
  {
  }

  /** DayFromYear is strictly increasing. */
  lemma {:induction false} DayFromYearMonotone(a: int, b: int)
    requires a < b
    ensures DayFromYear(a) + 365 <= DayFromYear(b)
    decreases b - a
  {
    YearLength(a);
    if a + 1 < b {
      DayFromYearMonotone(a + 1, b);
    }
  }

  /** The number of days of month m (0..11) in year y, as ECMA-262's
      MonthFromTime/DateFromTime tables give them. */
  function MonthLength(m: int, y: int): (n: int)
    requires 0 <= m <= 11
    ensures 28 <= n <= 31
    ensures m == 1 ==> (n == 29 <==> IsLeapYear(y))
  {
    if m == 1 then (if IsLeapYear(y) then 29 else 28)
    else if m == 3 || m == 5 || m == 8 || m == 10 then 30
    else 31
  }

  /** Days of year y before the first day of month m (the cumulative table of
      ECMA-262's MonthFromTime). */
  function DaysBeforeMonth(m: int, y: int): (n: int)
    requires 0 <= m <= 11
    ensures m > 0 ==> n == DaysBeforeMonth(m - 1, y) + MonthLength(m - 1, y)
  {
    var leap := if IsLeapYear(y) then 1 else 0;
    if m == 0 then 0 else if m == 1 then 31 else if m == 2 then 59 + leap
    else if m == 3 then 90 + leap else if m == 4 then 120 + leap
    else if m == 5 then 151 + leap else if m == 6 then 181 + leap
    else if m == 7 then 212 + leap else if m == 8 then 243 + leap
    else if m == 9 then 273 + leap else if m == 10 then 304 + leap
    else 334 + leap
  }

  /** The twelve months fill the year exactly. */
  lemma MonthsFillYear(y: int)
    ensures DaysBeforeMonth(11, y) + MonthLength(11, y) == DaysInYear(y)
  {
  }

  /** A later month starts no earlier than an earlier month ends. */
  lemma {:induction false} DaysBeforeMonthMonotone(m: int, n: int, y: int)
    requires 0 <= m < n <= 11
    ensures DaysBeforeMonth(m, y) + MonthLength(m, y) <= DaysBeforeMonth(n, y)
    decreases n - m
  {
    if m + 1 < n {
      DaysBeforeMonthMonotone(m + 1, n, y);
    }
  }

  /** A valid calendar date: a month 0..11 and a day within that month. */
  predicate ValidDate(d: Ymd) {
    0 <= d.month <= 11 && 1 <= d.day <= MonthLength(d.month, d.year)
  }

  /** MakeDay(year, month, date) of ECMA-262: the month may lie outside 0..11
      and is carried into the year, the date may be 0 or exceed the month and
      simply counts days from the first of the (normalised) month. */
  function MakeDay(year: int, month: int, date: int): int {
    var ym := year + month / 12;
    var mn := month % 12;
    DayFromYear(ym) + DaysBeforeMonth(mn, ym) + date - 1
  }

  /** The year the `Date(year, month, date)` constructor hands to MakeDay
      (section 21.4.2.1 of ECMA-262, through MakeFullYear): an integer year
      0..99 is read as 1900..1999, every other year is taken as it is. The
      result is never itself a two-digit year. */
  function ConstructorYear(y: int): (fy: int)
    ensures 0 <= y <= 99 ==> fy == y + 1900
    ensures !(0 <= y <= 99) ==> fy == y
    ensures fy < 0 || fy >= 100
  {
    if 0 <= y <= 99 then 1900 + y else y
  }

  /** The day number of a date given as a triple with month 0..11. */
  function DayOf(d: Ymd): (n: int)
    requires 0 <= d.month <= 11
    ensures n == DayFromYear(d.year) + DaysBeforeMonth(d.month, d.year) + d.day - 1
  {
    assert d.month / 12 == 0 && d.month % 12 == d.month;
    MakeDay(d.year, d.month, d.day)
  }

  /** WeekDay(t) of ECMA-262: 0 is Sunday; day 0 (1 January 1970) was a Thursday. */
  function WeekDay(d: Ymd): (w: int)
    requires 0 <= d.month <= 11
    ensures 0 <= w <= 6
  {
    (DayOf(d) + 4) % 7
  }

  /** A valid date lies inside its year. */
  lemma DayOfWithinYear(d: Ymd)
    requires ValidDate(d)
    ensures DayFromYear(d.year) <= DayOf(d) < DayFromYear(d.year + 1)
  {
    YearLength(d.year);
    MonthsFillYear(d.year);
    if d.month < 11 {
      DaysBeforeMonthMonotone(d.month, 11, d.year);
    }
  }
  /** A day number lies in at most one year. */
  lemma YearOfDayUnique(n: int, y1: int, y2: int)
    requires DayFromYear(y1) <= n < DayFromYear(y1 + 1)
    requires DayFromYear(y2) <= n < DayFromYear(y2 + 1)
    ensures y1 == y2
  {
    if y1 + 1 < y2 {
      DayFromYearMonotone(y1 + 1, y2);
    } else if y2 + 1 < y1 {
      DayFromYearMonotone(y2 + 1, y1);
    }
  }

  /** Within one year, an offset from 1 January lies in at most one month. */
  lemma MonthOfOffsetUnique(y: int, m1: int, d1: int, m2: int, d2: int)
    requires 0 <= m1 <= 11 && 1 <= d1 <= MonthLength(m1, y)
    requires 0 <= m2 <= 11 && 1 <= d2 <= MonthLength(m2, y)
    requires DaysBeforeMonth(m1, y) + d1 == DaysBeforeMonth(m2, y) + d2
    ensures m1 == m2 && d1 == d2
  {
    if m1 < m2 {
      DaysBeforeMonthMonotone(m1, m2, y);
    } else if m2 < m1 {
      DaysBeforeMonthMonotone(m2, m1, y);
    }
  }

  /** Distinct valid dates have distinct day numbers, so the getters of the
      time value a valid triple makes read that same triple back. */
  lemma DayOfInjective(d: Ymd, e: Ymd)
    requires ValidDate(d) && ValidDate(e)
    requires DayOf(d) == DayOf(e)
    ensures d == e
  {
    DayOfWithinYear(d);
    DayOfWithinYear(e);
    YearOfDayUnique(DayOf(d), d.year, e.year);
    MonthOfOffsetUnique(d.year, d.month, d.day, e.month, e.day);
  }

  /** "Day 0 of the next month" is the last day of this month:
      `new Date(year, month + 1, 0)` denotes (year, month, MonthLength). */
  lemma DayZeroOfNextMonth(month: int, year: int)
    requires 0 <= month <= 11
    ensures MakeDay(year, month + 1, 0) == DayOf(Ymd(year, month, MonthLength(month, year)))
  {
    if month == 11 {
      assert MakeDay(year, 12, 0) == DayFromYear(year + 1) + DaysBeforeMonth(0, year + 1) - 1;
      YearLength(year);
      MonthsFillYear(year);
    } else {
      assert (month + 1) / 12 == 0 && (month + 1) % 12 == month + 1;
      assert MakeDay(year, month + 1, 0) == DayFromYear(year) + DaysBeforeMonth(month + 1, year) - 1;
    }
  }

  /** The day after a valid date, rolling over the month and the year. */
  function NextDay(d: Ymd): (r: Ymd)
    requires ValidDate(d)
    ensures ValidDate(r)
    ensures DayOf(r) == DayOf(d) + 1
  {
    if d.day < MonthLength(d.month, d.year) then
      Ymd(d.year, d.month, d.day + 1)
    else if d.month < 11 then
      assert DaysBeforeMonth(d.month + 1, d.year) == DaysBeforeMonth(d.month, d.year) + d.day;
      Ymd(d.year, d.month + 1, 1)
    else
      YearLength(d.year);
      MonthsFillYear(d.year);
      Ymd(d.year + 1, 0, 1)
  }

  /** Adding one to a number advances its remainder modulo 7 by one, cyclically. */
  lemma ModSevenStep(a: int)
    ensures (a + 1) % 7 == (a % 7 + 1) % 7
  {
  }

  /** Consecutive days' weekdays advance by one, modulo 7. */
  lemma WeekDaySuccessor(d: Ymd)
    requires ValidDate(d)
    ensures WeekDay(NextDay(d)) == (WeekDay(d) + 1) % 7
  {
    ModSevenStep(DayOf(d) + 4);
  }
}
