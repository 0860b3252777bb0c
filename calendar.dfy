/** The calendar logic of lib/calendar.ts: the days of a month, the sessions
    that fall on a calendar day, and the comparisons of a day with a scroll
    target and with the current date. Dates are (year, month, day) triples with
    the month 0-based, as `Date.prototype.getMonth` reports it; the current date
    is a parameter instead of a clock read. */
module Calendar {
  import opened Wrappers
  import opened EcmaDate
  import opened IsoDate

  /** One cell of a displayed month (the source's `Day`). */
  datatype CalendarDay = CalendarDay(day: int, weekDay: int, month: int, year: int)

  /** A stored training session. Its date is the local calendar date the
      getters of `new Date(session.date)` report. */
  datatype Session = Session(
    id: string,
    ownerId: string,
    date: Ymd,
    name: string,
    description: Option<string>,
    videoUrl: Option<string>,
    deleted: bool)

  function DateOf(cd: CalendarDay): Ymd {
    Ymd(cd.year, cd.month, cd.day)
  }

  /** getDaysInMonth(month, year): the day of the month of
      `new Date(year, month + 1, 0)`. The constructor reads a year 0..99 as
      1900..1999, so the result is the length of the month in
      ConstructorYear(year) (see GetDaysInMonthIsDayZero). */
  function GetDaysInMonth(month: int, year: int): (n: int)
    requires 0 <= month <= 11
    ensures ValidDate(Ymd(ConstructorYear(year), month, n))
    ensures 28 <= n <= 31
    ensures month == 1 ==> (n == 29 <==> IsLeapYear(ConstructorYear(year)))
  {
    MonthLength(month, ConstructorYear(year))
  }

  /** `new Date(year, month + 1, 0)` is the last valid day of the month of the
      constructor's year: its day number is that of
      (ConstructorYear(year), month, GetDaysInMonth), no other valid date has
      that day number, so the getters read back exactly that triple, and no
      valid day of the month is later. */
  lemma GetDaysInMonthIsDayZero(month: int, year: int)
    requires 0 <= month <= 11
    ensures MakeDay(ConstructorYear(year), month + 1, 0) ==
      DayOf(Ymd(ConstructorYear(year), month, GetDaysInMonth(month, year)))
    ensures forall e: Ymd :: ValidDate(e) && DayOf(e) == MakeDay(ConstructorYear(year), month + 1, 0) ==>
      e == Ymd(ConstructorYear(year), month, GetDaysInMonth(month, year))
    ensures forall d :: ValidDate(Ymd(ConstructorYear(year), month, d)) ==> d <= GetDaysInMonth(month, year)
  {
    var fullYear, n := ConstructorYear(year), GetDaysInMonth(month, year);
    DayZeroOfNextMonth(month, fullYear);
    forall e: Ymd | ValidDate(e) && DayOf(e) == MakeDay(fullYear, month + 1, 0)
      ensures e == Ymd(fullYear, month, n)
    {
      DayOfInjective(e, Ymd(fullYear, month, n));
    }
  }

  /** Within a month, each day's weekday is one after the previous day's, modulo 7. */
  lemma WeekDaysOfMonthSucceed(month: int, year: int)
    requires 0 <= month <= 11
    ensures forall i :: 1 <= i < MonthLength(month, year) ==>
      WeekDay(Ymd(year, month, i + 1)) == (WeekDay(Ymd(year, month, i)) + 1) % 7
  {
    forall i | 1 <= i < MonthLength(month, year)
      ensures WeekDay(Ymd(year, month, i + 1)) == (WeekDay(Ymd(year, month, i)) + 1) % 7
    {
      WeekDaySuccessor(Ymd(year, month, i));
    }
  }

  /** generateCalendarMonth(month, year): one cell per day of the month, in
      order, each carrying the year and month it was asked for and the weekday
      (0 = Sunday) of `new Date(year, month, day)`, a date of
      ConstructorYear(year). */
  method GenerateCalendarMonth(month: int, year: int) returns (monthData: seq<CalendarDay>)
    requires 0 <= month <= 11
    ensures |monthData| == GetDaysInMonth(month, year)
    ensures forall i :: 0 <= i < |monthData| ==>
      monthData[i].day == i + 1 && monthData[i].month == month && monthData[i].year == year
    ensures forall i :: 0 <= i < |monthData| ==>
      ValidDate(Ymd(ConstructorYear(year), month, monthData[i].day)) &&
      monthData[i].weekDay == WeekDay(Ymd(ConstructorYear(year), month, monthData[i].day))
    ensures forall i :: 0 <= i < |monthData| ==> 0 <= monthData[i].weekDay <= 6
    ensures forall i :: 0 < i < |monthData| ==>
      monthData[i].weekDay == (monthData[i - 1].weekDay + 1) % 7
  {
    var daysInMonth := GetDaysInMonth(month, year);
    monthData := [];
    var day := 1;
    while day <= daysInMonth
      invariant 1 <= day <= daysInMonth + 1
      invariant |monthData| == day - 1
      invariant forall i :: 0 <= i < |monthData| ==>
        monthData[i] == CalendarDay(i + 1, WeekDay(Ymd(ConstructorYear(year), month, i + 1)), month, year)
    {
      var weekDay := WeekDay(Ymd(ConstructorYear(year), month, day));
      monthData := monthData + [CalendarDay(day, weekDay, month, year)];
      day := day + 1;
    }
    forall i | 0 <= i < |monthData|
      ensures ValidDate(Ymd(ConstructorYear(year), month, monthData[i].day))
    {
      assert monthData[i].day == i + 1 <= MonthLength(month, ConstructorYear(year));
    }
    WeekDaysOfMonthSucceed(month, ConstructorYear(year));
  }

  /** Two-digit years go through the constructor's 1900 offset: February of
      year 0 is February 1900 (not a leap year), of year 24 is February 1924,
      and of year 2000 is February 2000. */
  lemma TwoDigitYearMonths()
    ensures GetDaysInMonth(1, 0) == 28
    ensures GetDaysInMonth(1, 24) == 29
    ensures GetDaysInMonth(1, 2000) == 29
  {
    LeapYearRule(1900);
    LeapYearRule(1924);
    LeapYearRule(2000);
  }

  /** The string getSessionsToday builds for a cell:
      `${year}-${String(month + 1).padStart(2, '0')}-${String(day).padStart(2, '0')}`. */
  function CalendarDateString(cd: CalendarDay): string {
    Assemble(IntToString(cd.year), Pad2(cd.month + 1), Pad2(cd.day))
  }

  /** `new Date(CalendarDateString(cd))` as a date triple; None is the Invalid
      Date of a string outside the date-only format, and of a string in that
      format whose day lies past the end of its month ("2024-02-31"), which
      ECMA-262 leaves to the engine's fallback. */
  function CalendarDate(cd: CalendarDay): (r: Option<Ymd>)
    ensures r.Some? ==> ValidDate(r.value)
  {
    match ParseIsoDate(CalendarDateString(cd))
    case Some((y, m, d)) => if ValidDate(Ymd(y, m - 1, d)) then Some(Ymd(y, m - 1, d)) else None
    case None => None
  }

  /** For a four-digit year the cell's string is `YYYY-MM-DD` and its fields read
      back as (year, month + 1, day). */
  lemma CalendarDateStringRoundTrip(cd: CalendarDay)
    requires 0 <= cd.month <= 11 && 1 <= cd.day <= 31 && 1000 <= cd.year <= 9999
    ensures |CalendarDateString(cd)| == 10
    ensures ParseIsoDate(CalendarDateString(cd)) == Some((cd.year, cd.month + 1, cd.day))
    ensures ValidDate(DateOf(cd)) ==> CalendarDate(cd) == Some(DateOf(cd))
    ensures !ValidDate(DateOf(cd)) ==> CalendarDate(cd).None?
  {
    var y, mm, dd := IntToString(cd.year), Pad2(cd.month + 1), Pad2(cd.day);
    assert |y| == 4 by {
      NatToStringLength(cd.year, 4);
      NatToStringLength(cd.year, 3);
      assert Pow10(4) == 10000 && Pow10(3) == 1000;
    }
    Pad2Length(cd.month + 1);
    Pad2Length(cd.day);
    NatToStringRoundTrip(cd.year);
    TwoDigitRoundTrip(cd.month + 1);
    TwoDigitRoundTrip(cd.day);
    ParseAssembled(y, mm, dd);
  }

  /** For a negative six-digit year, `String(year)` is a sign and six digits,
      ECMA-262's expanded-year form, so the cell's string is `-YYYYYY-MM-DD`
      and reads back as the cell's date. From year -271820 on, such a date lies
      inside the time-value range, so the source's Date is that date too. */
  lemma CalendarDateExpandedYearRoundTrip(cd: CalendarDay)
    requires 0 <= cd.month <= 11 && 1 <= cd.day <= 31 && -271820 <= cd.year <= -100000
    ensures |CalendarDateString(cd)| == 13
    ensures ParseIsoDate(CalendarDateString(cd)) == Some((cd.year, cd.month + 1, cd.day))
    ensures ValidDate(DateOf(cd)) ==> CalendarDate(cd) == Some(DateOf(cd))
    ensures !ValidDate(DateOf(cd)) ==> CalendarDate(cd).None?
  {
    var digits := NatToString(-cd.year);
    assert |digits| == 6 by {
      NatToStringLength(-cd.year, 6);
      NatToStringLength(-cd.year, 5);
      assert Pow10(6) == 1000000 && Pow10(5) == 100000;
    }
    assert IntToString(cd.year) == ['-'] + digits;
    Pad2Length(cd.month + 1);
    Pad2Length(cd.day);
    NatToStringRoundTrip(-cd.year);
    TwoDigitRoundTrip(cd.month + 1);
    TwoDigitRoundTrip(cd.day);
    ParseAssembledExpanded('-', digits, Pad2(cd.month + 1), Pad2(cd.day));
  }

  /** The cell of 10 March of year -100000 reads "-100000-03-10", which is that date. */
  lemma ExpandedYearCellExample()
    ensures CalendarDateString(CalendarDay(10, 0, 2, -100000)) == "-100000-03-10"
    ensures CalendarDate(CalendarDay(10, 0, 2, -100000)) == Some(Ymd(-100000, 2, 10))
  {
    CalendarDateExpandedYearRoundTrip(CalendarDay(10, 0, 2, -100000));
  }

  /** 31 February 2024 reads "2024-02-31": the string is well formed, but its
      day is past the end of the month, so it is no date. */
  lemma PastMonthEndCellExample()
    ensures CalendarDateString(CalendarDay(31, 0, 1, 2024)) == "2024-02-31"
    ensures CalendarDate(CalendarDay(31, 0, 1, 2024)).None?
  {
    CalendarDateStringRoundTrip(CalendarDay(31, 0, 1, 2024));
  }

  /** `String(year)` is four digits only for years 1000..9999 and a sign with
      six digits only for years -999999..-100000; for any other year the
      cell's string is not a date and every comparison with it fails. */
  lemma CalendarDateInvalidYear(cd: CalendarDay)
    requires 0 <= cd.month <= 11 && 1 <= cd.day <= 31
    requires !(1000 <= cd.year <= 9999) && !(-999999 <= cd.year <= -100000)
    ensures CalendarDate(cd).None?
  {
    var y := IntToString(cd.year);
    var s := CalendarDateString(cd);
    Pad2Length(cd.month + 1);
    Pad2Length(cd.day);
    assert s[0] == y[0];
    if cd.year < 0 {
      NegativeYearLength(cd.year);
    } else {
      YearNotFourDigits(cd.year);
    }
  }

  lemma YearNotFourDigits(year: int)
    requires 0 <= year && !(1000 <= year <= 9999)
    ensures |IntToString(year)| != 4
  {
    NatToStringLength(year, 3);
    NatToStringLength(year, 4);
    assert Pow10(3) == 1000 && Pow10(4) == 10000;
  }

  /** A negative year outside -999999..-100000 is not written with a sign and
      exactly six digits. */
  lemma NegativeYearLength(year: int)
    requires year < 0 && !(-999999 <= year <= -100000)
    ensures IntToString(year)[0] == '-' && |IntToString(year)| != 7
  {
    NatToStringLength(-year, 5);
    NatToStringLength(-year, 6);
    assert Pow10(5) == 100000 && Pow10(6) == 1000000;
  }

  /** areDatesEqual: year, month and day agree; an Invalid Date equals nothing.
      Comparing the three getters is the same as comparing the dates. */
  function AreDatesEqual(calendarDate: Option<Ymd>, sessionDate: Ymd): (equal: bool)
    ensures equal <==> calendarDate == Some(sessionDate)
  {
    calendarDate.Some?
    && sessionDate.year == calendarDate.value.year
    && sessionDate.month == calendarDate.value.month
    && sessionDate.day == calendarDate.value.day
  }

  /** The callback of `sessions.map`: undefined for a soft-deleted session or
      one on another date, the session itself otherwise. */
  function MatchSession(session: Session, calendarDate: Option<Ymd>): (r: Option<Session>)
    ensures r.Some? <==> Kept(session, calendarDate)
    ensures r.Some? ==> r.value == session
  {
    if session.deleted then None
    else if AreDatesEqual(calendarDate, session.date) then Some(session)
    else None
  }

  function SessionsMap(sessions: seq<Session>, calendarDate: Option<Ymd>): (r: seq<Option<Session>>)
    ensures |r| == |sessions|
  {
    seq(|sessions|, i requires 0 <= i < |sessions| => MatchSession(sessions[i], calendarDate))
  }

  /** `filter(Boolean)`: the defined entries, in order (a session object is
      always truthy). */
  function Present(xs: seq<Option<Session>>): (r: seq<Session>)
    ensures |r| <= |xs|
    ensures forall s :: s in r <==> Some(s) in xs
  {
    if xs == [] then []
    else (if xs[0].Some? then [xs[0].value] else []) + Present(xs[1..])
  }

  /** The sessions getSessionsToday returns for a non-null session list. */
  function SessionsToday(sessions: seq<Session>, cd: CalendarDay): seq<Session> {
    Present(SessionsMap(sessions, CalendarDate(cd)))
  }

  /** getSessionsToday: undefined when the session list is missing; otherwise
      the sessions of the cell's day, in input order, each as often as the
      input holds it, and no others. */
  function GetSessionsToday(sessions: Option<seq<Session>>, cd: CalendarDay): (r: Option<seq<Session>>)
    ensures r.None? <==> sessions.None?
    ensures r.Some? ==> r.value == SessionsToday(sessions.value, cd)
    ensures r.Some? ==> forall s :: s in r.value ==> OnDay(s, cd)
    ensures r.Some? ==> IsSubsequence(r.value, sessions.value) && |r.value| <= |sessions.value|
    ensures r.Some? ==> forall s :: multiset(r.value)[s] == if OnDay(s, cd) then multiset(sessions.value)[s] else 0
  {
    match sessions
    case None => None
    case Some(ss) =>
      SessionsTodayExactly(ss, cd);
      Some(SessionsToday(ss, cd))
  }

  /** The sessions a cell shows: not deleted, and dated on the cell's calendar date. */
  predicate OnDay(session: Session, cd: CalendarDay) {
    !session.deleted && CalendarDate(cd) == Some(session.date)
  }

  /** r is r taken from s in order, skipping some elements. */
  predicate IsSubsequence<T(==)>(r: seq<T>, s: seq<T>)
    decreases |s|
  {
    if r == [] then true
    else if s == [] then false
    else (r[0] == s[0] && IsSubsequence(r[1..], s[1..])) || IsSubsequence(r, s[1..])
  }

  lemma {:induction false} SubsequenceNoLonger<T>(r: seq<T>, s: seq<T>)
    requires IsSubsequence(r, s)
    ensures |r| <= |s|
    decreases |s|
  {
    if r != [] {
      if r[0] == s[0] && IsSubsequence(r[1..], s[1..]) {
        SubsequenceNoLonger(r[1..], s[1..]);
      } else {
        SubsequenceNoLonger(r, s[1..]);
      }
    }
  }

  /** Kept by the map callback: not deleted, and dated on the calendar date. */
  predicate Kept(session: Session, calendarDate: Option<Ymd>) {
    !session.deleted && calendarDate == Some(session.date)
  }

  /** One step of the map-then-filter: the head session, if kept, followed by
      the filtered rest. */
  lemma FilterStep(sessions: seq<Session>, c: Option<Ymd>)
    requires sessions != []
    ensures Present(SessionsMap(sessions, c))
      == (if Kept(sessions[0], c) then [sessions[0]] else []) + Present(SessionsMap(sessions[1..], c))
  {
    assert SessionsMap(sessions, c)[1..] == SessionsMap(sessions[1..], c);
  }

  /** Every session the filter returns is kept by the callback. */
  lemma {:induction false} FilterOnlyKept(sessions: seq<Session>, c: Option<Ymd>)
    ensures forall s :: s in Present(SessionsMap(sessions, c)) ==> Kept(s, c)
    decreases |sessions|
  {
    if sessions != [] {
      FilterStep(sessions, c);
      FilterOnlyKept(sessions[1..], c);
    }
  }

  /** The filter keeps the input order. */
  lemma {:induction false} FilterInOrder(sessions: seq<Session>, c: Option<Ymd>)
    ensures IsSubsequence(Present(SessionsMap(sessions, c)), sessions)
    decreases |sessions|
  {
    if sessions != [] {
      var r := Present(SessionsMap(sessions, c));
      var r' := Present(SessionsMap(sessions[1..], c));
      FilterStep(sessions, c);
      FilterInOrder(sessions[1..], c);
      if Kept(sessions[0], c) {
        assert r[0] == sessions[0] && r[1..] == r';
      } else if r != [] {
        assert r == r';
      }
    }
  }

  /** `filter(Boolean)` keeps each present value as often as it occurs. */
  lemma {:induction false} PresentCount(xs: seq<Option<Session>>, s: Session)
    ensures multiset(Present(xs))[s] == multiset(xs)[Some(s)]
    decreases |xs|
  {
    if xs != [] {
      PresentCount(xs[1..], s);
      assert xs == [xs[0]] + xs[1..];
    }
  }

  /** The map callback yields a session exactly where the session is kept. */
  lemma {:induction false} MatchCount(sessions: seq<Session>, c: Option<Ymd>, s: Session)
    ensures multiset(SessionsMap(sessions, c))[Some(s)]
            == if Kept(s, c) then multiset(sessions)[s] else 0
    decreases |sessions|
  {
    if sessions != [] {
      var xs := SessionsMap(sessions, c);
      assert xs[1..] == SessionsMap(sessions[1..], c);
      MatchCount(sessions[1..], c, s);
      assert xs == [xs[0]] + xs[1..];
      assert sessions == [sessions[0]] + sessions[1..];
    }
  }

  lemma FilterExactly(sessions: seq<Session>, c: Option<Ymd>)
    ensures forall s :: s in Present(SessionsMap(sessions, c)) ==> Kept(s, c)
    ensures IsSubsequence(Present(SessionsMap(sessions, c)), sessions)
    ensures forall s :: multiset(Present(SessionsMap(sessions, c)))[s]
                        == if Kept(s, c) then multiset(sessions)[s] else 0
  {
    FilterOnlyKept(sessions, c);
    FilterInOrder(sessions, c);
    forall s: Session
      ensures multiset(Present(SessionsMap(sessions, c)))[s]
              == if Kept(s, c) then multiset(sessions)[s] else 0
    {
      PresentCount(SessionsMap(sessions, c), s);
      MatchCount(sessions, c, s);
    }
  }

  /** The result of getSessionsToday is exactly the sessions of the day: each
      one it holds is on the day and not deleted, it keeps their input order,
      and it holds each of them as often as the input does. */
  lemma SessionsTodayExactly(sessions: seq<Session>, cd: CalendarDay)
    ensures forall s :: s in SessionsToday(sessions, cd) ==> OnDay(s, cd)
    ensures IsSubsequence(SessionsToday(sessions, cd), sessions)
    ensures forall s :: multiset(SessionsToday(sessions, cd))[s]
                        == if OnDay(s, cd) then multiset(sessions)[s] else 0
    ensures |SessionsToday(sessions, cd)| <= |sessions|
  {
    var c := CalendarDate(cd);
    FilterExactly(sessions, c);
    assert forall s :: OnDay(s, cd) <==> Kept(s, c);
    SubsequenceNoLonger(SessionsToday(sessions, cd), sessions);
  }

  /** A soft-deleted session is never shown, whatever its date. */
  lemma DeletedNeverShown(sessions: seq<Session>, cd: CalendarDay, s: Session)
    requires s.deleted
    ensures s !in SessionsToday(sessions, cd)
  {
    SessionsTodayExactly(sessions, cd);
  }

  /** A session whose (year, month, day) is not a valid date is on no day:
      the cells' dates are always valid. */
  lemma InvalidSessionDateNeverShown(sessions: seq<Session>, cd: CalendarDay, s: Session)
    requires !ValidDate(s.date)
    ensures s !in SessionsToday(sessions, cd)
  {
    SessionsTodayExactly(sessions, cd);
  }

  /** For a valid cell with a four-digit year, a session is on the day exactly
      when it is not deleted and its (year, month, day) is the cell's. */
  lemma OnDayIff(session: Session, cd: CalendarDay)
    requires ValidDate(DateOf(cd)) && 1000 <= cd.year <= 9999
    ensures OnDay(session, cd) <==> !session.deleted && session.date == DateOf(cd)
  {
    CalendarDateStringRoundTrip(cd);
  }

  /** Two sessions on consecutive days: only the one dated on the cell is shown. */
  lemma SessionsTodayExample(a: Session, b: Session)
    requires a.date == Ymd(2024, 2, 10) && !a.deleted
    requires b.date == Ymd(2024, 2, 11) && !b.deleted
    ensures SessionsToday([a, b], CalendarDay(10, 0, 2, 2024)) == [a]
  {
    var cd := CalendarDay(10, 0, 2, 2024);
    var c := CalendarDate(cd);
    assert c == Some(Ymd(2024, 2, 10)) by {
      CalendarDateStringRoundTrip(cd);
    }
    FirstOfTwoKept(a, b, c);
  }

  lemma FirstOfTwoKept(a: Session, b: Session, c: Option<Ymd>)
    requires Kept(a, c) && !Kept(b, c)
    ensures Present(SessionsMap([a, b], c)) == [a]
  {
    var xs := SessionsMap([a, b], c);
    assert MatchSession(a, c) == Some(a);
    assert MatchSession(b, c) == None;
    assert xs == [Some(a), None];
    assert Present(xs[1..]) == [] by {
      assert xs[1..] == [None];
      assert xs[1..][1..] == [];
    }
  }

  /** shouldScrollToThisDay: the target is present and names the same day,
      month and year; the weekday is not compared. */
  function ShouldScrollToThisDay(thisDay: CalendarDay, scrollToThisDay: Option<CalendarDay>): (scroll: bool)
    ensures scroll <==> scrollToThisDay.Some? && DateOf(scrollToThisDay.value) == DateOf(thisDay)
  {
    scrollToThisDay.Some?
    && scrollToThisDay.value.month == thisDay.month
    && scrollToThisDay.value.year == thisDay.year
    && scrollToThisDay.value.day == thisDay.day
  }

  lemma ShouldScrollProperties(a: CalendarDay, b: CalendarDay, w: int)
    ensures ShouldScrollToThisDay(a, Some(a))
    ensures ShouldScrollToThisDay(a, Some(b)) <==> ShouldScrollToThisDay(b, Some(a))
    ensures ShouldScrollToThisDay(a, Some(b)) <==> ShouldScrollToThisDay(a, Some(b.(weekDay := w)))
    ensures ShouldScrollToThisDay(a, Some(b)) <==> DateOf(a) == DateOf(b)
    ensures !ShouldScrollToThisDay(a, None)
  {
  }

  /** isDayToday with the current date `now` passed in: the cell names today's date. */
  function IsDayToday(dayData: CalendarDay, now: Ymd): (today: bool)
    ensures today <==> DateOf(dayData) == now
  {
    dayData.day == now.day && dayData.month == now.month && dayData.year == now.year
  }

  /** isDayTomorrow with the current date `now` passed in: the next day number
      in the same month and year. */
  function IsDayTomorrow(dayData: CalendarDay, now: Ymd): (tomorrow: bool)
    ensures tomorrow <==> DateOf(dayData) == now.(day := now.day + 1)
  {
    dayData.day == now.day + 1 && dayData.month == now.month && dayData.year == now.year
  }

  lemma TodayAndTomorrowExclusive(dayData: CalendarDay, now: Ymd)
    ensures !(IsDayToday(dayData, now) && IsDayTomorrow(dayData, now))
  {
  }

  /** On the last day of a month, isDayTomorrow holds of no valid day at all. */
  lemma NoTomorrowOnLastDayOfMonth(dayData: CalendarDay, now: Ymd)
    requires ValidDate(now) && now.day == MonthLength(now.month, now.year)
    requires ValidDate(DateOf(dayData))
    ensures !IsDayTomorrow(dayData, now)
  {
  }

  /** The day after `now`, across month and year ends: the evident intent of
      isDayTomorrow. */
  predicate IsDayAfter(dayData: CalendarDay, now: Ymd)
    requires ValidDate(now)
  {
    DateOf(dayData) == NextDay(now)
  }

  /** For valid dates, IsDayAfter holds exactly when the day number is one past now's. */
  lemma IsDayAfterIff(dayData: CalendarDay, now: Ymd)
    requires ValidDate(now) && ValidDate(DateOf(dayData))
    ensures IsDayAfter(dayData, now) <==> DayOf(DateOf(dayData)) == DayOf(now) + 1
  {
    if DayOf(DateOf(dayData)) == DayOf(now) + 1 {
      DayOfInjective(DateOf(dayData), NextDay(now));
    }
  }

  /** isDayTomorrow as written agrees with IsDayAfter, except on the last day of
      a month, where it misses the first day of the next month. */
  lemma IsDayTomorrowAgainstIntent(dayData: CalendarDay, now: Ymd)
    requires ValidDate(now) && ValidDate(DateOf(dayData))
    ensures IsDayTomorrow(dayData, now) ==> IsDayAfter(dayData, now)
    ensures now.day < MonthLength(now.month, now.year) ==>
      (IsDayTomorrow(dayData, now) <==> IsDayAfter(dayData, now))
  {
  }

  /** On 31 January 2024, 1 February 2024 is tomorrow, yet isDayTomorrow is false. */
  lemma IsDayTomorrowMissesMonthEnd()
    ensures !IsDayTomorrow(CalendarDay(1, 4, 1, 2024), Ymd(2024, 0, 31))
    ensures IsDayAfter(CalendarDay(1, 4, 1, 2024), Ymd(2024, 0, 31))
  {
  }

  /** February 2024 has 29 days; February 2023 has 28. */
  lemma February2024()
    ensures GetDaysInMonth(1, 2024) == 29 && GetDaysInMonth(1, 2023) == 28
  {
  }

  /** 1 February 2024 fell on a Thursday. */
  lemma FirstOfFebruary2024IsThursday()
    ensures WeekDay(Ymd(2024, 1, 1)) == 4
  {
    assert DayFromYear(2024) == 19723 by {
      DayFromYearIsEcma(2024);
    }
    assert DayOf(Ymd(2024, 1, 1)) == 19754;
    assert WeekDay(Ymd(2024, 1, 1)) == 19758 % 7;
  }

  /** `new Date(24, 0, 1)` is 1 January 1924, a Tuesday, so the first cell of
      generateCalendarMonth(0, 24) has weekday 2. */
  lemma FirstOfJanuary1924IsTuesday()
    ensures WeekDay(Ymd(ConstructorYear(24), 0, 1)) == 2
  {
    assert DayFromYear(1924) == -16802 by {
      DayFromYearIsEcma(1924);
    }
    assert DayOf(Ymd(1924, 0, 1)) == -16802;
    assert WeekDay(Ymd(1924, 0, 1)) == -16798 % 7;
  }
}
