# Training studio calendar — a Dafny model

This project models the date logic behind the training studio's calendar and
the form that creates, updates and deletes a training session.

- `lib/calendar.ts` builds the cells of a month (`generateCalendarMonth`, with
  `getDaysInMonth`), picks the sessions that fall on a cell
  (`getSessionsToday`, with `areDatesEqual`) and compares a cell with a scroll
  target and with the current date (`shouldScrollToThisDay`, `isDayToday`,
  `isDayTomorrow`).
- `components/calendar/CalendarForm.tsx` is a small state machine. It holds a
  status (`idle`, `pending`, `resolved`, `rejected`), a draft session, an error
  and a mode. It reacts to loading a session, a change of user, field edits,
  submit, delete and reset.

The Dafny modules follow that split:

- `Wrappers` (`wrappers.dfy`): `Option` and `Result`.
- `EcmaDate` (`ecma_date.dfy`): the whole-day arithmetic of ECMAScript `Date`
  (section 21.4.1 of ECMA-262). It covers DaysInYear, DayFromYear (counted
  year by year and proved equal to the standard's closed formula), month
  lengths, MakeDay with its carry of the month into the year, WeekDay, the
  injectivity of day numbers on valid dates, and the next day.
- `IsoDate` (`iso_date.dfy`): `String(n)`, `padStart`, the ECMA-262 date-only
  strings `YYYY-MM-DD` and `±YYYYYY-MM-DD` and their parser, and the first ten characters of
  `toISOString()`.
- `Calendar` (`calendar.dfy`): `lib/calendar.ts`.
- `CalendarForm` (`calendar_form.dfy`): the form as a class `SessionForm`
  with one method per event. Each submit or delete call is split in two.
  The `Begin…` method records the call, and `Settle` later delivers its
  success or failure. The session fetch runs within `Load` as one step.

Dates are `(year, month, day)` triples with the month counted from 0, as
`getMonth` reports it. The current date is a parameter. The constructor
`new Date(year, month, day)` reads a year 0..99 as 1900..1999 (the
MakeFullYear step of section 21.4.2.1 of ECMA-262); `ConstructorYear` models
that step. So `getDaysInMonth(month, year)` is the month-length table at
`ConstructorYear(year)`, and a lemma shows that "day 0 of the next month"
(`new Date(year, month + 1, 0)`) is that month's last day, so `getDate` reads
the table's value back. Likewise `generateCalendarMonth` computes its weekdays
in `ConstructorYear(year)`, while each cell still carries the `year` it was
given.

The calendar cell's string is `${year}-${MM}-${DD}`. It parses as a date when
`String(year)` has four digits (years 1000..9999), or when it is a minus sign
and six digits (years -999999..-100000), which is the expanded-year form of
ECMA-262's Date Time String Format. For every other year the string is an
Invalid Date, which matches no session.

Two quirks of the form are stated as they are:

- Submit tests the draft's `sessionId`, but delete tests the `sessionId` prop.
  So after the prop is cleared, Delete is still offered, and clicking it leaves
  the form `pending` with no call left to settle it
  (`DeleteAfterSessionIdClearedStaysPending`).
- A failed submit or delete throws the draft away.

Two behaviours one might expect from the form's design do not hold in the
code, and the model follows the code:

- On success the state always becomes `initialState` with status `resolved`.
  The owner is the `userId` prop for an update as much as for a create.
- Submit is possible from any status, not only from `idle` or `rejected`.
  The only guard is that the submit button is disabled without a user id;
  likewise the Delete button exists only while the draft has a session id.
  These two render-time guards are the preconditions of `BeginSubmit` and
  `BeginDelete`, since those buttons are the handlers' only callers.

## Model

| member | source | states |
|---|---|---|
| EcmaDate.LeapYearRule | lib/calendar.ts:5 | The years with 366 days are exactly the Gregorian leap years: divisible by 4 and not by 100, or divisible by 400 |
| EcmaDate.DayFromYearIsEcma | lib/calendar.ts:5 | Counting 365 or 366 days per year from 1970 gives ECMA-262's closed DayFromYear formula with floor division, for every year before or after 1970 |
| EcmaDate.EcmaYearStep | lib/calendar.ts:5 | The closed formula advances by exactly DaysInYear(y) from year y to year y + 1 |
| EcmaDate.MonthLength | lib/calendar.ts:4-6 | Every month has 28 to 31 days, and February has 29 exactly in a leap year |
| EcmaDate.DaysBeforeMonth | lib/calendar.ts:5 | The cumulative month table: each month starts where the previous one ends |
| EcmaDate.MonthsFillYear | lib/calendar.ts:5 | The twelve months add up to the length of the year |
| EcmaDate.DayFromYearMonotone | lib/calendar.ts:5 | A later year starts at least 365 days after an earlier one |
| EcmaDate.DayOfWithinYear | lib/calendar.ts:13 | A valid date's day number lies inside its own year |
| EcmaDate.ConstructorYear | lib/calendar.ts:5 | The year the `Date(year, month, day)` constructor uses: the input year, or that year plus 1900 for a two-digit year; never itself in 0..99 |
| EcmaDate.DayZeroOfNextMonth | lib/calendar.ts:5 | ECMA-262's MakeDay of (year, month + 1, 0), i.e. `new Date(year, month + 1, 0)` once the constructor has mapped the year, is the last day of `month`; for December the carry into January of the next year is included |
| EcmaDate.DayOfInjective | lib/calendar.ts:5 | Two valid dates with the same day number are equal, so the getters read a valid triple back unchanged |
| EcmaDate.WeekDay | lib/calendar.ts:13-14 | `getDay` is in 0..6 |
| EcmaDate.NextDay | lib/calendar.ts:100-109 | The following date is valid and its day number is one more, across month and year ends |
| EcmaDate.WeekDaySuccessor | lib/calendar.ts:13-14 | The weekday of the next day is the weekday plus one, modulo 7 |
| IsoDate.NatToString | lib/calendar.ts:51-54 | `String(n)` of a natural number is a non-empty string of decimal digits |
| IsoDate.NatToStringRoundTrip | lib/calendar.ts:51-54 | Reading the digits of `String(n)` back gives n |
| IsoDate.NatToStringLength | lib/calendar.ts:51-54 | `String(n)` has at most k digits exactly when n < 10^k |
| IsoDate.PadStart | lib/calendar.ts:51-54 | `padStart(width, fill)` has length max(\|s\|, width) |
| IsoDate.PadStartShape | lib/calendar.ts:51-54 | The padded string ends with s, and every character before s is the fill |
| IsoDate.ZeroPadValue | lib/calendar.ts:51-54 | Padding digits with zeros keeps them digits and keeps their value |
| IsoDate.TwoDigitRoundTrip | lib/calendar.ts:51-54 | For 0..99, `String(n).padStart(2, '0')` is two digits that read back as n |
| IsoDate.ParseIsoDate | lib/calendar.ts:50-55 | An accepted date string is either ten characters starting with a digit, with hyphens at positions 4 and 7 and a year 0..9999, or thirteen characters starting with a sign, with hyphens at positions 7 and 10 and a year -999999..999999; the month is 1..12 and the day 1..31 |
| IsoDate.ParseAssembledExpanded | lib/calendar.ts:50-55 | A sign, six year digits, a 2-digit month and a 2-digit day joined by hyphens parse back to the signed year and those fields when they are in range and the year is not "-000000", and to an Invalid Date otherwise |
| IsoDate.NegativeZeroYearRejected | lib/calendar.ts:50-55 | A date string with the year "-000000" is an Invalid Date whatever its month and day |
| IsoDate.ParseAssembled | lib/calendar.ts:50-55 | Joining a 4-digit year, 2-digit month and 2-digit day with hyphens parses back to those three values when month and day are in range, and to an Invalid Date otherwise |
| IsoDate.IsoYearFourDigits | components/calendar/CalendarForm.tsx:55 | In `toISOString`, a year in 0..9999 is written as four digits that read back as the year |
| IsoDate.IsoYearExpanded | components/calendar/CalendarForm.tsx:55 | Any other year is written as `-` (negative) or `+` followed by at least six digits that read back as the year's magnitude |
| IsoDate.IsoDatePrefix | components/calendar/CalendarForm.tsx:54-56 | `substring(0, 10)` of the ISO string always has ten characters |
| IsoDate.IsoDatePrefixIsAssembled | components/calendar/CalendarForm.tsx:54-56 | For years 0..9999 the ten characters are the whole `YYYY-MM-DD` date, and nothing is cut off |
| IsoDate.IsoDatePrefixRoundTrip | components/calendar/CalendarForm.tsx:54-56 | For years 0..9999 the loaded date string parses back to (year, month + 1, day) |
| IsoDate.IsoDatePrefixExpandedYear | components/calendar/CalendarForm.tsx:54-56 | For other years the loaded string starts with a sign, so it is not a `YYYY-MM-DD` date string (the value the date input needs) |
| Calendar.GetDaysInMonth | lib/calendar.ts:4-6 | The result is a valid day of the month in the constructor's year and lies in 28..31; February has 29 days exactly when that year is a Gregorian leap year |
| Calendar.GetDaysInMonthIsDayZero | lib/calendar.ts:4-6 | Day 0 of the next month, in the constructor's year, has the day number of (that year, month, getDaysInMonth), no other valid date has it, and no valid day of the month is later |
| Calendar.TwoDigitYearMonths | lib/calendar.ts:4-6 | February of year 0 has 28 days (1900), of year 24 has 29 (1924), of year 2000 has 29 |
| Calendar.GenerateCalendarMonth | lib/calendar.ts:8-19 | Exactly getDaysInMonth entries. Entry i is day i + 1 with the input month and year, and the weekday of `new Date(year, month, i + 1)` (a date in the constructor's year), in 0..6. Consecutive weekdays advance by one modulo 7 |
| Calendar.WeekDaysOfMonthSucceed | lib/calendar.ts:12-15 | Within a month, each day's weekday is the previous day's plus one, modulo 7 |
| Calendar.CalendarDateStringRoundTrip | lib/calendar.ts:50-55 | For years 1000..9999 the cell's string is `YYYY-MM-DD` (ten characters) and reads back as (year, month + 1, day); the parsed date is the cell's date when the cell is a valid date, and an Invalid Date when its day is past the end of the month |
| Calendar.CalendarDateExpandedYearRoundTrip | lib/calendar.ts:50-55 | For years -271820..-100000 the cell's string is `-YYYYYY-MM-DD` (thirteen characters) and reads back as (year, month + 1, day); the parsed date is the cell's date when the cell is a valid date, and an Invalid Date when its day is past the end of the month |
| Calendar.ExpandedYearCellExample | lib/calendar.ts:50-55 | The cell of 10 March of year -100000 is the string "-100000-03-10", which parses to that date |
| Calendar.CalendarDateInvalidYear | lib/calendar.ts:50-55 | For a year outside 1000..9999 and -999999..-100000 the cell's string is an Invalid Date |
| Calendar.CalendarDateString | lib/calendar.ts:50-55 | No contract of its own: what the string is and how it parses is stated by CalendarDateStringRoundTrip, CalendarDateExpandedYearRoundTrip and CalendarDateInvalidYear |
| Calendar.CalendarDate | lib/calendar.ts:50-55 | A date it yields is always a valid date; for a valid cell it is the cell's date when the year is four digits (CalendarDateStringRoundTrip) or a negative six-digit year (CalendarDateExpandedYearRoundTrip), an Invalid Date for a day past the end of the month (PastMonthEndCellExample) and for the other years (CalendarDateInvalidYear) |
| Calendar.PastMonthEndCellExample | lib/calendar.ts:50-55 | The cell of 31 February 2024 reads "2024-02-31", which is no date |
| Calendar.AreDatesEqual | lib/calendar.ts:21-35 | Comparing the three getters is true exactly when the calendar date is a valid date equal to the session's date; an Invalid Date equals nothing |
| Calendar.MatchSession | lib/calendar.ts:57-67 | The callback yields a value exactly when the session is not deleted and is dated on the calendar date, and that value is the session itself |
| Calendar.Present | lib/calendar.ts:69 | `filter(Boolean)` returns no more entries than it was given, and a session is in the result exactly when a defined entry holds it |
| Calendar.GetSessionsToday | lib/calendar.ts:37-70 | The result is undefined exactly when the session list is missing. Otherwise every returned session is on the cell's day and not deleted, the result keeps input order, holds each such session as often as the input does, and is no longer than the input |
| Calendar.SessionsMap | lib/calendar.ts:57-67 | The map yields one entry per session |
| Calendar.FilterStep | lib/calendar.ts:57-69 | Map-then-filter of a non-empty list is the head, when kept, followed by map-then-filter of the rest |
| Calendar.FilterOnlyKept | lib/calendar.ts:57-69 | Every returned session is not deleted and is dated on the calendar date |
| Calendar.FilterInOrder | lib/calendar.ts:57-69 | The result is a subsequence of the input: input order is kept |
| Calendar.PresentCount | lib/calendar.ts:69 | `filter(Boolean)` keeps each session exactly as often as it occurs among the map's defined entries |
| Calendar.MatchCount | lib/calendar.ts:57-67 | The map yields a session as often as it occurs in the input if it is kept, and never otherwise |
| Calendar.FilterExactly | lib/calendar.ts:57-69 | Only kept sessions, in input order, and each kept session as often as in the input |
| Calendar.SessionsTodayExactly | lib/calendar.ts:37-70 | getSessionsToday returns exactly the non-deleted sessions on the cell's date, in input order, each as often as in the input, and no more sessions than the input |
| Calendar.SubsequenceNoLonger | lib/calendar.ts:69 | A subsequence is no longer than its source |
| Calendar.DeletedNeverShown | lib/calendar.ts:57-60 | A deleted session is never returned, whatever its date |
| Calendar.InvalidSessionDateNeverShown | lib/calendar.ts:50-60 | A session whose (year, month, day) is not a valid date is never returned for any cell |
| Calendar.OnDayIff | lib/calendar.ts:21-35 | For a valid cell with a four-digit year, a session is shown exactly when it is not deleted and its year, month and day equal the cell's |
| Calendar.SessionsTodayExample | lib/calendar.ts:37-70 | Of sessions on 10 and 11 March 2024, only the first is shown on the 10 March cell |
| Calendar.FirstOfTwoKept | lib/calendar.ts:57-69 | Of two sessions where only the first is kept, only the first is returned |
| Calendar.ShouldScrollToThisDay | lib/calendar.ts:79-87 | True exactly when a target is given and its date (day, month, year) is the cell's date |
| Calendar.ShouldScrollProperties | lib/calendar.ts:79-87 | True exactly when day, month and year agree, ignoring the weekday; hence reflexive and symmetric, and false without a target |
| Calendar.IsDayToday | lib/calendar.ts:89-98 | True exactly when the cell's date is the current date |
| Calendar.IsDayTomorrow | lib/calendar.ts:100-109 | True exactly when the cell's date is the current date with the day number raised by one, in the same month and year |
| Calendar.TodayAndTomorrowExclusive | lib/calendar.ts:89-109 | No cell is both today and tomorrow |
| Calendar.NoTomorrowOnLastDayOfMonth | lib/calendar.ts:100-109 | On the last day of a month, isDayTomorrow holds for no valid cell |
| Calendar.IsDayAfterIff | lib/calendar.ts:100-109 | The corrected test holds exactly when the cell's day number is one past now's |
| Calendar.IsDayTomorrowAgainstIntent | lib/calendar.ts:100-109 | isDayTomorrow as written implies the corrected test, and agrees with it whenever now is not the last day of its month |
| Calendar.IsDayTomorrowMissesMonthEnd | lib/calendar.ts:100-109 | On 31 January 2024, the 1 February 2024 cell is the next day, yet isDayTomorrow is false |
| Calendar.February2024 | lib/calendar.ts:4-6 | getDaysInMonth gives 29 for February 2024 and 28 for February 2023 |
| Calendar.FirstOfFebruary2024IsThursday | lib/calendar.ts:13-14 | The weekday of 1 February 2024 is 4 (Thursday) |
| Calendar.FirstOfJanuary1924IsTuesday | lib/calendar.ts:13-14 | `new Date(24, 0, 1)` falls on weekday 2 (Tuesday, 1 January 1924), so the first cell of generateCalendarMonth(0, 24) has weekday 2 |
| CalendarForm.InitialState | components/calendar/CalendarForm.tsx:20-42 | The initial state has status `idle`, no error, and a draft owned by the `userId` prop and bound to no session |
| CalendarForm.SessionForm.constructor | components/calendar/CalendarForm.tsx:20-47 | The first render holds `initialState` (empty draft owned by the `userId` prop, no error, `idle`) and mode `createSession` |
| CalendarForm.SessionForm.Load | components/calendar/CalendarForm.tsx:50-73 | With a `sessionId` prop, one fetch is made. On success the draft takes the ten-character ISO date, description, name, video URL and the session id; owner, status, error and mode are kept, and Delete is offered. Without a prop or on failure the draft is unchanged |
| CalendarForm.SessionForm.ChangeSessionId | components/calendar/CalendarForm.tsx:50-73 | A new non-empty `sessionId` prop runs the load: one fetch; on success the draft takes the loaded fields and the id, and Delete is offered; on failure the draft is unchanged. The same value or an empty one changes nothing but the prop. Submit stays enabled or disabled as before |
| CalendarForm.SessionForm.ChangeUserId | components/calendar/CalendarForm.tsx:75-80 | Only the draft's owner changes, to the new `userId` |
| CalendarForm.SessionForm.EditField | components/calendar/CalendarForm.tsx:146-195 | Exactly the edited draft field takes the typed value; status and error are kept |
| CalendarForm.SessionForm.BeginSubmit | components/calendar/CalendarForm.tsx:82-94 | Callable only while the submit button is enabled (a user id is set). Status `pending`. An update with mode `updateSession` is sent exactly when the draft has a session id, otherwise a create with mode `createSession`. The call carries the current draft |
| CalendarForm.SessionForm.BeginDelete | components/calendar/CalendarForm.tsx:111-120 | Callable only while the Delete button is rendered (the draft has a session id). Mode `deleteSession` and status `pending`. Without a `sessionId` prop no call is made; with one, the draft is sent with the marker `'true'` |
| CalendarForm.SessionForm.Settle | components/calendar/CalendarForm.tsx:96-134 | A success gives `initialState` with `resolved` and one refresh. A failure gives `initialState` with `rejected` and the caught error, and no refresh. Either way the draft is discarded and Delete is no longer offered |
| CalendarForm.SessionForm.Reset | components/calendar/CalendarForm.tsx:137-139 | From any state: `initialState`, i.e. `idle`, no error, an empty draft owned by `userId`; Delete is no longer offered |
| CalendarForm.SessionForm.CanSubmit | components/calendar/CalendarForm.tsx:198 | No contract of its own: the submit button's enabled state; BeginSubmit requires it, and ChangeSessionId, Settle and Reset keep it |
| CalendarForm.SessionForm.ShowsDelete | components/calendar/CalendarForm.tsx:204 | No contract of its own: whether the Delete button is rendered; BeginDelete requires it, Load and ChangeSessionId set it on a successful load, Settle and Reset clear it |
| CalendarForm.DeleteAfterSessionIdClearedStaysPending | components/calendar/CalendarForm.tsx:111-118 | Load a session, then clear the prop: Delete is still offered, and clicking it leaves the form `pending` with no delete call made and none outstanding |
| CalendarForm.CreateSessionScenario | components/calendar/CalendarForm.tsx:82-101 | With a user and no session id, submit is enabled and sends one create with the typed draft. Success leaves an empty `resolved` draft owned by the same user, after one refresh |
| CalendarForm.FailedUpdateScenario | components/calendar/CalendarForm.tsx:82-108 | A loaded session edited and submitted sends the fetch, then an update carrying the session id. Failure leaves `rejected` with the caught error, an empty draft and no refresh |

## Left out

- The locale helpers `getLongWeekday`, `getShortWeekday` and `getMonthName`
  (`lib/calendar.ts:111-133`) are not modelled: they depend on locale data.
- The clock: `new Date()` in `isDayToday` and `isDayTomorrow` becomes a
  `now` parameter.
- Time zones. `new Date('YYYY-MM-DD')` parses as UTC midnight, while the
  getters read local time. The model treats every date as a plain
  (year, month, day) triple, and a stored session's date as the calendar
  fields its getters report, which always form a valid date. No lemma needs
  that as a requirement: a session with an invalid triple is on no day
  (`InvalidSessionDateNeverShown`).
- Calendar.CalendarDate: a well-formed string whose day lies past the end of
  its month ("2024-02-31") is an Invalid Date here. ECMA-262 leaves such a
  string to the engine's fallback, and V8 rolls it over into the next month
  (2 March); that roll-over is not modelled. The cells of
  `generateCalendarMonth` are valid dates, so it does not arise there.
- The time-value range of ECMA-262 (±8.64e15 ms) and the resulting
  `RangeError` of `toISOString`: years are unbounded integers.
- Months outside 0..11: every date function requires `0 <= month <= 11`.
- IsoDate.ParseIsoDate: only the date-only forms with all three fields are
  modelled, `YYYY-MM-DD` and `±YYYYYY-MM-DD`. The year-only and year-month
  forms, the date-time forms and the implementation-specific fallbacks that
  engines may accept are modelled as an Invalid Date; the calendar's strings
  always carry all three fields.
- IsoDate.ParseIsoDate: it does not check the time-value range, so a negative
  six-digit year before -271821 parses in the model, where the source's `Date`
  is an Invalid Date. For this reason CalendarDateExpandedYearRoundTrip is
  stated only from year -271820 on.
- The network calls (`fetchSession`, `createSession`, `updateSession`,
  `deleteSession`) are parameters. Their outcome is passed in, and the calls
  are recorded in `requests`. `router.refresh()` is a counter.
- CalendarForm.SessionForm.Load: the load runs as one step. The source's effect spreads
  the state captured at render time, so an edit made while the fetch is in
  flight would be overwritten. The model does not capture that stale read.
- CalendarForm.SessionForm.Settle: it resets to the `initialState` of the current `userId`.
  The source's handler uses the `initialState` captured when it was created.
  The two differ only if the `userId` prop changes while a call is in flight.
- The `required` attributes of the inputs (browser validation) and the
  `Info` status component are not modelled.
- CalendarGrid, the training-studio page, AuthForm, ContactForm,
  CalendarDropdown, `useGetSessionsTableData` and the layout are not part of
  this model: they render, route or call services that are not shown.

## Findings

| source | as written | input that shows it | evidently intended | confidence | as-written member | corrected member |
|---|---|---|---|---|---|---|
| lib/calendar.ts:100-109 | `isDayTomorrow` compares `day === now.getDate() + 1` within the same month and year | now = 31 January 2024, cell = 1 February 2024: the cell is the next day, yet the test is false; on the last day of any month no cell passes | the cell is the calendar day after now, across month and year ends | high (not executed) | Calendar.IsDayTomorrowMissesMonthEnd | Calendar.IsDayAfterIff |
