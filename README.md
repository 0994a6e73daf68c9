# fumotoppara-checker: the availability selection, in Dafny

`index.js` asks the Fumotoppara campground's reservation API for a calendar. It picks
the overnight camping plan ("キャンプ宿泊", `stayDiv` "STAY") and keeps the dates whose cell
is open ("○", "△" or "残"). Of those it keeps the Fridays and Saturdays in June, July and
August. If any date is left, it sends a LINE message: a fixed header line, then one date
per line.

This project models that selection, from the decoded JSON response to the message text.
Each run ends in one of five ways (`Availability.Outcome`):

- a TypeError escapes;
- no plan is found;
- the plan's date list is not an array;
- nothing is left to send;
- a message is sent.

The modules:

- `Wrappers` (wrappers.dfy): the optional value shared by the date parser and the plan lookup.
- `JsonValues` (json.dfy): decoded JSON values, property reads and JavaScript truthiness.
  The response can be any JSON value, so the model keeps the source's dynamic behaviour.
  For example, `calendarDates || dates` keeps an empty `calendarDates` array, because
  every array is truthy. Reading a property of a null entry throws.
- `Sequences` (sequences.dfy): `filter`, `map`, `join`, `includes`, and the `split` that
  reads a joined message back.
- `Calendar` (calendar.dfy): the day arithmetic of section 21.4.1 of ECMA-262 (DayFromYear,
  YearFromTime, MonthFromTime, DateFromTime, MakeDay, WeekDay), in UTC.
- `IsoDate` (isodate.dfy): the date-only forms of ECMA-262's Date Time String Format
  (section 21.4.1.32): "YYYY", "YYYY-MM" and "YYYY-MM-DD".
- `Availability` (availability.dfy): the pipeline of `checkAvailability`.
- `Samples` (samples.dfy): the dates the source names, and whole responses.

Three facts tie the date filter to the calendar:

- Decomposing a date's day number gives the same date back, and the reverse holds too.
- ECMA-262's weekday agrees with Zeller's congruence.
- The target filter keeps a value exactly when it is a date string of a Friday or a
  Saturday in June to August.

The time zone is fixed to UTC. A date-only string is UTC midnight, so UTC gives the same
answer as any host at or east of Greenwich.

The code does not remove duplicate dates: two open cells with the same date put that date
into the message twice (`Samples.ResponseMessage`).

## Model

| member | source | states |
|---|---|---|
| `Availability.IsStayPlan` | index.js:32 | the `find` callback: `stayDiv` is "STAY" and `siteName` includes the plan name; a TypeError on a null item or a `siteName` with no `includes` (its meaning is pinned by `FindPlanFirst` and `FindPlanNone`) |
| `Availability.FindPlan` | index.js:31-33 | `find`: the items in order, stopping at the first one the callback accepts or throws on (see the three lemmas below) |
| `Availability.FindPlanNone` | index.js:31-37 | `find` yields no plan exactly when the callback returns false for every site entry; the run then stops with NoPlan |
| `Availability.FindPlanFirst` | index.js:31-33 | the first entry the callback does not reject decides `find`: that entry is the plan if accepted, and a TypeError if the callback threw (null entry, `siteName` without `includes`) |
| `Availability.StopsWithoutPlan` | index.js:31-37 | the run stops for want of a plan exactly when `calendarsSiteList` is an array and every entry is rejected |
| `Availability.FindPlanIndex` | index.js:31-33 | a plan `find` returns is the item at an index where every earlier item was rejected and this one accepted |
| `Availability.DateList` | index.js:41 | `calendarDates`, or `dates` when that is falsy: an array under `calendarDates`, even an empty one, is always taken; otherwise the result is one of the two properties |
| `Availability.StopsOnUnknownDates` | index.js:41-45 | the run ends with UnknownDates exactly when the site list is an array, `find` stops at a plan, and the date list it picks (truthy `calendarDates`, else `dates`) is no array |
| `Availability.IsOpen` | index.js:49 | the status test: `status` is one of the strings ○, △, 残 (its effect is stated by `AvailableDates`) |
| `Availability.DateField` | index.js:50 | the `date` property of an entry |
| `Availability.Available` | index.js:48-50 | `filter` then `map`; a TypeError when any entry is null, since the filter reads `status` of every entry (see `AvailableDates`, `AvailableMembers`) |
| `Availability.AvailableDates` | index.js:48-50 | `available` holds the `date` fields of exactly the entries with status ○, △ or 残, in input order, one per kept entry |
| `Availability.AvailableMembers` | index.js:48-50 | a value is in `available` exactly when some entry with an open status carries it as its date |
| `Availability.DateValue` | index.js:56 | `new Date(v)` as a UTC day number: a date string is parsed, null and booleans become day 0, anything else is an Invalid Date (see the `Availability.DateValue` lines under Left out) |
| `Availability.IsTarget` | index.js:55-61 | the target callback: the date is valid and its day passes the month and weekday test (its meaning is stated by `TargetDate`) |
| `Availability.IsTargetDay` | index.js:57-60 | `getMonth() + 1` in [6, 7, 8] and `getDay()` in [5, 6] for a day number (its meaning is stated by `TargetDay`) |
| `Availability.Target` | index.js:55-61 | only date strings survive the month and weekday filter: null and booleans convert to 1970-01-01, a Thursday, and numbers and arrays are taken as Invalid Dates (see the `Availability.DateValue` lines under Left out; Node would keep some of them) |
| `Availability.TargetOnlyDates` | index.js:55-61 | a value passing the month/weekday test is a string, given that numbers and arrays are taken as Invalid Dates (see the `Availability.DateValue` lines under Left out) |
| `Availability.DayZeroIsThursday` | index.js:56-59 | the day a null or boolean date converts to, 1970-01-01, is a Thursday and fails the filter |
| `Availability.TargetDay` | index.js:14-15 | the day number of a valid date passes `getMonth()+1 ∈ [6,7,8]` and `getDay() ∈ [5,6]` exactly when the date is in June to August and is a Friday or Saturday by Zeller's congruence |
| `Availability.TargetDate` | index.js:55-61 | a value passes the target filter exactly when it is a date string that parses, whose month is 6, 7 or 8 and whose weekday is 5 or 6 |
| `Availability.TargetSelection` | index.js:55-61 | `target` is an order-preserving subsequence of `available`, no longer than it; a value is in `target` exactly when it is in `available` and passes; duplicates keep their multiplicity |
| `Availability.MessageLines` | index.js:67 | the message read back line by line is the header line followed by exactly the given dates, in order |
| `Availability.Texts` | index.js:67 | the target dates as strings: one per target entry, each the string of the entry at the same index |
| `Availability.Message` | index.js:67 | the header, a line break, then `target.join("\n")` (its lines are stated by `MessageLines`) |
| `Availability.TargetTextsAreLines` | index.js:55-61 | every target date is a string without a line break |
| `Availability.SendsTargets` | index.js:66-71 | a message is sent exactly when the run reaches the open dates and `target` is non-empty, and its lines are the header and the target dates |
| `Availability.SelectAvailable` | index.js:31-50 | steps 2 to 4: a TypeError on a nullish response or a non-array site list, then the plan, its date list and the open dates (see `StopsWithoutPlan`, `StopsOnUnknownDates`) |
| `Availability.ReachedFromPlan` | index.js:31-50 | when the run reaches the open dates, the response and its site list are well formed, and the dates are `filter`/`map` of the array under the date list of the plan at the index where `find` stops |
| `Availability.CheckAvailability` | index.js:17-72 | one run from the decoded response to its outcome: Threw, NoPlan, UnknownDates, NothingToSend, or the message `sendLine` would get (see `SendsTargets`) |
| `Sequences.Filter` | index.js:48-49 | `Array.prototype.filter`, visiting the elements from first to last (see `FilterAtPositions`, `FilterMembers`, `FilterCounts`) |
| `Sequences.Map` | index.js:50 | `Array.prototype.map`: one result per element, the function applied to the element at the same index |
| `Sequences.Positions` | index.js:48-49 | the kept positions are exactly the indices whose element passes, strictly increasing |
| `Sequences.FilterAtPositions` | index.js:55 | `filter` returns the elements at the kept positions, in order, one output per kept element |
| `Sequences.FilterMembers` | index.js:48-49 | a value is in a filter's result exactly when it is in the input and passes |
| `Sequences.FilterCounts` | index.js:48-49 | `filter` keeps every passing value as often as it occurs in the input |
| `Sequences.SplitJoin` | index.js:67 | splitting a `join("\n")` of lines without line breaks gives those lines back |
| `Sequences.Join` | index.js:67 | `join(sep)`: the elements with the separator between neighbours, "" for none |
| `Sequences.Split` | index.js:67 | the pieces between separators, at least one; not called by the program, it reads the message back (see `SplitJoin`, `JoinSplit`) |
| `Sequences.JoinSplit` | index.js:67 | joining the pieces of a split gives the string back |
| `Sequences.ContainsAt` | index.js:32 | `includes` holds exactly when the fragment occurs at some position of the name |
| `Sequences.Contains` | index.js:32 | `String.prototype.includes`, by recursion on the start position (see `ContainsAt`) |
| `Calendar.DayFromYear` | index.js:56 | ECMA-262's closed form for the first day of a year (see `DayFromYearStep`, `DayFromYearMonotone`) |
| `Calendar.MakeDay` | index.js:56 | ECMA-262's MakeDay: the day number of a year, 0-based month (normalised by 12) and day of month |
| `Calendar.DayNumber` | index.js:56 | the day number `new Date` gives a date-only string: MakeDay of its year, month - 1 and day (see `DateOfDayNumber`) |
| `Calendar.DateFromTime` | index.js:58 | ECMA-262's day of the month of a day number (pinned by `DateOfDayNumber` and `DayNumberOfDate`) |
| `Calendar.DayFromYearStep` | index.js:56 | the first days of consecutive years are DaysInYear apart (ECMA-262's DayFromYear is consistent with its leap-year rule) |
| `Calendar.DayFromYearMonotone` | index.js:58 | a later year starts at least 365 days per year later |
| `Calendar.YearFromDay` | index.js:58 | YearFromTime picks the year whose first day is at or before the day and whose successor's first day is after it |
| `Calendar.YearFromDayUnique` | index.js:58 | that year is unique |
| `Calendar.MonthFromTime` | index.js:58 | `getMonth()` is a 0-based month, 0 to 11 |
| `Calendar.MonthOfDayBounds` | index.js:58 | the month chosen for a day of the year starts at or before that day, and the next month starts after it |
| `Calendar.WeekDay` | index.js:59 | `getDay()` is 0 to 6 |
| `Calendar.DateOfDayNumber` | index.js:56-58 | decomposing the day number of a valid date gives back its year, month and day |
| `Calendar.DayNumberOfDate` | index.js:56-58 | every day number is the day number of the valid date it decomposes into |
| `Calendar.WeekDayIsZeller` | index.js:59 | `getDay()` of a valid date equals Zeller's congruence for it, with 0 as Sunday |
| `IsoDate.Parse` | index.js:56 | a string `new Date` accepts names a valid date with a four-digit year |
| `IsoDate.PaddedDigits` | index.js:56 | a run of digits is the zero-padded spelling of its value, which is below 10 to the run length |
| `IsoDate.ParseFormat` | index.js:50 | parsing the "YYYY-MM-DD" spelling of a valid date gives the date back |
| `IsoDate.FormatParse` | index.js:50 | a ten-character string that parses is the "YYYY-MM-DD" spelling of its date (no second spelling) |
| `IsoDate.ParseSpellings` | index.js:56 | a string that parses is exactly one of the three date-only spellings of its date: "YYYY-MM-DD", "YYYY-MM" for the first of the month, or "YYYY" for 1 January |
| `IsoDate.ParseLengths` | index.js:56 | a string whose length is not 4, 7 or 10 never parses |
| `IsoDate.ParseShortForms` | index.js:56 | "YYYY" names 1 January of the year and "YYYY-MM" the first of the month |
| `IsoDate.ParsedHasNoLineBreak` | index.js:67 | a date string that parses contains no line break, so it stays one line of the message |
| `JsonValues.Get` | index.js:31-50 | a property read: an object's own property, undefined otherwise |
| `JsonValues.Truthy` | index.js:41 | ECMAScript ToBoolean, which the logical or tests: every array and object is truthy |
| `Samples.FridayInJune` | index.js:50 | "2025-06-13", a Friday in June, passes the target filter |
| `Samples.SundayInJune` | index.js:55-61 | "2025-06-15", a Sunday, does not pass |
| `Samples.FridayInSeptember` | index.js:55-61 | "2025-09-05", a Friday in September, does not pass |
| `Samples.NoLeapDay` | index.js:56 | the model reads "2025-02-29" as no date, so it does not pass; Node reads it as 1 March 2025, which is dropped too |
| `Samples.RepeatedDate` | index.js:55-61 | a value listed twice that passes stays twice in `target`; one that fails leaves it |
| `Samples.RepeatedFridayMessage` | index.js:67 | the message for a June Friday listed twice lists the Friday on two lines after the header |
| `Samples.ResponseMessage` | index.js:31-68 | a whole response: the day plan is skipped, a closed Saturday and a September Friday are dropped, and the message lists the June Friday twice |
| `Samples.EmptyCalendarDates` | index.js:41-45 | an empty `calendarDates` array is truthy, so `dates` is never read and nothing is sent |
| `Samples.NullSiteThrows` | index.js:31-33 | a null site entry before the plan makes `find` throw |

## Left out

- The HTTP POST to the calendar API, the `res.ok` check and JSON decoding (index.js:19-28): network I/O. The decoded response is the model's input.
- `sendLine` and the LINE push call, with its token and recipient from the environment (index.js:5-6, 74-88): a foreign network call. The model stops at the message text (`Outcome.Send`).
- Console logging (index.js:52, 63): the model leaves the log lines out. They write nothing the run depends on, with one exception: a log line's `join` could raise a TypeError for an object-valued date with a non-callable `toString`, and the model does not capture that.
- debug-fetch.js: browser automation and logging, with no selection logic.
- The host time zone: `getMonth` and `getDay` read local time, and the model reads UTC.
- Availability.DateValue: `new Date` of a number or an array is not modelled. The model treats such a date as an Invalid Date, so it never reaches the message. In JavaScript a number is a time value in milliseconds, and an array is joined and parsed.
- Availability.DateValue: object-valued dates are taken as Invalid Dates. This is what `"[object Object]"` parses to; objects whose `toString` or `valueOf` is overridden by a JSON key are not modelled.
- IsoDate.Parse: the model treats every string outside the three date-only forms with an existing day as an Invalid Date. Node (V8) reads more: date-times, expanded years, non-ISO forms such as "2025/06/13" or "Jun 13 2025" through its fallback parser (in local time), and a day from 29 to 31 that the month lacks, which it rolls into the next month. So "2025-02-29" is 1 March 2025 in Node; it is dropped in both. But "2022-06-31" is 1 July 2022 in Node, a Friday that Node keeps and the model drops.
- The unhandled promise rejection that an escaping TypeError becomes: the model records it as `Outcome.Threw`.
