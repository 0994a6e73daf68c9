/**
 * The selection logic of `checkAvailability` (index.js): from a decoded calendar
 * response to the LINE message, if any.  The HTTP request before it and the push
 * after it are not modelled; the decoded response is the input.
 */
module Availability {
  import opened Wrappers
  import opened JsonValues
  import opened Sequences
  import opened Calendar
  import opened IsoDate

  /** Calendar cell statuses that mean a site can be booked: open, few left, remaining. */
  const OpenStatuses: seq<string> := ["○", "△", "残"]
  /** TARGET_MONTHS, 1-based: June to August. */
  const TargetMonths: seq<int> := [6, 7, 8]
  /** TARGET_WEEKDAYS, 0 is Sunday: Friday and Saturday. */
  const TargetWeekdays: seq<int> := [5, 6]
  /** The plan name fragment that identifies the overnight camping plan. */
  const CampStay: string := "キャンプ宿泊"
  /** First line of the notification. */
  const HeaderLine: string := "【ふもとっぱら】6〜8月の金・土に空きあり！"

  /** An expression that either yields a value or throws a TypeError. */
  datatype Eval<T> = Value(value: T) | TypeError

  /** How one run of `checkAvailability` ends. */
  datatype Outcome =
    | Threw               // an uncaught TypeError ends the run; nothing is sent
    | NoPlan              // no overnight camping plan in the site list
    | UnknownDates        // the plan's date list is not an array
    | NothingToSend       // no open Friday or Saturday in June to August
    | Send(message: string)

  /** What the run reaches before the weekday filter: where it stopped, or the dates of
      the open calendar cells. */
  datatype Stage = Stopped(outcome: Outcome) | Reached(available: seq<Json>)

  // ---------------------------------------------------------------- plan lookup

  /** The `find` callback: `item.stayDiv === "STAY" && item.siteName.includes(...)`.
      Reading a property of null throws; so does calling `includes` on a value that has no
      such method (only strings and arrays have one). */
  function IsStayPlan(item: Json): Eval<bool> {
    if IsNullish(item) then TypeError
    else if Get(item, "stayDiv") != Str("STAY") then Value(false)
    else
      match Get(item, "siteName")
      case Str(s) => Value(Contains(s, CampStay))
      case Arr(xs) => Value(Str(CampStay) in xs)
      case _ => TypeError
  }

  /** `calendarsSiteList.find(IsStayPlan)`: visits the items in order and stops at the
      first one the callback accepts or throws on. */
  function FindPlan(items: seq<Json>): Eval<Option<Json>> {
    if items == [] then Value(None)
    else
      match IsStayPlan(items[0])
      case TypeError => TypeError
      case Value(found) => if found then Value(Some(items[0])) else FindPlan(items[1..])
  }

  /** The callback returned false on every item before index `i`. */
  predicate RejectedBefore(items: seq<Json>, i: int) {
    0 <= i <= |items| && forall j :: 0 <= j < i ==> IsStayPlan(items[j]) == Value(false)
  }

  /** The search finds nothing exactly when the callback rejects every item. */
  lemma {:induction false} FindPlanNone(items: seq<Json>)
    ensures FindPlan(items) == Value(None) <==> RejectedBefore(items, |items|)
  {
    if items != [] {
      FindPlanNone(items[1..]);
      if IsStayPlan(items[0]) == Value(false) {
        assert RejectedBefore(items, |items|) <==> RejectedBefore(items[1..], |items| - 1) by {
          if RejectedBefore(items[1..], |items| - 1) {
            forall j | 0 <= j < |items| ensures IsStayPlan(items[j]) == Value(false) {
              if j > 0 { assert items[j] == items[1..][j - 1]; }
            }
          }
        }
      }
    }
  }

  /** The first item the callback does not reject decides the search: it is the plan if
      the callback accepted it, and the search throws if the callback threw. */
  lemma {:induction false} FindPlanFirst(items: seq<Json>, i: int)
    requires RejectedBefore(items, i) && i < |items|
    ensures IsStayPlan(items[i]) == Value(true) ==> FindPlan(items) == Value(Some(items[i]))
    ensures IsStayPlan(items[i]) == TypeError ==> FindPlan(items) == TypeError
  {
    if i > 0 {
      assert RejectedBefore(items[1..], i - 1) by {
        forall j | 0 <= j < i - 1 ensures IsStayPlan(items[1..][j]) == Value(false) {
          assert items[1..][j] == items[j + 1];
        }
      }
      FindPlanFirst(items[1..], i - 1);
    }
  }

  /** `find` stops at index `i`: the callback rejected every item before it and accepts
      this one. */
  predicate PlanAt(items: seq<Json>, i: int) {
    RejectedBefore(items, i) && i < |items| && IsStayPlan(items[i]) == Value(true)
  }

  /** A plan `find` returns sits at the index where the search stopped. */
  lemma {:induction false} FindPlanIndex(items: seq<Json>) returns (i: int)
    requires FindPlan(items).Value? && FindPlan(items).value.Some?
    ensures PlanAt(items, i) && FindPlan(items).value.value == items[i]
  {
    if IsStayPlan(items[0]) == Value(true) {
      i := 0;
    } else {
      var k := FindPlanIndex(items[1..]);
      i := k + 1;
      forall j | 0 <= j < i ensures IsStayPlan(items[j]) == Value(false) {
        if j > 0 { assert items[j] == items[1..][j - 1]; }
      }
      assert items[i] == items[1..][k];
    }
  }

  // ---------------------------------------------------------------- the date list

  /** `stayPlan.calendarDates || stayPlan.dates`.  An array is truthy even when it is
      empty, so an array under `calendarDates` is always the one taken. */
  function DateList(plan: Json): (dates: Json)
    ensures Get(plan, "calendarDates").Arr? ==> dates == Get(plan, "calendarDates")
    ensures dates == Get(plan, "calendarDates") || dates == Get(plan, "dates")
  {
    var calendarDates := Get(plan, "calendarDates");
    if Truthy(calendarDates) then calendarDates else Get(plan, "dates")
  }

  /** The plan's date list is no array: `calendarDates` is truthy but no array, or it is
      falsy and `dates` is no array. */
  predicate UnknownList(plan: Json) {
    var calendarDates := Get(plan, "calendarDates");
    if Truthy(calendarDates) then !calendarDates.Arr? else !Get(plan, "dates").Arr?
  }

  // ---------------------------------------------------------------- open dates

  /** `["○", "△", "残"].includes(d.status)`, for an entry that is not nullish. */
  predicate IsOpen(entry: Json) {
    Get(entry, "status").Str? && Get(entry, "status").s in OpenStatuses
  }

  /** `d => d.date`, for an entry that is not nullish. */
  function DateField(entry: Json): Json {
    Get(entry, "date")
  }

  /** `dates.filter(IsOpen).map(DateField)`; the filter reads `status` of every entry and
      throws on a null one. */
  function Available(entries: seq<Json>): Eval<seq<Json>> {
    if exists i :: 0 <= i < |entries| && IsNullish(entries[i]) then TypeError
    else Value(Map(DateField, Filter(IsOpen, entries)))
  }

  /** The available dates are the `date` fields of exactly the open entries, in input
      order, one per open entry: duplicates stay. */
  lemma AvailableDates(entries: seq<Json>)
    requires Available(entries).Value?
    ensures var av, ks := Available(entries).value, Positions(IsOpen, entries);
      && |av| == |ks|
      && (forall i :: 0 <= i < |av| ==> av[i] == DateField(entries[ks[i]]))
      && (forall i, j :: 0 <= i < j < |ks| ==> ks[i] < ks[j])
      && (forall j :: 0 <= j < |entries| ==> (j in ks <==> IsOpen(entries[j])))
  {
    FilterAtPositions(IsOpen, entries);
  }

  /** A value is among the available dates exactly when some open entry carries it. */
  lemma AvailableMembers(entries: seq<Json>, x: Json)
    requires Available(entries).Value?
    ensures x in Available(entries).value <==>
      exists j :: 0 <= j < |entries| && IsOpen(entries[j]) && DateField(entries[j]) == x
  {
    var kept := Filter(IsOpen, entries);
    if x in Available(entries).value {
      var i :| 0 <= i < |kept| && DateField(kept[i]) == x;
      FilterMembers(IsOpen, entries, kept[i]);
    }
    if exists j :: 0 <= j < |entries| && IsOpen(entries[j]) && DateField(entries[j]) == x {
      var j :| 0 <= j < |entries| && IsOpen(entries[j]) && DateField(entries[j]) == x;
      FilterMembers(IsOpen, entries, entries[j]);
      var i :| 0 <= i < |kept| && kept[i] == entries[j];
      assert Available(entries).value[i] == x;
    }
  }

  // ---------------------------------------------------------------- target dates

  /** `new Date(v)` as a day number in UTC, or None for an Invalid Date.  A string is
      parsed; null and booleans convert to the time value 0 or 1 ms, which is day 0. */
  function DateValue(v: Json): Option<int> {
    match v
    case Str(s) => (match Parse(s) case Some(c) => Some(DayNumber(c)) case None => None)
    case Null => Some(0)
    case Bool(_) => Some(0)
    case _ => None
  }

  /** The target filter's callback: `getMonth() + 1` in TARGET_MONTHS and `getDay()` in
      TARGET_WEEKDAYS.  The NaN of an Invalid Date is in neither list. */
  predicate IsTarget(v: Json) {
    match DateValue(v)
    case None => false
    case Some(t) => IsTargetDay(t)
  }

  /** The month and weekday test on a day number: month in TARGET_MONTHS, weekday in
      TARGET_WEEKDAYS. */
  predicate IsTargetDay(t: int) {
    MonthFromTime(t) + 1 in TargetMonths && WeekDay(t) in TargetWeekdays
  }

  /** The day of a valid date is a target day exactly when the date is a Friday or a
      Saturday (by Zeller's congruence) in June, July or August. */
  lemma TargetDay(c: Date)
    requires Valid(c)
    ensures IsTargetDay(DayNumber(c)) <==> c.month in TargetMonths && ZellerWeekday(c) in TargetWeekdays
  {
    DateOfDayNumber(c);
    WeekDayIsZeller(c);
  }

  /** `available.filter(IsTarget)`.  Only date strings pass it. */
  function Target(available: seq<Json>): (target: seq<Json>)
    ensures forall i :: 0 <= i < |target| ==> target[i].Str?
  {
    var target := Filter(IsTarget, available);
    assert forall i :: 0 <= i < |target| ==> target[i].Str? by {
      forall i | 0 <= i < |target| ensures target[i].Str? {
        FilterMembers(IsTarget, available, target[i]);
        TargetOnlyDates(target[i]);
      }
    }
    target
  }

  /** Day 0, which null and booleans convert to, is a Thursday: no target day. */
  lemma DayZeroIsThursday()
    ensures WeekDay(0) == 4 && !IsTargetDay(0)
  {
  }

  /** Only date strings pass the target filter. */
  lemma TargetOnlyDates(v: Json)
    requires IsTarget(v)
    ensures v.Str?
  {
    DayZeroIsThursday();
  }

  /** A value passes the target filter exactly when it is a date string of a Friday or a
      Saturday in June, July or August of the Gregorian calendar (weekday by Zeller's
      congruence). */
  lemma TargetDate(v: Json)
    ensures IsTarget(v) <==>
      && v.Str?
      && Parse(v.s).Some?
      && Parse(v.s).value.month in TargetMonths
      && ZellerWeekday(Parse(v.s).value) in TargetWeekdays
  {
    if v.Str? && Parse(v.s).Some? {
      var c := Parse(v.s).value;
      assert DateValue(v) == Some(DayNumber(c));
      TargetDay(c);
    } else if IsTarget(v) {
      TargetOnlyDates(v);
    }
  }

  /** The target dates are the passing available dates in their order, one per passing
      entry (an order-preserving subsequence, no longer than the input), and a value is
      among them exactly when it is available and passes. */
  lemma TargetSelection(available: seq<Json>)
    ensures var target, ks := Target(available), Positions(IsTarget, available);
      && |target| == |ks| <= |available|
      && (forall i :: 0 <= i < |target| ==> target[i] == available[ks[i]])
      && (forall v :: v in target <==> v in available && IsTarget(v))
      && (forall v :: multiset(target)[v] == if IsTarget(v) then multiset(available)[v] else 0)
  {
    FilterAtPositions(IsTarget, available);
    forall v ensures v in Target(available) <==> v in available && IsTarget(v) {
      FilterMembers(IsTarget, available, v);
    }
    forall v ensures multiset(Target(available))[v] == if IsTarget(v) then multiset(available)[v] else 0 {
      FilterCounts(IsTarget, available, v);
    }
  }

  // ---------------------------------------------------------------- the message

  /** The target dates as the strings `join` writes, one per target entry, in order. */
  function Texts(target: seq<Json>): (texts: seq<string>)
    requires forall i :: 0 <= i < |target| ==> target[i].Str?
    ensures |texts| == |target|
    ensures forall i :: 0 <= i < |texts| ==> texts[i] == target[i].s
  {
    seq(|target|, i requires 0 <= i < |target| => target[i].s)
  }

  /** The header line, then one target date per line. */
  function Message(target: seq<string>): string {
    HeaderLine + "\n" + Join(target, '\n')
  }

  /** The message lists the header and then exactly the given lines, in order: reading it
      back line by line gives them again. */
  lemma MessageLines(texts: seq<string>)
    requires |texts| > 0 && forall i :: 0 <= i < |texts| ==> '\n' !in texts[i]
    ensures Split(Message(texts), '\n') == [HeaderLine] + texts
  {
    var lines := [HeaderLine] + texts;
    assert lines[1..] == texts;
    assert Join(lines, '\n') == Message(texts);
    SplitJoin(lines, '\n');
  }

  /** Every target date is a string without a line break: one line of the message. */
  lemma TargetTextsAreLines(target: seq<Json>)
    requires forall i :: 0 <= i < |target| ==> IsTarget(target[i])
    ensures forall i :: 0 <= i < |target| ==> target[i].Str? && '\n' !in target[i].s
  {
    forall i | 0 <= i < |target| ensures target[i].Str? && '\n' !in target[i].s {
      TargetDate(target[i]);
      ParsedHasNoLineBreak(target[i].s);
    }
  }

  // ---------------------------------------------------------------- the run

  /** Steps 2 to 4 of `checkAvailability`: find the plan, take its date list, keep the
      open dates.  Reading `calendarsSiteList` of null throws, and so does calling `find`
      on anything that is not an array. */
  function SelectAvailable(data: Json): Stage {
    if IsNullish(data) || !Get(data, "calendarsSiteList").Arr? then Stopped(Threw)
    else
      match FindPlan(Get(data, "calendarsSiteList").items)
      case TypeError => Stopped(Threw)
      case Value(None) => Stopped(NoPlan)
      case Value(Some(plan)) =>
        var dates := DateList(plan);
        if !dates.Arr? then Stopped(UnknownDates)
        else
          match Available(dates.items)
          case TypeError => Stopped(Threw)
          case Value(available) => Reached(available)
  }

  /** The run stops for want of a plan exactly when the site list is an array and the
      `find` callback rejects every item of it. */
  lemma StopsWithoutPlan(data: Json)
    ensures SelectAvailable(data) == Stopped(NoPlan) <==>
      && !IsNullish(data)
      && Get(data, "calendarsSiteList").Arr?
      && RejectedBefore(Get(data, "calendarsSiteList").items, |Get(data, "calendarsSiteList").items|)
  {
    if !IsNullish(data) && Get(data, "calendarsSiteList").Arr? {
      FindPlanNone(Get(data, "calendarsSiteList").items);
    }
  }

  /** The run stops on a date list of unknown form exactly when the site list is an
      array, `find` stops at a plan, and neither `calendarDates` (when truthy) nor `dates`
      (otherwise) is an array. */
  lemma StopsOnUnknownDates(data: Json)
    ensures SelectAvailable(data) == Stopped(UnknownDates) <==>
      && !IsNullish(data)
      && Get(data, "calendarsSiteList").Arr?
      && exists i :: PlanAt(Get(data, "calendarsSiteList").items, i)
                 && UnknownList(Get(data, "calendarsSiteList").items[i])
  {
    if !IsNullish(data) && Get(data, "calendarsSiteList").Arr? {
      var items := Get(data, "calendarsSiteList").items;
      if SelectAvailable(data) == Stopped(UnknownDates) {
        var i := FindPlanIndex(items);
        assert UnknownList(items[i]);
      }
      if exists i :: PlanAt(items, i) && UnknownList(items[i]) {
        var i :| PlanAt(items, i) && UnknownList(items[i]);
        FindPlanFirst(items, i);
      }
    }
  }

  /** When the run gets through to the open dates, they are the open dates of the plan
      at the index where `find` stops, read from the array its date list picks. */
  lemma ReachedFromPlan(data: Json)
    requires SelectAvailable(data).Reached?
    ensures !IsNullish(data) && Get(data, "calendarsSiteList").Arr?
    ensures var items := Get(data, "calendarsSiteList").items;
      exists i :: PlanAt(items, i) && DateList(items[i]).Arr?
               && Available(DateList(items[i]).items) == Value(SelectAvailable(data).available)
  {
    var i := FindPlanIndex(Get(data, "calendarsSiteList").items);
  }

  /** One run of `checkAvailability` up to the point where it would call `sendLine`. */
  function CheckAvailability(data: Json): Outcome {
    match SelectAvailable(data)
    case Stopped(outcome) => outcome
    case Reached(available) =>
      var target := Target(available);
      if |target| > 0 then Send(Message(Texts(target))) else NothingToSend
  }

  /** A message goes out exactly when the run gets through to the open dates and some of
      them are target dates; its lines are the header and then those dates in order. */
  lemma SendsTargets(data: Json)
    ensures CheckAvailability(data).Send? <==>
      SelectAvailable(data).Reached? && |Target(SelectAvailable(data).available)| > 0
    ensures CheckAvailability(data).Send? ==>
      var target := Target(SelectAvailable(data).available);
      Split(CheckAvailability(data).message, '\n') == [HeaderLine] + Texts(target)
  {
    if SelectAvailable(data).Reached? {
      var target := Target(SelectAvailable(data).available);
      if |target| > 0 {
        forall i | 0 <= i < |target| ensures IsTarget(target[i]) {
          FilterMembers(IsTarget, SelectAvailable(data).available, target[i]);
        }
        TargetTextsAreLines(target);
        MessageLines(Texts(target));
      }
    }
  }
}
