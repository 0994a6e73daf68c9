/**
 * Worked examples: the dates index.js names, and one whole response.
 */
module Samples {
  import opened Wrappers
  import opened JsonValues
  import opened Calendar
  import opened IsoDate
  import opened Availability
  import opened Sequences

  /** "2025-06-13" is day 20252, a Friday (WeekDay 5) in June: kept. */
  lemma FridayInJune()
    ensures IsTarget(Str("2025-06-13"))
  {
    June13Value();
    June13Day();
  }

  lemma June13Parses()
    ensures Parse("2025-06-13") == Some(Date(2025, 6, 13))
  {
    assert Format(Date(2025, 6, 13)) == "2025-06-13";
    ParseFormat(Date(2025, 6, 13));
  }

  lemma June13Number()
    ensures DayNumber(Date(2025, 6, 13)) == 20252
  {
    assert 5 / 12 == 0 && 5 % 12 == 5;
  }

  /** `new Date("2025-06-13")` is day 20252. */
  lemma June13Value()
    ensures DateValue(Str("2025-06-13")) == Some(20252)
  {
    June13Parses();
    June13Number();
  }

  lemma June13Year()
    ensures YearFromDay(20252) == 2025
  {
    YearFromDayUnique(20252, 2025);
  }

  lemma June13Day()
    ensures IsTargetDay(20252)
  {
    June13Year();
  }

  /** "2025-06-15" is day 20254, a Sunday (WeekDay 0) in June: dropped. */
  lemma SundayInJune()
    ensures !IsTarget(Str("2025-06-15"))
  {
    June15Value();
    June15Day();
  }

  lemma June15Parses()
    ensures Parse("2025-06-15") == Some(Date(2025, 6, 15))
  {
    assert Format(Date(2025, 6, 15)) == "2025-06-15";
    ParseFormat(Date(2025, 6, 15));
  }

  lemma June15Number()
    ensures DayNumber(Date(2025, 6, 15)) == 20254
  {
    assert 5 / 12 == 0 && 5 % 12 == 5;
  }

  /** `new Date("2025-06-15")` is day 20254. */
  lemma June15Value()
    ensures DateValue(Str("2025-06-15")) == Some(20254)
  {
    June15Parses();
    June15Number();
  }

  lemma June15Year()
    ensures YearFromDay(20254) == 2025
  {
    YearFromDayUnique(20254, 2025);
  }

  lemma June15Day()
    ensures !IsTargetDay(20254)
  {
    June15Year();
  }

  /** "2025-09-05" is day 20336, a Friday in September: dropped. */
  lemma FridayInSeptember()
    ensures !IsTarget(Str("2025-09-05"))
  {
    September5Value();
    September5Day();
  }

  lemma September5Parses()
    ensures Parse("2025-09-05") == Some(Date(2025, 9, 5))
  {
    assert Format(Date(2025, 9, 5)) == "2025-09-05";
    ParseFormat(Date(2025, 9, 5));
  }

  lemma September5Number()
    ensures DayNumber(Date(2025, 9, 5)) == 20336
  {
    assert 8 / 12 == 0 && 8 % 12 == 8;
  }

  /** `new Date("2025-09-05")` is day 20336. */
  lemma September5Value()
    ensures DateValue(Str("2025-09-05")) == Some(20336)
  {
    September5Parses();
    September5Number();
  }

  lemma September5Year()
    ensures YearFromDay(20336) == 2025
  {
    YearFromDayUnique(20336, 2025);
  }

  lemma September5Day()
    ensures !IsTargetDay(20336)
  {
    September5Year();
  }

  /** "2025-02-29" names no day, so it is dropped. */
  lemma NoLeapDay()
    ensures !IsTarget(Str("2025-02-29"))
  {
    NoLeapDayParses();
    TargetDate(Str("2025-02-29"));
  }

  /** 2025 is no leap year: its February has no 29th day. */
  lemma NoLeapDayParses()
    ensures Parse("2025-02-29") == None
  {
    var t := "2025-02-29";
    NoLeapDayFields();
    assert !IsLeapYear(2025) && DaysInMonth(2025, 2) == 28;
    assert |t| == 10 && t[4] == '-' && t[7] == '-';
  }

  /** The year, month and day fields of "2025-02-29". */
  lemma NoLeapDayFields()
    ensures var t := "2025-02-29";
      && AllDigits(t[..4]) && DigitsValue(t[..4]) == 2025
      && AllDigits(t[5..7]) && DigitsValue(t[5..7]) == 2
      && AllDigits(t[8..10]) && DigitsValue(t[8..10]) == 29
  {
    NoLeapDayYear();
    Fields("2025", "02", "29");
    assert "2025" + "-" + "02" + "-" + "29" == "2025-02-29";
    NoLeapDayMonthDay();
  }

  lemma NoLeapDayMonthDay()
    ensures AllDigits("02") && DigitsValue("02") == 2
    ensures AllDigits("29") && DigitsValue("29") == 29
  {
    assert 2 / 10 == 0 && 2 % 10 == 2 && 29 / 10 == 2 && 29 % 10 == 9;
    assert Padded(2, 2) == "02" && Padded(29, 2) == "29";
  }

  /** Where the fields of a "YYYY-MM-DD" string sit. */
  lemma Fields(y: string, m: string, d: string)
    requires |y| == 4 && |m| == 2 && |d| == 2
    ensures var t := y + "-" + m + "-" + d;
      t[..4] == y && t[5..7] == m && t[8..10] == d
  {
  }

  lemma NoLeapDayYear()
    ensures AllDigits("2025") && DigitsValue("2025") == 2025
  {
    assert 2025 / 10 == 202 && 2025 % 10 == 5 && 202 / 10 == 20 && 202 % 10 == 2;
    assert 20 / 10 == 2 && 20 % 10 == 0 && 2 / 10 == 0 && 2 % 10 == 2;
    assert Padded(2025, 4) == "2025";
  }

  /** What a filter keeps of one element. */
  function Kept<T>(p: T -> bool, x: T): seq<T> {
    if p(x) then [x] else []
  }

  /** A filter over three elements, one element at a time. */
  lemma FilterThree<T>(p: T -> bool, a: T, b: T, c: T)
    ensures Filter(p, [a, b, c]) == Kept(p, a) + Kept(p, b) + Kept(p, c)
  {
    assert Filter(p, [a]) == Kept(p, a) by {
      assert [a][..0] == [];
    }
    assert Filter(p, [a, b]) == Kept(p, a) + Kept(p, b) by {
      assert [a, b][..1] == [a];
    }
    assert [a, b, c][..2] == [a, b];
  }

  /** A filter over four elements, one element at a time. */
  lemma FilterFour<T>(p: T -> bool, a: T, b: T, c: T, d: T)
    ensures Filter(p, [a, b, c, d]) == Kept(p, a) + Kept(p, b) + Kept(p, c) + Kept(p, d)
  {
    assert [a, b, c, d][..3] == [a, b, c];
    FilterThree(p, a, b, c);
  }

  function Entry(date: string, status: string): Json {
    Obj(map["date" := Str(date), "status" := Str(status)])
  }

  /** The overnight plan's calendar cells: the June Friday open twice, the Saturday
      after it closed, and an open Friday in September. */
  const Cells: seq<Json> := [
    Entry("2025-06-13", "○"), Entry("2025-06-14", "×"),
    Entry("2025-06-13", "△"), Entry("2025-09-05", "○")]

  /** A response whose overnight plan lists the same open Friday twice. */
  const Response: Json := Obj(map["calendarsSiteList" := Arr([
    Obj(map["stayDiv" := Str("DAY"), "siteName" := Str("デイキャンプ")]),
    Obj(map["stayDiv" := Str("STAY"), "siteName" := Str("キャンプ宿泊"),
            "calendarDates" := Arr(Cells)])])])

  const SitePlans: seq<Json> := Get(Response, "calendarsSiteList").items

  /** The day plan is passed over and the overnight plan found. */
  lemma ResponsePlan()
    ensures FindPlan(SitePlans) == Value(Some(SitePlans[1]))
  {
    assert IsStayPlan(SitePlans[0]) == Value(false);
    assert Contains("キャンプ宿泊", CampStay);
    assert SitePlans[1..][0] == SitePlans[1];
  }

  /** ○ and △ are open, × is not. */
  lemma CellsOpen()
    ensures IsOpen(Cells[0]) && !IsOpen(Cells[1]) && IsOpen(Cells[2]) && IsOpen(Cells[3])
  {
  }

  /** The closed Saturday is dropped; both cells of the June Friday stay. */
  lemma ResponseOpenEntries()
    ensures Filter(IsOpen, Cells) == [Cells[0], Cells[2], Cells[3]]
  {
    CellsOpen();
    assert Cells == [Cells[0], Cells[1], Cells[2], Cells[3]];
    FilterFour(IsOpen, Cells[0], Cells[1], Cells[2], Cells[3]);
  }

  lemma ResponseOpenCells()
    ensures Available(Cells) == Value([Str("2025-06-13"), Str("2025-06-13"), Str("2025-09-05")])
  {
    ResponseOpenEntries();
    assert forall i :: 0 <= i < |Cells| ==> !IsNullish(Cells[i]);
    var open := [Cells[0], Cells[2], Cells[3]];
    assert DateField(Cells[0]) == Str("2025-06-13") && DateField(Cells[2]) == Str("2025-06-13");
    assert DateField(Cells[3]) == Str("2025-09-05");
    assert Map(DateField, open) == [Str("2025-06-13"), Str("2025-06-13"), Str("2025-09-05")];
  }

  lemma ResponseAvailable()
    ensures SelectAvailable(Response) == Reached([Str("2025-06-13"), Str("2025-06-13"), Str("2025-09-05")])
  {
    ResponsePlan();
    assert DateList(SitePlans[1]) == Arr(Cells);
    ResponseOpenCells();
  }

  /** A date listed twice stays twice, and a date that fails leaves the list. */
  lemma RepeatedDate<T>(p: T -> bool, a: T, b: T)
    requires p(a) && !p(b)
    ensures Filter(p, [a, a, b]) == [a, a]
  {
    FilterThree(p, a, a, b);
  }

  /** The message for that list. */
  lemma RepeatedFridayMessage()
    ensures Message(Texts([Str("2025-06-13"), Str("2025-06-13")]))
      == HeaderLine + "\n" + "2025-06-13" + "\n" + "2025-06-13"
  {
    var texts := ["2025-06-13", "2025-06-13"];
    assert Texts([Str("2025-06-13"), Str("2025-06-13")]) == texts;
    assert texts[1..] == ["2025-06-13"];
    assert Join(texts, '\n') == "2025-06-13" + "\n" + "2025-06-13";
  }

  /** The closed Saturday and the September Friday are dropped, and the Friday open in
      two cells is listed twice. */
  lemma ResponseMessage()
    ensures CheckAvailability(Response) == Send(HeaderLine + "\n" + "2025-06-13" + "\n" + "2025-06-13")
  {
    ResponseAvailable();
    FridayInJune();
    FridayInSeptember();
    RepeatedDate(IsTarget, Str("2025-06-13"), Str("2025-09-05"));
    RepeatedFridayMessage();
  }

  /** An overnight plan whose `calendarDates` is empty and whose `dates` is not. */
  const EmptyDatesPlan: Json := Obj(map["stayDiv" := Str("STAY"), "siteName" := Str("キャンプ宿泊"),
    "calendarDates" := Arr([]), "dates" := Arr([Entry("2025-06-13", "○")])])

  /** An empty `calendarDates` array is truthy, so `dates` is never read: nothing is sent
      although `dates` lists an open Friday in June. */
  lemma EmptyCalendarDates()
    ensures CheckAvailability(Obj(map["calendarsSiteList" := Arr([EmptyDatesPlan])])) == NothingToSend
  {
    assert Contains("キャンプ宿泊", CampStay);
    assert FindPlan([EmptyDatesPlan]) == Value(Some(EmptyDatesPlan));
    assert DateList(EmptyDatesPlan) == Arr([]);
    assert Available([]) == Value([]);
  }

  /** A null site entry before the plan makes the `find` callback throw. */
  lemma NullSiteThrows()
    ensures CheckAvailability(Obj(map["calendarsSiteList" := Arr([
      Null, Obj(map["stayDiv" := Str("STAY"), "siteName" := Str("キャンプ宿泊")])])]))
      == Threw
  {
  }
}
