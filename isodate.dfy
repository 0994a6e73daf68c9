/**
 * The date-only forms of ECMAScript's Date Time String Format (section 21.4.1.32 of
 * ECMA-262): "YYYY", "YYYY-MM" and "YYYY-MM-DD", which `new Date(str)` reads as UTC
 * midnight of the given day (a missing month or day is 01).
 */
module IsoDate {
  import opened Wrappers
  import opened Calendar

  predicate IsDigit(ch: char) {
    '0' <= ch <= '9'
  }

  predicate AllDigits(s: string) {
    forall i :: 0 <= i < |s| ==> IsDigit(s[i])
  }

  function DigitValue(ch: char): int
    requires IsDigit(ch)
  {
    ch as int - '0' as int
  }

  /** The value of a fixed-width run of decimal digits. */
  function DigitsValue(s: string): (n: nat)
    requires AllDigits(s)
  {
    if s == [] then 0 else DigitsValue(s[..|s| - 1]) * 10 + DigitValue(s[|s| - 1]) as nat
  }

  function DigitChar(n: int): (ch: char)
    requires 0 <= n < 10
    ensures IsDigit(ch) && DigitValue(ch) == n
  {
    ('0' as int + n) as char
  }

  /** `n` written with exactly `width` decimal digits, zero-padded on the left. */
  function Padded(n: nat, width: nat): (s: string)
    requires n < Pow10(width)
    ensures |s| == width && AllDigits(s) && DigitsValue(s) == n
    decreases width
  {
    if width == 0 then ""
    else
      var s := Padded(n / 10, width - 1) + [DigitChar(n % 10)];
      assert s[..|s| - 1] == Padded(n / 10, width - 1);
      s
  }

  function Pow10(width: nat): nat {
    if width == 0 then 1 else 10 * Pow10(width - 1)
  }

  /** Reading the digits back: a run of digits is the padded form of its value. */
  lemma {:induction false} PaddedDigits(s: string)
    requires AllDigits(s)
    ensures DigitsValue(s) < Pow10(|s|) && Padded(DigitsValue(s), |s|) == s
  {
    if s != [] {
      var init, last := s[..|s| - 1], DigitValue(s[|s| - 1]);
      PaddedDigits(init);
      var n := DigitsValue(s);
      assert n == DigitsValue(init) * 10 + last;
      LastDigit(DigitsValue(init), last, Pow10(|init|));
      assert DigitChar(last) == s[|s| - 1];
      assert s == init + [s[|s| - 1]];
    }
  }

  /** Appending a digit: dividing by ten takes it off again, and the width grows by one
      digit. */
  lemma LastDigit(q: nat, d: int, bound: nat)
    requires 0 <= d < 10 && q < bound
    ensures (q * 10 + d) / 10 == q && (q * 10 + d) % 10 == d
    ensures q * 10 + d < 10 * bound
  {
  }

  /** The date a date-only string names; a string that stops after the year or the month
      means month 01 or day 01.  None is what `new Date` turns into an Invalid Date: any
      other shape, a month outside 01-12, or a day the month does not have. */
  function Parse(s: string): (r: Option<Date>)
    ensures r.Some? ==> Valid(r.value) && 0 <= r.value.year <= 9999
  {
    if |s| != 4 && |s| != 7 && |s| != 10 then None
    else if !AllDigits(s[..4]) then None
    else
      var year := DigitsValue(s[..4]);
      assert year < 10000 by { PaddedDigits(s[..4]); }
      if |s| == 4 then Some(Date(year, 1, 1))
      else if s[4] != '-' || !AllDigits(s[5..7]) then None
      else
        var month := DigitsValue(s[5..7]);
        if month < 1 || 12 < month then None
        else if |s| == 7 then Some(Date(year, month, 1))
        else if s[7] != '-' || !AllDigits(s[8..10]) then None
        else
          var day := DigitsValue(s[8..10]);
          if day < 1 || DaysInMonth(year, month) < day then None
          else Some(Date(year, month, day))
  }

  /** The "YYYY-MM-DD" spelling of a date with a four-digit year. */
  function Format(c: Date): (s: string)
    requires Valid(c) && 0 <= c.year <= 9999
    ensures |s| == 10
  {
    Padded(c.year, 4) + "-" + Padded(c.month, 2) + "-" + Padded(c.day, 2)
  }

  /** Parsing what Format writes gives the date back. */
  lemma ParseFormat(c: Date)
    requires Valid(c) && 0 <= c.year <= 9999
    ensures Parse(Format(c)) == Some(c)
  {
    var s := Format(c);
    assert s[..4] == Padded(c.year, 4);
    assert s[5..7] == Padded(c.month, 2);
    assert s[8..10] == Padded(c.day, 2);
  }

  /** A full-form date string that parses is the one Format writes for its date: the
      parser accepts no second spelling of a day. */
  lemma FormatParse(s: string)
    requires |s| == 10 && Parse(s).Some?
    ensures Format(Parse(s).value) == s
  {
    PaddedDigits(s[..4]);
    PaddedDigits(s[5..7]);
    PaddedDigits(s[8..10]);
    assert s == s[..4] + "-" + s[5..7] + "-" + s[8..10];
  }

  /** Only the three date-only spellings parse: a string that parses is "YYYY-MM-DD" as
      Format writes it, "YYYY-MM" naming the first of the month, or "YYYY" naming
      1 January.  Anything else, a trailing space or a time included, is an Invalid Date. */
  lemma ParseSpellings(s: string)
    requires Parse(s).Some?
    ensures var c := Parse(s).value;
      || s == Format(c)
      || (|s| == 7 && c.day == 1 && s == Padded(c.year, 4) + "-" + Padded(c.month, 2))
      || (|s| == 4 && c.month == 1 && c.day == 1 && s == Padded(c.year, 4))
  {
    if |s| == 10 {
      FormatParse(s);
    } else if |s| == 7 {
      PaddedDigits(s[..4]);
      PaddedDigits(s[5..7]);
      assert s == s[..4] + "-" + s[5..7];
    } else {
      PaddedDigits(s[..4]);
      assert s == s[..4];
    }
  }

  /** A string of any length other than 4, 7 or 10 is an Invalid Date. */
  lemma ParseLengths(s: string)
    requires Parse(s).Some?
    ensures |s| == 4 || |s| == 7 || |s| == 10
  {
  }

  /** The short forms: "YYYY" names 1 January of the year, and "YYYY-MM" the first day
      of the month. */
  lemma ParseShortForms(y: int, m: int)
    requires 0 <= y <= 9999 && 1 <= m <= 12
    ensures Parse(Padded(y, 4)) == Some(Date(y, 1, 1))
    ensures Parse(Padded(y, 4) + "-" + Padded(m, 2)) == Some(Date(y, m, 1))
  {
    ParseYearForm(y);
    ParseMonthForm(y, m);
  }

  lemma ParseYearForm(y: int)
    requires 0 <= y <= 9999
    ensures Parse(Padded(y, 4)) == Some(Date(y, 1, 1))
  {
    assert Pow10(4) == 10000;
    var year := Padded(y, 4);
    assert year[..4] == year;
  }

  lemma ParseMonthForm(y: int, m: int)
    requires 0 <= y <= 9999 && 1 <= m <= 12
    ensures Parse(Padded(y, 4) + "-" + Padded(m, 2)) == Some(Date(y, m, 1))
  {
    assert Pow10(4) == 10000 && Pow10(2) == 100;
    var s := Padded(y, 4) + "-" + Padded(m, 2);
    assert s[..4] == Padded(y, 4) && s[5..7] == Padded(m, 2);
  }

  /** A string that parses holds only digits and dashes, so never a line break. */
  lemma ParsedHasNoLineBreak(s: string)
    requires Parse(s).Some?
    ensures '\n' !in s
  {
    forall i | 0 <= i < |s|
      ensures IsDigit(s[i]) || s[i] == '-'
    {
      if i < 4 {
        assert s[..4][i] == s[i];
      } else if 5 <= i < 7 {
        assert s[5..7][i - 5] == s[i];
      } else if 8 <= i {
        assert s[8..10][i - 8] == s[i];
      }
    }
  }
}
