/** Calendar dates and the `%m/%d/%Y` text the export writes for them. */
module Dates {
  import opened Results
  import opened Text

  datatype CalDate = CalDate(year: int, month: int, day: int)

  predicate IsLeapYear(y: int)
  {
    y % 4 == 0 && (y % 100 != 0 || y % 400 == 0)
  }

  function DaysInMonth(y: int, m: int): int
  {
    if m == 2 then (if IsLeapYear(y) then 29 else 28)
    else if m == 4 || m == 6 || m == 9 || m == 11 then 30
    else 31
  }

  /** A real calendar day with a four-digit year. */
  predicate ValidDate(d: CalDate)
  {
    1 <= d.year <= 9999 && 1 <= d.month <= 12 && 1 <= d.day <= DaysInMonth(d.year, d.month)
  }

  type Date = d: CalDate | ValidDate(d) witness CalDate(2000, 1, 1)

  /** `strftime("%m/%d/%Y")`: month and day zero-padded to two digits, the year to four. */
  function FormatMDY(d: Date): (s: string)
    ensures |s| == 10 && s[2] == '/' && s[5] == '/'
    ensures AllDigits(s[..2]) && AllDigits(s[3..5]) && AllDigits(s[6..])
  {
    var s := Digits2(d.month) + "/" + Digits2(d.day) + "/" + Digits4(d.year);
    assert s[..2] == Digits2(d.month) && s[3..5] == Digits2(d.day) && s[6..] == Digits4(d.year);
    s
  }

  /** Reads back a `MM/DD/YYYY` text; anything else, or a day that does not exist, is None. */
  function ParseMDY(s: string): Option<Date>
  {
    if |s| == 10 && s[2] == '/' && s[5] == '/'
       && AllDigits(s[..2]) && AllDigits(s[3..5]) && AllDigits(s[6..])
    then
      var d := CalDate(DigitsValue(s[6..]), DigitsValue(s[..2]), DigitsValue(s[3..5]));
      if ValidDate(d) then Some(d) else None
    else None
  }

  /** The written date reads back as the same date: formatting loses nothing. */
  lemma FormatThenParse(d: Date)
    ensures ParseMDY(FormatMDY(d)) == Some(d)
  {
    var s := FormatMDY(d);
    assert s[..2] == Digits2(d.month) && s[3..5] == Digits2(d.day) && s[6..] == Digits4(d.year);
    Digits2Value(d.month);
    Digits2Value(d.day);
    Digits4Value(d.year);
  }

  /** Every text that reads as a date is exactly the text written for it: the format is canonical. */
  lemma ParseThenFormat(s: string, d: Date)
    requires ParseMDY(s) == Some(d)
    ensures FormatMDY(d) == s
  {
    Digits2Canonical(s[..2]);
    Digits2Canonical(s[3..5]);
    Digits4Canonical(s[6..]);
    assert s == s[..2] + "/" + s[3..5] + "/" + s[6..];
  }

  /** Distinct dates are written differently. */
  lemma FormatInjective(d: Date, e: Date)
    requires FormatMDY(d) == FormatMDY(e)
    ensures d == e
  {
    FormatThenParse(d);
    FormatThenParse(e);
  }
}
