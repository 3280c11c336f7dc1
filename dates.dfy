/**
  Calendar dates as java.time.LocalDate holds them and as DateTimeFormatter.ISO_LOCAL_DATE
  writes and reads them (YYYY-MM-DD, strict resolution), for four-digit years.
*/
module Dates {
  import opened Wrappers
  import opened JavaInt

  datatype Date = Date(year: int, month: int, day: int)

  /** The proleptic Gregorian leap-year rule that LocalDate uses. */
  predicate IsLeapYear(y: int) {
    y % 4 == 0 && (y % 100 != 0 || y % 400 == 0)
  }

  function DaysInMonth(year: int, month: int): (n: int)
    requires 1 <= month <= 12
    ensures 28 <= n <= 31
    ensures month == 2 ==> (n == 29 <==> IsLeapYear(year))
  {
    if month == 2 then (if IsLeapYear(year) then 29 else 28)
    else if month == 4 || month == 6 || month == 9 || month == 11 then 30
    else 31
  }

  /** A date that exists in the calendar and has a four-digit year. */
  predicate ValidDate(d: Date) {
    0 <= d.year <= 9999 && 1 <= d.month <= 12 && 1 <= d.day <= DaysInMonth(d.year, d.month)
  }

  type CalendarDate = d: Date | ValidDate(d) witness Date(1970, 1, 1)

  function CompareInts(a: int, b: int): (c: int)
    ensures c == -1 <==> a < b
    ensures c == 0 <==> a == b
    ensures c == 1 <==> a > b
  {
    if a < b then -1 else if a == b then 0 else 1
  }

  /** a is an earlier day than b: lexicographic order on (year, month, day). */
  predicate Before(a: Date, b: Date) {
    a.year < b.year || (a.year == b.year && (a.month < b.month || (a.month == b.month && a.day < b.day)))
  }

  /** LocalDate.compareTo, reduced to its sign: by year, then month, then day. */
  function CompareDates(a: Date, b: Date): (c: int)
    ensures -1 <= c <= 1
    ensures c == 0 <==> a == b
    ensures c == -1 <==> Before(a, b)
    ensures c == 1 <==> Before(b, a)
  {
    var y := CompareInts(a.year, b.year);
    if y != 0 then y
    else
      var m := CompareInts(a.month, b.month);
      if m != 0 then m else CompareInts(a.day, b.day)
  }

  lemma CompareDatesAntisymmetric(a: Date, b: Date)
    ensures CompareDates(a, b) == -CompareDates(b, a)
  {
  }

  lemma CompareDatesTransitive(a: Date, b: Date, c: Date)
    ensures CompareDates(a, b) <= 0 && CompareDates(b, c) <= 0 ==> CompareDates(a, c) <= 0
  {
  }

  /** ISO_LOCAL_DATE formatting: zero-padded year, month and day joined by '-'. */
  function FormatDate(d: CalendarDate): (s: string)
    ensures |s| == 10 && s[4] == '-' && s[7] == '-'
    ensures s[..4] == Pad(d.year, 4) && s[5..7] == Pad(d.month, 2) && s[8..] == Pad(d.day, 2)
  {
    PadLength(d.year, 4);
    PadLength(d.month, 2);
    PadLength(d.day, 2);
    Pad(d.year, 4) + "-" + Pad(d.month, 2) + "-" + Pad(d.day, 2)
  }

  /** A ten-character text with '-' at 4 and 7 and d's padded fields between is d's formatted form. */
  lemma FormattedByFields(s: string, d: CalendarDate)
    requires |s| == 10 && s[4] == '-' && s[7] == '-'
    requires s[..4] == Pad(d.year, 4) && s[5..7] == Pad(d.month, 2) && s[8..] == Pad(d.day, 2)
    ensures FormatDate(d) == s
  {
    var f := FormatDate(d);
    forall k | 0 <= k < 10
      ensures f[k] == s[k]
    {
      if k < 4 {
        assert f[k] == f[..4][k] && s[k] == s[..4][k];
      } else if 5 <= k < 7 {
        assert f[k] == f[5..7][k - 5] && s[k] == s[5..7][k - 5];
      } else if 8 <= k {
        assert f[k] == f[8..][k - 8] && s[k] == s[8..][k - 8];
      }
    }
  }

  /**
    LocalDate.parse(s, ISO_LOCAL_DATE): four digits, '-', two digits, '-', two digits,
    naming a day that exists; None stands for DateTimeParseException. A text that
    parses is exactly the formatted form of the date it names.
  */
  function ParseDate(s: string): (r: Option<CalendarDate>)
    ensures r.Some? ==> FormatDate(r.value) == s
  {
    if |s| == 10 && s[4] == '-' && s[7] == '-' && AllDigits(s[..4]) && AllDigits(s[5..7]) && AllDigits(s[8..]) then
      var d := Date(DigitsValue(s[..4]), DigitsValue(s[5..7]), DigitsValue(s[8..]));
      if ValidDate(d) then
        PadOfValue(s[..4]);
        PadOfValue(s[5..7]);
        PadOfValue(s[8..]);
        FormattedByFields(s, d);
        Some(d)
      else None
    else None
  }

  /** Every formatted date is read back as itself. */
  lemma ParseFormatDate(d: CalendarDate)
    ensures ParseDate(FormatDate(d)) == Some(d)
  {
    PadRoundTrip(d.year, 4);
    PadRoundTrip(d.month, 2);
    PadRoundTrip(d.day, 2);
  }

  /** ParseDate and FormatDate are inverse: a text parses to d exactly when it is d's formatted form. */
  lemma ParseDateExactlyFormatted(s: string, d: CalendarDate)
    ensures ParseDate(s) == Some(d) <==> s == FormatDate(d)
  {
    ParseFormatDate(d);
  }
}
