/** Calendar dates as the goal-details screen uses them. A JavaScript `Date`
    is reduced to the three fields the screen reads back (`getFullYear`,
    `getMonth`, `getDate`); the time of day is not modelled. The month is kept
    0-based, as `getMonth` returns it. */
module Calendar {
  import opened Text
  import opened Options

  datatype Date = Date(year: int, monthIndex: int, day: int)

  /** Gregorian leap years (JavaScript dates use the proleptic Gregorian
      calendar). */
  predicate IsLeapYear(y: int) {
    (y % 4 == 0 && y % 100 != 0) || y % 400 == 0
  }

  function DaysInMonth(y: int, monthIndex: int): (n: int)
    requires 0 <= monthIndex < 12
    ensures 28 <= n <= 31
    ensures n == 29 <==> monthIndex == 1 && IsLeapYear(y)
    ensures monthIndex == 1 && !IsLeapYear(y) ==> n == 28
    ensures monthIndex != 1 ==> (n == 30 <==> monthIndex in {3, 5, 8, 10})
  {
    if monthIndex == 1 then (if IsLeapYear(y) then 29 else 28)
    else if monthIndex in {3, 5, 8, 10} then 30
    else 31
  }

  /** A date that exists in the calendar. */
  predicate Valid(d: Date) {
    0 <= d.monthIndex < 12 && 1 <= d.day <= DaysInMonth(d.year, d.monthIndex)
  }

  /** Chronological order: `a` is strictly earlier than `b`. */
  predicate Before(a: Date, b: Date) {
    || a.year < b.year
    || (a.year == b.year && a.monthIndex < b.monthIndex)
    || (a.year == b.year && a.monthIndex == b.monthIndex && a.day < b.day)
  }

  /** `a` is the same day as `b` or later; what a picker with
      `minimumDate = b` admits. */
  predicate NotBefore(a: Date, b: Date) {
    !Before(a, b)
  }

  /** The following day: what `setDate(getDate() + 1)` yields, rolling over
      into the next month and the next year. */
  function NextDay(d: Date): (r: Date)
    requires Valid(d)
    ensures Valid(r) && Before(d, r)
  {
    if d.day < DaysInMonth(d.year, d.monthIndex) then Date(d.year, d.monthIndex, d.day + 1)
    else if d.monthIndex < 11 then Date(d.year, d.monthIndex + 1, 1)
    else Date(d.year + 1, 0, 1)
  }

  /** NextDay skips no date: every valid date after `d` is on or after
      NextDay(d). */
  lemma NextDayIsSuccessor(d: Date, e: Date)
    requires Valid(d) && Valid(e) && Before(d, e)
    ensures NotBefore(e, NextDay(d))
  {
  }

  /** `String(year)`: a minus sign before the digits of a negative year, no
      padding and no leading zero. */
  function YearToString(y: int): (r: string)
    ensures |r| >= 1
    ensures y >= 0 ==> AllDigits(r) && DigitsValue(r) == y
    ensures y < 0 ==> |r| >= 2 && r[0] == '-' && AllDigits(r[1..]) && DigitsValue(r[1..]) == -y
    ensures |r| > 1 && r[0] != '-' ==> r[0] != '0'
    ensures y < 0 && |r| > 2 ==> r[1] != '0'
    ensures 1000 <= y < 10000 ==> |r| == 4
  {
    NatToStringLength(if y < 0 then -y else y);
    NatToStringRoundTrip(if y < 0 then -y else y);
    assert y < 0 ==> ("-" + NatToString(-y))[1..] == NatToString(-y);
    if y < 0 then "-" + NatToString(-y) else NatToString(y)
  }

  /** Two-digit, zero-padded rendering: `String(n).padStart(2, '0')`; it
      reads back as n. */
  function TwoDigits(n: nat): (r: string)
    requires n < 100
    ensures |r| == 2 && AllDigits(r) && DigitsValue(r) == n
  {
    PadTwoKeepsValue(n);
    PadStart(NatToString(n), 2, '0')
  }

  /** `formatDate`: dd/mm/yyyy with the day and the 1-based month zero-padded
      to two digits and the year as `String` renders it. */
  function FormatDate(d: Date): (r: string)
    requires Valid(d)
    ensures |r| >= 7 && r[2] == '/' && r[5] == '/'
    ensures 1000 <= d.year < 10000 ==> |r| == 10
    ensures AllDigits(r[..2]) && DigitsValue(r[..2]) == d.day
    ensures AllDigits(r[3..5]) && DigitsValue(r[3..5]) == d.monthIndex + 1
    ensures r[6..] == YearToString(d.year)
  {
    var day, month, year := TwoDigits(d.day), TwoDigits(d.monthIndex + 1), YearToString(d.year);
    SlashLayout(day, month, year);
    day + "/" + month + "/" + year
  }

  /** Where the parts of a dd/mm/... string sit. */
  lemma SlashLayout(day: string, month: string, year: string)
    requires |day| == 2 && |month| == 2 && |year| >= 1
    ensures var r := day + "/" + month + "/" + year;
            && |r| == 6 + |year| && r[2] == '/' && r[5] == '/'
            && r[..2] == day && r[3..5] == month && r[6..] == year
  {
  }

  /** Reads a dd/mm/yyyy string back into a valid date with a four-digit
      year; None for anything else. */
  function ParseDate(s: string): (r: Option<Date>)
    ensures r.Some? ==> Valid(r.value) && 0 <= r.value.year < 10000
  {
    if |s| == 10 && s[2] == '/' && s[5] == '/'
       && AllDigits(s[..2]) && AllDigits(s[3..5]) && AllDigits(s[6..])
    then
      var d := Date(DigitsValue(s[6..]), DigitsValue(s[3..5]) - 1, DigitsValue(s[..2]));
      if Valid(d) && d.year < 10000 then Some(d) else None
    else None
  }

  /** For four-digit years formatDate loses nothing: the text reads back as
      the same date. */
  lemma FormatDateRoundTrip(d: Date)
    requires Valid(d) && 1000 <= d.year < 10000
    ensures ParseDate(FormatDate(d)) == Some(d)
  {
  }
}
