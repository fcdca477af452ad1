/** The calendar helpers of `src/utils/dateUtils.js`: the `YYYY-MM-DD` key
    string, the length of a month as the JavaScript `Date` constructor
    computes it, month names, weekends and the empty-date guard of the date
    formatter. */
module DateUtils {
  import opened Wrappers
  import opened Js

  // ---------------------------------------------------------------------
  // createDateString

  /** `${year}-${String(month + 1).padStart(2, '0')}-${String(day).padStart(2, '0')}`:
      month is 0-based, the text carries it 1-based. */
  function CreateDateString(year: int, month: int, day: int): (r: string)
    ensures 0 <= year && 0 <= month <= 98 && 0 <= day <= 99 ==>
              |r| == |NatToString(year)| + 6 && r[|r| - 6] == '-' && r[|r| - 3] == '-'
  {
    IntToString(year) + "-" + PadStart2(IntToString(month + 1)) + "-" + PadStart2(IntToString(day))
  }

  /** Reads a two-character zero-padded field back. */
  lemma PadStart2Digits(n: nat)
    requires n < 100
    ensures |PadStart2(NatToString(n))| == 2
    ensures forall i :: 0 <= i < 2 ==> IsDigit(PadStart2(NatToString(n))[i])
    ensures ParseDigits(PadStart2(NatToString(n))) == n
  {
    ParseNatToString(n);
    var s := NatToString(n);
    if n < 10 {
      var p := PadStart2(s);
      assert p == "0" + s;
      assert p[..1] == "0";
    } else {
      assert NatToString(n / 10) == [DigitChar(n / 10)];
    }
  }

  /** The year, month and day texts of `Y-MM-DD`, when s has the dashes at
      the places that shape needs. */
  function Fields(s: string): (r: Option<(string, string, string)>)
    ensures r.Some? ==> 7 <= |s| && s[|s| - 6] == '-' && s[|s| - 3] == '-'
                        && |r.value.0| == |s| - 6 && |r.value.1| == 2 && |r.value.2| == 2
  {
    if |s| < 7 || s[|s| - 6] != '-' || s[|s| - 3] != '-' then None
    else Some((s[..|s| - 6], s[|s| - 5..|s| - 3], s[|s| - 2..]))
  }

  /** `s` is `Y-MM-DD` with a non-empty run of digits for Y: the day key the
      dashboard stores; answers (year, 0-based month, day). */
  function ParseDateString(s: string): (r: Option<(int, int, int)>)
    ensures r.Some? ==> 7 <= |s| && s[|s| - 6] == '-' && s[|s| - 3] == '-'
  {
    match Fields(s)
    case None => None
    case Some((y, m, d)) =>
      if AllDigits(y) && AllDigits(m) && AllDigits(d) then Some((ParseDigits(y), ParseDigits(m) - 1, ParseDigits(d)))
      else None
  }

  /** Texts joined as `Y-MM-DD` split back into the same texts. */
  lemma FieldsOfJoined(y: string, m: string, d: string)
    requires |y| > 0 && |m| == 2 && |d| == 2
    ensures Fields(y + "-" + m + "-" + d) == Some((y, m, d))
  {
    var s := y + "-" + m + "-" + d;
    assert s[..|s| - 6] == y;
    assert s[|s| - 5..|s| - 3] == m;
    assert s[|s| - 2..] == d;
  }

  /** Digit runs joined as `Y-MM-DD` read back as their values. */
  lemma ParseJoined(y: string, m: string, d: string)
    requires |y| > 0 && |m| == 2 && |d| == 2
    requires AllDigits(y) && AllDigits(m) && AllDigits(d)
    ensures ParseDateString(y + "-" + m + "-" + d)
            == Some((ParseDigits(y), ParseDigits(m) - 1, ParseDigits(d)))
  {
    FieldsOfJoined(y, m, d);
  }

  /** The date string reads back to the year, month and day it was built
      from, for every non-negative year and every month and day whose text
      fits in two digits. */
  lemma DateStringRoundTrip(year: int, month: int, day: int)
    requires 0 <= year && 0 <= month <= 98 && 0 <= day <= 99
    ensures ParseDateString(CreateDateString(year, month, day)) == Some((year, month, day))
  {
    var y, m, d := NatToString(year), PadStart2(NatToString(month + 1)), PadStart2(NatToString(day));
    PadStart2Digits(month + 1);
    PadStart2Digits(day);
    ParseNatToString(year);
    assert CreateDateString(year, month, day) == y + "-" + m + "-" + d;
    ParseJoined(y, m, d);
  }

  /** A four-digit year with a calendar month and day gives exactly the ten
      characters `YYYY-MM-DD`. */
  lemma DateStringShape(year: int, month: int, day: int)
    requires 1000 <= year <= 9999 && 0 <= month < 12 && 1 <= day <= 31
    ensures |CreateDateString(year, month, day)| == 10
    ensures CreateDateString(year, month, day)[4] == '-'
    ensures CreateDateString(year, month, day)[7] == '-'
  {
    assert |NatToString(year / 1000)| == 1;
    assert |NatToString(year / 100)| == 2;
    assert |NatToString(year / 10)| == 3;
    assert |NatToString(year)| == 4;
  }

  // ---------------------------------------------------------------------
  // getDaysInMonth

  /** The `Date` constructor reads a year 0..99 as 1900..1999. */
  function FullYear(year: int): int {
    if 0 <= year <= 99 then 1900 + year else year
  }

  /** The Gregorian leap-year rule. */
  predicate IsLeapYear(y: int) {
    (y % 4 == 0 && y % 100 != 0) || y % 400 == 0
  }

  /** Days in the 0-based calendar month m of year y. */
  function MonthLength(y: int, m: int): int
    requires 0 <= m < 12
  {
    if m == 1 then (if IsLeapYear(y) then 29 else 28)
    else if m == 3 || m == 5 || m == 8 || m == 10 then 30
    else 31
  }

  /** `new Date(year, month + 1, 0).getDate()`: day 0 of the following month
      is the last day of month `month`; a month outside 0..11 carries into
      the year (floor division), and two-digit years mean 19xx. */
  function DaysInMonth(year: int, month: int): (d: int)
    ensures 28 <= d <= 31
  {
    MonthLength(FullYear(year) + month / 12, month % 12)
  }

  /** February is the only month shorter than 30 days, and it has 29 days
      exactly in a Gregorian leap year. */
  lemma DaysInMonthFebruary(year: int, month: int)
    ensures DaysInMonth(year, month) < 30 <==> month % 12 == 1
    ensures DaysInMonth(year, month) == 29 <==>
              month % 12 == 1 && IsLeapYear(FullYear(year) + month / 12)
  {
  }

  /** The twelve months of a year add up to 365 days, 366 in a leap year. */
  lemma YearLength(year: int)
    ensures DaysInMonth(year, 0) + DaysInMonth(year, 1) + DaysInMonth(year, 2)
            + DaysInMonth(year, 3) + DaysInMonth(year, 4) + DaysInMonth(year, 5)
            + DaysInMonth(year, 6) + DaysInMonth(year, 7) + DaysInMonth(year, 8)
            + DaysInMonth(year, 9) + DaysInMonth(year, 10) + DaysInMonth(year, 11)
            == if IsLeapYear(FullYear(year)) then 366 else 365
  {
  }

  /** Month 12 of one year is month 0 of the next, and month -1 is the
      previous December, for years the constructor reads literally. */
  lemma DaysInMonthCarries(year: int, month: int)
    requires year >= 100
    ensures DaysInMonth(year, month + 12) == DaysInMonth(year + 1, month)
    ensures DaysInMonth(year, -1) == 31
  {
  }

  /** Two-digit years are read as 19xx: year 0 is 1900, not a leap year,
      while year 2000 is. */
  lemma TwoDigitYears()
    ensures DaysInMonth(0, 1) == 28
    ensures DaysInMonth(2000, 1) == 29
    ensures DaysInMonth(96, 1) == 29
  {
  }

  // ---------------------------------------------------------------------
  // getMonthName

  const MonthNames: seq<string> := [
    "January", "February", "March", "April", "May", "June",
    "July", "August", "September", "October", "November", "December"]

  /** `months[month]`: undefined outside 0..11. */
  function MonthName(month: int): (r: Option<string>)
    ensures r.Some? <==> 0 <= month < 12
  {
    if 0 <= month < |MonthNames| then Some(MonthNames[month]) else None
  }

  /** Distinct months have distinct names. */
  lemma MonthNameInjective(m: int, n: int)
    requires MonthName(m).Some? && MonthName(m) == MonthName(n)
    ensures m == n
  {
  }

  lemma MonthNameExamples()
    ensures MonthName(0) == Some("January")
    ensures MonthName(1) == Some("February")
    ensures MonthName(11) == Some("December")
    ensures MonthName(12) == None
  {
  }

  // ---------------------------------------------------------------------
  // isWeekend

  /** The day of the week (0 = Sunday) of the day t days after 1 January
      1970, which was a Thursday: what `getDay()` answers. */
  function DayOfWeek(t: int): (w: int)
    ensures 0 <= w < 7
  {
    (t + 4) % 7
  }

  /** `day === 0 || day === 6`. */
  predicate IsWeekend(dayOfWeek: int) {
    dayOfWeek == 0 || dayOfWeek == 6
  }

  function WeekendIndicator(t: int): nat {
    if IsWeekend(DayOfWeek(t)) then 1 else 0
  }

  /** Number of weekend days among the n days from day t on. */
  function WeekendDaysFrom(t: int, n: nat): nat
    decreases n
  {
    if n == 0 then 0 else WeekendIndicator(t) + WeekendDaysFrom(t + 1, n - 1)
  }

  /** The day after a Saturday is a Sunday; otherwise the week day advances
      by one. */
  lemma DayOfWeekNext(t: int)
    ensures DayOfWeek(t + 1) == if DayOfWeek(t) == 6 then 0 else DayOfWeek(t) + 1
  {
    var q := (t + 4) / 7;
    assert t + 4 == 7 * q + DayOfWeek(t);
    if DayOfWeek(t) == 6 {
      assert t + 5 == 7 * (q + 1);
    } else {
      assert t + 5 == 7 * q + (DayOfWeek(t) + 1);
    }
  }

  /** Every run of seven consecutive days holds exactly two weekend days,
      and the weekend repeats every seven days. */
  lemma WeekendTwoPerWeek(t: int)
    ensures WeekendDaysFrom(t, 7) == 2
    ensures IsWeekend(DayOfWeek(t)) <==> IsWeekend(DayOfWeek(t + 7))
  {
    DayOfWeekNext(t);
    DayOfWeekNext(t + 1);
    DayOfWeekNext(t + 2);
    DayOfWeekNext(t + 3);
    DayOfWeekNext(t + 4);
    DayOfWeekNext(t + 5);
    DayOfWeekNext(t + 6);
    assert WeekendDaysFrom(t + 6, 1) == WeekendIndicator(t + 6);
    assert WeekendDaysFrom(t + 4, 3) == WeekendIndicator(t + 4) + WeekendIndicator(t + 5)
                                        + WeekendIndicator(t + 6);
    assert WeekendDaysFrom(t + 2, 5) == WeekendIndicator(t + 2) + WeekendIndicator(t + 3)
                                        + WeekendDaysFrom(t + 4, 3);
    assert WeekendDaysFrom(t, 7) == WeekendIndicator(t) + WeekendIndicator(t + 1)
                                    + WeekendDaysFrom(t + 2, 5);
  }

  // ---------------------------------------------------------------------
  // formatDate

  /** `formatDate(date)`: a missing (`None`) or empty date formats as "";
      any other date as the external formatter's text, which is a
      parameter here. */
  function FormatDate(date: Option<string>, formatted: string): (r: string)
    ensures date.None? || date == Some("") ==> r == ""
    ensures date.Some? && date.value != "" ==> r == formatted
  {
    if date.None? || date.value == "" then "" else formatted
  }
}
