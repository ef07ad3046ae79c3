/** Calendar dates and the strftime labels the free-slot computation prints:
    "%A, %B %d" for a day and "%I:%M %p" for a whole hour (English names). */
module Calendar {
  import opened Text

  /** "%A" names, Monday first as in Python's weekday(). */
  const WeekdayNames: seq<string> :=
    ["Monday", "Tuesday", "Wednesday", "Thursday", "Friday", "Saturday", "Sunday"]

  /** "%B" names. */
  const MonthNames: seq<string> :=
    ["January", "February", "March", "April", "May", "June", "July",
     "August", "September", "October", "November", "December"]

  datatype Date = Date(year: int, month: int, day: int)

  predicate IsLeapYear(y: int) {
    y % 4 == 0 && (y % 100 != 0 || y % 400 == 0)
  }

  function DaysInMonth(y: int, m: int): (n: int)
    requires 1 <= m <= 12
    ensures 28 <= n <= 31
  {
    if m == 2 then (if IsLeapYear(y) then 29 else 28)
    else if m == 4 || m == 6 || m == 9 || m == 11 then 30
    else 31
  }

  predicate ValidDate(d: Date) {
    1 <= d.month <= 12 && 1 <= d.day <= DaysInMonth(d.year, d.month)
  }

  /** Days from 1 January of year 1 to 1 January of year y on the proleptic
      Gregorian calendar (Python's `date(y, 1, 1).toordinal() - 1`). */
  function DaysBeforeYear(y: int): int {
    var p := y - 1;
    365 * p + p / 4 - p / 100 + p / 400
  }

  /** Days in the months of year y before month m. */
  function DaysBeforeMonth(y: int, m: int): (n: int)
    requires 1 <= m <= 12
    ensures 0 <= n <= 335
  {
    var leap := if m > 2 && IsLeapYear(y) then 1 else 0;
    [0, 31, 59, 90, 120, 151, 181, 212, 243, 273, 304, 334][m - 1] + leap
  }

  /** The number of a day counted from 1 January of year 1, which is day 0
      and a Monday: `date.toordinal() - 1`, so `date.weekday()` is this
      number modulo 7. */
  function DayNumber(d: Date): int
    requires 1 <= d.month <= 12
  {
    DaysBeforeYear(d.year) + DaysBeforeMonth(d.year, d.month) + d.day - 1
  }

  /** A year has 366 days when it is a leap year and 365 otherwise. */
  lemma YearLength(y: int)
    ensures DaysBeforeYear(y + 1) - DaysBeforeYear(y) == if IsLeapYear(y) then 366 else 365
  {
    var p := y - 1;
    FloorStep4(p);
    FloorStep100(p);
    FloorStep400(p);
    if y % 100 == 0 {
      CenturyDivisibleBy4(y);
    }
    if y % 400 == 0 {
      QuadCenturyDivisibleBy100(y);
    }
  }

  lemma FloorStep4(p: int)
    ensures (p + 1) / 4 - p / 4 == if (p + 1) % 4 == 0 then 1 else 0
  {
  }

  lemma FloorStep100(p: int)
    ensures (p + 1) / 100 - p / 100 == if (p + 1) % 100 == 0 then 1 else 0
  {
  }

  lemma FloorStep400(p: int)
    ensures (p + 1) / 400 - p / 400 == if (p + 1) % 400 == 0 then 1 else 0
  {
  }

  lemma CenturyDivisibleBy4(y: int)
    requires y % 100 == 0
    ensures y % 4 == 0
  {
    assert y == 4 * (25 * (y / 100));
  }

  lemma QuadCenturyDivisibleBy100(y: int)
    requires y % 400 == 0
    ensures y % 100 == 0
  {
    assert y == 100 * (4 * (y / 400));
  }

  /** The Gregorian date after d. */
  function NextDate(d: Date): (r: Date)
    requires ValidDate(d)
    ensures ValidDate(r)
  {
    if d.day < DaysInMonth(d.year, d.month) then Date(d.year, d.month, d.day + 1)
    else if d.month < 12 then Date(d.year, d.month + 1, 1)
    else Date(d.year + 1, 1, 1)
  }

  /** The date after d is the day numbered one more. */
  lemma NextDateNumber(d: Date)
    requires ValidDate(d)
    ensures DayNumber(NextDate(d)) == DayNumber(d) + 1
  {
    if d.day == DaysInMonth(d.year, d.month) && d.month == 12 {
      YearLength(d.year);
    }
  }

  /** The date n days after d. */
  function AddDays(d: Date, n: nat): (r: Date)
    requires ValidDate(d)
    ensures ValidDate(r)
  {
    if n == 0 then d else NextDate(AddDays(d, n - 1))
  }

  /** The date n days after d is the day numbered n more. */
  lemma {:induction false} AddDaysNumber(d: Date, n: nat)
    requires ValidDate(d)
    ensures DayNumber(AddDays(d, n)) == DayNumber(d) + n
  {
    if n > 0 {
      AddDaysNumber(d, n - 1);
      NextDateNumber(AddDays(d, n - 1));
    }
  }

  /** Valid dates with the same number are the same date, so a date's
      number identifies it and NextDate and AddDays are pinned down by
      their numbering. */
  lemma DayNumberInjective(d: Date, e: Date)
    requires ValidDate(d) && ValidDate(e) && DayNumber(d) == DayNumber(e)
    ensures d == e
  {
    if d.year < e.year {
      DayNumberBelowNextYear(d);
      DaysBeforeYearMonotone(d.year + 1, e.year);
      assert false;
    } else if e.year < d.year {
      DayNumberBelowNextYear(e);
      DaysBeforeYearMonotone(e.year + 1, d.year);
      assert false;
    } else if d.month < e.month {
      MonthsApart(d, e);
    } else if e.month < d.month {
      MonthsApart(e, d);
    }
  }

  /** Every day of year y is numbered before 1 January of year y + 1. */
  lemma DayNumberBelowNextYear(d: Date)
    requires ValidDate(d)
    ensures DayNumber(d) < DaysBeforeYear(d.year + 1)
  {
    YearLength(d.year);
  }

  /** Later years start later. */
  lemma {:induction false} DaysBeforeYearMonotone(x: int, y: int)
    requires x <= y
    ensures DaysBeforeYear(x) <= DaysBeforeYear(y)
    decreases y - x
  {
    if x < y {
      YearLength(x);
      DaysBeforeYearMonotone(x + 1, y);
    }
  }

  /** Within one year, a date of an earlier month is numbered lower. */
  lemma MonthsApart(d: Date, e: Date)
    requires ValidDate(d) && ValidDate(e) && d.year == e.year && d.month < e.month
    ensures DayNumber(d) < DayNumber(e)
  {
  }

  /** 18 October 2026 is day 739906, a Sunday. */
  lemma DayNumberExample()
    ensures DayNumber(Date(2026, 10, 18)) == 739906
    ensures DayNumber(Date(2026, 10, 18)) % 7 == 6
  {
  }

  /** `strftime('%A')`, `strftime('%B %d')`, joined as "<Weekday>, <Month> <dd>". */
  function DayKey(weekday: int, date: Date): (key: string)
    requires 0 <= weekday < 7 && ValidDate(date)
    ensures |key| >= 2 && WeekdayOfName(key) == weekday
  {
    var rest := ", " + MonthNames[date.month - 1] + " " + TwoDigits(date.day);
    RegroupKey(WeekdayNames[weekday], ", ", MonthNames[date.month - 1], " ", TwoDigits(date.day));
    WeekdayOfNameStart(weekday, rest);
    WeekdayNames[weekday] + ", " + MonthNames[date.month - 1] + " " + TwoDigits(date.day)
  }

  /** `date.strftime('%A, %B %d')`: the key with the weekday the calendar
      gives the date. */
  function CalendarKey(d: Date): string
    requires ValidDate(d)
  {
    DayKey(DayNumber(d) % 7, d)
  }

  /** The weekday a text starting with a weekday name names, read from its
      first two letters. */
  function WeekdayOfName(n: string): int
    requires |n| >= 2
  {
    if n[0] == 'M' then 0
    else if n[0] == 'T' then (if n[1] == 'u' then 1 else 3)
    else if n[0] == 'W' then 2
    else if n[0] == 'F' then 4
    else if n[1] == 'a' then 5
    else 6
  }

  /** Any text that starts with a weekday's name decodes to that weekday. */
  lemma WeekdayOfNameStart(w: int, rest: string)
    requires 0 <= w < 7
    ensures |WeekdayNames[w] + rest| >= 2 && WeekdayOfName(WeekdayNames[w] + rest) == w
  {
    var n := WeekdayNames[w] + rest;
    assert n[0] == WeekdayNames[w][0] && n[1] == WeekdayNames[w][1];
  }

  lemma RegroupKey(a: string, b: string, c: string, d: string, e: string)
    ensures a + b + c + d + e == a + (b + c + d + e)
  {
  }

  /** A day key starts with its weekday's name, so keys of different
      weekdays differ. */
  lemma DayKeyWeekday(w: int, d: Date, w': int, d': Date)
    requires 0 <= w < 7 && ValidDate(d) && 0 <= w' < 7 && ValidDate(d')
    requires DayKey(w, d) == DayKey(w', d')
    ensures w == w'
  {
    assert WeekdayOfName(DayKey(w, d)) == w;
  }

  /** "%I": the hour on a 12-hour clock, 12 for midnight and noon. */
  function Hour12(h: int): (r: int)
    requires 0 <= h < 24
    ensures 1 <= r <= 12
  {
    if h % 12 == 0 then 12 else h % 12
  }

  /** `strftime('%I:%M %p')` of a whole hour h of the day. */
  function HourLabel(h: int): (r: string)
    requires 0 <= h < 24
    ensures |r| == 8 && '-' !in r && r[7] == 'M'
  {
    TwoDigits(Hour12(h)) + ":00 " + (if h < 12 then "AM" else "PM")
  }

  /** Distinct hours of one day have distinct labels. */
  lemma HourLabelInjective(h: int, h': int)
    requires 0 <= h < 24 && 0 <= h' < 24
    ensures HourLabel(h) == HourLabel(h') <==> h == h'
  {
    if HourLabel(h) == HourLabel(h') {
      assert HourLabel(h)[..2] == TwoDigits(Hour12(h));
      assert HourLabel(h')[..2] == TwoDigits(Hour12(h'));
      TwoDigitsInjective(Hour12(h), Hour12(h'));
      assert HourLabel(h)[6] == HourLabel(h')[6];
    }
  }

  /** The labels of the working day's edges: 9 is "09:00 AM", 12 is
      "12:00 PM", 17 is "05:00 PM". */
  lemma HourLabelExamples()
    ensures HourLabel(9) == "09:00 AM"
    ensures HourLabel(12) == "12:00 PM"
    ensures HourLabel(17) == "05:00 PM"
  {
  }
}
