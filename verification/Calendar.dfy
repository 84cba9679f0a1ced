/**
 The proleptic Gregorian calendar in UTC, as the cron scanner reads it: days
 are numbered from 1970-01-01, minutes from its midnight.
 */
module Calendar {

  const DAYS_TO_EPOCH := 719162  // from 0001-01-01 to 1970-01-01

  datatype Date = Date(year: int, month: int, day: int)

  predicate Leap(y: int) {
    y % 4 == 0 && (y % 100 != 0 || y % 400 == 0)
  }

  // Days of the year before month m; 365 or 366 for the month after the last.
  function DaysBeforeMonth(leap: bool, m: int): int
    requires 1 <= m <= 13
  {
    (if leap && m > 2 then 1 else 0) +
    (match m
     case 1 => 0
     case 2 => 31
     case 3 => 59
     case 4 => 90
     case 5 => 120
     case 6 => 151
     case 7 => 181
     case 8 => 212
     case 9 => 243
     case 10 => 273
     case 11 => 304
     case 12 => 334
     case _ => 365)
  }

  function MonthLength(leap: bool, m: int): int
    requires 1 <= m <= 12
  {
    DaysBeforeMonth(leap, m + 1) - DaysBeforeMonth(leap, m)
  }

  // Number of the first day of year y.
  function YearStart(y: int): int {
    var n := y - 1;
    365 * n + n / 4 - n / 100 + n / 400 - DAYS_TO_EPOCH
  }

  predicate ValidDate(d: Date) {
    1 <= d.month <= 12 && 1 <= d.day <= MonthLength(Leap(d.year), d.month)
  }

  // Days past the end of the month run on into the following months.
  function DayNumber(d: Date): int
    requires 1 <= d.month <= 12
  {
    YearStart(d.year) + DaysBeforeMonth(Leap(d.year), d.month) + d.day - 1
  }

  lemma YearLength(y: int)
    ensures YearStart(y + 1) - YearStart(y) == if Leap(y) then 366 else 365
  {
    QuotientSteps(y - 1);
    Centuries(y);
  }

  lemma QuotientSteps(n: int)
    ensures (n + 1) / 4 - n / 4 == if (n + 1) % 4 == 0 then 1 else 0
    ensures (n + 1) / 100 - n / 100 == if (n + 1) % 100 == 0 then 1 else 0
    ensures (n + 1) / 400 - n / 400 == if (n + 1) % 400 == 0 then 1 else 0
  {
  }

  lemma Centuries(y: int)
    ensures y % 400 == 0 ==> y % 100 == 0
    ensures y % 100 == 0 ==> y % 4 == 0
  {
  }

  lemma {:induction false} YearStartMonotone(a: int, b: int)
    requires a <= b
    ensures YearStart(a) <= YearStart(b)
    decreases b - a
  {
    if a < b {
      YearLength(a);
      YearStartMonotone(a + 1, b);
    }
  }

  function YearOf(n: int): (y: int)
    ensures YearStart(y) <= n < YearStart(y + 1)
  {
    var guess := (n + DAYS_TO_EPOCH) * 400 / 146097 + 1;
    if n < YearStart(guess) then guess - 1
    else if n >= YearStart(guess + 1) then guess + 1
    else guess
  }

  function MonthAt(leap: bool, dayOfYear: int): (m: int)
    requires 0 <= dayOfYear < if leap then 366 else 365
    ensures 1 <= m <= 12
    ensures DaysBeforeMonth(leap, m) <= dayOfYear < DaysBeforeMonth(leap, m + 1)
  {
    var d := if leap && dayOfYear >= 60 then dayOfYear - 1 else dayOfYear;
    if d < 31 then 1
    else if d < 59 || (leap && dayOfYear == 59) then 2
    else if d < 90 then 3
    else if d < 120 then 4
    else if d < 151 then 5
    else if d < 181 then 6
    else if d < 212 then 7
    else if d < 243 then 8
    else if d < 273 then 9
    else if d < 304 then 10
    else if d < 334 then 11
    else 12
  }

  // The calendar date of a day number.
  function DateOf(n: int): (d: Date)
    ensures ValidDate(d) && DayNumber(d) == n
  {
    var y := YearOf(n);
    YearLength(y);
    var leap := Leap(y);
    var m := MonthAt(leap, n - YearStart(y));
    Date(y, m, n - YearStart(y) - DaysBeforeMonth(leap, m) + 1)
  }

  lemma MonthsMonotone(leap: bool, a: int, b: int)
    requires 1 <= a <= b <= 13
    ensures DaysBeforeMonth(leap, b) - DaysBeforeMonth(leap, a) >= 28 * (b - a)
  {
  }

  // A valid date lies inside its year.
  lemma DateInYear(d: Date)
    requires ValidDate(d)
    ensures YearStart(d.year) <= DayNumber(d) < YearStart(d.year + 1)
  {
    YearLength(d.year);
    MonthsMonotone(Leap(d.year), 1, d.month);
    MonthsMonotone(Leap(d.year), d.month + 1, 13);
  }

  // Day numbers order valid dates as calendars do.
  lemma DayNumberOrder(a: Date, b: Date)
    requires ValidDate(a) && ValidDate(b)
    requires a.year < b.year || (a.year == b.year && (a.month < b.month || (a.month == b.month && a.day < b.day)))
    ensures DayNumber(a) < DayNumber(b)
  {
    DateInYear(a);
    DateInYear(b);
    hide YearStart;
    if a.year < b.year {
      YearStartMonotone(a.year + 1, b.year);
    } else if a.month < b.month {
      MonthsMonotone(Leap(a.year), a.month + 1, b.month);
    }
  }

  // Within one month day numbers count the days.
  lemma SameMonth(y: int, m: int, a: int, b: int)
    requires 1 <= m <= 12
    ensures DayNumber(Date(y, m, b)) - DayNumber(Date(y, m, a)) == b - a
  {
  }

  // Every valid date is the date of its own day number.
  lemma DateRoundTrip(d: Date)
    requires ValidDate(d)
    ensures DateOf(DayNumber(d)) == d
  {
    var e := DateOf(DayNumber(d));
    if e != d {
      if e.year < d.year || (e.year == d.year && (e.month < d.month || (e.month == d.month && e.day < d.day))) {
        DayNumberOrder(e, d);
      } else {
        DayNumberOrder(d, e);
      }
      assert false;
    }
  }

  // A day up to the 28th, or to the common length of its month, exists in every year.
  lemma ExistsEveryYear(y: int, m: int, d: int)
    requires 1 <= m <= 12 && 1 <= d <= MonthLength(false, m)
    ensures ValidDate(Date(y, m, d))
  {
  }

  lemma MonthAtLeast28(m: int)
    requires 1 <= m <= 12
    ensures 28 <= MonthLength(false, m) <= 31
  {
  }

  // A day that exists every year occurs after today and up to the anniversary.
  lemma NextOccurrence(today: Date, m: int, d: int) returns (next: Date)
    requires ValidDate(today) && 1 <= m <= 12 && 1 <= d <= MonthLength(false, m)
    ensures ValidDate(next) && next.month == m && next.day == d
    ensures DayNumber(today) < DayNumber(next) <= DayNumber(Date(today.year + 1, today.month, today.day))
  {
    ExistsEveryYear(today.year, m, d);
    ExistsEveryYear(today.year + 1, m, d);
    var anniversaryMonth := Date(today.year + 1, today.month, 1);
    SameMonth(today.year + 1, today.month, 1, today.day);
    if today.month < m || (today.month == m && today.day < d) {
      next := Date(today.year, m, d);
      DayNumberOrder(today, next);
      DayNumberOrder(next, anniversaryMonth);
    } else {
      next := Date(today.year + 1, m, d);
      DayNumberOrder(today, next);
      if m < today.month {
        DayNumberOrder(next, anniversaryMonth);
      } else {
        SameMonth(today.year + 1, m, d, today.day);
      }
    }
  }

  // So do seven days in a row of any one month.
  lemma NextWeek(today: Date, m: int) returns (first: Date)
    requires ValidDate(today) && 1 <= m <= 12
    ensures first.month == m && 1 <= first.day <= 22
    ensures DayNumber(today) < DayNumber(first)
    ensures DayNumber(first) + 6 <= DayNumber(Date(today.year + 1, today.month, today.day))
  {
    hide YearStart, DaysBeforeMonth;
    MonthAtLeast28(m);
    if m == today.month {
      if today.day <= 21 {
        first := Date(today.year, m, today.day + 1);
        SameMonth(today.year, m, today.day, today.day + 1);
        SameMonth(today.year, m, today.day, today.day + 7);
        ExistsEveryYear(today.year, m, today.day + 7);
        ExistsEveryYear(today.year + 1, m, 1);
        DayNumberOrder(Date(today.year, m, today.day + 7), Date(today.year + 1, m, 1));
        SameMonth(today.year + 1, m, 1, today.day);
      } else {
        first := Date(today.year + 1, m, 1);
        ExistsEveryYear(today.year + 1, m, 1);
        DayNumberOrder(today, first);
        SameMonth(today.year + 1, m, 7, today.day);
        SameMonth(today.year + 1, m, 1, 7);
      }
    } else {
      var seventh := NextOccurrence(today, m, 7);
      first := Date(seventh.year, m, 1);
      ExistsEveryYear(first.year, m, 1);
      SameMonth(first.year, m, 1, 7);
      if first.year < today.year || (first.year == today.year && m < today.month) {
        DayNumberOrder(seventh, today);
        assert false;
      }
      DayNumberOrder(today, first);
    }
  }

  // 1970-01-01 was a Thursday; Sunday is 0.
  function Weekday(n: int): int {
    (n + 4) % 7
  }

  // The days of a month as everyone counts them.
  function DaysIn(year: int, month: int): int {
    if month == 2 then (if (year % 4 == 0 && year % 100 != 0) || year % 400 == 0 then 29 else 28)
    else if month == 4 || month == 6 || month == 9 || month == 11 then 30
    else 31
  }

  // Day 0 is 1 January 1970, a Thursday, and each day has the date and weekday
  // after those of the day before: this alone decides every date.
  lemma DayByDay(n: int)
    ensures DateOf(0) == Date(1970, 1, 1) && Weekday(0) == 4
    ensures DateOf(n + 1) == DayAfter(DateOf(n))
    ensures Weekday(n + 1) == if Weekday(n) == 6 then 0 else Weekday(n) + 1
  {
    hide DateOf, YearStart, DayNumber, DayAfter;
    Epoch();
    DateRoundTrip(Date(1970, 1, 1));
    NumberAfter(DateOf(n));
    DateRoundTrip(DayAfter(DateOf(n)));
  }

  function DayAfter(d: Date): Date {
    if d.day < DaysIn(d.year, d.month) then Date(d.year, d.month, d.day + 1)
    else if d.month < 12 then Date(d.year, d.month + 1, 1)
    else Date(d.year + 1, 1, 1)
  }

  lemma NumberAfter(d: Date)
    requires ValidDate(d)
    ensures ValidDate(DayAfter(d)) && DayNumber(DayAfter(d)) == DayNumber(d) + 1
  {
    MonthLengths(d.year, d.month);
    hide YearStart, Leap, DaysIn, MonthLength;
    if d.day < DaysIn(d.year, d.month) {
      SameMonth(d.year, d.month, d.day, d.day + 1);
    } else if d.month < 12 {
      NextMonth(d);
      FirstIsValid(d.year, d.month + 1);
    } else {
      FirstIsValid(d.year + 1, 1);
      NextYear(d);
    }
  }

  lemma FirstIsValid(y: int, m: int)
    requires 1 <= m <= 12
    ensures ValidDate(Date(y, m, 1))
  {
  }

  lemma MonthLengths(y: int, m: int)
    requires 1 <= m <= 12
    ensures MonthLength(Leap(y), m) == DaysIn(y, m)
  {
    Centuries(y);
  }

  lemma Epoch()
    ensures DayNumber(Date(1970, 1, 1)) == 0
    ensures ValidDate(Date(1970, 1, 1))
  {
  }

  lemma NextMonth(d: Date)
    requires 1 <= d.month < 12 && d.day == MonthLength(Leap(d.year), d.month)
    ensures DayNumber(Date(d.year, d.month + 1, 1)) == DayNumber(d) + 1
  {
  }

  lemma NextYear(d: Date)
    requires d.month == 12 && d.day == MonthLength(Leap(d.year), 12)
    ensures DayNumber(Date(d.year + 1, 1, 1)) == DayNumber(d) + 1
  {
    YearLength(d.year);
    hide YearStart;
  }

  function DayOfMinute(t: int): int {
    t / 1440
  }

  function HourOf(t: int): int {
    t % 1440 / 60
  }

  function MinuteOf(t: int): int {
    t % 60
  }

  // The minute one calendar year and one day later; 29 February moves to 2 March.
  function AddYearAndDay(t: int): int {
    var d := DateOf(DayOfMinute(t));
    DayNumber(Date(d.year + 1, d.month, d.day + 1)) * 1440 + t % 1440
  }

  // The day after the anniversary, at the same time of day; 29 February has its
  // anniversary on 1 March.
  lemma AddYearAndDayExact(d: Date, minutes: int)
    requires ValidDate(d) && 0 <= minutes < 1440
    ensures var leapDay := d.month == 2 && d.day == 29;
            var anniversary := if leapDay then Date(d.year + 1, 3, 1) else Date(d.year + 1, d.month, d.day);
            && ValidDate(anniversary)
            && AddYearAndDay(DayNumber(d) * 1440 + minutes) == (DayNumber(anniversary) + 1) * 1440 + minutes
  {
    hide DateOf, YearStart, MonthLength, DayNumber, Leap;
    TimeOfDay(DayNumber(d), minutes);
    DateRoundTrip(d);
    Anniversary(d);
  }

  lemma TimeOfDay(day: int, minutes: int)
    requires 0 <= minutes < 1440
    ensures DayOfMinute(day * 1440 + minutes) == day && (day * 1440 + minutes) % 1440 == minutes
  {
  }

  lemma Anniversary(d: Date)
    requires ValidDate(d)
    ensures var anniversary := if d.month == 2 && d.day == 29 then Date(d.year + 1, 3, 1) else Date(d.year + 1, d.month, d.day);
            ValidDate(anniversary) && DayNumber(Date(d.year + 1, d.month, d.day + 1)) == DayNumber(anniversary) + 1
  {
    MonthLengths(d.year, d.month);
    MonthLengths(d.year + 1, d.month);
    FirstIsValid(d.year + 1, 3);
    hide YearStart, MonthLength;
    Centuries(d.year);
    Centuries(d.year + 1);
  }

  lemma AddYearAndDaySpan(t: int)
    ensures 366 * 1440 <= AddYearAndDay(t) - t <= 367 * 1440
  {
    var d := DateOf(DayOfMinute(t));
    hide YearStart, DateOf;
    YearLength(d.year);
  }

  // 2021 and 2022 are common years; day 18628 is 1 January 2021.
  lemma YearStart2021()
    ensures YearStart(2021) == 18628
  {
  }

  lemma YearStart2023()
    ensures YearStart(2023) == 19358
  {
  }

  lemma YearBetween(day: int, a: int, b: int)
    requires YearStart(a) <= day < YearStart(b)
    ensures a <= DateOf(day).year < b
  {
    hide YearStart, DayNumber, MonthAt;
    var y := DateOf(day).year;
    if y < a {
      YearStartMonotone(y + 1, a);
    } else if y >= b {
      YearStartMonotone(b, y);
    }
  }

  lemma CommonYears(day: int)
    requires 18628 <= day < 19358
    ensures !Leap(DateOf(day).year)
  {
    hide DateOf;
    YearStart2021();
    YearStart2023();
    YearBetween(day, 2021, 2023);
  }
}
