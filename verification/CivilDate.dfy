/** Proleptic Gregorian dates and day numbers (section 21.4.1 of ECMA-262). */
module CivilDate {

  datatype Date = Date(year: int, month: int, day: int)

  predicate IsLeap(y: int) {
    y % 4 == 0 && (y % 100 != 0 || y % 400 == 0)
  }

  /** The day number of 1 January, counted from 1 January 1970. */
  function DayFromYear(y: int): int {
    365 * (y - 1970) + (y - 1969) / 4 - (y - 1901) / 100 + (y - 1601) / 400
  }

  /** Days of the year before the first of the month, months counted from 1 to 13. */
  function DaysBefore(month: int, leap: bool): int
    requires 1 <= month <= 13
  {
    var days :=
      if month == 1 then 0 else if month == 2 then 31 else if month == 3 then 59 else if month == 4 then 90
      else if month == 5 then 120 else if month == 6 then 151 else if month == 7 then 181 else if month == 8 then 212
      else if month == 9 then 243 else if month == 10 then 273 else if month == 11 then 304
      else if month == 12 then 334 else 365;
    days + if leap && month > 2 then 1 else 0
  }

  ghost predicate ValidDate(d: Date) {
    1 <= d.month <= 12
    && 1 <= d.day <= DaysBefore(d.month + 1, IsLeap(d.year)) - DaysBefore(d.month, IsLeap(d.year))
  }

  /** MakeDay: months beyond the year carry into it, days beyond the month run on. */
  function MakeDay(year: int, month: int, day: int): int {
    var y, m := year + (month - 1) / 12, (month - 1) % 12 + 1;
    DayFromYear(y) + DaysBefore(m, IsLeap(y)) + day - 1
  }

  lemma {:induction false} LeapFloors(y: int)
    ensures (y - 1968) / 4 - (y - 1969) / 4 == if y % 4 == 0 then 1 else 0
  {}

  lemma {:induction false} CenturyFloors(y: int)
    ensures (y - 1900) / 100 - (y - 1901) / 100 == if y % 100 == 0 then 1 else 0
  {}

  lemma {:induction false} EraFloors(y: int)
    ensures (y - 1600) / 400 - (y - 1601) / 400 == if y % 400 == 0 then 1 else 0
  {}

  lemma {:induction false} LeapDivides(y: int)
    ensures y % 400 == 0 ==> y % 100 == 0
    ensures y % 100 == 0 ==> y % 4 == 0
  {}

  lemma {:induction false} YearLength(y: int)
    ensures DayFromYear(y + 1) - DayFromYear(y) == if IsLeap(y) then 366 else 365
  {
    LeapFloors(y);
    CenturyFloors(y);
    EraFloors(y);
    LeapDivides(y);
  }

  lemma {:induction false} EraStart(k: int)
    ensures DayFromYear(1970 + 400 * k) == 146097 * k
  {
    assert (1 + 400 * k) / 4 == 100 * k && (69 + 400 * k) / 100 == 4 * k && (369 + 400 * k) / 400 == k;
  }

  ghost function YearFrom(day: int, y: int): (r: int)
    requires DayFromYear(y) <= day
    ensures DayFromYear(r) <= day < DayFromYear(r + 1)
    decreases day - DayFromYear(y)
  {
    YearLength(y);
    if DayFromYear(y + 1) <= day then YearFrom(day, y + 1) else y
  }

  ghost function MonthFrom(offset: int, leap: bool, m: int): (r: int)
    requires 1 <= m <= 12 && DaysBefore(m, leap) <= offset < DaysBefore(13, leap)
    ensures m <= r <= 12 && DaysBefore(r, leap) <= offset < DaysBefore(r + 1, leap)
    decreases 12 - m
  {
    if m < 12 && DaysBefore(m + 1, leap) <= offset then MonthFrom(offset, leap, m + 1) else m
  }

  /** The date of a day number. */
  ghost function DateOf(day: int): (d: Date)
    ensures ValidDate(d) && DayFromYear(d.year) <= day < DayFromYear(d.year + 1)
    ensures DayFromYear(d.year) + DaysBefore(d.month, IsLeap(d.year)) + d.day - 1 == day
  {
    EraStart(day / 146097);
    var y := YearFrom(day, 1970 + 400 * (day / 146097));
    YearLength(y);
    var leap := IsLeap(y);
    var m := MonthFrom(day - DayFromYear(y), leap, 1);
    Date(y, m, day - DayFromYear(y) - DaysBefore(m, leap) + 1)
  }

  lemma {:induction false} MakeDayInYear(year: int, month: int, day: int)
    requires 1 <= month <= 12
    ensures MakeDay(year, month, day) == DayFromYear(year) + DaysBefore(month, IsLeap(year)) + day - 1
  {
    assert (month - 1) / 12 == 0 && (month - 1) % 12 == month - 1;
  }

  lemma {:induction false} MonthIsUnique(offset: int, leap: bool, a: int, b: int)
    requires 1 <= a <= 12 && 1 <= b <= 12
    requires DaysBefore(a, leap) <= offset < DaysBefore(a + 1, leap)
    requires DaysBefore(b, leap) <= offset < DaysBefore(b + 1, leap)
    ensures a == b
  {}

  lemma {:induction false} YearsIncrease(a: int, b: int)
    requires a <= b
    ensures DayFromYear(a) <= DayFromYear(b)
    decreases b - a
  {
    if a < b {
      YearLength(b - 1);
      YearsIncrease(a, b - 1);
    }
  }

  lemma {:induction false} YearIsUnique(day: int, a: int, b: int)
    requires DayFromYear(a) <= day < DayFromYear(a + 1)
    requires DayFromYear(b) <= day < DayFromYear(b + 1)
    ensures a == b
  {
    if a < b { YearsIncrease(a + 1, b); }
    if b < a { YearsIncrease(b + 1, a); }
  }

  /** Every day number is the day of a valid date. */
  lemma {:induction false} DateRoundTrip(day: int)
    ensures ValidDate(DateOf(day))
    ensures MakeDay(DateOf(day).year, DateOf(day).month, DateOf(day).day) == day
  {
    MakeDayInYear(DateOf(day).year, DateOf(day).month, DateOf(day).day);
  }

  /** The days of a month counted from 1, by the rules of the Gregorian calendar. */
  ghost function MonthLength(year: int, month: int): int {
    match month
    case 4 | 6 | 9 | 11 => 30
    case 2 => if year % 400 == 0 || (year % 4 == 0 && year % 100 != 0) then 29 else 28
    case _ => 31
  }

  /** A date is valid exactly when its month has such a day. */
  lemma {:induction false} ValidDateByLength(d: Date)
    ensures ValidDate(d) <==> 1 <= d.month <= 12 && 1 <= d.day <= MonthLength(d.year, d.month)
  {
    LeapDivides(d.year);
    if 1 <= d.month <= 12 { MonthHasLength(d.year, d.month); }
  }

  lemma {:induction false} MonthHasLength(year: int, month: int)
    requires 1 <= month <= 12
    ensures DaysBefore(month + 1, IsLeap(year)) - DaysBefore(month, IsLeap(year)) == MonthLength(year, month)
  {
    LeapDivides(year);
  }

  /** Months beyond the year are those of the years that follow or precede. */
  lemma {:induction false} MonthCarries(month: int, years: int, m: int)
    requires month == m + 12 * years && 1 <= m <= 12
    ensures (month - 1) / 12 == years && (month - 1) % 12 + 1 == m
  {}

  lemma {:induction false} MakeDayInMonth(year: int, month: int, day: int, years: int, m: int)
    requires month == m + 12 * years && 1 <= m <= 12
    ensures MakeDay(year, month, day) ==
            DayFromYear(year + years) + DaysBefore(m, IsLeap(year + years)) + day - 1
  {
    MonthCarries(month, years, m);
  }

  lemma {:induction false} NextMonth(year: int, month: int, years: int, m: int)
    requires month == m + 12 * years && 1 <= m < 12
    ensures MakeDay(year, month + 1, 1) == MakeDay(year, month, 1) + MonthLength(year + years, m)
  {
    MakeDayInMonth(year, month, 1, years, m);
    MakeDayInMonth(year, month + 1, 1, years, m + 1);
    MonthHasLength(year + years, m);
  }

  lemma {:induction false} NextJanuary(year: int, month: int, years: int)
    requires month == 12 + 12 * years
    ensures MakeDay(year, month + 1, 1) == MakeDay(year, month, 1) + 31
  {
    MakeDayInMonth(year, month, 1, years, 12);
    MakeDayInMonth(year, month + 1, 1, years + 1, 1);
    YearLength(year + years);
  }

  lemma {:induction false} FirstOfNext(year: int, month: int, years: int, m: int)
    requires month == m + 12 * years && 1 <= m <= 12
    ensures MakeDay(year, month + 1, 1) == MakeDay(year, month, 1) + MonthLength(year + years, m)
  {
    if m < 12 { NextMonth(year, month, years, m); } else { NextJanuary(year, month, years); }
  }

  lemma {:induction false} DaysRunOn(year: int, month: int, day: int)
    ensures MakeDay(1970, 1, 1) == 0
    ensures MakeDay(year, month, day) == MakeDay(year, month, 1) + day - 1
  {
    MakeDayInYear(1970, 1, 1);
  }

  /**
   The day numbers start at 1 January 1970; the first of the next month is the month's length later, for every
   year and month, where a month beyond the year is one of the years that follow or precede; and days run on.
   */
  lemma {:induction false} MonthsRunOn(year: int, month: int, day: int)
    ensures MakeDay(1970, 1, 1) == 0
    ensures MakeDay(year, month + 1, 1) ==
            MakeDay(year, month, 1) + MonthLength(year + (month - 1) / 12, (month - 1) % 12 + 1)
    ensures MakeDay(year, month, day) == MakeDay(year, month, 1) + day - 1
  {
    DaysRunOn(year, month, day);
    FirstOfNext(year, month, (month - 1) / 12, (month - 1) % 12 + 1);
  }

  /** A date is recovered from its day number exactly when it is a date of the calendar. */
  lemma {:induction false} DayRoundTrip(d: Date)
    ensures DateOf(MakeDay(d.year, d.month, d.day)) == d <==> ValidDate(d)
  {
    if ValidDate(d) { ValidDateIsRecovered(d); }
  }

  lemma {:induction false} ValidDateIsRecovered(d: Date)
    requires ValidDate(d)
    ensures DateOf(MakeDay(d.year, d.month, d.day)) == d
  {
    MakeDayInYear(d.year, d.month, d.day);
    var n := MakeDay(d.year, d.month, d.day);
    ValidDateInYear(d, n);
    YearIsUnique(n, d.year, DateOf(n).year);
    SameYearSameDate(d, DateOf(n), n - DayFromYear(d.year));
  }

  lemma {:induction false} ValidDateInYear(d: Date, n: int)
    requires ValidDate(d) && n == DayFromYear(d.year) + DaysBefore(d.month, IsLeap(d.year)) + d.day - 1
    ensures DayFromYear(d.year) <= n < DayFromYear(d.year + 1)
  {
    YearLength(d.year);
    DaysWithinYear(d.month, IsLeap(d.year));
  }

  lemma {:induction false} SameYearSameDate(a: Date, b: Date, offset: int)
    requires ValidDate(a) && ValidDate(b) && a.year == b.year
    requires offset == DaysBefore(a.month, IsLeap(a.year)) + a.day - 1
    requires offset == DaysBefore(b.month, IsLeap(b.year)) + b.day - 1
    ensures a == b
  {
    MonthIsUnique(offset, IsLeap(a.year), a.month, b.month);
  }

  lemma {:induction false} DaysWithinYear(month: int, leap: bool)
    requires 1 <= month <= 12
    ensures 0 <= DaysBefore(month, leap) < DaysBefore(month + 1, leap) <= if leap then 366 else 365
  {}

  /** Dates order as their day numbers do, year by year. */
  lemma {:induction false} YearOfDay(day: int, y: int)
    ensures DateOf(day).year >= y <==> day >= DayFromYear(y)
  {
    YearOrder(day, DateOf(day).year, y);
  }

  lemma {:induction false} YearOrder(day: int, r: int, y: int)
    requires DayFromYear(r) <= day < DayFromYear(r + 1)
    ensures r >= y <==> day >= DayFromYear(y)
  {
    if r >= y { YearsIncrease(y, r); } else { YearsIncrease(r + 1, y); }
  }
}
