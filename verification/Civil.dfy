/** Civil dates of the Gregorian calendar and day numbers counted from 1970-01-01. */
module Civil {

  function IsLeap(year: int): bool {
    (year % 4 == 0 && year % 100 != 0) || year % 400 == 0
  }

  /** The last day of a month. */
  function LastDay(year: int, month: int): (n: int)
    requires 1 <= month <= 12
    ensures 28 <= n <= 31
  {
    if month != 2 then [31, 28, 31, 30, 31, 30, 31, 31, 30, 31, 30, 31][month - 1]
    else if IsLeap(year) then 29 else 28
  }

  function DaysInYear(year: int): (n: int)
    ensures 365 <= n <= 366
  {
    if IsLeap(year) then 366 else 365
  }

  datatype Date = Date(year: int, month: int, mday: int)

  predicate ValidDate(d: Date) {
    d.year >= 1 && 1 <= d.month <= 12 && 1 <= d.mday <= LastDay(d.year, d.month)
  }

  /** Days before the first of January of a year, counted from year 1. */
  function BeforeYear(year: int): (n: int)
    requires year >= 1
    ensures n >= 0
  {
    if year == 1 then 0 else BeforeYear(year - 1) + DaysInYear(year - 1)
  }

  /** Days of the year before the first of a month; month 13 stands for the whole year. */
  function BeforeMonth(year: int, month: int): (n: int)
    requires 1 <= month <= 13
    ensures n >= 0
  {
    if month == 1 then 0 else BeforeMonth(year, month - 1) + LastDay(year, month - 1)
  }

  /** 1970-01-01, counted from 0001-01-01. */
  const EPOCH: int := 719162

  function DayNumber(d: Date): (n: int)
    requires ValidDate(d)
    ensures n >= -EPOCH
  {
    BeforeYear(d.year) + BeforeMonth(d.year, d.month) + d.mday - 1 - EPOCH
  }

  lemma {:induction false} BeforeYearClosed(year: int)
    requires year >= 1
    ensures BeforeYear(year) == 365 * (year - 1) + (year - 1) / 4 - (year - 1) / 100 + (year - 1) / 400
  {
    hide DaysInYear;
    if year > 1 {
      BeforeYearClosed(year - 1);
      NextQuotients(year - 2);
      LeapDays(year - 1);
    }
  }

  lemma NextQuotients(x: int)
    requires x >= 0
    ensures (x + 1) / 4 == x / 4 + if (x + 1) % 4 == 0 then 1 else 0
    ensures (x + 1) / 100 == x / 100 + if (x + 1) % 100 == 0 then 1 else 0
    ensures (x + 1) / 400 == x / 400 + if (x + 1) % 400 == 0 then 1 else 0
  {
  }

  lemma LeapDays(year: int)
    ensures DaysInYear(year) == 365 + (if year % 4 == 0 then 1 else 0) - (if year % 100 == 0 then 1 else 0) +
            (if year % 400 == 0 then 1 else 0)
  {
  }

  lemma EpochIsDayZero()
    ensures DayNumber(Date(1970, 1, 1)) == 0
  {
    BeforeYearClosed(1970);
  }

  lemma MonthsFillYear(year: int)
    ensures BeforeMonth(year, 13) == DaysInYear(year)
  {
    assert BeforeMonth(year, 2) == 31;
    assert BeforeMonth(year, 3) == 31 + LastDay(year, 2);
    assert BeforeMonth(year, 5) == BeforeMonth(year, 3) + 61;
    assert BeforeMonth(year, 7) == BeforeMonth(year, 5) + 61;
    assert BeforeMonth(year, 9) == BeforeMonth(year, 7) + 62;
    assert BeforeMonth(year, 11) == BeforeMonth(year, 9) + 61;
    assert BeforeMonth(year, 13) == BeforeMonth(year, 11) + 61;
  }

  /** The lengths of the months in a closed form: from March on 153 days in every five months. */
  lemma MonthLengths(year: int, month: int)
    requires 1 <= month <= 13
    ensures BeforeMonth(year, month) ==
            if month <= 2 then 31 * (month - 1) else DaysInYear(year) - 306 + (153 * (month - 3) + 2) / 5
  {
    MonthsFillYear(year);
    assert BeforeMonth(year, 2) == 31;
    assert BeforeMonth(year, 4) == BeforeMonth(year, 3) + 31;
    assert BeforeMonth(year, 6) == BeforeMonth(year, 4) + 61;
    assert BeforeMonth(year, 8) == BeforeMonth(year, 6) + 61;
    assert BeforeMonth(year, 10) == BeforeMonth(year, 8) + 61;
    assert BeforeMonth(year, 12) == BeforeMonth(year, 10) + 61;
    assert BeforeMonth(year, 13) == BeforeMonth(year, 12) + 31;
    assert BeforeMonth(year, 5) == BeforeMonth(year, 4) + 30;
    assert BeforeMonth(year, 7) == BeforeMonth(year, 6) + 30;
    assert BeforeMonth(year, 9) == BeforeMonth(year, 8) + 31;
    assert BeforeMonth(year, 11) == BeforeMonth(year, 10) + 31;
  }

  // ---- the way back ----

  function MonthOf(year: int, month: int, rest: int): (d: Date)
    requires 1 <= month <= 12 && 0 <= rest < BeforeMonth(year, 13) - BeforeMonth(year, month) && year >= 1
    ensures ValidDate(d) && d.year == year
    ensures BeforeMonth(year, d.month) + d.mday - 1 == BeforeMonth(year, month) + rest
    decreases 12 - month
  {
    if rest < LastDay(year, month) then Date(year, month, rest + 1)
    else
      assert month < 12;
      MonthOf(year, month + 1, rest - LastDay(year, month))
  }

  function YearOf(year: int, rest: int): (d: Date)
    requires year >= 1 && rest >= 0
    ensures ValidDate(d)
    ensures BeforeYear(d.year) + BeforeMonth(d.year, d.month) + d.mday - 1 == BeforeYear(year) + rest
    decreases rest
  {
    MonthsFillYear(year);
    if rest < DaysInYear(year) then MonthOf(year, 1, rest) else YearOf(year + 1, rest - DaysInYear(year))
  }

  /** The date of a day, from year 1 on. */
  function DateOf(n: int): (d: Date)
    requires n >= -EPOCH
    ensures ValidDate(d) && DayNumber(d) == n
  {
    YearOf(1, n + EPOCH)
  }

  lemma {:induction false} BeforeMonthGrows(year: int, a: int, b: int)
    requires 1 <= a < b <= 13
    ensures BeforeMonth(year, a) + LastDay(year, a) <= BeforeMonth(year, b)
  {
    if a < b - 1 { BeforeMonthGrows(year, a, b - 1); }
  }

  lemma {:induction false} BeforeYearGrows(a: int, b: int)
    requires 1 <= a < b
    ensures BeforeYear(a) + DaysInYear(a) <= BeforeYear(b)
  {
    if a < b - 1 { BeforeYearGrows(a, b - 1); }
  }

  lemma DayInYear(d: Date)
    requires ValidDate(d)
    ensures BeforeMonth(d.year, d.month) + d.mday <= DaysInYear(d.year)
  {
    MonthsFillYear(d.year);
    if d.month < 12 {
      BeforeMonthGrows(d.year, d.month, 13);
    }
  }

  /** Later dates have larger day numbers. */
  lemma DayNumberMonotone(a: Date, b: Date)
    requires ValidDate(a) && ValidDate(b)
    requires a.year < b.year || (a.year == b.year && (a.month < b.month || (a.month == b.month && a.mday < b.mday)))
    ensures DayNumber(a) < DayNumber(b)
  {
    DayInYear(a);
    if a.year < b.year {
      BeforeYearGrows(a.year, b.year);
    } else if a.month < b.month {
      BeforeMonthGrows(a.year, a.month, b.month);
    }
  }

  /** Dates and day numbers correspond one to one. */
  lemma DateOfDayNumber(d: Date)
    requires ValidDate(d)
    ensures DateOf(DayNumber(d)) == d
  {
    var e := DateOf(DayNumber(d));
    if e != d {
      if e.year < d.year || (e.year == d.year && (e.month < d.month || (e.month == d.month && e.mday < d.mday))) {
        DayNumberMonotone(e, d);
      } else {
        DayNumberMonotone(d, e);
      }
    }
  }

  // ---- weekday and day of the year ----

  /** 0 is Sunday; 1970-01-01 was a Thursday. */
  function WeekdayOf(n: int): (w: int)
    ensures 0 <= w <= 6
  {
    (n + 4) % 7
  }

  /** The weekdays follow each other, and 1970-01-01 was a Thursday. */
  lemma WeekdaysFollow(n: int)
    ensures WeekdayOf(0) == 4 && WeekdayOf(n + 1) == (WeekdayOf(n) + 1) % 7
  {
  }

  /** 1 is the first of January. */
  function DayOfYear(d: Date): int
    requires ValidDate(d)
  {
    BeforeMonth(d.year, d.month) + d.mday
  }

  // ---- seconds ----

  const DAY: int := 86400

  function DayOfSecond(t: int): int {
    t / DAY
  }

  function SecondOfDay(t: int): (s: int)
    ensures 0 <= s < DAY
  {
    t % DAY
  }

  /** yyyymmdd as one number, and its digits back. */
  function Digits(d: Date): int {
    d.year * 10000 + d.month * 100 + d.mday
  }

  lemma DigitsBack(d: Date)
    requires ValidDate(d)
    ensures Digits(d) > 0 && Date(Digits(d) / 10000, Digits(d) / 100 % 100, Digits(d) % 100) == d
  {
  }
}
