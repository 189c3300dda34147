/** Parts of a recurrence rule that select other days than section 3.3.10 of RFC 5545 asks for. */
module RuleGaps {
  import opened Civil
  import opened EventMatcher
  import opened RuleMeaning
  import opened RuleDays

  function Abs(n: int): nat {
    if n < 0 then -n else n
  }

  /** The distance from one weekday on to another. */
  function Ahead(from: int, to: int): int {
    if to >= from then to - from else to - from + 7
  }

  lemma FallsOn(n: int, m: int, weekday: int)
    requires 0 <= weekday <= 6 && (m - n - Ahead(WeekdayOf(n), weekday)) % 7 == 0
    ensures WeekdayOf(m) == weekday
  {
  }

  // ---- n-th weekdays of a yearly rule ----

  /** A yearly rule with nothing but one n-th weekday. */
  predicate OneOrdinal(rule: Rrule) {
    && rule.freq == Yearly && rule.bymonth == [] && rule.bymonthday == [] && rule.byyearday == []
    && |rule.byweekday| == 1 && 0 <= rule.byweekday[0].day <= 6 && rule.byweekday[0].sn != 0
  }

  /** What the standard makes of it: the sn-th such weekday of the year, from the end for a negative sn. */
  predicate NthOfYear(d: Date, weekday: int, sn: int)
    requires ValidDate(d)
  {
    && WeekdayOf(DayNumber(d)) == weekday
    && (sn > 0 ==> (DayOfYear(d) - 1) / 7 + 1 == sn)
    && (sn < 0 ==> (DaysInYear(d.year) - DayOfYear(d)) / 7 + 1 == -sn)
  }

  /** How many days of a year fall on a weekday. */
  function WeekdaysIn(year: int, weekday: int): (n: nat)
    requires year >= 1
    ensures 52 <= n <= 53
  {
    if Ahead(WeekdayOf(DayNumber(Date(year, 1, 1))), weekday) < DaysInYear(year) - 364 then 53 else 52
  }

  lemma NumberOfDay(d: Date)
    requires ValidDate(d)
    ensures DayNumber(d) == DayNumber(Date(d.year, 1, 1)) + DayOfYear(d) - 1
    ensures 1 <= DayOfYear(d) <= DaysInYear(d.year)
  {
    hide BeforeYear;
    DayInYear(d);
  }

  lemma PickNumber(w: int, weekday: int, sn: int, days: int) returns (number: int)
    requires 0 <= w <= 6 && 0 <= weekday <= 6 && 365 <= days <= 366
    requires 1 <= Abs(sn) <= if Ahead(w, weekday) < days - 364 then 53 else 52
    ensures 1 <= number <= days && (number - 1 - Ahead(w, weekday)) % 7 == 0
    ensures sn > 0 ==> (number - 1) / 7 + 1 == sn
    ensures sn < 0 ==> (days - number) / 7 + 1 == -sn
  {
    if sn > 0 {
      number := 1 + Ahead(w, weekday) + 7 * (sn - 1);
    } else {
      var last := if days == 365 then w else if w == 6 then 0 else w + 1;
      number := days - Ahead(weekday, last) - 7 * (-sn - 1);
    }
  }

  lemma NthOfYearExists(year: int, weekday: int, sn: int) returns (d: Date)
    requires year >= 1 && 0 <= weekday <= 6 && 1 <= Abs(sn) <= WeekdaysIn(year, weekday)
    ensures ValidDate(d) && d.year == year && NthOfYear(d, weekday, sn)
  {
    hide DayNumber, DayOfYear, WeekdayOf, DaysInYear;
    var first := DayNumber(Date(year, 1, 1));
    var number := PickNumber(WeekdayOf(first), weekday, sn, DaysInYear(year));
    d := DayWithNumber(year, number);
    NumberOfDay(d);
    FallsOn(first, first + number - 1, weekday);
  }

  lemma WeekdayDistance(n: int, m: int)
    ensures (m - n - Ahead(WeekdayOf(n), WeekdayOf(m))) % 7 == 0
  {
  }

  lemma NumberBound(ahead: int, sn: int, days: int, number: int, weeks: int)
    requires 0 <= ahead <= 6 && 365 <= days <= 366 && 1 <= number <= days && number - 1 == ahead + 7 * weeks
    requires sn > 0 ==> (number - 1) / 7 + 1 == sn
    requires sn < 0 ==> (days - number) / 7 + 1 == -sn
    ensures Abs(sn) <= if ahead < days - 364 then 53 else 52
  {
  }

  lemma NthOfYearBound(d: Date, weekday: int, sn: int)
    requires ValidDate(d) && NthOfYear(d, weekday, sn) && sn != 0
    ensures Abs(sn) <= WeekdaysIn(d.year, weekday)
  {
    NumberOfDay(d);
    hide DayNumber, DayOfYear, DaysInYear, WeekdayOf;
    var first, number := DayNumber(Date(d.year, 1, 1)), DayOfYear(d);
    WeekdayDistance(first, DayNumber(d));
    var ahead := Ahead(WeekdayOf(first), weekday);
    NumberBound(ahead, sn, DaysInYear(d.year), number, (number - 1 - ahead) / 7);
  }

  /** From March to July no day is one of the first or last five of its weekday in the year. */
  lemma MiddleOfYear(d: Date, weekday: int, sn: int)
    requires ValidDate(d) && 3 <= d.month <= 7 && 1 <= Abs(sn) <= 5
    ensures !NthOfYear(d, weekday, sn)
  {
    var year := d.year;
    assert BeforeMonth(year, 2) == 31;
    assert BeforeMonth(year, 3) == 31 + LastDay(year, 2);
    if d.month > 3 { BeforeMonthGrows(year, 3, d.month); }
    assert BeforeMonth(year, 5) == BeforeMonth(year, 3) + 61;
    assert BeforeMonth(year, 7) == BeforeMonth(year, 5) + 61;
    if d.month < 7 { BeforeMonthGrows(year, d.month, 7); }
    hide BeforeMonth;
  }

  lemma LongMonths(year: int, mday: int)
    requires year >= 1 && 1 <= mday <= 31
    ensures DayNumber(Date(year, 3, mday)) == DayNumber(Date(year, 3, 1)) + mday - 1
    ensures DayNumber(Date(year, 5, mday)) == DayNumber(Date(year, 3, 1)) + 61 + mday - 1
    ensures DayNumber(Date(year, 7, mday)) == DayNumber(Date(year, 3, 1)) + 122 + mday - 1
  {
    hide BeforeYear;
    assert BeforeMonth(year, 5) == BeforeMonth(year, 3) + 61;
    assert BeforeMonth(year, 7) == BeforeMonth(year, 5) + 61;
    hide BeforeMonth;
  }

  /** Every weekday falls five times into March, May or July. */
  lemma FifthExists(year: int, weekday: int, sn: int) returns (d: Date)
    requires year >= 1 && 0 <= weekday <= 6 && Abs(sn) == 5
    ensures ValidDate(d) && d.year == year && 3 <= d.month <= 7 && NthWeekday(d, weekday, sn)
  {
    hide DayNumber, WeekdayOf;
    var w := WeekdayOf(DayNumber(Date(year, 3, 1)));
    var offset := Ahead(w, weekday);
    var month := if offset <= 2 then 3 else if offset <= 5 then 7 else 5;
    var first := if offset <= 2 then offset else if offset <= 5 then offset - 3 else 1;
    d := Date(year, month, if sn > 0 then first + 29 else first + 1);
    LongMonths(year, d.mday);
    FallsOn(DayNumber(Date(year, 3, 1)), DayNumber(d), weekday);
  }

  lemma SomeNthInMonths(year: int, weekday: int, sn: int) returns (d: Date)
    requires year >= 1 && 0 <= weekday <= 6 && 1 <= Abs(sn) <= 5
    ensures ValidDate(d) && d.year == year && 3 <= d.month <= 7 && NthWeekday(d, weekday, sn)
  {
    if Abs(sn) == 5 {
      d := FifthExists(year, weekday, sn);
    } else {
      d := NthWeekdayExists(year, 5, weekday, sn);
    }
  }

  lemma OrdinalMatches(d: Date, start: int, rule: Rrule)
    requires ValidDate(d) && start >= -EPOCH && OneOrdinal(rule)
    requires d.year > DateOf(start).year && (d.year - DateOf(start).year) % Interval(rule) == 0
    ensures Matches(DayNumber(d), start, rule) <==> NthWeekday(d, rule.byweekday[0].day, rule.byweekday[0].sn)
  {
    hide DayNumber, DateOf, NthWeekday;
    DateOfDayNumber(d);
    DayNumberMonotone(DateOf(start), d);
    EmptyFilters(d);
  }

  /** The rule selects, in a later year that it applies to, the days the standard asks for. */
  ghost predicate AsAsked(year: int, start: int, rule: Rrule)
    requires start >= -EPOCH && OneOrdinal(rule)
  {
    forall d {:trigger DayNumber(d)} :: ValidDate(d) && d.year == year ==>
      (Matches(DayNumber(d), start, rule) <==> NthOfYear(d, rule.byweekday[0].day, rule.byweekday[0].sn))
  }

  /** The ordinal of a yearly rule is taken within the month. So the rule selects what the standard asks for only where
      that is nothing: up to the fifth it selects days of several months, and from the sixth on none at all. */
  lemma YearlyOrdinalExactly(year: int, start: int, rule: Rrule)
    requires start >= -EPOCH && OneOrdinal(rule)
    requires year > DateOf(start).year && (year - DateOf(start).year) % Interval(rule) == 0
    ensures AsAsked(year, start, rule) <==> Abs(rule.byweekday[0].sn) > WeekdaysIn(year, rule.byweekday[0].day)
    ensures (exists d {:trigger DayNumber(d)} :: ValidDate(d) && d.year == year && Matches(DayNumber(d), start, rule))
            <==> Abs(rule.byweekday[0].sn) <= 5
  {
    hide DayNumber, DateOf, NthWeekday, NthOfYear, Matches, Interval, WeekdaysIn;
    var day, sn := rule.byweekday[0].day, rule.byweekday[0].sn;
    forall d {:trigger DayNumber(d)} | ValidDate(d) && d.year == year
      ensures Matches(DayNumber(d), start, rule) <==> NthWeekday(d, day, sn)
      ensures NthWeekday(d, day, sn) ==> Abs(sn) <= 5
      ensures NthOfYear(d, day, sn) ==> Abs(sn) <= WeekdaysIn(year, day)
    {
      OrdinalMatches(d, start, rule);
      if NthWeekday(d, day, sn) { NthInMonthBound(d, day, sn); }
      if NthOfYear(d, day, sn) { NthOfYearBound(d, day, sn); }
    }
    if Abs(sn) <= 5 {
      var d := SomeNthInMonths(year, day, sn);
      MiddleOfYear(d, day, sn);
      assert Matches(DayNumber(d), start, rule);
    } else if Abs(sn) <= WeekdaysIn(year, day) {
      var d := NthOfYearExists(year, day, sn);
      assert !Matches(DayNumber(d), start, rule);
    }
  }

  lemma NthInMonthBound(d: Date, weekday: int, sn: int)
    requires ValidDate(d) && NthWeekday(d, weekday, sn)
    ensures Abs(sn) <= 5
  {
    hide DayNumber;
  }

  // ---- days of the year of a yearly rule ----

  /** A yearly rule with nothing but one day of the year. */
  predicate YearDayOnly(rule: Rrule, k: int) {
    && rule.freq == Yearly && rule.byyearday == [k] && k != 0
    && rule.bymonth == [] && rule.bymonthday == [] && rule.byweekday == []
  }

  lemma YearDayMatches(d: Date, start: int, rule: Rrule, k: int)
    requires ValidDate(d) && start >= -EPOCH && YearDayOnly(rule, k)
    requires d.year > DateOf(start).year && (d.year - DateOf(start).year) % Interval(rule) == 0
    ensures Matches(DayNumber(d), start, rule) <==>
            && d.month == DateOf(start).month && d.mday == DateOf(start).mday
            && Named(DayNumber(d), NewYear(d.year), NewYear(d.year + 1), [k])
  {
    hide DayNumber, DateOf, InByYearDay, Named, NewYear;
    DateOfDayNumber(d);
    DayNumberMonotone(DateOf(start), d);
    EmptyFilters(d);
    YearDayMeaning(d, [k]);
  }

  lemma NamedInYear(d: Date, k: int)
    requires ValidDate(d) && k != 0
    ensures Named(DayNumber(d), NewYear(d.year), NewYear(d.year + 1), [k]) <==>
            DayOfYear(d) == if k > 0 then k else DaysInYear(d.year) + 1 + k
  {
    hide DayNumber, DayOfYear, NewYear, DaysInYear, Named;
    YearSpan(d);
    NamedOne(DayNumber(d), NewYear(d.year), NewYear(d.year + 1), k);
  }

  lemma SameNumberSameDate(a: Date, b: Date)
    requires ValidDate(a) && ValidDate(b) && a.year == b.year && DayOfYear(a) == DayOfYear(b)
    ensures a == b
  {
    hide DayNumber, DayOfYear, NewYear;
    YearSpan(a);
    YearSpan(b);
    DateOfDayNumber(a);
    DateOfDayNumber(b);
  }

  /** A yearly rule that names a day of the year still asks for the month and the day of the start. So in a year it
      applies to, it selects what the standard asks for exactly when the named day is the anniversary, or the year has
      none. */
  lemma YearDayExactly(year: int, start: int, rule: Rrule, k: int)
    requires start >= -EPOCH && YearDayOnly(rule, k)
    requires year > DateOf(start).year && (year - DateOf(start).year) % Interval(rule) == 0
    ensures var s := DateOf(start);
            (forall d {:trigger DayNumber(d)} :: ValidDate(d) && d.year == year ==>
              (Matches(DayNumber(d), start, rule) <==> Named(DayNumber(d), NewYear(year), NewYear(year + 1), [k])))
            <==>
            || Abs(k) > DaysInYear(year)
            || (s.mday <= LastDay(year, s.month)
                && DayOfYear(Date(year, s.month, s.mday)) == if k > 0 then k else DaysInYear(year) + 1 + k)
  {
    hide DayNumber, DateOf, Matches, Named, Interval, NewYear, DayOfYear, DaysInYear;
    var s := DateOf(start);
    var number := if k > 0 then k else DaysInYear(year) + 1 + k;
    forall d {:trigger DayNumber(d)} | ValidDate(d) && d.year == year
      ensures Named(DayNumber(d), NewYear(year), NewYear(year + 1), [k]) <==> DayOfYear(d) == number
      ensures Matches(DayNumber(d), start, rule) <==> d.month == s.month && d.mday == s.mday && DayOfYear(d) == number
      ensures 1 <= DayOfYear(d) <= DaysInYear(year)
    {
      NamedInYear(d, k);
      YearDayMatches(d, start, rule, k);
      YearSpan(d);
    }
    if 1 <= Abs(k) <= DaysInYear(year) {
      var d := DayWithNumber(year, number);
      assert DayOfYear(d) == number;
      assert Named(DayNumber(d), NewYear(year), NewYear(year + 1), [k]);
      forall a {:trigger DayNumber(a)} | ValidDate(a) && a.year == year && DayOfYear(a) == number
        ensures a == d
      {
        SameNumberSameDate(a, d);
      }
      if s.mday <= LastDay(year, s.month) {
        assert DayNumber(Date(year, s.month, s.mday)) >= -EPOCH;
      }
    }
  }

  // ---- positions in the set of a month ----

  /** How many of the days 1..day of the month of d are selected. */
  function Selected(d: Date, day: nat, start: int, rule: Rrule): (n: nat)
    requires ValidDate(d) && day <= LastDay(d.year, d.month) && start >= -EPOCH
    ensures n <= day
  {
    if day == 0 then 0
    else
      var current := DayNumber(Date(d.year, d.month, day));
      Selected(d, day - 1, start, rule) + if Matches(current, start, rule) then 1 else 0
  }

  /** What the standard adds for a monthly rule: the position of a selected day in its month, from either end, is
      named. */
  predicate AtPosition(d: Date, start: int, rule: Rrule)
    requires ValidDate(d) && start >= -EPOCH
  {
    var front, all := Selected(d, d.mday, start, rule), Selected(d, LastDay(d.year, d.month), start, rule);
    rule.bysetpos == [] || exists p :: p in rule.bysetpos && ((p > 0 && p == front) || (p < 0 && -p == all - front + 1))
  }

  lemma {:induction false} SelectedAlone(d: Date, day: nat, start: int, rule: Rrule)
    requires ValidDate(d) && day <= LastDay(d.year, d.month) && start >= -EPOCH
    requires Matches(DayNumber(d), start, rule)
    requires forall a {:trigger DayNumber(a)} :: InMonth(a, d.year, d.month) && Matches(DayNumber(a), start, rule) ==>
             a == d
    ensures Selected(d, day, start, rule) == if day >= d.mday then 1 else 0
  {
    hide Matches, DayNumber;
    if day > 0 {
      SelectedAlone(d, day - 1, start, rule);
      var a := Date(d.year, d.month, day);
      assert InMonth(a, d.year, d.month);
      assert day == d.mday ==> a == d;
    }
  }

  lemma OneNthAlone(d: Date, start: int, rule: Rrule)
    requires ValidDate(d) && start >= -EPOCH && OneNthWeekday(rule) && Matches(DayNumber(d), start, rule)
    ensures Selected(d, d.mday, start, rule) == Selected(d, LastDay(d.year, d.month), start, rule) == 1
  {
    hide Matches, DayNumber, NthWeekday, Selected;
    var day, sn := rule.byweekday[0].day, rule.byweekday[0].sn;
    OneNthMatches(d, start, rule);
    forall a {:trigger DayNumber(a)} | InMonth(a, d.year, d.month) && Matches(DayNumber(a), start, rule)
      ensures a == d
    {
      OneNthMatches(a, start, rule);
      NthWeekdayUnique(a, d, day, sn);
    }
    SelectedAlone(d, d.mday, start, rule);
    SelectedAlone(d, LastDay(d.year, d.month), start, rule);
  }

  /** The positions of a rule are never looked at. A monthly rule with one n-th weekday, n from 1 to 4 from either end,
      selects only what the standard asks for if and only if it names no position, or the first or the last. */
  lemma SetPositionsExactly(start: int, rule: Rrule)
    requires start >= -EPOCH && OneNthWeekday(rule)
    ensures (forall d {:trigger DayNumber(d)} :: ValidDate(d) && Matches(DayNumber(d), start, rule) ==>
            AtPosition(d, start, rule))
            <==> rule.bysetpos == [] || 1 in rule.bysetpos || -1 in rule.bysetpos
  {
    hide Matches, DayNumber, DateOf, Selected, OneNthWeekday;
    forall d {:trigger DayNumber(d)} | ValidDate(d) && Matches(DayNumber(d), start, rule)
      ensures AtPosition(d, start, rule) <==> rule.bysetpos == [] || 1 in rule.bysetpos || -1 in rule.bysetpos
    {
      OneNthAlone(d, start, rule);
    }
    var next := MonthIndex(DateOf(start)) + Interval(rule) - 1;
    var d := MonthlyNthExactly(next / 12, next % 12 + 1, start, rule);
    AddModulus(0, Interval(rule));
    assert ValidDate(d) && Matches(DayNumber(d), start, rule);
  }
}
