/** The filters of recurrence rules in day numbers: days of the month and of the year, counted from either end, and
    weekdays. */
module RuleDays {
  import opened Civil
  import opened EventMatcher
  import opened RuleMeaning

  /** An interval below one is one. */
  lemma SmallIntervals(n: int, start: int, rule: Rrule)
    requires n >= -EPOCH && start >= -EPOCH && rule.interval < 1
    ensures Matches(n, start, rule) <==> Matches(n, start, rule.(interval := 1))
  {
    hide DateOf, InByYearDay, InByMonthDay, NthWeekday, MondayOf;
  }

  // ---- days of the month ----

  /** The first day of a month. */
  function FirstOf(year: int, month: int): int
    requires year >= 1 && 1 <= month <= 12
  {
    DayNumber(Date(year, month, 1))
  }

  /** The first day of the month after it. */
  function NextFirst(year: int, month: int): int
    requires year >= 1 && 1 <= month <= 12
  {
    if month == 12 then FirstOf(year + 1, 1) else FirstOf(year, month + 1)
  }

  lemma MonthSpan(year: int, month: int, mday: int)
    requires year >= 1 && 1 <= month <= 12 && 1 <= mday <= LastDay(year, month)
    ensures DayNumber(Date(year, month, mday)) == FirstOf(year, month) + mday - 1
    ensures NextFirst(year, month) == FirstOf(year, month) + LastDay(year, month)
  {
    MonthsFillYear(year);
    if month < 12 {
      assert BeforeMonth(year, month + 1) == BeforeMonth(year, month) + LastDay(year, month);
    } else {
      assert BeforeMonth(year, 13) == BeforeMonth(year, 12) + LastDay(year, 12);
    }
    hide BeforeMonth;
  }

  /** The months follow each other without a gap, and so do their numbers. */
  lemma MonthsFollow(year: int, month: int, a: int, b: int)
    requires 1 <= month <= 12
    ensures MonthIndex(if month == 12 then Date(year + 1, 1, b) else Date(year, month + 1, b)) ==
            MonthIndex(Date(year, month, a)) + 1
  {
  }

  /** Day n is one of the named days of a span of days: the k-th from the beginning for k, the k-th from the end
      for -k. */
  ghost predicate Named(n: int, first: int, next: int, items: seq<int>) {
    exists item :: item in items && (n == first + item - 1 || (item < 0 && n - item == next))
  }

  lemma MonthDayMeaning(d: Date, items: seq<int>)
    requires ValidDate(d)
    ensures InByMonthDay(d, items) <==>
            items == [] || Named(DayNumber(d), FirstOf(d.year, d.month), NextFirst(d.year, d.month), items)
  {
    MonthSpan(d.year, d.month, d.mday);
    hide FirstOf, NextFirst, DayNumber, LastDay;
    var n, first, next := DayNumber(d), FirstOf(d.year, d.month), NextFirst(d.year, d.month);
    forall i | 0 <= i < |items| && (n == first + items[i] - 1 || (items[i] < 0 && n - items[i] == next))
      ensures Named(n, first, next, items)
    {
      assert items[i] in items;
    }
    if item :| item in items && (n == first + item - 1 || (item < 0 && n - item == next)) {
      var i :| 0 <= i < |items| && items[i] == item;
    }
  }

  /** A monthly rule with days of the month and nothing else selects just these days in every interval-th month. */
  lemma MonthlyByMonthDayExactly(d: Date, start: int, rule: Rrule)
    requires ValidDate(d) && start >= -EPOCH && rule.freq == Monthly
    requires rule.bymonthday != [] && rule.bymonth == [] && rule.byweekday == [] && rule.byyearday == []
    ensures Matches(DayNumber(d), start, rule) <==>
            && DayNumber(d) >= start && (MonthIndex(d) - MonthIndex(DateOf(start))) % Interval(rule) == 0
            && Named(DayNumber(d), FirstOf(d.year, d.month), NextFirst(d.year, d.month), rule.bymonthday)
  {
    hide DayNumber, DateOf, InByMonthDay, Named, Interval;
    DateOfDayNumber(d);
    EmptyFilters(d);
    MonthDayMeaning(d, rule.bymonthday);
  }

  /** With one day, counted from either end: exactly one day in every interval-th month after that of the start. */
  lemma OneMonthDay(year: int, month: int, start: int, rule: Rrule, k: int)
    requires year >= 1 && 1 <= month <= 12 && start >= -EPOCH && rule.freq == Monthly
    requires rule.bymonthday == [k] && rule.bymonth == [] && rule.byweekday == [] && rule.byyearday == []
    requires (1 <= k <= 28 || -28 <= k <= -1) && MonthIndex(Date(year, month, 1)) > MonthIndex(DateOf(start))
    requires (MonthIndex(Date(year, month, 1)) - MonthIndex(DateOf(start))) % Interval(rule) == 0
    ensures forall n {:trigger DateOf(n)} :: n >= -EPOCH ==>
              (InMonth(DateOf(n), year, month) && Matches(n, start, rule)
               <==> n == if k > 0 then FirstOf(year, month) + k - 1 else NextFirst(year, month) + k)
  {
    hide DayNumber, DateOf, Matches, FirstOf, NextFirst, Interval;
    var mday := if k > 0 then k else LastDay(year, month) + 1 + k;
    var d := Date(year, month, mday);
    MonthSpan(year, month, mday);
    DateOfDayNumber(d);
    DayNumberMonotone(DateOf(start), d);
    forall n {:trigger DateOf(n)} | n >= -EPOCH
      ensures InMonth(DateOf(n), year, month) ==> (Matches(n, start, rule) <==> n == DayNumber(d))
    {
      var a := DateOf(n);
      if InMonth(a, year, month) {
        MonthlyByMonthDayExactly(a, start, rule);
        MonthSpan(year, month, a.mday);
        if n >= start { NamedOne(n, FirstOf(year, month), NextFirst(year, month), k); }
      }
    }
    assert InMonth(d, year, month);
  }

  lemma NamedOne(n: int, first: int, next: int, k: int)
    ensures Named(n, first, next, [k]) <==> n == first + k - 1 || (k < 0 && n - k == next)
  {
    assert k in [k];
  }

  // ---- days of the year ----

  /** The first of January. */
  function NewYear(year: int): int
    requires year >= 1
  {
    FirstOf(year, 1)
  }

  lemma YearSpan(d: Date)
    requires ValidDate(d)
    ensures DayNumber(d) == NewYear(d.year) + DayOfYear(d) - 1
    ensures NewYear(d.year + 1) == NewYear(d.year) + DaysInYear(d.year)
    ensures 1 <= DayOfYear(d) <= DaysInYear(d.year)
  {
    DayInYear(d);
    assert BeforeYear(d.year + 1) == BeforeYear(d.year) + DaysInYear(d.year);
    assert BeforeMonth(d.year, 1) == BeforeMonth(d.year + 1, 1) == 0;
    hide BeforeMonth, BeforeYear, DaysInYear;
  }

  /** The day of a year with a given number. */
  lemma DayWithNumber(year: int, number: int) returns (d: Date)
    requires year >= 1 && 1 <= number <= DaysInYear(year)
    ensures ValidDate(d) && d.year == year && DayOfYear(d) == number
  {
    MonthsFillYear(year);
    d := MonthOf(year, 1, number - 1);
  }

  lemma YearDayMeaning(d: Date, items: seq<int>)
    requires ValidDate(d)
    ensures InByYearDay(d, items) <==>
            items == [] || Named(DayNumber(d), NewYear(d.year), NewYear(d.year + 1), items)
  {
    YearSpan(d);
    hide NewYear, DayNumber, DayOfYear, DaysInYear;
    var n, first, next := DayNumber(d), NewYear(d.year), NewYear(d.year + 1);
    forall i | 0 <= i < |items| && (n == first + items[i] - 1 || (items[i] < 0 && n - items[i] == next))
      ensures Named(n, first, next, items)
    {
      assert items[i] in items;
    }
    if item :| item in items && (n == first + item - 1 || (item < 0 && n - item == next)) {
      var i :| 0 <= i < |items| && items[i] == item;
    }
  }

  // ---- weekdays ----

  ghost predicate OnWeekday(n: int, items: seq<ByWeekday>) {
    exists w :: w in items && w.day == WeekdayOf(n)
  }

  /** Weeks begin on Monday. */
  lemma MondayMeaning(n: int)
    ensures WeekdayOf(MondayOf(n)) == 1 && MondayOf(n) <= n < MondayOf(n) + 7
  {
  }

  /** The n-th such weekday of a month: n - 1 weeks earlier is in its first seven days, or later in its last seven. */
  lemma NthWeekdayMeaning(d: Date, weekday: int, sn: int)
    requires ValidDate(d) && sn != 0
    ensures var n := DayNumber(d);
            NthWeekday(d, weekday, sn) <==>
            && WeekdayOf(n) == weekday
            && (sn > 0 ==> FirstOf(d.year, d.month) <= n - 7 * (sn - 1) < FirstOf(d.year, d.month) + 7)
            && (sn < 0 ==> NextFirst(d.year, d.month) - 7 <= n + 7 * (-sn - 1) < NextFirst(d.year, d.month))
  {
    MonthSpan(d.year, d.month, d.mday);
    hide DayNumber, FirstOf, NextFirst, WeekdayOf, LastDay;
  }

  /** Without an ordinal a weekday of a monthly rule stands for every such day of the month. */
  lemma MonthlyWeekdaysExactly(d: Date, start: int, rule: Rrule)
    requires ValidDate(d) && start >= -EPOCH && rule.freq == Monthly && rule.byweekday != []
    requires rule.bymonth == [] && rule.bymonthday == [] && rule.byyearday == []
    requires forall w :: w in rule.byweekday ==> w.sn == 0
    ensures Matches(DayNumber(d), start, rule) <==>
            && DayNumber(d) >= start && (MonthIndex(d) - MonthIndex(DateOf(start))) % Interval(rule) == 0
            && OnWeekday(DayNumber(d), rule.byweekday)
  {
    hide DayNumber, DateOf, Interval, WeekdayOf;
    DateOfDayNumber(d);
    EmptyFilters(d);
    var n, items := DayNumber(d), rule.byweekday;
    if i :| 0 <= i < |items| && NthWeekday(d, items[i].day, items[i].sn) {
      assert items[i] in items;
    }
    if w :| w in items && w.day == WeekdayOf(n) {
      var i :| 0 <= i < |items| && items[i] == w;
      assert NthWeekday(d, items[i].day, items[i].sn);
    }
  }

  /** A daily rule, whatever its filters: every interval-th day that is in a named month, on a named weekday, a
      named day of its month and a named day of its year, as far as any are named. */
  lemma DailyFiltered(d: Date, start: int, rule: Rrule)
    requires ValidDate(d) && start >= -EPOCH && rule.freq == Daily
    ensures var n := DayNumber(d);
            Matches(n, start, rule) <==>
            && n >= start && (n - start) % Interval(rule) == 0
            && (rule.bymonth == [] || d.month in rule.bymonth)
            && (rule.byweekday == [] || OnWeekday(n, rule.byweekday))
            && (rule.bymonthday == []
                || Named(n, FirstOf(d.year, d.month), NextFirst(d.year, d.month), rule.bymonthday))
            && (rule.byyearday == [] || Named(n, NewYear(d.year), NewYear(d.year + 1), rule.byyearday))
  {
    DateOfDayNumber(d);
    hide DayNumber, DateOf, InByMonthDay, InByYearDay, InByWeekday, Named, Interval, WeekdayOf;
    hide FirstOf, NextFirst, NewYear;
    MonthDayMeaning(d, rule.bymonthday);
    YearDayMeaning(d, rule.byyearday);
    WeekdayIn(WeekdayOf(DayNumber(d)), rule.byweekday);
  }

  /** A daily rule with one day of the year, counted from either end: exactly one day in every later year. */
  lemma OneYearDay(year: int, start: int, rule: Rrule, k: int)
    requires start >= -EPOCH && year > DateOf(start).year && rule.freq == Daily && Interval(rule) == 1
    requires rule.byyearday == [k] && rule.bymonth == [] && rule.byweekday == [] && rule.bymonthday == []
    requires 1 <= k <= 365 || -365 <= k <= -1
    ensures forall n {:trigger DateOf(n)} :: n >= -EPOCH ==>
              (DateOf(n).year == year && Matches(n, start, rule)
               <==> n == if k > 0 then NewYear(year) + k - 1 else NewYear(year + 1) + k)
  {
    hide DayNumber, DateOf, Matches, Interval, NewYear, DayOfYear, DaysInYear, BeforeMonth, BeforeYear;
    var number := if k > 0 then k else DaysInYear(year) + 1 + k;
    var d := DayWithNumber(year, number);
    YearSpan(d);
    DateOfDayNumber(d);
    forall n {:trigger DateOf(n)} | n >= -EPOCH
      ensures DateOf(n).year == year ==> (Matches(n, start, rule) <==> n == DayNumber(d))
    {
      var a := DateOf(n);
      if a.year == year {
        DayNumberMonotone(DateOf(start), a);
        DailyFiltered(a, start, rule);
        YearSpan(a);
        NamedOne(n, NewYear(year), NewYear(year + 1), k);
      }
    }
  }
}
