/** What recurrence rules select: a second description of each kind of rule, beside the filters. */
module RuleMeaning {
  import opened Civil
  import opened EventMatcher

  // ---- weekdays of a month ----

  /** A month has at most one n-th weekday from either end. */
  lemma NthWeekdayUnique(a: Date, b: Date, weekday: int, sn: int)
    requires ValidDate(a) && ValidDate(b) && a.year == b.year && a.month == b.month && sn != 0
    requires NthWeekday(a, weekday, sn) && NthWeekday(b, weekday, sn)
    ensures a == b
  {
    WeekdayInMonth(a, b.mday);
    assert (b.mday - a.mday) % 7 == 0;
    assert -7 < b.mday - a.mday < 7;
  }

  /** For n from 1 to 4 a month always has an n-th and an n-th last weekday. */
  lemma NthWeekdayExists(year: int, month: int, weekday: int, sn: int) returns (d: Date)
    requires year >= 1 && 1 <= month <= 12 && 0 <= weekday <= 6 && (1 <= sn <= 4 || -4 <= sn <= -1)
    ensures ValidDate(d) && d.year == year && d.month == month && NthWeekday(d, weekday, sn)
  {
    var last := LastDay(year, month);
    var anchor := Date(year, month, if sn > 0 then 1 else last);
    var w := WeekdayOf(DayNumber(anchor));
    var mday := PickDay(w, weekday, sn, last);
    d := Date(year, month, mday);
    assert DayNumber(d) == DayNumber(anchor) + (mday - anchor.mday) by {
      hide BeforeYear, BeforeMonth;
    }
    hide DayNumber, WeekdayOf;
    WeekdayShift(DayNumber(anchor), mday - anchor.mday, weekday);
  }

  lemma PickDay(w: int, weekday: int, sn: int, last: int) returns (mday: int)
    requires 0 <= w <= 6 && 0 <= weekday <= 6 && 28 <= last <= 31 && (1 <= sn <= 4 || -4 <= sn <= -1)
    ensures 1 <= mday <= last
    ensures sn > 0 ==> (mday - 1) / 7 + 1 == sn && (mday - 1 - (weekday - w)) % 7 == 0
    ensures sn < 0 ==> (last - mday) / 7 + 1 == -sn && (mday - last - (weekday - w)) % 7 == 0
  {
    if sn > 0 {
      var first := if weekday >= w then weekday - w else weekday - w + 7;
      mday := 1 + first + 7 * (sn - 1);
    } else {
      var back := if w >= weekday then w - weekday else w - weekday + 7;
      mday := last - back - 7 * (-sn - 1);
    }
  }

  lemma WeekdayShift(n: int, k: int, weekday: int)
    requires 0 <= weekday <= 6 && (k - (weekday - WeekdayOf(n))) % 7 == 0
    ensures WeekdayOf(n + k) == weekday
  {
  }

  predicate NoFilters(rule: Rrule) {
    rule.byweekday == [] && rule.bymonthday == [] && rule.bymonth == [] && rule.byyearday == []
  }

  ghost predicate IsStep(n: int, start: int, interval: int, k: int) {
    k >= 0 && n == start + k * interval
  }

  /** A daily rule without filters selects exactly every interval-th day from the start. */
  lemma DailyExactly(n: int, start: int, rule: Rrule)
    requires n >= -EPOCH && start >= -EPOCH && rule.freq == Daily && NoFilters(rule)
    ensures Matches(n, start, rule) <==> exists k :: IsStep(n, start, Interval(rule), k)
  {
    hide DateOf, InByYearDay, InByMonthDay, WeekdayOf, IsStep, Interval;
    EmptyFilters(DateOf(n));
    if n >= start && (n - start) % Interval(rule) == 0 {
      StepExists(n, start, Interval(rule));
    }
    if k :| IsStep(n, start, Interval(rule), k) {
      StepDivides(n, start, Interval(rule), k);
    }
  }

  lemma StepExists(n: int, start: int, interval: int)
    requires n >= start && interval > 0 && (n - start) % interval == 0
    ensures IsStep(n, start, interval, (n - start) / interval)
  {
    assert n - start == (n - start) / interval * interval;
  }

  lemma StepDivides(n: int, start: int, interval: int, k: int)
    requires interval > 0 && IsStep(n, start, interval, k)
    ensures n >= start && (n - start) % interval == 0
  {
    MultipleOf(n - start, k, interval);
  }

  lemma EmptyFilters(d: Date)
    requires ValidDate(d)
    ensures InByYearDay(d, []) && InByMonthDay(d, [])
  {
  }

  lemma {:induction false} MulGrows(d: nat, m: nat)
    requires d >= 1
    ensures d * m >= m
  {
    if d > 1 { MulGrows(d - 1, m); }
  }

  lemma RemainderUnique(m: int, p: int, r: int, q: int, t: int)
    requires 0 <= r < m && 0 <= t < m && p * m + r == q * m + t
    ensures r == t
  {
    assert (p - q) * m == t - r && (q - p) * m == r - t;
    if p > q {
      MulGrows(p - q, m);
    } else if q > p {
      MulGrows(q - p, m);
    }
  }

  lemma MultipleOf(x: int, k: int, m: int)
    requires k >= 0 && m > 0 && x == k * m
    ensures x >= 0 && x % m == 0
  {
    RemainderUnique(m, x / m, x % m, k, 0);
    if k > 0 { MulGrows(k, m); }
  }

  /** Weeks from Monday to Monday. */
  lemma WholeWeeks(n: int, start: int)
    requires n >= start
    ensures var weeks := (MondayOf(n) - MondayOf(start)) / 7; weeks >= 0 && MondayOf(n) == MondayOf(start) + 7 * weeks
  {
  }

  lemma WeekSteps(n: int, start: int, interval: int)
    requires n >= start && interval > 0
    ensures (MondayOf(n) - MondayOf(start)) / 7 % interval == 0 <==>
            exists k :: IsStep(MondayOf(n), MondayOf(start), 7 * interval, k)
  {
    WholeWeeks(n, start);
    hide MondayOf;
    var weeks := (MondayOf(n) - MondayOf(start)) / 7;
    if weeks % interval == 0 {
      var k := weeks / interval;
      assert weeks == k * interval && k * (7 * interval) == 7 * (k * interval);
      assert IsStep(MondayOf(n), MondayOf(start), 7 * interval, k);
    }
    if k :| IsStep(MondayOf(n), MondayOf(start), 7 * interval, k) {
      assert k * (7 * interval) == 7 * (k * interval);
      MultipleOf(weeks, k, interval);
    }
  }

  lemma WeekdayIn(weekday: int, items: seq<ByWeekday>)
    ensures InByWeekday(weekday, items) <==> items == [] || exists w :: w in items && w.day == weekday
  {
    if w :| w in items && w.day == weekday {
      var i :| 0 <= i < |items| && items[i] == w;
    }
  }

  /** A weekly rule without month or year filters selects exactly its weekdays in every interval-th week, from Monday to
      Sunday, beginning with the week of the start. */
  lemma WeeklyExactly(n: int, start: int, rule: Rrule)
    requires n >= -EPOCH && start >= -EPOCH && rule.freq == Weekly && rule.bymonth == [] && rule.byyearday == []
    ensures Matches(n, start, rule) <==>
            && n >= start
            && (rule.byweekday == [] || exists w :: w in rule.byweekday && w.day == WeekdayOf(n))
            && exists k :: IsStep(MondayOf(n), MondayOf(start), 7 * Interval(rule), k)
  {
    hide DateOf, InByYearDay, InByMonthDay, WeekdayOf, IsStep, Interval, MondayOf, InByWeekday;
    EmptyFilters(DateOf(n));
    WeekdayIn(WeekdayOf(n), rule.byweekday);
    if n >= start {
      WeekSteps(n, start, Interval(rule));
    }
  }

  /** Such a rule repeats after interval weeks. */
  lemma WeeklyRepeats(n: int, start: int, rule: Rrule)
    requires start >= -EPOCH && n >= start && rule.freq == Weekly && rule.bymonth == [] && rule.byyearday == []
    ensures Matches(n, start, rule) <==> Matches(n + 7 * Interval(rule), start, rule)
  {
    hide DateOf, InByYearDay, WeekdayOf, MondayOf, InByWeekday;
    var iv := Interval(rule);
    EmptyFilters(DateOf(n));
    EmptyFilters(DateOf(n + 7 * iv));
    WeeksLater(n, start, iv);
    AddModulus((MondayOf(n) - MondayOf(start)) / 7, iv);
  }

  lemma WeeksLater(n: int, start: int, weeks: int)
    ensures WeekdayOf(n + 7 * weeks) == WeekdayOf(n)
    ensures (MondayOf(n + 7 * weeks) - MondayOf(start)) / 7 == (MondayOf(n) - MondayOf(start)) / 7 + weeks
  {
  }

  lemma AddModulus(x: int, m: int)
    requires m > 0
    ensures (x + m) % m == x % m
  {
    assert (x / m + 1) * m + x % m == x + m;
    RemainderUnique(m, (x + m) / m, (x + m) % m, x / m + 1, x % m);
  }

  /** Widening the range never loses an occurrence. */
  lemma WiderRange(m: Matcher, a: int, b: int, c: int, d: int)
    requires m.dtstart >= FIRST && a <= b <= c <= d && m.OccursIn(b, c)
    ensures m.OccursIn(a, d)
  {
    hide Matches;
    var n :| m.IsHit(n, b, c);
    assert m.IsHit(n, a, d);
  }

  // ---- monthly rules with one weekday ----

  predicate InMonth(d: Date, year: int, month: int) {
    ValidDate(d) && d.year == year && d.month == month
  }

  /** A monthly rule with nothing but one n-th weekday, n from 1 to 4 or from -4 to -1. */
  predicate OneNthWeekday(rule: Rrule) {
    && rule.freq == Monthly && rule.bymonth == [] && rule.bymonthday == [] && rule.byyearday == []
    && |rule.byweekday| == 1 && 0 <= rule.byweekday[0].day <= 6
    && (1 <= rule.byweekday[0].sn <= 4 || -4 <= rule.byweekday[0].sn <= -1)
  }

  lemma OneNthMatches(d: Date, start: int, rule: Rrule)
    requires ValidDate(d) && start >= -EPOCH && OneNthWeekday(rule)
    ensures Matches(DayNumber(d), start, rule) <==>
            && DayNumber(d) >= start && (MonthIndex(d) - MonthIndex(DateOf(start))) % Interval(rule) == 0
            && NthWeekday(d, rule.byweekday[0].day, rule.byweekday[0].sn)
  {
    hide DayNumber, DateOf, NthWeekday;
    DateOfDayNumber(d);
    EmptyFilters(d);
    assert InNthWeekdays(d, rule.byweekday) <==> NthWeekday(d, rule.byweekday[0].day, rule.byweekday[0].sn);
  }

  /** Such a rule selects exactly one day in every interval-th month after that of the start, at most one in the month
      of
      the start, and none in any other. */
  lemma MonthlyNthExactly(year: int, month: int, start: int, rule: Rrule) returns (d: Date)
    requires year >= 1 && 1 <= month <= 12 && start >= -EPOCH && OneNthWeekday(rule)
    ensures var months := MonthIndex(Date(year, month, 1)) - MonthIndex(DateOf(start));
            && (months > 0 && months % Interval(rule) == 0 ==>
                InMonth(d, year, month) && Matches(DayNumber(d), start, rule))
            && (months < 0 || months % Interval(rule) != 0 ==>
                forall a {:trigger DayNumber(a)} :: InMonth(a, year, month) ==> !Matches(DayNumber(a), start, rule))
    ensures forall a {:trigger DayNumber(a)} :: InMonth(a, year, month) && Matches(DayNumber(a), start, rule) ==> a == d
  {
    hide DayNumber, DateOf, NthWeekday, Matches;
    var day, sn := rule.byweekday[0].day, rule.byweekday[0].sn;
    d := NthWeekdayExists(year, month, day, sn);
    OneNthMatches(d, start, rule);
    var s := DateOf(start);
    if MonthIndex(d) > MonthIndex(s) {
      DayNumberMonotone(s, d);
    }
    forall a {:trigger DayNumber(a)} | InMonth(a, year, month) && Matches(DayNumber(a), start, rule)
      ensures a == d && MonthIndex(d) >= MonthIndex(s)
      ensures (MonthIndex(d) - MonthIndex(s)) % Interval(rule) == 0
    {
      OneNthMatches(a, start, rule);
      NthWeekdayUnique(a, d, day, sn);
      if MonthIndex(d) < MonthIndex(s) {
        DayNumberMonotone(a, s);
      }
    }
  }

  // ---- rules that take their day from the start ----

  lemma DayOfStartMatches(d: Date, start: int, rule: Rrule)
    requires ValidDate(d) && start >= -EPOCH && NoFilters(rule) && (rule.freq == Monthly || rule.freq == Yearly)
    ensures var s := DateOf(start);
            Matches(DayNumber(d), start, rule) <==>
            && DayNumber(d) >= start && d.mday == s.mday
            && if rule.freq == Monthly then (MonthIndex(d) - MonthIndex(s)) % Interval(rule) == 0
               else d.month == s.month && (d.year - s.year) % Interval(rule) == 0
  {
    hide DayNumber, DateOf;
    DateOfDayNumber(d);
    EmptyFilters(d);
  }

  /** A monthly rule without filters selects, in a later month, exactly the day of the start, in every interval-th month
      that is long enough. */
  lemma MonthlyFromStart(d: Date, start: int, rule: Rrule)
    requires ValidDate(d) && start >= -EPOCH && NoFilters(rule) && rule.freq == Monthly
    requires MonthIndex(d) > MonthIndex(DateOf(start))
    ensures var s := DateOf(start);
            (exists a {:trigger DayNumber(a)} :: InMonth(a, d.year, d.month) && Matches(DayNumber(a), start, rule))
            <==> (MonthIndex(d) - MonthIndex(s)) % Interval(rule) == 0 && s.mday <= LastDay(d.year, d.month)
    ensures Matches(DayNumber(d), start, rule) ==> d.mday == DateOf(start).mday
  {
    hide DayNumber, DateOf, Matches, Interval;
    var s := DateOf(start);
    DayOfStartMatches(d, start, rule);
    if a {:trigger DayNumber(a)} :| InMonth(a, d.year, d.month) && Matches(DayNumber(a), start, rule) {
      DayOfStartMatches(a, start, rule);
    }
    if s.mday <= LastDay(d.year, d.month) {
      var a := Date(d.year, d.month, s.mday);
      DayOfStartMatches(a, start, rule);
      DayNumberMonotone(s, a);
      assert InMonth(a, d.year, d.month);
    }
  }

  /** A yearly rule without filters selects, in a later year, exactly the anniversary of the start, in every interval-th
      year that has one: a series from 29 February on skips the years without that day. */
  lemma YearlyFromStart(d: Date, start: int, rule: Rrule)
    requires ValidDate(d) && start >= -EPOCH && NoFilters(rule) && rule.freq == Yearly && d.year > DateOf(start).year
    ensures var s := DateOf(start);
            (exists a {:trigger DayNumber(a)} :: ValidDate(a) && a.year == d.year && Matches(DayNumber(a), start, rule))
            <==> (d.year - s.year) % Interval(rule) == 0 && (s.month == 2 && s.mday == 29 ==> IsLeap(d.year))
    ensures Matches(DayNumber(d), start, rule) ==> d.month == DateOf(start).month && d.mday == DateOf(start).mday
  {
    hide DayNumber, DateOf, Matches, Interval;
    var s := DateOf(start);
    DayOfStartMatches(d, start, rule);
    if a {:trigger DayNumber(a)} :| ValidDate(a) && a.year == d.year && Matches(DayNumber(a), start, rule) {
      DayOfStartMatches(a, start, rule);
    }
    if s.mday <= LastDay(d.year, s.month) {
      var a := Date(d.year, s.month, s.mday);
      DayOfStartMatches(a, start, rule);
      DayNumberMonotone(s, a);
      assert ValidDate(a) && a.year == d.year;
    }
  }

  // ---- yearly rules with months only ----

  /** A yearly rule that names months and nothing else. */
  predicate MonthsOnly(rule: Rrule) {
    && rule.freq == Yearly && rule.bymonth != []
    && rule.bymonthday == [] && rule.byweekday == [] && rule.byyearday == []
  }

  /** What section 3.3.10 of RFC 5545 makes of it: the day of the month is that of the start. */
  predicate DayOfStart(n: int, start: int, rule: Rrule)
    requires n >= -EPOCH && start >= -EPOCH
  {
    var d, s := DateOf(n), DateOf(start);
    n >= start && (d.year - s.year) % Interval(rule) == 0 && d.month in rule.bymonth && d.mday == s.mday
  }

  /** It selects every day of these months in every interval-th year. */
  lemma YearlyByMonthSelectsWholeMonths(n: int, start: int, rule: Rrule)
    requires n >= start >= -EPOCH && MonthsOnly(rule)
    ensures Matches(n, start, rule) <==>
            (DateOf(n).year - DateOf(start).year) % Interval(rule) == 0 && DateOf(n).month in rule.bymonth
    ensures Matches(n, start, rule) && !DayOfStart(n, start, rule) <==>
            && (DateOf(n).year - DateOf(start).year) % Interval(rule) == 0 && DateOf(n).month in rule.bymonth
            && DateOf(n).mday != DateOf(start).mday
  {
    hide DateOf;
    EmptyFilters(DateOf(n));
  }

  /** The rule selects just the days the standard asks for if and only if none of its months is a month at all. */
  lemma YearlyByMonthExactly(start: int, rule: Rrule)
    requires start >= -EPOCH && MonthsOnly(rule)
    ensures (forall n {:trigger Matches(n, start, rule)} :: n >= start ==>
            (Matches(n, start, rule) <==> DayOfStart(n, start, rule)))
            <==> forall month :: month in rule.bymonth ==> !(1 <= month <= 12)
  {
    hide DateOf, Matches, Interval;
    if month :| month in rule.bymonth && 1 <= month <= 12 {
      var n := OtherDay(start, rule, month);
      assert Matches(n, start, rule) && !DayOfStart(n, start, rule);
    } else {
      forall n | n >= start
        ensures !Matches(n, start, rule)
      {
        YearlyByMonthSelectsWholeMonths(n, start, rule);
      }
    }
  }

  /** In a month of the rule, interval years after the start, a day that is selected without being asked for. */
  lemma OtherDay(start: int, rule: Rrule, month: int) returns (n: int)
    requires start >= -EPOCH && MonthsOnly(rule) && month in rule.bymonth && 1 <= month <= 12
    ensures n >= start && Matches(n, start, rule) && !DayOfStart(n, start, rule)
  {
    hide DateOf, DayNumber, Matches;
    var s := DateOf(start);
    var d := Date(s.year + Interval(rule), month, if s.mday == 1 then 2 else 1);
    n := DayNumber(d);
    DateOfDayNumber(d);
    DayNumberMonotone(s, d);
    AddModulus(0, Interval(rule));
    YearlyByMonthSelectsWholeMonths(n, start, rule);
  }
}
