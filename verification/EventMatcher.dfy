/** Whether a recurring event, in UTC, has an occurrence in a range of seconds. */
module EventMatcher {
  import opened Civil

  datatype Freq = NoFreq | Daily | Weekly | Monthly | Yearly

  datatype ByWeekday = ByWeekday(day: int, sn: int)

  datatype Rrule = Rrule(freq: Freq, interval: int, count: int, until: int, bysetpos: seq<int>, byweekno: seq<int>,
                         byweekday: seq<ByWeekday>, bymonthday: seq<int>, bymonth: seq<int>, byyearday: seq<int>)

  // ---- the filters ----

  predicate InByMonthDay(d: Date, items: seq<int>)
    requires ValidDate(d)
  {
    || items == []
    || exists i ::
         && 0 <= i < |items|
         && (items[i] == d.mday || (items[i] < 0 && d.mday == LastDay(d.year, d.month) + 1 + items[i]))
  }

  predicate InByMonth(d: Date, items: seq<int>) {
    items == [] || d.month in items
  }

  predicate InByWeekday(weekday: int, items: seq<ByWeekday>) {
    items == [] || exists i :: 0 <= i < |items| && items[i].day == weekday
  }

  predicate InByYearDay(d: Date, items: seq<int>)
    requires ValidDate(d)
  {
    || items == []
    || exists i ::
         && 0 <= i < |items|
         && (items[i] == DayOfYear(d) || (items[i] < 0 && DayOfYear(d) == DaysInYear(d.year) + 1 + items[i]))
  }

  /** The sn-th such weekday of its month, from the end for a negative sn, any for 0. */
  predicate NthWeekday(d: Date, weekday: int, sn: int)
    requires ValidDate(d)
  {
    && WeekdayOf(DayNumber(d)) == weekday
    && (sn > 0 ==> (d.mday - 1) / 7 + 1 == sn)
    && (sn < 0 ==> (LastDay(d.year, d.month) - d.mday) / 7 + 1 == -sn)
  }

  predicate InNthWeekdays(d: Date, items: seq<ByWeekday>)
    requires ValidDate(d)
  {
    items == [] || exists i :: 0 <= i < |items| && NthWeekday(d, items[i].day, items[i].sn)
  }

  function Interval(rule: Rrule): (n: int)
    ensures n >= 1
  {
    if rule.interval > 0 then rule.interval else 1
  }

  /** The Monday of the week of a day. */
  function MondayOf(n: int): int {
    n - (WeekdayOf(n) + 6) % 7
  }

  function MonthIndex(d: Date): int {
    d.year * 12 + d.month
  }

  predicate MatchesDaily(d: Date, n: int, start: int, rule: Rrule)
    requires ValidDate(d)
  {
    && (n - start) % Interval(rule) == 0
    && InByWeekday(WeekdayOf(n), rule.byweekday)
    && InByMonthDay(d, rule.bymonthday)
  }

  predicate MatchesWeekly(n: int, start: int, rule: Rrule) {
    && (MondayOf(n) - MondayOf(start)) / 7 % Interval(rule) == 0
    && InByWeekday(WeekdayOf(n), rule.byweekday)
  }

  predicate MatchesMonthly(d: Date, s: Date, rule: Rrule)
    requires ValidDate(d)
  {
    && (MonthIndex(d) - MonthIndex(s)) % Interval(rule) == 0
    && InByMonthDay(d, rule.bymonthday)
    && InNthWeekdays(d, rule.byweekday)
    && (rule.bymonthday == [] && rule.byweekday == [] ==> d.mday == s.mday)
  }

  predicate MatchesYearly(d: Date, s: Date, rule: Rrule)
    requires ValidDate(d)
  {
    && (d.year - s.year) % Interval(rule) == 0
    && InByMonthDay(d, rule.bymonthday)
    && InNthWeekdays(d, rule.byweekday)
    && (rule.bymonth == [] && rule.bymonthday == [] && rule.byweekday == [] ==> d.month == s.month && d.mday == s.mday)
  }

  /** The days a rule selects, as a property of day numbers. */
  predicate Matches(n: int, start: int, rule: Rrule)
    requires n >= -EPOCH && start >= -EPOCH
  {
    var d, s := DateOf(n), DateOf(start);
    && n >= start
    && InByMonth(d, rule.bymonth)
    && InByYearDay(d, rule.byyearday)
    && match rule.freq
       case NoFreq => false
       case Daily => MatchesDaily(d, n, start, rule)
       case Weekly => MatchesWeekly(n, start, rule)
       case Monthly => MatchesMonthly(d, s, rule)
       case Yearly => MatchesYearly(d, s, rule)
  }

  // ---- the counting loops ----

  /** How many of the days 1..day of a month fall on the weekday of mday. */
  function SameWeekdays(day: int, mday: int): int
    requires day >= 0 && mday >= 1
  {
    (day + 6 - (mday - 1) % 7) / 7
  }

  lemma WeekdayInMonth(d: Date, day: int)
    requires ValidDate(d) && 1 <= day <= LastDay(d.year, d.month)
    ensures WeekdayOf(DayNumber(Date(d.year, d.month, day))) == WeekdayOf(DayNumber(d)) <==> (day - d.mday) % 7 == 0
  {
    hide BeforeYear, BeforeMonth, WeekdayOf;
    assert DayNumber(Date(d.year, d.month, day)) == DayNumber(d) + (day - d.mday);
    SameWeekday(DayNumber(d), day - d.mday);
  }

  lemma WeekdayRange(n: int)
    ensures 0 <= WeekdayOf(n) <= 6
  {
  }

  lemma SameWeekday(n: int, k: int)
    ensures WeekdayOf(n + k) == WeekdayOf(n) <==> k % 7 == 0
  {
  }

  lemma SameWeekdaysStep(day: int, mday: int)
    requires day >= 1 && mday >= 1
    ensures SameWeekdays(day, mday) == SameWeekdays(day - 1, mday) + if (day - mday) % 7 == 0 then 1 else 0
  {
  }

  lemma SameWeekdaysClosed(mday: int, lastDay: int)
    requires 1 <= mday <= lastDay
    ensures SameWeekdays(0, mday) == 0 && SameWeekdays(mday, mday) == (mday - 1) / 7 + 1
    ensures SameWeekdays(lastDay, mday) - SameWeekdays(mday - 1, mday) == (lastDay - mday) / 7 + 1
  {
  }

  /** Counts weekdays from the first, or from the last day of the month, as the source does. */
  method IsNthWeekdayOfMonth(d: Date, weekday: int, sn: int) returns (r: bool)
    requires ValidDate(d)
    ensures r <==> NthWeekday(d, weekday, sn)
  {
    WeekdayRange(DayNumber(d));
    hide SameWeekdays, WeekdayOf, DayNumber;
    if weekday < 0 || weekday > 6 {
      return false;
    }
    if sn == 0 {
      return WeekdayOf(DayNumber(d)) == weekday;
    }
    if WeekdayOf(DayNumber(d)) != weekday {
      return false;
    }
    var lastDay := LastDay(d.year, d.month);
    var count := 0;
    SameWeekdaysClosed(d.mday, lastDay);
    if sn > 0 {
      var day := 1;
      while day <= d.mday
        invariant 1 <= day <= d.mday + 1 && count == SameWeekdays(day - 1, d.mday)
      {
        WeekdayInMonth(d, day);
        SameWeekdaysStep(day, d.mday);
        if WeekdayOf(DayNumber(Date(d.year, d.month, day))) == weekday {
          count := count + 1;
        }
        day := day + 1;
      }
      return count == sn;
    }
    var day := lastDay;
    while day >= d.mday
      invariant d.mday - 1 <= day <= lastDay && count == SameWeekdays(lastDay, d.mday) - SameWeekdays(day, d.mday)
    {
      WeekdayInMonth(d, day);
      SameWeekdaysStep(day, d.mday);
      if WeekdayOf(DayNumber(Date(d.year, d.month, day))) == weekday {
        count := count + 1;
      }
      day := day - 1;
    }
    return count == -sn;
  }

  // ---- one day ----

  method MatchesAnyNth(d: Date, items: seq<ByWeekday>) returns (any: bool)
    requires ValidDate(d) && items != []
    ensures any <==> InNthWeekdays(d, items)
  {
    any := false;
    for i := 0 to |items|
      invariant !any && forall j :: 0 <= j < i ==> !NthWeekday(d, items[j].day, items[j].sn)
    {
      any := IsNthWeekdayOfMonth(d, items[i].day, items[i].sn);
      if any {
        break;
      }
    }
  }

  method CheckDaily(d: Date, current: int, start: int, rule: Rrule) returns (r: bool)
    requires ValidDate(d)
    ensures r <==> MatchesDaily(d, current, start, rule) && InByMonth(d, rule.bymonth) && InByYearDay(d, rule.byyearday)
  {
    var interval := if rule.interval > 0 then rule.interval else 1;
    if (current - start) % interval != 0 {
      return false;
    }
    if !InByWeekday(WeekdayOf(current), rule.byweekday) {
      return false;
    }
    if !InByMonth(d, rule.bymonth) {
      return false;
    }
    if !InByMonthDay(d, rule.bymonthday) {
      return false;
    }
    r := InByYearDay(d, rule.byyearday);
  }

  method CheckWeekly(d: Date, current: int, start: int, rule: Rrule) returns (r: bool)
    requires ValidDate(d) && current >= start
    ensures r <==> MatchesWeekly(current, start, rule) && InByMonth(d, rule.bymonth) && InByYearDay(d, rule.byyearday)
  {
    hide WeekdayOf;
    var interval := if rule.interval > 0 then rule.interval else 1;
    var weekday := WeekdayOf(current);
    var startWeekBegin := start - (WeekdayOf(start) + 6) % 7;
    var currentWeekBegin := current - (weekday + 6) % 7;
    var weekIndex := (currentWeekBegin - startWeekBegin) / 7;
    MondayMonotone(start, current);
    if weekIndex < 0 || weekIndex % interval != 0 {
      return false;
    }
    if !InByWeekday(weekday, rule.byweekday) {
      return false;
    }
    if !InByMonth(d, rule.bymonth) {
      return false;
    }
    r := InByYearDay(d, rule.byyearday);
  }

  method CheckMonthly(d: Date, start: Date, rule: Rrule) returns (r: bool)
    requires ValidDate(d) && MonthIndex(d) >= MonthIndex(start)
    ensures r <==> MatchesMonthly(d, start, rule) && InByMonth(d, rule.bymonth) && InByYearDay(d, rule.byyearday)
  {
    hide NthWeekday;
    var interval := if rule.interval > 0 then rule.interval else 1;
    var months := (d.year - start.year) * 12 + (d.month - start.month);
    if months < 0 || months % interval != 0 {
      return false;
    }
    if !InByMonth(d, rule.bymonth) {
      return false;
    }
    if rule.bymonthday != [] {
      if !InByMonthDay(d, rule.bymonthday) {
        return false;
      }
    } else if rule.byweekday == [] {
      if d.mday != start.mday {
        return false;
      }
    }
    if rule.byweekday != [] {
      var any := MatchesAnyNth(d, rule.byweekday);
      if !any {
        return false;
      }
    }
    r := InByYearDay(d, rule.byyearday);
  }

  method CheckYearly(d: Date, start: Date, rule: Rrule) returns (r: bool)
    requires ValidDate(d) && d.year >= start.year
    ensures r <==> MatchesYearly(d, start, rule) && InByMonth(d, rule.bymonth) && InByYearDay(d, rule.byyearday)
  {
    hide NthWeekday;
    var interval := if rule.interval > 0 then rule.interval else 1;
    var years := d.year - start.year;
    if years < 0 || years % interval != 0 {
      return false;
    }
    if !InByMonth(d, rule.bymonth) {
      return false;
    }
    if rule.bymonthday != [] {
      if !InByMonthDay(d, rule.bymonthday) {
        return false;
      }
    }
    if rule.byweekday != [] {
      var any := MatchesAnyNth(d, rule.byweekday);
      if !any {
        return false;
      }
    }
    if rule.bymonth == [] && rule.bymonthday == [] && rule.byweekday == [] {
      if d.month != start.month || d.mday != start.mday {
        return false;
      }
    }
    r := InByYearDay(d, rule.byyearday);
  }

  /** The source's test of one date against the rule. */
  method IsRruleMatchDate(d: Date, start: Date, startOrdinal: int, rule: Rrule) returns (r: bool)
    requires ValidDate(d) && ValidDate(start) && startOrdinal == DayNumber(start)
    ensures DayNumber(d) >= -EPOCH && startOrdinal >= -EPOCH
    ensures r <==> Matches(DayNumber(d), startOrdinal, rule)
  {
    hide MatchesDaily, MatchesWeekly, MatchesMonthly, MatchesYearly, InByMonth, InByYearDay, DateOf, DayNumber;
    DateOfDayNumber(d);
    DateOfDayNumber(start);
    var current := DayNumber(d);
    if current < startOrdinal {
      return false;
    }
    MonthsMonotone(start, d);
    match rule.freq {
      case Daily => r := CheckDaily(d, current, startOrdinal, rule);
      case Weekly => r := CheckWeekly(d, current, startOrdinal, rule);
      case Monthly => r := CheckMonthly(d, start, rule);
      case Yearly => r := CheckYearly(d, start, rule);
      case NoFreq => r := false;
    }
  }

  lemma MondayMonotone(a: int, b: int)
    requires a <= b
    ensures MondayOf(a) <= MondayOf(b) && (MondayOf(b) - MondayOf(a)) / 7 >= 0
  {
  }

  lemma MonthsMonotone(a: Date, b: Date)
    requires ValidDate(a) && ValidDate(b) && DayNumber(a) <= DayNumber(b)
    ensures MonthIndex(a) <= MonthIndex(b) && a.year <= b.year
  {
    if b.year < a.year || (b.year == a.year && b.month < a.month) {
      DayNumberMonotone(b, a);
    }
  }

  // ---- ranks ----

  /** How many days from start to n the rule selects. */
  function CountMatches(start: int, n: int, rule: Rrule): (c: nat)
    requires start >= -EPOCH
    decreases n - start
  {
    if n < start then 0 else CountMatches(start, n - 1, rule) + if Matches(n, start, rule) then 1 else 0
  }

  lemma {:induction false} CountMonotone(start: int, m: int, n: int, rule: Rrule)
    requires start >= -EPOCH && m <= n
    ensures CountMatches(start, m, rule) <= CountMatches(start, n, rule)
    ensures m < n && n >= start && Matches(n, start, rule) ==>
            CountMatches(start, m, rule) < CountMatches(start, n, rule)
    decreases n - m
  {
    if m < n { CountMonotone(start, m, n - 1, rule); }
  }

  /** Counts the occurrences up to a date. */
  method CountRruleOccurrences(start: Date, startOrdinal: int, target: Date, rule: Rrule) returns (count: int)
    requires ValidDate(start) && ValidDate(target) && startOrdinal == DayNumber(start)
    ensures count == CountMatches(startOrdinal, DayNumber(target), rule)
  {
    hide Matches, DayNumber, DateOf;
    DateOfDayNumber(start);
    var targetOrdinal := DayNumber(target);
    count := 0;
    var ord := startOrdinal;
    while ord <= targetOrdinal
      invariant startOrdinal <= ord && (ord <= targetOrdinal + 1 || ord == startOrdinal)
      invariant count == CountMatches(startOrdinal, ord - 1, rule)
      decreases targetOrdinal - ord
    {
      var d := DateOf(ord);
      var matches := IsRruleMatchDate(d, start, startOrdinal, rule);
      if matches {
        count := count + 1;
      }
      ord := ord + 1;
    }
    if targetOrdinal < startOrdinal {
      CountBeforeStart(startOrdinal, targetOrdinal, rule);
    }
  }

  lemma CountBeforeStart(start: int, n: int, rule: Rrule)
    requires start >= -EPOCH && n < start
    ensures CountMatches(start, n, rule) == 0
  {
  }

  // ---- the search ----

  /** The first second of year 1. */
  const FIRST: int := -EPOCH * DAY

  /** The search stops ten years of 365 days after the start. */
  const HORIZON: int := 3650

  predicate Overlaps(start: int, end: int, unixStart: int, unixEnd: int) {
    start < unixEnd && unixStart < end
  }

  class Matcher {
    var dtstart: int
    var dtend: int
    var rule: Rrule

    constructor (dtstart: int, dtend: int, rule: Rrule)
      ensures this.dtstart == dtstart && this.dtend == dtend && this.rule == rule
    {
      this.dtstart, this.dtend, this.rule := dtstart, dtend, rule;
    }

    function Duration(): int
      reads this
    {
      if dtend != -1 then dtend - dtstart else 1
    }

    /** The occurrence on day n, at the time of day of the event's start. */
    function OccurrenceStart(n: int): int
      reads this
    {
      n * DAY + SecondOfDay(dtstart)
    }

    /** Day n is one of the first count occurrences within the horizon. */
    ghost predicate IsOccurrence(n: int)
      requires dtstart >= FIRST
      reads this
    {
      var s := DayOfSecond(dtstart);
      && s <= n <= s + HORIZON && Matches(n, s, rule)
      && (rule.count == -1 || CountMatches(s, n, rule) <= rule.count)
    }

    ghost predicate IsHit(n: int, unixStart: int, unixEnd: int)
      requires dtstart >= FIRST
      reads this
    {
      IsOccurrence(n) && Overlaps(OccurrenceStart(n), OccurrenceStart(n) + Duration(), unixStart, unixEnd)
    }

    ghost predicate OccursIn(unixStart: int, unixEnd: int)
      requires dtstart >= FIRST
      reads this
    {
      exists n :: IsHit(n, unixStart, unixEnd)
    }

    /** The days of a range the end date lets through: it is compared with a day written yyyymmdd. */
    ghost predicate Accepts(unixEnd: int)
      reads this
    {
      unixEnd >= FIRST && Digits(DateOf(DayOfSecond(unixEnd))) <= rule.until
    }

    /** A single event overlaps the range; a recurring one has an occurrence that does, in a range that is let through.
        */
    ghost predicate Says(unixStart: int, unixEnd: int)
      requires dtstart >= FIRST && (unixStart <= unixEnd ==> unixEnd >= FIRST)
      reads this
    {
      && dtstart != -1 && unixStart <= unixEnd
      && if rule.freq == NoFreq then Overlaps(dtstart, dtstart + Duration(), unixStart, unixEnd)
         else (rule.until <= 0 || Accepts(unixEnd)) && OccursIn(unixStart, unixEnd)
    }

    /** Whether the event has an occurrence in the range. */
    method MatchSecondScope(unixStart: int, unixEnd: int) returns (r: bool)
      requires dtstart >= FIRST && (unixStart <= unixEnd ==> unixEnd >= FIRST)
      ensures r <==> Says(unixStart, unixEnd)
    {
      if dtstart == -1 || unixStart > unixEnd {
        return false;
      }
      if rule.freq == NoFreq {
        var effectiveEnd := if dtend != -1 then dtend else dtstart + 1;
        return !(effectiveEnd <= unixStart || dtstart >= unixEnd);
      }
      if rule.until > 0 {
        var endDay := Digits(DateOf(DayOfSecond(unixEnd)));
        if endDay > rule.until {
          return false;
        }
      }
      r := Search(unixStart, unixEnd);
    }

    /** The day-by-day search. */
    method Search(unixStart: int, unixEnd: int) returns (r: bool)
      requires dtstart >= FIRST && unixEnd >= FIRST
      ensures r <==> OccursIn(unixStart, unixEnd)
    {
      hide Matches, Digits, IsHit, DayNumber, DateOf;
      var startDay := Digits(DateOf(DayOfSecond(dtstart)));
      DigitsBack(DateOf(DayOfSecond(dtstart)));
      if startDay < 0 {
        return false;
      }
      var start := Date(startDay / 10000, startDay / 100 % 100, startDay % 100);
      var s := DayNumber(start);
      var searchEndDay := Digits(DateOf(DayOfSecond(unixEnd)));
      DigitsBack(DateOf(DayOfSecond(unixEnd)));
      var searchEnd := DayNumber(Date(searchEndDay / 10000, searchEndDay / 100 % 100, searchEndDay % 100));
      var current := s;
      var occurrences := 0;
      NotBeforeStart(unixStart, unixEnd);
      CountBeforeStart(s, s - 1, rule);
      while current <= searchEnd
        invariant s <= current <= s + HORIZON
        invariant occurrences == CountMatches(s, current - 1, rule)
        invariant rule.count == -1 || current == s || occurrences < rule.count
        invariant forall n :: n < current ==> !IsHit(n, unixStart, unixEnd)
        decreases searchEnd - current
      {
        var d := DateOf(current);
        var matches := IsRruleMatchDate(d, start, s, rule);
        if matches {
          occurrences := occurrences + 1;
          var occurrenceStart := current * DAY + SecondOfDay(dtstart);
          var occurrenceDuration := if dtend != -1 then dtend - dtstart else 1;
          var occurrenceEnd := occurrenceStart + occurrenceDuration;
          HitIs(current, occurrenceStart, occurrenceEnd, occurrences, unixStart, unixEnd);
          if !(occurrenceEnd <= unixStart || occurrenceStart >= unixEnd) {
            if rule.count != -1 && occurrences > rule.count {
              NoMoreOccurrences(current, unixStart, unixEnd);
              return false;
            }
            return true;
          }
        } else {
          NoHit(current, unixStart, unixEnd);
        }
        current := current + 1;
        if current - s > HORIZON {
          PastTheHorizon(current, unixStart, unixEnd);
          return false;
        }
        if rule.count != -1 && occurrences >= rule.count {
          NoMoreOccurrences(current - 1, unixStart, unixEnd);
          return false;
        }
      }
      PastTheEnd(searchEnd, unixStart, unixEnd);
      r := false;
    }

    lemma NotBeforeStart(unixStart: int, unixEnd: int)
      requires dtstart >= FIRST
      ensures forall n :: n < DayOfSecond(dtstart) ==> !IsHit(n, unixStart, unixEnd)
    {
    }

    lemma HitIs(n: int, start: int, end: int, rank: nat, unixStart: int, unixEnd: int)
      requires dtstart >= FIRST
      requires DayOfSecond(dtstart) <= n <= DayOfSecond(dtstart) + HORIZON && Matches(n, DayOfSecond(dtstart), rule)
      requires start == OccurrenceStart(n) && end == start + Duration() &&
               rank == CountMatches(DayOfSecond(dtstart), n, rule)
      ensures IsHit(n, unixStart, unixEnd) <==>
              (rule.count == -1 || rank <= rule.count) && !(end <= unixStart || start >= unixEnd)
    {
    }

    lemma NoHit(n: int, unixStart: int, unixEnd: int)
      requires dtstart >= FIRST && n >= DayOfSecond(dtstart) && !Matches(n, DayOfSecond(dtstart), rule)
      ensures !IsHit(n, unixStart, unixEnd)
    {
    }

    lemma PastTheHorizon(n: int, unixStart: int, unixEnd: int)
      requires dtstart >= FIRST && n > DayOfSecond(dtstart) + HORIZON
      ensures forall m :: m >= n ==> !IsHit(m, unixStart, unixEnd)
    {
    }

    /** Once count days were selected, no later day is an occurrence. */
    lemma NoMoreOccurrences(n: int, unixStart: int, unixEnd: int)
      requires dtstart >= FIRST && n >= DayOfSecond(dtstart) && rule.count != -1
      requires CountMatches(DayOfSecond(dtstart), n, rule) >= rule.count
      ensures forall m :: m > n ==> !IsHit(m, unixStart, unixEnd)
    {
      hide Matches;
      forall m | m > n ensures !IsHit(m, unixStart, unixEnd) {
        CountMonotone(DayOfSecond(dtstart), n, m, rule);
      }
    }

    /** Days after the day of unixEnd start too late. */
    lemma PastTheEnd(n: int, unixStart: int, unixEnd: int)
      requires dtstart >= FIRST && n == DayOfSecond(unixEnd)
      ensures forall m :: m > n ==> !IsHit(m, unixStart, unixEnd)
    {
    }
  }
}
