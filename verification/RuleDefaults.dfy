/** What the parser fills in when a rule says too little, and that the matcher takes it as it is meant. */
module RuleDefaults {
  import opened Options
  import opened Civil
  import opened EventMatcher
  import opened RuleMeaning
  import opened RruleForm

  /** The start of the event, as the parser looks it up. */
  function LocalOf(start: int): Local
    requires start >= -EPOCH
  {
    Local(WeekdayOf(start), DateOf(start).mday, DateOf(start).month)
  }

  /** For monthly and yearly rules the parser only spells out what the matcher does anyway. */
  lemma DefaultsChangeNothing(n: int, start: int, rule: Rrule)
    requires n >= -EPOCH && start >= -EPOCH && (rule.freq == Monthly || rule.freq == Yearly)
    ensures Matches(n, start, WithDefaults(rule, Some(LocalOf(start)))) <==> Matches(n, start, rule)
  {
    hide DateOf, WeekdayOf, NthWeekday, InByYearDay;
    var filled, s := WithDefaults(rule, Some(LocalOf(start))), DateOf(start);
    if filled != rule {
      OneDay(DateOf(n), s.mday);
      EmptyFilters(DateOf(n));
    }
  }

  lemma OneDay(d: Date, mday: int)
    requires ValidDate(d) && mday > 0
    ensures InByMonthDay(d, [mday]) <==> d.mday == mday
  {
    assert [mday][0] == mday;
  }

  /** A weekly rule without weekdays: of the days it would select, the filled-in rule keeps those on the weekday of the
      start. The start itself is one of them. */
  lemma WeeklyDefault(n: int, start: int, rule: Rrule)
    requires n >= -EPOCH && start >= -EPOCH && rule.freq == Weekly && rule.byweekday == []
    ensures var filled := WithDefaults(rule, Some(LocalOf(start)));
            && (Matches(n, start, filled) <==> Matches(n, start, rule) && WeekdayOf(n) == WeekdayOf(start))
            && (rule.bymonth == [] && rule.byyearday == [] ==> Matches(start, start, filled))
  {
    var filled := WithDefaults(rule, Some(LocalOf(start)));
    assert Interval(filled) == Interval(rule);
    hide DateOf, WeekdayOf, InByYearDay, MondayOf, InByWeekday, Interval;
    OneWeekday(WeekdayOf(n), WeekdayOf(start));
    OneWeekday(WeekdayOf(start), WeekdayOf(start));
    EmptyFilters(DateOf(start));
    NoWeeks(Interval(rule));
  }

  lemma OneWeekday(weekday: int, day: int)
    ensures InByWeekday(weekday, [ByWeekday(day, 0)]) <==> weekday == day
    ensures InByWeekday(weekday, [])
  {
    assert [ByWeekday(day, 0)][0].day == day;
  }

  lemma NoWeeks(interval: int)
    requires interval > 0
    ensures 0 / 7 % interval == 0
  {
  }

  /** Nothing is filled in for a daily rule, or without a start, or where days are named. */
  lemma NothingToFill(rule: Rrule, local: Option<Local>)
    ensures local.None? || rule.freq == Daily || rule.freq == NoFreq || rule.byweekday != [] ==>
              WithDefaults(rule, local) == rule
    ensures (rule.freq == Monthly || rule.freq == Yearly) && rule.bymonthday != [] ==> WithDefaults(rule, local) == rule
    ensures rule.freq == Yearly && (rule.bymonth != [] || rule.byyearday != []) ==> WithDefaults(rule, local) == rule
  {
  }
}
