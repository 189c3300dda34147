/** How far a series goes: its count, the horizon of the search, and when an occurrence falls into a range. */
module RuleSpan {
  import opened Civil
  import opened EventMatcher
  import opened RuleMeaning

  // ---- ranges of seconds ----

  predicate Within(t: int, from: int, to: int) {
    from <= t < to
  }

  /** Two stretches of seconds have one in common. */
  ghost predicate Meet(start: int, end: int, from: int, to: int) {
    exists t :: Within(t, start, end) && Within(t, from, to)
  }

  /** A stretch of seconds and a range overlap when they have a second in common. */
  lemma OverlapsMeaning(start: int, end: int, unixStart: int, unixEnd: int)
    requires start < end && unixStart < unixEnd
    ensures Overlaps(start, end, unixStart, unixEnd) <==> Meet(start, end, unixStart, unixEnd)
  {
    if Overlaps(start, end, unixStart, unixEnd) {
      var t := if start >= unixStart then start else unixStart;
      assert Within(t, start, end) && Within(t, unixStart, unixEnd);
    }
  }

  /** An occurrence starts on its day at the time of day of the event. The first one is the event itself, from its start
      to its end, or of one second when it has none; the others are as long. */
  lemma OccurrenceMeaning(m: Matcher, n: int)
    ensures DayOfSecond(m.OccurrenceStart(n)) == n
    ensures SecondOfDay(m.OccurrenceStart(n)) == SecondOfDay(m.dtstart)
    ensures m.OccurrenceStart(DayOfSecond(m.dtstart)) == m.dtstart
    ensures m.OccurrenceStart(DayOfSecond(m.dtstart)) + m.Duration() == if m.dtend == -1 then m.dtstart + 1 else m.dtend
    ensures m.OccurrenceStart(n + 1) == m.OccurrenceStart(n) + 24 * 60 * 60
  {
  }

  /** A single event is in a range exactly when they have a second in common. */
  lemma SingleEventExactly(m: Matcher, unixStart: int, unixEnd: int)
    requires m.dtstart >= FIRST && m.dtstart != -1 && m.rule.freq == NoFreq && (m.dtend == -1 || m.dtend > m.dtstart)
    requires unixStart < unixEnd && unixEnd >= FIRST
    ensures m.Says(unixStart, unixEnd) <==>
            Meet(m.dtstart, if m.dtend == -1 then m.dtstart + 1 else m.dtend, unixStart, unixEnd)
  {
    OverlapsMeaning(m.dtstart, if m.dtend == -1 then m.dtstart + 1 else m.dtend, unixStart, unixEnd);
  }

  /** So is a series without an end date when one of its occurrences is. */
  lemma SeriesExactly(m: Matcher, unixStart: int, unixEnd: int)
    requires m.dtstart >= FIRST && m.dtstart != -1 && m.rule.freq != NoFreq && m.rule.until <= 0
    requires m.dtend == -1 || m.dtend > m.dtstart
    requires unixStart < unixEnd && unixEnd >= FIRST
    ensures m.Says(unixStart, unixEnd) <==>
            exists n :: && m.IsOccurrence(n)
                        && Meet(m.OccurrenceStart(n), m.OccurrenceStart(n) + m.Duration(), unixStart, unixEnd)
  {
    hide Matches, CountMatches, Matcher.IsOccurrence, Meet;
    forall n
      ensures m.IsHit(n, unixStart, unixEnd) <==>
              && m.IsOccurrence(n)
              && Meet(m.OccurrenceStart(n), m.OccurrenceStart(n) + m.Duration(), unixStart, unixEnd)
    {
      OverlapsMeaning(m.OccurrenceStart(n), m.OccurrenceStart(n) + m.Duration(), unixStart, unixEnd);
    }
  }

  // ---- how many days of a daily series there are up to a day ----

  lemma QuotientUnique(x: int, m: int, q: int, r: int)
    requires 0 <= r < m && x == q * m + r
    ensures x / m == q && x % m == r
  {
    RemainderUnique(m, x / m, x % m, q, r);
    assert (x / m - q) * m == 0;
  }

  lemma QuotientStep(x: int, m: int)
    requires m > 0
    ensures x / m == (x - 1) / m + if x % m == 0 then 1 else 0
  {
    var q, r := (x - 1) / m, (x - 1) % m;
    assert x == q * m + (r + 1);
    if r + 1 < m {
      QuotientUnique(x, m, q, r + 1);
    } else {
      assert x == (q + 1) * m;
      QuotientUnique(x, m, q + 1, 0);
    }
  }

  /** A daily rule without filters. */
  predicate PlainDaily(rule: Rrule) {
    rule.freq == Daily && NoFilters(rule)
  }

  lemma PlainDailyMatches(n: int, start: int, rule: Rrule)
    requires n >= start >= -EPOCH && PlainDaily(rule)
    ensures Matches(n, start, rule) <==> (n - start) % Interval(rule) == 0
  {
    hide DateOf, InByYearDay, InByMonthDay, WeekdayOf, Interval;
    EmptyFilters(DateOf(n));
  }

  lemma {:induction false} DailyCount(n: int, start: int, rule: Rrule)
    requires n >= start >= -EPOCH && PlainDaily(rule)
    ensures CountMatches(start, n, rule) == (n - start) / Interval(rule) + 1
    decreases n - start
  {
    hide Matches, Interval, PlainDaily;
    PlainDailyMatches(n, start, rule);
    QuotientStep(n - start, Interval(rule));
    if n == start {
      assert CountMatches(start, n - 1, rule) == 0;
      QuotientUnique(0, Interval(rule), 0, 0);
    } else {
      DailyCount(n - 1, start, rule);
    }
  }

  // ---- the days of a daily series that are found ----

  /** The days such a rule asks for: every interval-th, as many as its count. */
  ghost predicate Asked(n: int, start: int, rule: Rrule) {
    exists k :: IsStep(n, start, Interval(rule), k) && (rule.count == -1 || k < rule.count)
  }

  lemma AskedMeaning(n: int, start: int, rule: Rrule)
    ensures Asked(n, start, rule) <==>
            && n >= start && (n - start) % Interval(rule) == 0
            && (rule.count == -1 || (n - start) / Interval(rule) < rule.count)
  {
    hide Interval;
    var iv := Interval(rule);
    if n >= start && (n - start) % iv == 0 {
      StepExists(n, start, iv);
    }
    if k :| IsStep(n, start, iv, k) && (rule.count == -1 || k < rule.count) {
      StepDivides(n, start, iv, k);
      QuotientUnique(n - start, iv, k, 0);
    }
  }

  /** A daily series is followed over the first 3650 days. */
  lemma DailyOccurrences(m: Matcher, n: int)
    requires m.dtstart >= FIRST && PlainDaily(m.rule)
    ensures var s := DayOfSecond(m.dtstart);
            m.IsOccurrence(n) <==> Asked(n, s, m.rule) && n - s <= 3650
  {
    hide Matches, Interval, PlainDaily, Asked;
    var s := DayOfSecond(m.dtstart);
    AskedMeaning(n, s, m.rule);
    if n >= s {
      PlainDailyMatches(n, s, m.rule);
      DailyCount(n, s, m.rule);
    }
  }

  /** So all of it is found if and only if it has a count and its last day is not more than 3650 days after the
      first. */
  lemma HorizonExactly(m: Matcher)
    requires m.dtstart >= FIRST && PlainDaily(m.rule)
    ensures var s, iv := DayOfSecond(m.dtstart), Interval(m.rule);
            (forall n :: Asked(n, s, m.rule) <==> m.IsOccurrence(n))
            <==> m.rule.count != -1 && (m.rule.count - 1) * iv <= 3650
  {
    hide Interval, PlainDaily, Asked, Matcher.IsOccurrence;
    var s, iv, count := DayOfSecond(m.dtstart), Interval(m.rule), m.rule.count;
    forall n
      ensures m.IsOccurrence(n) <==> Asked(n, s, m.rule) && n - s <= 3650
      ensures Asked(n, s, m.rule) && count != -1 ==> n - s <= (count - 1) * iv
    {
      DailyOccurrences(m, n);
      if Asked(n, s, m.rule) && count != -1 { AskedWithin(n, s, m.rule); }
    }
    if count == -1 {
      var far := s + 3651 * iv;
      MulGrows(3651, iv);
      AskedAt(3651, s, m.rule);
      assert Asked(far, s, m.rule);
      LongerThan(3651, iv);
    } else if (count - 1) * iv > 3650 {
      AskedAt(count - 1, s, m.rule);
      assert Asked(s + (count - 1) * iv, s, m.rule);
    }
  }

  lemma LongerThan(k: int, iv: int)
    requires k >= 0 && iv >= 1
    ensures k * iv >= k
  {
  }

  lemma AskedWithin(n: int, start: int, rule: Rrule)
    requires Asked(n, start, rule) && rule.count != -1
    ensures n - start <= (rule.count - 1) * Interval(rule)
  {
    hide Interval;
    var k :| IsStep(n, start, Interval(rule), k) && k < rule.count;
    Monotone(k, rule.count - 1, Interval(rule));
  }

  lemma Monotone(a: int, b: int, m: int)
    requires a <= b && m >= 1
    ensures a * m <= b * m
  {
  }

  lemma AskedAt(k: int, start: int, rule: Rrule)
    requires k >= 0 && (rule.count == -1 || k < rule.count)
    ensures Asked(start + k * Interval(rule), start, rule)
  {
    hide Interval;
    assert IsStep(start + k * Interval(rule), start, Interval(rule), k);
  }
}
