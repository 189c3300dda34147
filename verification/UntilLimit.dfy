/** The end date of a rule: how the matcher treats it, and when that is what the end date means. */
module UntilLimit {
  import opened Civil
  import opened EventMatcher
  import opened RuleMeaning

  /** The start of an occurrence is not after the end date, which is a number of seconds. */
  ghost predicate InTime(m: Matcher, n: int)
    requires m.dtstart >= FIRST
    reads m
  {
    m.IsOccurrence(n) && m.OccurrenceStart(n) <= m.rule.until
  }

  /** What the end date asks for (section 3.3.10 of RFC 5545): an occurrence that starts by then is in the range. */
  ghost predicate Wanted(m: Matcher, unixStart: int, unixEnd: int)
    requires m.dtstart >= FIRST
    reads m
  {
    exists n :: m.IsHit(n, unixStart, unixEnd) && InTime(m, n)
  }

  ghost predicate AllInTime(m: Matcher)
    requires m.dtstart >= FIRST
    reads m
  {
    forall n :: m.IsOccurrence(n) ==> InTime(m, n)
  }

  /** Days written yyyymmdd are ordered as the days. */
  lemma DigitsOrder(a: Date, b: Date)
    requires ValidDate(a) && ValidDate(b)
    ensures Digits(a) <= Digits(b) <==> DayNumber(a) <= DayNumber(b)
  {
    hide DayNumber;
    if a.year != b.year || a.month != b.month || a.mday != b.mday {
      if Digits(a) < Digits(b) { DayNumberMonotone(a, b); } else { DayNumberMonotone(b, a); }
    }
  }

  /** Were the end date a day written yyyymmdd, the ranges let through would be those that end on that day at the
      latest. */
  lemma AcceptsWrittenDay(m: Matcher, last: Date, unixEnd: int)
    requires ValidDate(last) && m.rule.until == Digits(last) && unixEnd >= FIRST
    ensures m.Accepts(unixEnd) <==> DayOfSecond(unixEnd) <= DayNumber(last)
  {
    hide DayNumber, Digits, DateOf;
    DigitsOrder(DateOf(DayOfSecond(unixEnd)), last);
  }

  function OccurrenceEnd(m: Matcher, n: int): int
    reads m
  {
    m.OccurrenceStart(n) + m.Duration()
  }

  /** Recurring, with an end date, and with occurrences that last. */
  ghost predicate Limited(m: Matcher)
    reads m
  {
    m.dtstart >= FIRST && m.dtstart != -1 && m.rule.freq != NoFreq && m.rule.until > 0 && m.Duration() > 0
  }

  /** The last second of a late occurrence: no earlier occurrence lasts that long. */
  lemma LateSecond(m: Matcher, n: int)
    requires Limited(m) && m.IsOccurrence(n) && !InTime(m, n)
    ensures m.OccursIn(OccurrenceEnd(m, n) - 1, OccurrenceEnd(m, n)) &&
            !Wanted(m, OccurrenceEnd(m, n) - 1, OccurrenceEnd(m, n))
    ensures OccurrenceEnd(m, n) >= FIRST
  {
    hide Matches, CountMatches;
    var end := OccurrenceEnd(m, n);
    assert m.IsHit(n, end - 1, end);
    forall k | m.IsHit(k, end - 1, end)
      ensures !InTime(m, k)
    {
      assert k >= n;
    }
  }

  /** The search itself pays no heed to the end date: what it finds is what is wanted, in every range, if and only if no
      occurrence starts after the end date. */
  lemma SearchIgnoresUntil(m: Matcher)
    requires Limited(m)
    ensures (forall a, b :: m.OccursIn(a, b) <==> Wanted(m, a, b)) <==> AllInTime(m)
  {
    hide Matches, CountMatches;
    if AllInTime(m) {
      forall a, b
        ensures m.OccursIn(a, b) <==> Wanted(m, a, b)
      {
        if n :| m.IsHit(n, a, b) {
          assert InTime(m, n);
        }
      }
    } else {
      var n :| m.IsOccurrence(n) && !InTime(m, n);
      LateSecond(m, n);
    }
  }

  /** In the ranges that are let through the matcher says what is wanted if and only if no occurrence starts after the
      end
      date: there the end date never ends a series. */
  lemma AcceptedRangesExactly(m: Matcher)
    requires Limited(m) && forall n :: m.IsOccurrence(n) ==> m.Accepts(OccurrenceEnd(m, n))
    ensures (forall a, b :: a <= b && m.Accepts(b) ==> (m.Says(a, b) <==> Wanted(m, a, b))) <==> AllInTime(m)
  {
    hide Matches, CountMatches, Digits, DateOf;
    if AllInTime(m) {
      SearchIgnoresUntil(m);
    } else {
      var n :| m.IsOccurrence(n) && !InTime(m, n);
      LateSecond(m, n);
      assert m.Accepts(OccurrenceEnd(m, n));
    }
  }

  // ---- all ranges ----

  lemma DigitsMonotone(a: Date, b: Date)
    requires ValidDate(a) && ValidDate(b) && DayNumber(a) <= DayNumber(b)
    ensures Digits(a) <= Digits(b)
  {
    hide DayNumber;
    if Digits(a) > Digits(b) {
      DayNumberMonotone(b, a);
    }
  }

  /** A second so late that its day, written yyyymmdd, is above the end date. */
  lemma FarAway(m: Matcher, after: int) returns (b: int)
    requires Limited(m)
    ensures b > after && b >= FIRST && !m.Accepts(b)
  {
    hide DayNumber, DateOf;
    var year := m.rule.until + (if after > 0 then after else 0) + 1970;
    var d := Date(year, 1, 1);
    DateOfDayNumber(d);
    b := DayNumber(d) * DAY;
    YearStarts(year);
  }

  lemma YearStarts(year: int)
    requires year >= 1970
    ensures DayNumber(Date(year, 1, 1)) * DAY >= year - 1970
  {
    BeforeYearClosed(year);
  }

  /** Over all ranges the matcher says what is wanted only where nothing is wanted and nothing is found: if and only if
      every occurrence starts after the end date and already its first second is not let through. */
  lemma AllRangesExactly(m: Matcher)
    requires Limited(m)
    ensures (forall a, b :: a <= b && b >= FIRST ==> (m.Says(a, b) <==> Wanted(m, a, b)))
            <==> forall n :: m.IsOccurrence(n) ==> !InTime(m, n) && !m.Accepts(m.OccurrenceStart(n) + 1)
  {
    hide Matches, CountMatches, Digits, DateOf, DayNumber;
    if n :| m.IsOccurrence(n) && InTime(m, n) {
      var a := m.OccurrenceStart(n);
      var b := FarAway(m, a);
      assert m.IsHit(n, a, b);
      assert Wanted(m, a, b) && !m.Says(a, b);
    } else if n :| m.IsOccurrence(n) && m.Accepts(m.OccurrenceStart(n) + 1) {
      var a := m.OccurrenceStart(n);
      assert m.IsHit(n, a, a + 1);
      assert m.Says(a, a + 1) && !Wanted(m, a, a + 1);
    } else {
      forall a, b | a <= b && b >= FIRST
        ensures !m.Says(a, b) && !Wanted(m, a, b)
      {
        NothingSaid(m, a, b);
      }
    }
  }

  lemma NothingSaid(m: Matcher, a: int, b: int)
    requires Limited(m) && a <= b && b >= FIRST
    requires forall n :: m.IsOccurrence(n) ==> !m.Accepts(m.OccurrenceStart(n) + 1)
    ensures !m.Says(a, b)
  {
    hide Matches, CountMatches, Digits, DateOf, DayNumber;
    if m.Says(a, b) {
      var n :| m.IsHit(n, a, b);
      var first := m.OccurrenceStart(n) + 1;
      assert first <= b && first >= FIRST;
      assert DayOfSecond(first) <= DayOfSecond(b);
      DigitsMonotone(DateOf(DayOfSecond(first)), DateOf(DayOfSecond(b)));
    }
  }

  /** An end date below the day of the start, written yyyymmdd, makes the matcher refuse every range. */
  lemma SmallUntilRefusesAll(m: Matcher, a: int, b: int)
    requires Limited(m) && m.rule.until < Digits(DateOf(DayOfSecond(m.dtstart))) && a <= b && b >= FIRST
    ensures !m.Says(a, b)
  {
    hide Matches, CountMatches, Digits, DateOf, DayNumber;
    forall n | m.IsOccurrence(n)
      ensures !m.Accepts(m.OccurrenceStart(n) + 1)
    {
      var first := m.OccurrenceStart(n) + 1;
      assert DayOfSecond(first) >= DayOfSecond(m.dtstart);
      DigitsMonotone(DateOf(DayOfSecond(m.dtstart)), DateOf(DayOfSecond(first)));
    }
    NothingSaid(m, a, b);
  }

  // ---- end dates as they occur ----

  lemma YearBelow(n: int, year: int)
    requires n >= -EPOCH && year >= 1 && n < BeforeYear(year) - EPOCH
    ensures DateOf(n).year < year
  {
    hide DateOf;
    var d := DateOf(n);
    if d.year > year { BeforeYearGrows(year, d.year); }
  }

  /** Every end date from 10^8 seconds on lets all ranges up to the year 9999 through. */
  lemma LargeUntilAccepts(m: Matcher, b: int)
    requires m.rule.until >= 100000000 && b >= FIRST && DateOf(DayOfSecond(b)).year <= 9999
    ensures m.Accepts(b)
  {
    hide DateOf;
  }

  predicate HourlyDaily(m: Matcher, until: int)
    reads m
  {
    m.dtstart == 0 && m.dtend == 3600 && m.rule == Rrule(Daily, 1, -1, until, [], [], [], [], [], [])
  }

  lemma EveryDayOccurs(m: Matcher, until: int, n: int)
    requires HourlyDaily(m, until) && 0 <= n <= HORIZON
    ensures m.IsOccurrence(n) && m.OccurrenceStart(n) == n * DAY
  {
    hide DateOf, CountMatches;
    assert IsStep(n, 0, 1, n);
    DailyExactly(n, 0, m.rule);
  }

  /** An hour every day from 1970 on, until 3 March 1973: the matcher still finds it on day 1200, in April. */
  lemma NeverEnds(m: Matcher)
    requires HourlyDaily(m, 100000000)
    ensures m.Says(1200 * DAY, 1200 * DAY + 60) && !Wanted(m, 1200 * DAY, 1200 * DAY + 60)
  {
    hide DateOf, Matches, CountMatches, Digits, BeforeYear;
    EveryDayOccurs(m, 100000000, 1200);
    var b := 1200 * DAY + 60;
    assert DayOfSecond(b) == 1200;
    BeforeYearClosed(10000);
    YearBelow(1200, 10000);
    LargeUntilAccepts(m, b);
    assert m.IsHit(1200, 1200 * DAY, b);
    forall n | m.IsHit(n, 1200 * DAY, b)
      ensures !InTime(m, n)
    {
      assert n >= 1200;
    }
  }

  /** The same event until 12 January 1970: the matcher does not find it on 2 January, nor ever. */
  lemma RefusedTooEarly(m: Matcher)
    requires HourlyDaily(m, 1000000)
    ensures Wanted(m, DAY, DAY + 60)
    ensures forall a, b :: a <= b && b >= FIRST ==> !m.Says(a, b)
  {
    hide DateOf, Matches, CountMatches, BeforeYear, DayNumber;
    EveryDayOccurs(m, 1000000, 1);
    assert m.IsHit(1, DAY, DAY + 60) && InTime(m, 1);
    EpochIsDayZero();
    DateOfDayNumber(Date(1970, 1, 1));
    forall a, b | a <= b && b >= FIRST
      ensures !m.Says(a, b)
    {
      SmallUntilRefusesAll(m, a, b);
    }
  }
}
