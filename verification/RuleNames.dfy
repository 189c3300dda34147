/** The names that recurrence rules are written with, as section 3.3.10 of RFC 5545 spells them. */
module RuleNames {
  import opened Bytes
  import opened Options
  import opened Ascii
  import opened ContentLine
  import opened EventMatcher
  import opened RruleText
  import opened RruleForm

  function NameOf(key: Key): string {
    match key
    case KeyFreq => "FREQ"
    case KeyCount => "COUNT"
    case KeyInterval => "INTERVAL"
    case KeyUntil => "UNTIL"
    case KeyByMonth => "BYMONTH"
    case KeyByMonthDay => "BYMONTHDAY"
    case KeyByYearDay => "BYYEARDAY"
    case KeyByDay => "BYDAY"
    case KeyBySetPos => "BYSETPOS"
    case KeyByWeekNo => "BYWEEKNO"
    case KeyUnknown => ""
  }

  function FrequencyName(freq: Freq): string {
    match freq
    case Daily => "DAILY"
    case Weekly => "WEEKLY"
    case Monthly => "MONTHLY"
    case Yearly => "YEARLY"
    case NoFreq => "none"
  }

  /** Sunday is 0. */
  function WeekdayName(day: Weekday): string {
    ["SU", "MO", "TU", "WE", "TH", "FR", "SA"][day]
  }

  lemma Spelled(b: Bytes, s: string)
    requires |b| == |s| && forall i :: 0 <= i < |s| ==> b[i] == s[i] as int && b[i] < 128
    ensures IsAscii(s) && b == Text(s)
  {
  }

  lemma KeyWritten(key: Key)
    ensures IsAscii(NameOf(key)) && KeyText(key) == Text(NameOf(key))
  {
    hide Text, IsAscii;
    Spelled(KeyText(key), NameOf(key));
  }

  lemma FrequencyWritten(freq: Freq)
    ensures IsAscii(FrequencyName(freq)) && FreqText(freq) == Text(FrequencyName(freq))
  {
    hide Text, IsAscii;
    Spelled(FreqText(freq), FrequencyName(freq));
  }

  lemma WeekdayWritten(day: Weekday)
    ensures IsAscii(WeekdayName(day)) && DayText(day) == Text(WeekdayName(day))
  {
    hide Text, IsAscii;
    assert |WeekdayName(day)| == 2;
    Spelled(DayText(day), WeekdayName(day));
  }

  /** Parts are written under these names. */
  lemma NamesWritten(key: Key, freq: Freq, day: Weekday)
    ensures IsAscii(NameOf(key)) && KeyText(key) == Text(NameOf(key))
    ensures IsAscii(FrequencyName(freq)) && FreqText(freq) == Text(FrequencyName(freq))
    ensures IsAscii(WeekdayName(day)) && DayText(day) == Text(WeekdayName(day))
  {
    hide Text, IsAscii, KeyText, NameOf, FreqText, FrequencyName, DayText, WeekdayName;
    KeyWritten(key);
    FrequencyWritten(freq);
    WeekdayWritten(day);
  }

  /** Upper-case letters, and no others, become the small letters at the same place of the alphabet. */
  lemma LowerMeaning(c: byte)
    ensures var i := c as int - 'A' as int;
            LowerByte(c) == if 0 <= i < 26 then 'a' as int + i else c
  {
  }

  /** Parts are read under these names in whatever mix of capital and small letters. */
  lemma NamesRead(name: Bytes, key: Key, freq: Freq, otherwise: Freq, day: Weekday)
    ensures IsAscii(NameOf(key))
    ensures key != KeyUnknown && Lower(name) == Lower(Text(NameOf(key))) ==> KeyOf(Lower(name)) == key
    ensures IsAscii(FrequencyName(freq))
    ensures freq != NoFreq && Lower(name) == Lower(Text(FrequencyName(freq))) ==> FreqOf(Lower(name), otherwise) == freq
    ensures IsAscii(WeekdayName(day))
    ensures Lower(name) == Lower(Text(WeekdayName(day))) ==> DayOf(Lower(name)) == Some(day)
  {
    hide Lower, KeyOf, FreqOf, DayOf, KeyText, FreqText, DayText, NameOf, FrequencyName, WeekdayName;
    NamesWritten(key, freq, day);
    if key != KeyUnknown { KeyOfText(key); }
    if freq != NoFreq { FreqOfText(freq, otherwise); }
    LowerDay(day);
  }

  // ---- each part goes to its own field ----

  /** A part with this name. */
  function Named(name: string, value: Bytes): Bytes
    requires IsAscii(name)
  {
    Text(name) + [EQUALS] + value
  }

  lemma NamedPart(key: Key, value: Bytes)
    ensures IsAscii(NameOf(key)) && Named(NameOf(key), value) == Part(key, value)
  {
    hide Text, KeyText, NameOf, IsAscii;
    KeyWritten(key);
  }

  lemma ListRead(r: Rrule, key: Key, list: seq<int>, until: Bytes -> int)
    requires list != [] && key != KeyUnknown
    ensures IsAscii(NameOf(key))
    ensures var value := Join(Numbers(list), COMMA);
            IntList(value) == list && ReadPart(r, Named(NameOf(key), value), until) == SetPart(r, key, value, until)
  {
    hide ReadPart, SetPart, Join, Numbers, IntList, NameOf, Named, Part, Visible;
    NumberList(list);
    NamedPart(key, Join(Numbers(list), COMMA));
    ReadOne(r, key, Join(Numbers(list), COMMA), until);
  }

  lemma SpelledOut()
    ensures IsAscii("BYMONTH") && IsAscii("BYMONTHDAY") && IsAscii("BYYEARDAY")
    ensures IsAscii("BYSETPOS") && IsAscii("BYWEEKNO")
    ensures IsAscii("INTERVAL") && IsAscii("COUNT") && IsAscii("BYDAY") && IsAscii("FREQ")
  {
  }

  /** A part with a list of numbers adds it to the field of its name and to no other. */
  lemma ListsRead(r: Rrule, list: seq<int>, until: Bytes -> int)
    requires list != []
    ensures IsAscii("BYMONTH") && IsAscii("BYMONTHDAY") && IsAscii("BYYEARDAY")
    ensures IsAscii("BYSETPOS") && IsAscii("BYWEEKNO")
    ensures var value := Join(Numbers(list), COMMA);
            && ReadPart(r, Named("BYMONTH", value), until) == r.(bymonth := r.bymonth + list)
            && ReadPart(r, Named("BYMONTHDAY", value), until) == r.(bymonthday := r.bymonthday + list)
            && ReadPart(r, Named("BYYEARDAY", value), until) == r.(byyearday := r.byyearday + list)
            && ReadPart(r, Named("BYSETPOS", value), until) == r.(bysetpos := r.bysetpos + list)
            && ReadPart(r, Named("BYWEEKNO", value), until) == r.(byweekno := r.byweekno + list)
  {
    SpelledOut();
    hide ReadPart, Join, Numbers, IntList, Named, IsAscii;
    ListRead(r, KeyByMonth, list, until);
    ListRead(r, KeyByMonthDay, list, until);
    ListRead(r, KeyByYearDay, list, until);
    ListRead(r, KeyBySetPos, list, until);
    ListRead(r, KeyByWeekNo, list, until);
  }

  lemma ValueRead(r: Rrule, key: Key, value: Bytes, until: Bytes -> int)
    requires Visible(value) && key != KeyUnknown
    ensures IsAscii(NameOf(key)) && ReadPart(r, Named(NameOf(key), value), until) == SetPart(r, key, value, until)
  {
    hide ReadPart, SetPart, NameOf, Named, Part, Visible;
    NamedPart(key, value);
    ReadOne(r, key, value, until);
  }

  lemma NumbersRead(r: Rrule, number: int, until: Bytes -> int)
    ensures IsAscii("INTERVAL") && IsAscii("COUNT")
    ensures ReadPart(r, Named("INTERVAL", ToString(number)), until) == r.(interval := number)
    ensures ReadPart(r, Named("COUNT", ToString(number)), until) == r.(count := number)
  {
    SpelledOut();
    hide ReadPart, Named, IsAscii, ToString, Atoi, Visible;
    VisibleNumber(number);
    AtoiToString(number, []);
    WithNothing(ToString(number));
    ValueRead(r, KeyInterval, ToString(number), until);
    ValueRead(r, KeyCount, ToString(number), until);
  }

  lemma WeekdaysRead(r: Rrule, days: seq<ByWeekday>, until: Bytes -> int)
    requires days != [] && ValidDays(days)
    ensures IsAscii("BYDAY")
    ensures ReadPart(r, Named("BYDAY", Join(DayNames(days), COMMA)), until) == r.(byweekday := r.byweekday + days)
  {
    SpelledOut();
    hide ReadPart, Join, DayNames, WeekdayList, Named, IsAscii, Visible, ValidDays;
    NameList(days);
    ValueRead(r, KeyByDay, Join(DayNames(days), COMMA), until);
  }

  lemma FrequencyRead(r: Rrule, freq: Freq, until: Bytes -> int)
    requires freq != NoFreq
    ensures IsAscii("FREQ") && IsAscii(FrequencyName(freq))
    ensures ReadPart(r, Named("FREQ", Text(FrequencyName(freq))), until) == r.(freq := freq)
  {
    SpelledOut();
    FrequencyWritten(freq);
    VisibleFreq(freq);
    FreqOfText(freq, r.freq);
    hide ReadPart, Named, IsAscii, Visible, FreqOf, FreqText, FrequencyName, Text, Lower;
    ValueRead(r, KeyFreq, FreqText(freq), until);
  }

  /** Interval and count become their numbers, weekdays are added, and the frequency is set. */
  lemma OthersRead(r: Rrule, number: int, days: seq<ByWeekday>, freq: Freq, until: Bytes -> int)
    requires days != [] && ValidDays(days) && freq != NoFreq
    ensures IsAscii("INTERVAL") && IsAscii("COUNT") && IsAscii("BYDAY") && IsAscii("FREQ")
    ensures IsAscii(FrequencyName(freq))
    ensures ReadPart(r, Named("INTERVAL", ToString(number)), until) == r.(interval := number)
    ensures ReadPart(r, Named("COUNT", ToString(number)), until) == r.(count := number)
    ensures ReadPart(r, Named("BYDAY", Join(DayNames(days), COMMA)), until) == r.(byweekday := r.byweekday + days)
    ensures ReadPart(r, Named("FREQ", Text(FrequencyName(freq))), until) == r.(freq := freq)
  {
    hide ReadPart, Join, DayNames, Named, IsAscii, ToString, FrequencyName, Text, ValidDays;
    NumbersRead(r, number, until);
    WeekdaysRead(r, days, until);
    FrequencyRead(r, freq, until);
  }

  lemma VisibleFreq(freq: Freq)
    ensures Visible(FreqText(freq))
  {
  }
}
