/** Recurrence rules: reading them from text, writing them, and the normal form that reading and writing keep. */
module RruleForm {
  import opened Bytes
  import opened Options
  import opened Ascii
  import opened ContentLine
  import opened EventMatcher
  import opened RruleText

  // ---- blanks around a value ----

  function TrimRight(s: Bytes): Bytes {
    if s != [] && IsSpace(s[|s| - 1]) then TrimRight(s[..|s| - 1]) else s
  }

  function Trimmed(s: Bytes): Bytes {
    TrimRight(SkipSpaces(s))
  }

  method Trim(s: Bytes) returns (r: Bytes)
    ensures r == Trimmed(s)
  {
    var start, end := 0, |s|;
    assert s[0..] == s;
    while start < end && IsSpace(s[start])
      invariant start <= end == |s| && SkipSpaces(s[start..]) == SkipSpaces(s)
    {
      assert s[start..][1..] == s[start + 1..];
      start := start + 1;
    }
    assert SkipSpaces(s[start..]) == s[start..] == s[start..end];
    while end > start && IsSpace(s[end - 1])
      invariant start <= end <= |s| && TrimRight(s[start..end]) == Trimmed(s)
    {
      assert s[start..end][..end - start - 1] == s[start..end - 1];
      end := end - 1;
    }
    r := s[start..end];
  }

  // ---- reading ----

  /** The start of the event as local time, when the time zone could be looked up. */
  datatype Local = Local(wday: Weekday, mday: int, month: int)

  const EMPTY_RULE: Rrule := Rrule(NoFreq, 1, -1, -1, [], [], [], [], [], [])

  function Ints(tokens: seq<Bytes>): (r: seq<int>)
    ensures |r| == |tokens|
  {
    if tokens == [] then [] else Ints(tokens[..|tokens| - 1]) + [Atoi(tokens[|tokens| - 1])]
  }

  function IntList(value: Bytes): seq<int> {
    Ints(Split(value, COMMA))
  }

  function WeekdayList(value: Bytes): (r: seq<ByWeekday>)
    ensures forall w :: w in r ==> 0 <= w.day <= 6
  {
    WeekdaysOf(Split(Lower(value), COMMA))
  }

  /** What one part does to the rule. The reading of the end date is a parameter. */
  function SetPart(r: Rrule, key: Key, value: Bytes, until: Bytes -> int): Rrule {
    match key
    case KeyFreq => r.(freq := FreqOf(Lower(value), r.freq))
    case KeyCount => r.(count := Atoi(value))
    case KeyInterval => r.(interval := Atoi(value))
    case KeyUntil => r.(until := until(value))
    case KeyByMonth => r.(bymonth := r.bymonth + IntList(value))
    case KeyByMonthDay => r.(bymonthday := r.bymonthday + IntList(value))
    case KeyByYearDay => r.(byyearday := r.byyearday + IntList(value))
    case KeyByDay => r.(byweekday := r.byweekday + WeekdayList(value))
    case KeyBySetPos => r.(bysetpos := r.bysetpos + IntList(value))
    case KeyByWeekNo => r.(byweekno := r.byweekno + IntList(value))
    case KeyUnknown => r
  }

  function ReadPart(r: Rrule, part: Bytes, until: Bytes -> int): Rrule {
    var p := IndexOf(part, EQUALS);
    if p == |part| then r else SetPart(r, KeyOf(Lower(part[..p])), Trimmed(part[p + 1..]), until)
  }

  function ReadParts(r: Rrule, parts: seq<Bytes>, until: Bytes -> int): Rrule
    decreases |parts|
  {
    if parts == [] then r else ReadPart(ReadParts(r, parts[..|parts| - 1], until), parts[|parts| - 1], until)
  }

  /** What a rule takes from the start of the event when it says too little. */
  function WithDefaults(r: Rrule, local: Option<Local>): Rrule {
    if local.None? then r
    else if r.freq == Weekly && r.byweekday == [] then r.(byweekday := [ByWeekday(local.value.wday, 0)])
    else if r.freq == Monthly && r.bymonthday == [] && r.byweekday == [] then r.(bymonthday := [local.value.mday])
    else if r.freq == Yearly && r.byyearday == [] && r.bymonth == [] && r.bymonthday == [] && r.byweekday == [] then
      r.(bymonth := [local.value.month], bymonthday := [local.value.mday])
    else r
  }

  function Parsed(text: Bytes, local: Option<Local>, until: Bytes -> int): Rrule {
    WithDefaults(ReadParts(EMPTY_RULE, Split(text, SEMICOLON), until), local)
  }

  method ReadInts(list: seq<int>, value: Bytes) returns (r: seq<int>)
    ensures r == list + IntList(value)
  {
    var tokens := SplitIgnoringEmpty(value, COMMA);
    r := list;
    for i := 0 to |tokens|
      invariant r == list + Ints(tokens[..i])
    {
      assert tokens[..i + 1][..i] == tokens[..i];
      r := r + [Atoi(tokens[i])];
    }
    assert tokens[..|tokens|] == tokens;
  }

  method ReadWeekdays(list: seq<ByWeekday>, value: Bytes) returns (r: seq<ByWeekday>)
    ensures r == list + WeekdayList(value)
  {
    hide WeekdayOfToken;
    var lower := ToLower(value);
    var tokens := SplitIgnoringEmpty(lower, COMMA);
    r := list;
    for i := 0 to |tokens|
      invariant r == list + WeekdaysOf(tokens[..i])
    {
      assert tokens[..i + 1][..i] == tokens[..i];
      var one := ReadWeekday(tokens[i]);
      assert r + one == list + (WeekdaysOf(tokens[..i]) + one);
      r := r + one;
    }
    assert tokens[..|tokens|] == tokens;
  }

  method ReadWeekday(token: Bytes) returns (r: seq<ByWeekday>)
    ensures r == WeekdayOfToken(token)
  {
    hide Atoi, DayOf, UpToNul;
    var sn := 0;
    if token != [] && (token[0] == MINUS || IsDigit(token[0])) {
      sn := Atoi(token);
    }
    var i := 0;
    assert token[0..] == token;
    while i < |token| && token[i] != 0 && !IsAlpha(token[i])
      invariant i <= |token| && FromLetter(token[i..]) == FromLetter(token)
    {
      assert token[i..][1..] == token[i + 1..];
      i := i + 1;
    }
    assert FromLetter(token[i..]) == token[i..];
    var day := DayOf(UpToNul(token[i..]));
    if day.None? {
      return [];
    }
    return [ByWeekday(day.value, sn)];
  }

  method Parse(text: Bytes, local: Option<Local>, until: Bytes -> int) returns (rule: Rrule)
    ensures rule == Parsed(text, local, until)
  {
    hide KeyOf, Lower, Trimmed, FreqOf, IntList, WeekdayList;
    rule := EMPTY_RULE;
    var parts := SplitIgnoringEmpty(text, SEMICOLON);
    for i := 0 to |parts|
      invariant rule == ReadParts(EMPTY_RULE, parts[..i], until)
    {
      assert parts[..i + 1][..i] == parts[..i];
      var part := parts[i];
      var p := IndexOf(part, EQUALS);
      if p == |part| {
        continue;
      }
      var key := ToLower(part[..p]);
      var value := Trim(part[p + 1..]);
      match KeyOf(key)
      case KeyFreq =>
        var lower := ToLower(value);
        rule := rule.(freq := FreqOf(lower, rule.freq));
      case KeyCount => rule := rule.(count := Atoi(value));
      case KeyInterval => rule := rule.(interval := Atoi(value));
      case KeyUntil => rule := rule.(until := until(value));
      case KeyByMonth =>
        var list := ReadInts(rule.bymonth, value);
        rule := rule.(bymonth := list);
      case KeyByMonthDay =>
        var list := ReadInts(rule.bymonthday, value);
        rule := rule.(bymonthday := list);
      case KeyByYearDay =>
        var list := ReadInts(rule.byyearday, value);
        rule := rule.(byyearday := list);
      case KeyByDay =>
        var list := ReadWeekdays(rule.byweekday, value);
        rule := rule.(byweekday := list);
      case KeyBySetPos =>
        var list := ReadInts(rule.bysetpos, value);
        rule := rule.(bysetpos := list);
      case KeyByWeekNo =>
        var list := ReadInts(rule.byweekno, value);
        rule := rule.(byweekno := list);
      case KeyUnknown =>
    }
    assert parts[..|parts|] == parts;
    if rule.freq == Weekly {
      if rule.byweekday == [] && local.Some? {
        rule := rule.(byweekday := [ByWeekday(local.value.wday, 0)]);
      }
    } else if rule.freq == Monthly {
      if rule.bymonthday == [] && rule.byweekday == [] && local.Some? {
        rule := rule.(bymonthday := [local.value.mday]);
      }
    } else if rule.freq == Yearly {
      if rule.byyearday == [] && rule.bymonth == [] && rule.bymonthday == [] && rule.byweekday == [] && local.Some? {
        rule := rule.(bymonth := [local.value.month], bymonthday := [local.value.mday]);
      }
    }
  }

  // ---- writing ----

  function Numbers(list: seq<int>): (r: seq<Bytes>)
    ensures |r| == |list| && forall i :: 0 <= i < |r| ==> r[i] == ToString(list[i])
  {
    if list == [] then [] else Numbers(list[..|list| - 1]) + [ToString(list[|list| - 1])]
  }

  predicate ValidDays(list: seq<ByWeekday>) {
    forall w :: w in list ==> 0 <= w.day <= 6
  }

  function DayNames(list: seq<ByWeekday>): (r: seq<Bytes>)
    requires ValidDays(list)
    ensures |r| == |list| && forall i :: 0 <= i < |r| ==> r[i] == WeekdayText(list[i])
  {
    if list == [] then [] else
      assert list[|list| - 1] in list;
      DayNames(list[..|list| - 1]) + [WeekdayText(list[|list| - 1])]
  }

  /** A part as it is written. */
  function Part(key: Key, value: Bytes): Bytes {
    KeyText(key) + [EQUALS] + value
  }

  function When(shown: bool, key: Key, value: Bytes): seq<Bytes> {
    if shown then [Part(key, value)] else []
  }

  function UntilPart(until: int, stamp: int -> Option<Bytes>): seq<Bytes> {
    if until != -1 && stamp(until).Some? then [Part(KeyUntil, stamp(until).value)] else []
  }

  /** The parts up to the count, in the order they are written. */
  function FirstParts(r: Rrule): seq<Bytes> {
    [Part(KeyFreq, FreqText(r.freq))]
    + When(r.interval != 1, KeyInterval, ToString(r.interval))
    + When(r.bysetpos != [], KeyBySetPos, Join(Numbers(r.bysetpos), COMMA))
    + When(r.byweekno != [], KeyByWeekNo, Join(Numbers(r.byweekno), COMMA))
    + When(r.count != -1, KeyCount, ToString(r.count))
  }

  /** All parts. The printing of the end date is a parameter. */
  function Parts(r: Rrule, stamp: int -> Option<Bytes>): seq<Bytes>
    requires ValidDays(r.byweekday)
  {
    FirstParts(r)
    + UntilPart(r.until, stamp)
    + When(r.bymonth != [], KeyByMonth, Join(Numbers(r.bymonth), COMMA))
    + When(r.bymonthday != [], KeyByMonthDay, Join(Numbers(r.bymonthday), COMMA))
    + When(r.byyearday != [], KeyByYearDay, Join(Numbers(r.byyearday), COMMA))
    + When(r.byweekday != [], KeyByDay, Join(DayNames(r.byweekday), COMMA))
  }

  function Built(r: Rrule, stamp: int -> Option<Bytes>): Bytes
    requires ValidDays(r.byweekday)
  {
    if r.freq == NoFreq then [] else Join(Parts(r, stamp), SEMICOLON)
  }

  method JoinInts(list: seq<int>) returns (text: Bytes)
    ensures text == Join(Numbers(list), COMMA)
  {
    hide ToString;
    text := [];
    var first := true;
    for i := 0 to |list|
      invariant text == Join(Numbers(list[..i]), COMMA) && (first <==> i == 0)
    {
      var front := list[..i];
      assert list[..i + 1][..i] == front && Numbers(list[..i + 1]) == Numbers(front) + [ToString(list[i])];
      if !first {
        JoinSnoc(Numbers(front), ToString(list[i]), COMMA);
        text := text + [COMMA];
      } else {
        first := false;
        WithNothing(ToString(list[i]));
      }
      text := text + ToString(list[i]);
    }
    assert list[..|list|] == list;
  }

  method JoinWeekdays(list: seq<ByWeekday>) returns (text: Bytes)
    requires ValidDays(list)
    ensures text == Join(DayNames(list), COMMA)
  {
    hide ToString, DayText, WeekdayText;
    text := [];
    var first := true;
    for i := 0 to |list|
      invariant text == Join(DayNames(list[..i]), COMMA) && (first <==> i == 0)
    {
      var front, w := list[..i], list[i];
      assert list[..i + 1][..i] == front && DayNames(list[..i + 1]) == DayNames(front) + [WeekdayText(w)];
      if !first {
        JoinSnoc(DayNames(front), WeekdayText(w), COMMA);
        text := text + [COMMA];
      } else {
        first := false;
      }
      text := AppendWeekday(text, w);
    }
    assert list[..|list|] == list;
  }

  method AppendWeekday(text: Bytes, w: ByWeekday) returns (r: Bytes)
    requires 0 <= w.day <= 6
    ensures r == text + WeekdayText(w)
  {
    hide ToString, DayText;
    r := text;
    if w.sn != 0 {
      r := r + ToString(w.sn);
      Associative(text, ToString(w.sn), DayText(w.day));
    } else {
      WithNothing(DayText(w.day));
    }
    r := r + DayText(w.day);
  }

  /** Appends one more part. */
  method AddPart(raw: Bytes, key: Key, value: Bytes, ghost parts: seq<Bytes>) returns (raw': Bytes)
    requires raw == Join(parts, SEMICOLON) && parts != []
    ensures raw' == Join(parts + When(true, key, value), SEMICOLON)
  {
    JoinSnoc(parts, Part(key, value), SEMICOLON);
    hide Join, KeyText;
    Associative(raw + [SEMICOLON], KeyText(key) + [EQUALS], value);
    Associative(raw + [SEMICOLON], KeyText(key), [EQUALS]);
    raw' := raw + [SEMICOLON] + KeyText(key) + [EQUALS] + value;
  }

  /** A part left out leaves the text as it is. */
  lemma NoPart(parts: seq<Bytes>)
    ensures parts + [] == parts
  {
  }

  method AddNumber(raw: Bytes, key: Key, number: int, standard: int, ghost parts: seq<Bytes>) returns (raw': Bytes)
    requires raw == Join(parts, SEMICOLON) && parts != []
    ensures raw' == Join(parts + When(number != standard, key, ToString(number)), SEMICOLON)
  {
    hide Join, ToString, Part;
    NoPart(parts);
    raw' := raw;
    if number != standard {
      raw' := AddPart(raw, key, ToString(number), parts);
    }
  }

  method AddInts(raw: Bytes, key: Key, list: seq<int>, ghost parts: seq<Bytes>) returns (raw': Bytes)
    requires raw == Join(parts, SEMICOLON) && parts != []
    ensures raw' == Join(parts + When(list != [], key, Join(Numbers(list), COMMA)), SEMICOLON)
  {
    hide Join, Numbers, Part;
    NoPart(parts);
    raw' := raw;
    if list != [] {
      var text := JoinInts(list);
      raw' := AddPart(raw, key, text, parts);
    }
  }

  method AddWeekdays(raw: Bytes, list: seq<ByWeekday>, ghost parts: seq<Bytes>) returns (raw': Bytes)
    requires raw == Join(parts, SEMICOLON) && parts != [] && ValidDays(list)
    ensures raw' == Join(parts + When(list != [], KeyByDay, Join(DayNames(list), COMMA)), SEMICOLON)
  {
    hide Join, DayNames, Part;
    NoPart(parts);
    raw' := raw;
    if list != [] {
      var text := JoinWeekdays(list);
      raw' := AddPart(raw, KeyByDay, text, parts);
    }
  }

  method AddUntil(raw: Bytes, until: int, stamp: int -> Option<Bytes>, ghost parts: seq<Bytes>) returns (raw': Bytes)
    requires raw == Join(parts, SEMICOLON) && parts != []
    ensures raw' == Join(parts + UntilPart(until, stamp), SEMICOLON)
  {
    hide Join, Part;
    NoPart(parts);
    raw' := raw;
    if until != -1 {
      var text := stamp(until);
      if text.Some? {
        raw' := AddPart(raw, KeyUntil, text.value, parts);
      }
    }
  }

  method BuildFirst(r: Rrule) returns (raw: Bytes)
    ensures raw == Join(FirstParts(r), SEMICOLON) && FirstParts(r) != []
  {
    hide Join, Part, Numbers, ToString, FreqText, When;
    raw := StartFreq(r.freq);
    ghost var parts := [Part(KeyFreq, FreqText(r.freq))];
    raw := AddNumber(raw, KeyInterval, r.interval, 1, parts);
    parts := parts + When(r.interval != 1, KeyInterval, ToString(r.interval));
    raw := AddInts(raw, KeyBySetPos, r.bysetpos, parts);
    parts := parts + When(r.bysetpos != [], KeyBySetPos, Join(Numbers(r.bysetpos), COMMA));
    raw := AddInts(raw, KeyByWeekNo, r.byweekno, parts);
    parts := parts + When(r.byweekno != [], KeyByWeekNo, Join(Numbers(r.byweekno), COMMA));
    raw := AddNumber(raw, KeyCount, r.count, -1, parts);
  }

  method Build(r: Rrule, stamp: int -> Option<Bytes>) returns (raw: Bytes)
    requires ValidDays(r.byweekday)
    ensures raw == Built(r, stamp)
  {
    hide Join, Part, Numbers, DayNames, When, UntilPart, FirstParts, ValidDays;
    if r.freq == NoFreq {
      return [];
    }
    raw := BuildFirst(r);
    ghost var parts := FirstParts(r);
    raw := AddUntil(raw, r.until, stamp, parts);
    parts := parts + UntilPart(r.until, stamp);
    raw := AddInts(raw, KeyByMonth, r.bymonth, parts);
    parts := parts + When(r.bymonth != [], KeyByMonth, Join(Numbers(r.bymonth), COMMA));
    raw := AddInts(raw, KeyByMonthDay, r.bymonthday, parts);
    parts := parts + When(r.bymonthday != [], KeyByMonthDay, Join(Numbers(r.bymonthday), COMMA));
    raw := AddInts(raw, KeyByYearDay, r.byyearday, parts);
    parts := parts + When(r.byyearday != [], KeyByYearDay, Join(Numbers(r.byyearday), COMMA));
    raw := AddWeekdays(raw, r.byweekday, parts);
  }

  method StartFreq(freq: Freq) returns (raw: Bytes)
    ensures raw == Join([Part(KeyFreq, FreqText(freq))], SEMICOLON)
  {
    raw := KeyText(KeyFreq) + [EQUALS] + FreqText(freq);
  }

  // ---- what is written is read back ----

  /** Nothing a reader would trim or split at. */
  predicate Visible(value: Bytes) {
    value != [] && forall i :: 0 <= i < |value| ==> !IsSpace(value[i]) && value[i] != SEMICOLON
  }

  lemma TrimVisible(value: Bytes)
    requires Visible(value)
    ensures Trimmed(value) == value
  {
  }

  lemma ReadOne(r: Rrule, key: Key, value: Bytes, until: Bytes -> int)
    requires key != KeyUnknown && Visible(value)
    ensures ReadPart(r, Part(key, value), until) == SetPart(r, key, value, until)
  {
    hide SetPart, KeyText, KeyOf, Lower, Trimmed, Visible;
    var part := Part(key, value);
    KeyOfText(key);
    IndexOfToken(KeyText(key), value);
    assert part[..|KeyText(key)|] == KeyText(key) && part[|KeyText(key)| + 1..] == value;
    TrimVisible(value);
  }

  lemma ReadWhen(r: Rrule, front: seq<Bytes>, shown: bool, key: Key, value: Bytes, until: Bytes -> int)
    requires key != KeyUnknown && (shown ==> Visible(value))
    ensures ReadParts(r, front + When(shown, key, value), until) ==
            if shown then SetPart(ReadParts(r, front, until), key, value, until) else ReadParts(r, front, until)
  {
    hide SetPart, ReadPart, Part;
    if shown {
      var parts := front + [Part(key, value)];
      assert parts[..|parts| - 1] == front;
      ReadOne(ReadParts(r, front, until), key, value, until);
    } else {
      assert front + [] == front;
    }
  }

  lemma VisibleNumber(i: int)
    ensures Visible(ToString(i)) && COMMA !in ToString(i)
  {
  }

  lemma {:induction false} JoinVisible(tokens: seq<Bytes>)
    requires tokens != [] && forall t :: t in tokens ==> Visible(t)
    ensures Visible(Join(tokens, COMMA))
    decreases |tokens|
  {
    var last := tokens[|tokens| - 1];
    assert last in tokens;
    if |tokens| > 1 {
      JoinVisible(tokens[..|tokens| - 1]);
    }
  }

  lemma {:induction false} IntsOfNumbers(list: seq<int>)
    ensures Ints(Numbers(list)) == list
    decreases |list|
  {
    hide Atoi, ToString;
    if list != [] {
      var front, last := list[..|list| - 1], list[|list| - 1];
      IntsOfNumbers(front);
      AtoiToString(last, []);
      WithNothing(ToString(last));
      assert Numbers(list)[..|list| - 1] == Numbers(front);
    }
  }

  lemma NumbersVisible(list: seq<int>)
    ensures forall t :: t in Numbers(list) ==> Visible(t) && IsToken(t, COMMA)
  {
    hide ToString, Visible;
    forall i | 0 <= i < |list|
      ensures Visible(Numbers(list)[i]) && IsToken(Numbers(list)[i], COMMA)
    {
      VisibleNumber(list[i]);
    }
  }

  lemma NumberList(list: seq<int>)
    requires list != []
    ensures IntList(Join(Numbers(list), COMMA)) == list && Visible(Join(Numbers(list), COMMA))
  {
    hide Ints, Numbers, Join, Split, Visible;
    IntsOfNumbers(list);
    NumbersVisible(list);
    SplitJoin(Numbers(list), COMMA);
    JoinVisible(Numbers(list));
  }

  function Lowered(tokens: seq<Bytes>): (r: seq<Bytes>)
    ensures |r| == |tokens| && forall i :: 0 <= i < |r| ==> r[i] == Lower(tokens[i])
  {
    if tokens == [] then [] else Lowered(tokens[..|tokens| - 1]) + [Lower(tokens[|tokens| - 1])]
  }

  lemma {:induction false} LowerJoin(tokens: seq<Bytes>)
    ensures Lower(Join(tokens, COMMA)) == Join(Lowered(tokens), COMMA)
    decreases |tokens|
  {
    hide Lower;
    if |tokens| > 1 {
      var front, last := tokens[..|tokens| - 1], tokens[|tokens| - 1];
      LowerJoin(front);
      LowerAppend(Join(front, COMMA) + [COMMA], last);
      LowerAppend(Join(front, COMMA), [COMMA]);
      LowerComma();
      JoinSnoc(Lowered(front), Lower(last), COMMA);
    } else if |tokens| == 0 {
      LowerNothing();
    }
  }

  lemma LowerComma()
    ensures Lower([COMMA]) == [COMMA]
  {
  }

  lemma LowerNothing()
    ensures Lower([]) == []
  {
  }

  /** Digits, a minus sign and capital letters. */
  lemma WeekdayChars(w: ByWeekday)
    requires 0 <= w.day <= 6
    ensures WeekdayText(w) != []
    ensures forall c :: c in WeekdayText(w) ==> IsDigit(c) || c == MINUS || 65 <= c <= 90
  {
    hide ToString, DayText;
  }

  lemma VisibleWeekday(w: ByWeekday)
    requires 0 <= w.day <= 6
    ensures Visible(WeekdayText(w)) && IsToken(Lower(WeekdayText(w)), COMMA)
  {
    WeekdayChars(w);
    hide WeekdayText;
    var text := WeekdayText(w);
    assert forall i :: 0 <= i < |text| ==> text[i] in text;
  }

  lemma {:induction false} WeekdaysOfNames(list: seq<ByWeekday>)
    requires ValidDays(list)
    ensures WeekdaysOf(Lowered(DayNames(list))) == list
    ensures forall t :: t in Lowered(DayNames(list)) ==> IsToken(t, COMMA)
    ensures forall t :: t in DayNames(list) ==> Visible(t)
    decreases |list|
  {
    hide WeekdayOfToken, WeekdayText, Lower, Visible;
    if list != [] {
      var front, last := list[..|list| - 1], list[|list| - 1];
      assert last in list;
      WeekdaysOfNames(front);
      WeekdayRoundTrip(last);
      VisibleWeekday(last);
      assert DayNames(list)[..|list| - 1] == DayNames(front);
      assert Lowered(DayNames(list))[..|list| - 1] == Lowered(DayNames(front));
    }
  }

  lemma NameList(list: seq<ByWeekday>)
    requires list != [] && ValidDays(list)
    ensures WeekdayList(Join(DayNames(list), COMMA)) == list && Visible(Join(DayNames(list), COMMA))
  {
    hide WeekdaysOf, DayNames, Join, Split, Visible, Lower, Lowered;
    WeekdaysOfNames(list);
    LowerJoin(DayNames(list));
    SplitJoin(Lowered(DayNames(list)), COMMA);
    JoinVisible(DayNames(list));
  }

  /** Reading one more list, or one more number, of a rule under construction. */
  lemma ReadInts1(r: Rrule, front: seq<Bytes>, key: Key, list: seq<int>, until: Bytes -> int)
    requires key == KeyBySetPos || key == KeyByWeekNo || key == KeyByMonth || key == KeyByMonthDay ||
             key == KeyByYearDay
    ensures ReadParts(r, front + When(list != [], key, Join(Numbers(list), COMMA)), until) ==
            AddList(ReadParts(r, front, until), key, list)
  {
    hide ReadParts, Join, Numbers, IntList, When, Visible;
    if list != [] { NumberList(list); }
    ReadWhen(r, front, list != [], key, Join(Numbers(list), COMMA), until);
    NothingAdded(ReadParts(r, front, until), key);
  }

  function AddList(r: Rrule, key: Key, list: seq<int>): Rrule {
    match key
    case KeyByMonth => r.(bymonth := r.bymonth + list)
    case KeyByMonthDay => r.(bymonthday := r.bymonthday + list)
    case KeyByYearDay => r.(byyearday := r.byyearday + list)
    case KeyBySetPos => r.(bysetpos := r.bysetpos + list)
    case KeyByWeekNo => r.(byweekno := r.byweekno + list)
    case _ => r
  }

  lemma NothingAdded(r: Rrule, key: Key)
    ensures AddList(r, key, []) == r
  {
    assert r.bymonth + [] == r.bymonth && r.bymonthday + [] == r.bymonthday && r.byyearday + [] == r.byyearday;
    assert r.bysetpos + [] == r.bysetpos && r.byweekno + [] == r.byweekno;
  }

  lemma ReadNumber(r: Rrule, front: seq<Bytes>, key: Key, shown: bool, number: int, until: Bytes -> int)
    requires key == KeyInterval || key == KeyCount
    ensures ReadParts(r, front + When(shown, key, ToString(number)), until) ==
            var before := ReadParts(r, front, until);
            if !shown then before
            else if key == KeyInterval then before.(interval := number)
            else before.(count := number)
  {
    hide ReadParts, ToString, Atoi, When, Visible;
    VisibleNumber(number);
    AtoiToString(number, []);
    WithNothing(ToString(number));
    ReadWhen(r, front, shown, key, ToString(number), until);
  }

  lemma ReadNames(r: Rrule, front: seq<Bytes>, list: seq<ByWeekday>, until: Bytes -> int)
    requires ValidDays(list)
    ensures ReadParts(r, front + When(list != [], KeyByDay, Join(DayNames(list), COMMA)), until) ==
            var before := ReadParts(r, front, until); before.(byweekday := before.byweekday + list)
  {
    hide ReadParts, Join, DayNames, WeekdayList, When, Visible;
    if list != [] { NameList(list); }
    ReadWhen(r, front, list != [], KeyByDay, Join(DayNames(list), COMMA), until);
    var before := ReadParts(r, front, until);
    assert before.byweekday + [] == before.byweekday;
  }

  lemma ReadFreq(freq: Freq, until: Bytes -> int)
    requires freq != NoFreq
    ensures ReadParts(EMPTY_RULE, [Part(KeyFreq, FreqText(freq))], until) == EMPTY_RULE.(freq := freq)
  {
    assert Visible(FreqText(freq));
    FreqOfText(freq, NoFreq);
    var parts := [Part(KeyFreq, FreqText(freq))];
    assert parts[..0] == [];
    assert ReadParts(EMPTY_RULE, [], until) == EMPTY_RULE;
    hide ReadPart, Part, FreqText, FreqOf, Lower;
    ReadOne(EMPTY_RULE, KeyFreq, FreqText(freq), until);
  }

  lemma ReadFirst(r: Rrule, until: Bytes -> int)
    requires r.freq != NoFreq
    ensures ReadParts(EMPTY_RULE, FirstParts(r), until) ==
            Rrule(r.freq, r.interval, r.count, -1, r.bysetpos, r.byweekno, [], [], [], [])
  {
    hide ReadParts, When, Part, Numbers, Join, ToString, FreqText;
    var e := EMPTY_RULE;
    ReadFreq(r.freq, until);
    var p0 := [Part(KeyFreq, FreqText(r.freq))];
    var p1 := p0 + When(r.interval != 1, KeyInterval, ToString(r.interval));
    ReadNumber(e, p0, KeyInterval, r.interval != 1, r.interval, until);
    var p2 := p1 + When(r.bysetpos != [], KeyBySetPos, Join(Numbers(r.bysetpos), COMMA));
    ReadInts1(e, p1, KeyBySetPos, r.bysetpos, until);
    var p3 := p2 + When(r.byweekno != [], KeyByWeekNo, Join(Numbers(r.byweekno), COMMA));
    ReadInts1(e, p2, KeyByWeekNo, r.byweekno, until);
    ReadNumber(e, p3, KeyCount, r.count != -1, r.count, until);
    assert [] + r.bysetpos == r.bysetpos && [] + r.byweekno == r.byweekno;
  }

  /** Reading the parts of a rule without an end date gives the rule. */
  lemma ReadAll(r: Rrule, stamp: int -> Option<Bytes>, until: Bytes -> int)
    requires r.freq != NoFreq && r.until == -1 && ValidDays(r.byweekday)
    ensures ReadParts(EMPTY_RULE, Parts(r, stamp), until) == r
  {
    hide ReadParts, When, Part, Numbers, DayNames, Join, FirstParts, ValidDays;
    var e := EMPTY_RULE;
    ReadFirst(r, until);
    NoPart(FirstParts(r));
    var p5 := FirstParts(r) + UntilPart(r.until, stamp);
    var p6 := p5 + When(r.bymonth != [], KeyByMonth, Join(Numbers(r.bymonth), COMMA));
    ReadInts1(e, p5, KeyByMonth, r.bymonth, until);
    var p7 := p6 + When(r.bymonthday != [], KeyByMonthDay, Join(Numbers(r.bymonthday), COMMA));
    ReadInts1(e, p6, KeyByMonthDay, r.bymonthday, until);
    var p8 := p7 + When(r.byyearday != [], KeyByYearDay, Join(Numbers(r.byyearday), COMMA));
    ReadInts1(e, p7, KeyByYearDay, r.byyearday, until);
    ReadNames(e, p8, r.byweekday, until);
    assert [] + r.bymonth == r.bymonth && [] + r.bymonthday == r.bymonthday && [] + r.byyearday == r.byyearday;
    assert [] + r.byweekday == r.byweekday;
  }

  lemma VisiblePart(key: Key, value: Bytes)
    requires key != KeyUnknown && Visible(value)
    ensures IsToken(Part(key, value), SEMICOLON)
  {
    hide KeyText;
    KeyOfText(key);
  }

  predicate AllTokens(parts: seq<Bytes>) {
    forall t :: t in parts ==> IsToken(t, SEMICOLON)
  }

  lemma TokensWhen(shown: bool, key: Key, value: Bytes)
    requires key != KeyUnknown && (shown ==> Visible(value))
    ensures AllTokens(When(shown, key, value))
  {
    hide Part, Visible, IsToken;
    if shown { VisiblePart(key, value); }
  }

  lemma TokensInts(key: Key, list: seq<int>)
    requires key != KeyUnknown
    ensures AllTokens(When(list != [], key, Join(Numbers(list), COMMA)))
  {
    hide When, Join, Numbers, AllTokens, Visible, IntList;
    if list != [] { NumberList(list); }
    TokensWhen(list != [], key, Join(Numbers(list), COMMA));
  }

  lemma TokensNames(list: seq<ByWeekday>)
    requires ValidDays(list)
    ensures AllTokens(When(list != [], KeyByDay, Join(DayNames(list), COMMA)))
  {
    hide When, Join, DayNames, AllTokens, Visible, WeekdayList;
    if list != [] { NameList(list); }
    TokensWhen(list != [], KeyByDay, Join(DayNames(list), COMMA));
  }

  lemma TokensBoth(a: seq<Bytes>, b: seq<Bytes>)
    requires AllTokens(a) && AllTokens(b)
    ensures AllTokens(a + b)
  {
    hide IsToken;
  }

  lemma FirstAreTokens(r: Rrule)
    requires r.freq != NoFreq
    ensures FirstParts(r) != [] && AllTokens(FirstParts(r))
  {
    assert Visible(FreqText(r.freq));
    hide When, Part, Numbers, Join, ToString, FreqText, AllTokens, Visible;
    TokensFreq(r.freq);
    var p0 := [Part(KeyFreq, FreqText(r.freq))];
    var w1 := When(r.interval != 1, KeyInterval, ToString(r.interval));
    VisibleNumber(r.interval);
    TokensWhen(r.interval != 1, KeyInterval, ToString(r.interval));
    TokensBoth(p0, w1);
    var w2 := When(r.bysetpos != [], KeyBySetPos, Join(Numbers(r.bysetpos), COMMA));
    TokensInts(KeyBySetPos, r.bysetpos);
    TokensBoth(p0 + w1, w2);
    var w3 := When(r.byweekno != [], KeyByWeekNo, Join(Numbers(r.byweekno), COMMA));
    TokensInts(KeyByWeekNo, r.byweekno);
    TokensBoth(p0 + w1 + w2, w3);
    VisibleNumber(r.count);
    TokensWhen(r.count != -1, KeyCount, ToString(r.count));
    TokensBoth(p0 + w1 + w2 + w3, When(r.count != -1, KeyCount, ToString(r.count)));
  }

  /** No part of a rule without an end date contains a semicolon. */
  lemma PartsAreTokens(r: Rrule, stamp: int -> Option<Bytes>)
    requires r.freq != NoFreq && r.until == -1 && ValidDays(r.byweekday)
    ensures Parts(r, stamp) != [] && AllTokens(Parts(r, stamp))
  {
    hide When, Part, Numbers, DayNames, Join, FirstParts, ValidDays, AllTokens;
    FirstAreTokens(r);
    NoPart(FirstParts(r));
    var p4 := FirstParts(r) + UntilPart(r.until, stamp);
    var w6 := When(r.bymonth != [], KeyByMonth, Join(Numbers(r.bymonth), COMMA));
    TokensInts(KeyByMonth, r.bymonth);
    TokensBoth(p4, w6);
    var w7 := When(r.bymonthday != [], KeyByMonthDay, Join(Numbers(r.bymonthday), COMMA));
    TokensInts(KeyByMonthDay, r.bymonthday);
    TokensBoth(p4 + w6, w7);
    var w8 := When(r.byyearday != [], KeyByYearDay, Join(Numbers(r.byyearday), COMMA));
    TokensInts(KeyByYearDay, r.byyearday);
    TokensBoth(p4 + w6 + w7, w8);
    TokensNames(r.byweekday);
    TokensBoth(p4 + w6 + w7 + w8, When(r.byweekday != [], KeyByDay, Join(DayNames(r.byweekday), COMMA)));
  }

  lemma TokensFreq(freq: Freq)
    requires Visible(FreqText(freq))
    ensures AllTokens([Part(KeyFreq, FreqText(freq))])
  {
    hide Part, FreqText, Visible, IsToken;
    VisiblePart(KeyFreq, FreqText(freq));
  }

  /** A rule with nothing left to default is read back from its text as it was. */
  lemma BuildThenParse(r: Rrule, local: Option<Local>, stamp: int -> Option<Bytes>, until: Bytes -> int)
    requires r.freq != NoFreq && r.until == -1 && ValidDays(r.byweekday) && WithDefaults(r, local) == r
    ensures Parsed(Built(r, stamp), local, until) == r
  {
    hide Split, Join, Parts, ReadParts, WithDefaults, ValidDays, IsToken;
    PartsAreTokens(r, stamp);
    SplitJoin(Parts(r, stamp), SEMICOLON);
    ReadAll(r, stamp, until);
  }

  lemma {:induction false} ReadValidDays(parts: seq<Bytes>, until: Bytes -> int)
    ensures ValidDays(ReadParts(EMPTY_RULE, parts, until).byweekday)
    decreases |parts|
  {
    hide WeekdayList, IntList, KeyOf, Lower, Trimmed, FreqOf;
    if parts != [] { ReadValidDays(parts[..|parts| - 1], until); }
  }

  /** Filling in defaults twice is filling them in once. */
  lemma DefaultsTwice(r: Rrule, local: Option<Local>)
    ensures WithDefaults(WithDefaults(r, local), local) == WithDefaults(r, local)
  {
  }

  /** The normal form: a rule read from any text with a known frequency and no end date is written as a text that
      gives the same rule again, whether or not the start of the event was needed, or could be looked up. */
  lemma NormalFormStable(text: Bytes, local: Option<Local>, stamp: int -> Option<Bytes>, until: Bytes -> int)
    requires Parsed(text, local, until).freq != NoFreq && Parsed(text, local, until).until == -1
    ensures ValidDays(Parsed(text, local, until).byweekday)
    ensures Parsed(Built(Parsed(text, local, until), stamp), local, until) == Parsed(text, local, until)
  {
    var read := ReadParts(EMPTY_RULE, Split(text, SEMICOLON), until);
    ReadValidDays(Split(text, SEMICOLON), until);
    DefaultsValid(read, local);
    DefaultsTwice(read, local);
    hide ReadParts, Split, WithDefaults, Built, ValidDays;
    BuildThenParse(Parsed(text, local, until), local, stamp, until);
  }

  lemma DefaultsValid(r: Rrule, local: Option<Local>)
    requires ValidDays(r.byweekday)
    ensures ValidDays(WithDefaults(r, local).byweekday)
  {
  }

  /** A weekday token keeps its ordinal exactly when it does not begin with a plus sign or a blank, or has no ordinal.
      */
  lemma OrdinalKeptExactly(token: Bytes)
    requires DayOf(UpToNul(FromLetter(token))).Some?
    ensures |WeekdayOfToken(token)| == 1
    ensures WeekdayOfToken(token)[0].sn == Atoi(token) <==>
            !(token != [] && (token[0] == PLUS || IsSpace(token[0]))) || Atoi(token) == 0
  {
    hide UpToNul, FromLetter, DayOf;
    if token == [] || !(token[0] == PLUS || IsSpace(token[0]) || token[0] == MINUS || IsDigit(token[0])) {
      NoNumber(token);
    }
  }

  /** A text that does not begin with a blank, a sign or a digit reads as 0. */
  lemma NoNumber(s: Bytes)
    requires s == [] || !(s[0] == PLUS || IsSpace(s[0]) || s[0] == MINUS || IsDigit(s[0]))
    ensures Atoi(s) == 0
  {
  }

  /** With a plus sign in front of any ordinal the n-th weekday becomes every such weekday; without it, it is read. */
  lemma PlusIsLost(n: nat, day: Weekday)
    requires n > 0
    ensures WeekdayOfToken([PLUS] + (Decimal(n) + Lower(DayText(day)))) == [ByWeekday(day, 0)]
    ensures WeekdayOfToken(Decimal(n) + Lower(DayText(day))) == [ByWeekday(day, n)]
  {
    hide Decimal, DayText, Lower, DayOf, FromLetter, UpToNul, Atoi;
    var name := Lower(DayText(day));
    assert name[0] == LowerByte(DayText(day)[0]) && name[1] == LowerByte(DayText(day)[1]);
    assert ToString(n) == Decimal(n);
    FromLetterBehind(Decimal(n), name);
    SkipPlus(Decimal(n) + name);
    UpToNulTwo(name);
    LowerDay(day);
    AtoiToString(n, name);
    assert (Decimal(n) + name)[0] == Decimal(n)[0];
  }

  lemma SkipPlus(rest: Bytes)
    ensures FromLetter([PLUS] + rest) == FromLetter(rest)
  {
    Behind(PLUS, rest);
  }
}
