/** The text of a recurrence rule: the parser, the printer, and the normal form they agree on. */
module RruleText {
  import opened Bytes
  import opened Options
  import opened Ascii
  import opened ContentLine
  import opened EventMatcher

  // ---- numbers ----

  predicate IsDigit(c: byte) { 48 <= c <= 57 }

  predicate IsAlpha(c: byte) { 65 <= c <= 90 || 97 <= c <= 122 }

  predicate IsSpace(c: byte) { c == 32 || 9 <= c <= 13 }

  function SkipSpaces(s: Bytes): Bytes {
    if s != [] && IsSpace(s[0]) then SkipSpaces(s[1..]) else s
  }

  function Number(s: Bytes, value: nat): nat
    decreases |s|
  {
    if s == [] || !IsDigit(s[0]) then value else Number(s[1..], value * 10 + (s[0] - 48))
  }

  /** The number a text begins with; 0 when there is none. */
  function Atoi(s: Bytes): int {
    var t := SkipSpaces(s);
    if t != [] && t[0] == MINUS then 0 - Number(t[1..], 0)
    else if t != [] && t[0] == PLUS then Number(t[1..], 0)
    else Number(t, 0)
  }

  function Decimal(n: nat): (r: Bytes)
    ensures r != [] && forall i :: 0 <= i < |r| ==> IsDigit(r[i])
  {
    if n < 10 then [n + 48] else Decimal(n / 10) + [n % 10 + 48]
  }

  function ToString(i: int): (r: Bytes)
    ensures r != [] && forall k :: 0 <= k < |r| ==> IsDigit(r[k]) || r[k] == MINUS
  {
    if i < 0 then [MINUS] + Decimal(-i) else Decimal(i)
  }

  lemma {:induction false} NumberDecimal(n: nat, rest: Bytes)
    ensures Number(Decimal(n) + rest, 0) == Number(rest, n)
    decreases n
  {
    if n < 10 {
      Behind(n + 48, rest);
    } else {
      var d: byte := n % 10 + 48;
      Associative(Decimal(n / 10), [d], rest);
      NumberDecimal(n / 10, [d] + rest);
      Behind(d, rest);
    }
  }

  /** A printed number is read back, whatever follows it, unless that is a digit. */
  lemma AtoiToString(i: int, rest: Bytes)
    requires rest == [] || !IsDigit(rest[0])
    ensures Atoi(ToString(i) + rest) == i
  {
    hide Decimal;
    var s := ToString(i) + rest;
    assert s[0] == ToString(i)[0];
    if i < 0 {
      NumberDecimal(-i, rest);
      assert s[1..] == Decimal(-i) + rest;
    } else {
      NumberDecimal(i, rest);
    }
  }

  // ---- tokens ----

  /** The tokens between delimiters, empty ones left out. */
  function Tokens(s: Bytes, delimiter: byte, token: Bytes): seq<Bytes>
    decreases |s|
  {
    if s == [] then (if token == [] then [] else [token])
    else if s[0] == delimiter then (if token == [] then [] else [token]) + Tokens(s[1..], delimiter, [])
    else Tokens(s[1..], delimiter, token + [s[0]])
  }

  /** A text of delimiters only gives one empty token. */
  function Split(s: Bytes, delimiter: byte): seq<Bytes> {
    if s == [] then []
    else if Tokens(s, delimiter, []) == [] then [[]]
    else Tokens(s, delimiter, [])
  }

  method SplitIgnoringEmpty(s: Bytes, delimiter: byte) returns (r: seq<Bytes>)
    ensures r == Split(s, delimiter)
  {
    if |s| == 0 {
      return [];
    }
    r := [];
    var token: Bytes, added := [], false;
    assert s[0..] == s;
    for i := 0 to |s|
      invariant r + Tokens(s[i..], delimiter, token) == Tokens(s, delimiter, [])
      invariant added ==> token == []
    {
      assert s[i..][1..] == s[i + 1..];
      var ch := s[i];
      if ch == delimiter {
        if !added {
          if token != [] {
            r := r + [token];
          }
          token := [];
          added := true;
        }
      } else {
        token := token + [ch];
        added := false;
      }
    }
    assert s[|s|..] == [];
    if token != [] {
      r := r + [token];
    }
    if r == [] {
      r := [[]];
    }
  }

  /** Tokens written one after the other with the delimiter between them. */
  function Join(tokens: seq<Bytes>, delimiter: byte): Bytes {
    if tokens == [] then []
    else if |tokens| == 1 then tokens[0]
    else Join(tokens[..|tokens| - 1], delimiter) + [delimiter] + tokens[|tokens| - 1]
  }

  lemma {:induction false} TokensOne(t: Bytes, rest: Bytes, delimiter: byte, token: Bytes)
    requires delimiter !in t
    ensures Tokens(t + rest, delimiter, token) == Tokens(rest, delimiter, token + t)
    decreases |t|
  {
    if t == [] {
      WithNothing(rest);
      WithNothing(token);
    } else {
      assert (t + rest)[1..] == t[1..] + rest;
      Associative(token, [t[0]], t[1..]);
      assert [t[0]] + t[1..] == t;
      TokensOne(t[1..], rest, delimiter, token + [t[0]]);
    }
  }

  predicate IsToken(t: Bytes, delimiter: byte) {
    t != [] && delimiter !in t
  }

  lemma {:induction false} TokensJoin(tokens: seq<Bytes>, rest: Bytes, delimiter: byte)
    requires tokens != [] && forall t :: t in tokens ==> IsToken(t, delimiter)
    requires rest == [] || rest[0] == delimiter
    ensures Tokens(Join(tokens, delimiter) + rest, delimiter, []) == tokens + Tokens(rest, delimiter, [])
    decreases |tokens|
  {
    var last := tokens[|tokens| - 1];
    assert IsToken(last, delimiter) by { assert last in tokens; }
    TokensEnd(rest, delimiter, last);
    TokensOne(last, rest, delimiter, []);
    WithNothing(last);
    hide Tokens, IsToken;
    if |tokens| == 1 {
      assert tokens == [last];
    } else {
      var front := tokens[..|tokens| - 1];
      hide Join;
      JoinSnoc(front, last, delimiter);
      assert tokens == front + [last];
      var tail := last + rest;
      Associative(Join(front, delimiter) + [delimiter], last, rest);
      Associative(Join(front, delimiter), [delimiter], tail);
      assert forall t :: t in front ==> t in tokens;
      TokensJoin(front, [delimiter] + tail, delimiter);
      TokensDelimiter(tail, delimiter);
      OneMore(front, last, Tokens(rest, delimiter, []));
    }
  }

  lemma OneMore(front: seq<Bytes>, last: Bytes, rest: seq<Bytes>)
    ensures front + ([last] + rest) == front + [last] + rest
  {
  }

  lemma JoinSnoc(front: seq<Bytes>, last: Bytes, delimiter: byte)
    requires front != []
    ensures Join(front + [last], delimiter) == Join(front, delimiter) + [delimiter] + last
  {
    assert (front + [last])[..|front|] == front;
  }

  lemma TokensDelimiter(rest: Bytes, delimiter: byte)
    ensures Tokens([delimiter] + rest, delimiter, []) == Tokens(rest, delimiter, [])
  {
    Behind(delimiter, rest);
  }

  /** A token ends where a delimiter or nothing follows. */
  lemma TokensEnd(rest: Bytes, delimiter: byte, token: Bytes)
    requires token != [] && (rest == [] || rest[0] == delimiter)
    ensures Tokens(rest, delimiter, token) == [token] + Tokens(rest, delimiter, [])
  {
  }

  /** Splitting undoes joining. */
  lemma SplitJoin(tokens: seq<Bytes>, delimiter: byte)
    requires tokens != [] && forall t :: t in tokens ==> IsToken(t, delimiter)
    ensures Split(Join(tokens, delimiter), delimiter) == tokens
  {
    hide Tokens, Join;
    TokensJoin(tokens, [], delimiter);
    WithNothing(Join(tokens, delimiter));
    assert Tokens([], delimiter, []) == [] by { NoTokens(delimiter); }
    assert tokens + [] == tokens;
    JoinNonEmpty(tokens, delimiter);
  }

  lemma NoTokens(delimiter: byte)
    ensures Tokens([], delimiter, []) == []
  {
  }

  lemma JoinNonEmpty(tokens: seq<Bytes>, delimiter: byte)
    requires tokens != [] && forall t :: t in tokens ==> IsToken(t, delimiter)
    ensures Join(tokens, delimiter) != []
  {
    assert tokens[|tokens| - 1] in tokens;
  }

  // ---- the parts of a rule ----

  datatype Key =
    | KeyFreq | KeyCount | KeyInterval | KeyUntil | KeyByMonth | KeyByMonthDay | KeyByYearDay | KeyByDay
    | KeyBySetPos | KeyByWeekNo | KeyUnknown

  /** The name of a part as it is printed; in lower case, as it is looked for. */
  function KeyText(key: Key): Bytes {
    match key
    case KeyFreq => [70, 82, 69, 81]
    case KeyCount => [67, 79, 85, 78, 84]
    case KeyInterval => [73, 78, 84, 69, 82, 86, 65, 76]
    case KeyUntil => [85, 78, 84, 73, 76]
    case KeyByMonth => [66, 89, 77, 79, 78, 84, 72]
    case KeyByMonthDay => [66, 89, 77, 79, 78, 84, 72, 68, 65, 89]
    case KeyByYearDay => [66, 89, 89, 69, 65, 82, 68, 65, 89]
    case KeyByDay => [66, 89, 68, 65, 89]
    case KeyBySetPos => [66, 89, 83, 69, 84, 80, 79, 83]
    case KeyByWeekNo => [66, 89, 87, 69, 69, 75, 78, 79]
    case KeyUnknown => []
  }

  /** The name in lower case, as the parser compares it. */
  function KeyLower(key: Key): Bytes {
    match key
    case KeyFreq => [102, 114, 101, 113]
    case KeyCount => [99, 111, 117, 110, 116]
    case KeyInterval => [105, 110, 116, 101, 114, 118, 97, 108]
    case KeyUntil => [117, 110, 116, 105, 108]
    case KeyByMonth => [98, 121, 109, 111, 110, 116, 104]
    case KeyByMonthDay => [98, 121, 109, 111, 110, 116, 104, 100, 97, 121]
    case KeyByYearDay => [98, 121, 121, 101, 97, 114, 100, 97, 121]
    case KeyByDay => [98, 121, 100, 97, 121]
    case KeyBySetPos => [98, 121, 115, 101, 116, 112, 111, 115]
    case KeyByWeekNo => [98, 121, 119, 101, 101, 107, 110, 111]
    case KeyUnknown => []
  }

  function KeyOf(lower: Bytes): Key {
    if lower == KeyLower(KeyFreq) then KeyFreq
    else if lower == KeyLower(KeyCount) then KeyCount
    else if lower == KeyLower(KeyInterval) then KeyInterval
    else if lower == KeyLower(KeyUntil) then KeyUntil
    else if lower == KeyLower(KeyByMonth) then KeyByMonth
    else if lower == KeyLower(KeyByMonthDay) then KeyByMonthDay
    else if lower == KeyLower(KeyByYearDay) then KeyByYearDay
    else if lower == KeyLower(KeyByDay) then KeyByDay
    else if lower == KeyLower(KeyBySetPos) then KeyBySetPos
    else if lower == KeyLower(KeyByWeekNo) then KeyByWeekNo
    else KeyUnknown
  }

  /** No two names are the same: they differ in length or in one of these letters. */
  lemma KeysApart(a: Key, b: Key)
    requires a != KeyUnknown && b != KeyUnknown && KeyLower(a) == KeyLower(b)
    ensures a == b
  {
    var x, y := KeyLower(a), KeyLower(b);
    assert |x| == |y| && x[0] == y[0] && x[2] == y[2];
  }

  lemma LowerIs(s: Bytes, lower: Bytes)
    requires |s| == |lower| && forall i :: 0 <= i < |s| ==> lower[i] == LowerByte(s[i])
    ensures Lower(s) == lower
  {
  }

  lemma LowerOfKey(key: Key)
    ensures Lower(KeyText(key)) == KeyLower(key)
  {
    hide Lower;
    LowerIs(KeyText(key), KeyLower(key));
  }

  lemma KeyOfLower(key: Key)
    requires key != KeyUnknown
    ensures KeyOf(KeyLower(key)) == key
  {
    var found := KeyOf(KeyLower(key));
    hide KeyLower;
    if found != KeyUnknown { KeysApart(key, found); }
  }

  lemma KeyOfText(key: Key)
    requires key != KeyUnknown
    ensures KeyOf(Lower(KeyText(key))) == key
    ensures EQUALS !in KeyText(key) && SEMICOLON !in KeyText(key)
  {
    hide Lower, KeyOf, KeyLower;
    LowerOfKey(key);
    KeyOfLower(key);
  }

  function FreqText(freq: Freq): Bytes {
    match freq
    case Daily => [68, 65, 73, 76, 89]
    case Weekly => [87, 69, 69, 75, 76, 89]
    case Monthly => [77, 79, 78, 84, 72, 76, 89]
    case Yearly => [89, 69, 65, 82, 76, 89]
    case NoFreq => [110, 111, 110, 101]
  }

  /** An unknown frequency leaves what was there. */
  function FreqOf(lower: Bytes, otherwise: Freq): Freq {
    if lower == [100, 97, 105, 108, 121] then Daily
    else if lower == [119, 101, 101, 107, 108, 121] then Weekly
    else if lower == [109, 111, 110, 116, 104, 108, 121] then Monthly
    else if lower == [121, 101, 97, 114, 108, 121] then Yearly
    else otherwise
  }

  lemma FreqOfText(freq: Freq, otherwise: Freq)
    requires freq != NoFreq
    ensures FreqOf(Lower(FreqText(freq)), otherwise) == freq
  {
    hide Lower;
    match freq
    case Daily => LowerIs(FreqText(freq), [100, 97, 105, 108, 121]);
    case Weekly => LowerIs(FreqText(freq), [119, 101, 101, 107, 108, 121]);
    case Monthly => LowerIs(FreqText(freq), [109, 111, 110, 116, 104, 108, 121]);
    case Yearly => LowerIs(FreqText(freq), [121, 101, 97, 114, 108, 121]);
  }

  // ---- weekdays ----

  type Weekday = w: int | 0 <= w <= 6

  function DayText(day: Weekday): (r: Bytes)
    ensures |r| == 2 && 65 <= r[0] <= 90 && 65 <= r[1] <= 90
  {
    match day
    case 0 => [83, 85]
    case 1 => [77, 79]
    case 2 => [84, 85]
    case 3 => [87, 69]
    case 4 => [84, 72]
    case 5 => [70, 82]
    case _ => [83, 65]
  }

  function DayOf(lower: Bytes): Option<Weekday> {
    if lower == [115, 117] then Some(0)
    else if lower == [109, 111] then Some(1)
    else if lower == [116, 117] then Some(2)
    else if lower == [119, 101] then Some(3)
    else if lower == [116, 104] then Some(4)
    else if lower == [102, 114] then Some(5)
    else if lower == [115, 97] then Some(6)
    else None
  }

  /** A text as far as its first NUL. */
  function UpToNul(s: Bytes): Bytes {
    if s == [] || s[0] == 0 then [] else [s[0]] + UpToNul(s[1..])
  }

  /** From the first letter on, unless a NUL comes first. */
  function FromLetter(s: Bytes): Bytes {
    if s == [] || s[0] == 0 || IsAlpha(s[0]) then s else FromLetter(s[1..])
  }

  /** One weekday, with its ordinal when the token begins with a minus sign or a digit; nothing for an unknown name. */
  function WeekdayOfToken(token: Bytes): (r: seq<ByWeekday>)
    ensures forall w :: w in r ==> 0 <= w.day <= 6
  {
    var sn := if token != [] && (token[0] == MINUS || IsDigit(token[0])) then Atoi(token) else 0;
    match DayOf(UpToNul(FromLetter(token)))
    case None => []
    case Some(day) => [ByWeekday(day, sn)]
  }

  function WeekdaysOf(tokens: seq<Bytes>): (r: seq<ByWeekday>)
    ensures forall w :: w in r ==> 0 <= w.day <= 6
  {
    if tokens == [] then [] else WeekdaysOf(tokens[..|tokens| - 1]) + WeekdayOfToken(tokens[|tokens| - 1])
  }

  function WeekdayText(w: ByWeekday): Bytes
    requires 0 <= w.day <= 6
  {
    (if w.sn != 0 then ToString(w.sn) else []) + DayText(w.day)
  }

  lemma {:induction false} FromLetterBehind(number: Bytes, rest: Bytes)
    requires forall i :: 0 <= i < |number| ==> IsDigit(number[i]) || number[i] == MINUS
    requires rest != [] && IsAlpha(rest[0])
    ensures FromLetter(number + rest) == rest
    decreases |number|
  {
    if number == [] {
      WithNothing(rest);
    } else {
      assert (number + rest)[1..] == number[1..] + rest;
      FromLetterBehind(number[1..], rest);
    }
  }

  lemma UpToNulTwo(s: Bytes)
    requires |s| == 2 && s[0] != 0 && s[1] != 0
    ensures UpToNul(s) == s
  {
    assert s[1..] == [s[1]] && s[1..][1..] == [];
    assert UpToNul(s[1..]) == [s[1]] + UpToNul(s[1..][1..]);
    assert s == [s[0]] + [s[1]];
  }

  lemma LowerDay(day: Weekday)
    ensures DayOf(Lower(DayText(day))) == Some(day)
  {
    var s := DayText(day);
    var lower: Bytes := [s[0] + 32, s[1] + 32];
    LowerIs(s, lower);
    hide Lower;
  }

  lemma LowerAppend(a: Bytes, b: Bytes)
    ensures Lower(a + b) == Lower(a) + Lower(b)
  {
  }

  lemma LowerNumber(i: int)
    ensures Lower(ToString(i)) == ToString(i)
  {
    LowerIs(ToString(i), ToString(i));
  }

  /** A printed weekday, in lower case, is read back. */
  lemma WeekdayRoundTrip(w: ByWeekday)
    requires 0 <= w.day <= 6
    ensures WeekdayOfToken(Lower(WeekdayText(w))) == [w]
  {
    hide Atoi, ToString, DayText, Lower, DayOf, FromLetter, UpToNul;
    var number := if w.sn != 0 then ToString(w.sn) else [];
    var name := Lower(DayText(w.day));
    var token := number + name;
    LowerAppend(number, DayText(w.day));
    if w.sn != 0 { LowerNumber(w.sn); }
    assert Lower(number) == number;
    assert name[0] == LowerByte(DayText(w.day)[0]) && name[1] == LowerByte(DayText(w.day)[1]);
    FromLetterBehind(number, name);
    UpToNulTwo(name);
    LowerDay(w.day);
    if w.sn != 0 {
      AtoiToString(w.sn, name);
      assert token[0] == number[0];
    } else {
      WithNothing(name);
    }
  }
}
