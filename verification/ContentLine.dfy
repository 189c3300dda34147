/** One content line: a key, parameters and a value, as the parser of begin/end texts reads it. */
module ContentLine {
  import opened Bytes
  import opened Ascii
  import opened IcsText

  datatype Param = Param(key: Bytes, value: Bytes)

  datatype Line = Line(key: Bytes, params: seq<Param>, value: Bytes)

  function LowerByte(c: byte): byte {
    if 65 <= c <= 90 then c + 32 else c
  }

  function Lower(s: Bytes): (r: Bytes)
    ensures |r| == |s| && forall i :: 0 <= i < |s| ==> r[i] == LowerByte(s[i])
  {
    if s == [] then [] else Lower(s[..|s| - 1]) + [LowerByte(s[|s| - 1])]
  }

  method ToLower(s: Bytes) returns (r: Bytes)
    ensures r == Lower(s)
  {
    r := s;
    for i := 0 to |s|
      invariant |r| == |s|
      invariant forall k :: 0 <= k < |s| ==> r[k] == if k < i then LowerByte(s[k]) else s[k]
    {
      r := r[i := LowerByte(r[i])];
    }
  }

  // ---- the parts before the value ----

  /** The tokens in front of the first unquoted colon, and what follows it. */
  datatype Head = Head(tokens: seq<Bytes>, rest: Bytes)

  function Before(token: Bytes, head: Head): Head {
    Head([token] + head.tokens, head.rest)
  }

  /** Splits at semicolons outside quotes up to a colon outside quotes; quotes themselves vanish. */
  function Scan(s: Bytes, quoted: bool, token: Bytes): Head
    decreases |s|
  {
    if s == [] then Head(if token == [] then [] else [token], [])
    else if s[0] == QUOTE then Scan(s[1..], !quoted, token)
    else if !quoted && s[0] == SEMICOLON then Before(token, Scan(s[1..], false, []))
    else if !quoted && s[0] == COLON then Head([token], s[1..])
    else Scan(s[1..], quoted, token + [s[0]])
  }

  function IndexOf(s: Bytes, c: byte): (p: nat)
    ensures p <= |s| && c !in s[..p] && (p < |s| ==> s[p] == c)
  {
    if s == [] || s[0] == c then 0
    else
      var p := 1 + IndexOf(s[1..], c);
      assert s[..p] == [s[0]] + s[1..][..p - 1];
      p
  }

  function ParseParam(token: Bytes): Param {
    var p := IndexOf(token, EQUALS);
    if p == |token| then Param(Lower(token), []) else Param(Lower(token[..p]), token[p + 1..])
  }

  function ParseParams(tokens: seq<Bytes>): (ps: seq<Param>)
    ensures |ps| == |tokens| && forall i :: 0 <= i < |ps| ==> ps[i] == ParseParam(tokens[i])
  {
    if tokens == [] then [] else [ParseParam(tokens[0])] + ParseParams(tokens[1..])
  }

  // ---- the value ----

  function Unescaped(c: byte): byte {
    if c == LOWER_R then CR else if c == LOWER_N then LF else if c == LOWER_T then TAB else c
  }

  function Unescape(s: Bytes): Bytes
    decreases |s|
  {
    if s == [] then []
    else if s[0] != BACKSLASH then [s[0]] + Unescape(s[1..])
    else if |s| == 1 then []
    else [Unescaped(s[1])] + Unescape(s[2..])
  }

  function ParseLine(s: Bytes): Line {
    var head := Scan(s, false, []);
    if head.tokens == [] then Line([], [], Unescape(head.rest))
    else Line(Lower(head.tokens[0]), ParseParams(head.tokens[1..]), Unescape(head.rest))
  }

  // ---- the parser itself ----

  method ParseOneParam(params: seq<Param>, token: Bytes) returns (more: seq<Param>)
    ensures more == params + [ParseParam(token)]
  {
    var p := IndexOf(token, EQUALS);
    var key, value: Bytes := token, [];
    if p < |token| {
      key := token[..p];
      value := token[p + 1..];
    }
    key := ToLower(key);
    more := params + [Param(key, value)];
  }

  /** What the loop over the tokens has stored after dealing with done. */
  ghost predicate Dealt(done: seq<Bytes>, key: Bytes, params: seq<Param>) {
    if done == [] then key == [] && params == []
    else key == Lower(done[0]) && params == ParseParams(done[1..])
  }

  method Deal(key: Bytes, params: seq<Param>, dealt: bool, token: Bytes, ghost done: seq<Bytes>)
      returns (key': Bytes, params': seq<Param>)
    requires Dealt(done, key, params) && (dealt <==> done != [])
    ensures Dealt(done + [token], key', params')
  {
    key', params' := key, params;
    if dealt {
      params' := ParseOneParam(params, token);
      assert (done + [token])[1..] == done[1..] + [token];
    } else {
      key' := ToLower(token);
    }
  }

  ghost predicate Scanned(text: Bytes, done: seq<Bytes>, head: Head) {
    Scan(text, false, []) == Head(done + head.tokens, head.rest)
  }

  lemma UnescapeAt(text: Bytes, i: nat)
    requires i < |text|
    ensures Unescape(text[i..]) ==
            if text[i] != BACKSLASH then [text[i]] + Unescape(text[i + 1..])
            else if i + 1 == |text| then []
            else [Unescaped(text[i + 1])] + Unescape(text[i + 2..])
  {
    assert text[i..][1..] == text[i + 1..];
    assert i + 1 < |text| ==> text[i..][2..] == text[i + 2..];
  }

  method UnescapeValue(text: Bytes, from: nat) returns (value: Bytes)
    requires from <= |text|
    ensures value == Unescape(text[from..])
  {
    hide Unescape;
    value := [];
    var i := from;
    UnescapeNothing();
    while i < |text|
      invariant i <= |text|
      invariant value + Unescape(text[i..]) == Unescape(text[from..])
    {
      UnescapeAt(text, i);
      ghost var start, was := i, value;
      var ch := text[i];
      if ch == BACKSLASH {
        i := i + 1;
        if i >= |text| {
          break;
        }
        ch := text[i];
        if ch == LOWER_R {
          ch := CR;
        } else if ch == LOWER_N {
          ch := LF;
        } else if ch == LOWER_T {
          ch := TAB;
        }
      }
      value := value + [ch];
      i := i + 1;
      assert Unescape(text[start..]) == [ch] + Unescape(text[i..]);
      assert was + ([ch] + Unescape(text[i..])) == value + Unescape(text[i..]);
    }
    assert text[|text|..] == [];
  }

  method ParseOneLine(text: Bytes) returns (node: Line)
    ensures node == ParseLine(text)
  {
    hide Dealt, Unescape, Lower;
    var key, params, token: Bytes := [], [], [];
    var dealt, quoted := false, false;
    var i := 0;
    ghost var done: seq<Bytes> := [];
    NothingDealt();
    while i < |text|
      invariant i <= |text|
      invariant Scanned(text, done, Scan(text[i..], quoted, token))
      invariant Dealt(done, key, params) && (dealt <==> done != [])
    {
      assert text[i..][1..] == text[i + 1..];
      var ch := text[i];
      if quoted {
        if ch == QUOTE {
          quoted := false;
        } else {
          token := token + [ch];
        }
      } else if ch == QUOTE {
        quoted := true;
      } else if ch == SEMICOLON || ch == COLON {
        key, params := Deal(key, params, dealt, token, done);
        ghost var later := Scan(text[i + 1..], false, []).tokens;
        assert done + ([token] + later) == done + [token] + later;
        done := done + [token];
        dealt := true;
        token := [];
        if ch == COLON {
          i := i + 1;
          assert done + [] == done;
          assert Scanned(text, done, Head([], text[i..]));
          break;
        }
      } else {
        token := token + [ch];
      }
      i := i + 1;
    }
    assert Scanned(text, done, Head(if token == [] then [] else [token], text[i..]));
    if token != [] {
      key, params := Deal(key, params, dealt, token, done);
      done := done + [token];
    } else {
      assert done + [] == done;
    }
    var value := UnescapeValue(text, i);
    node := Line(key, params, value);
    DealtAll(done, key, params);
  }

  lemma NothingDealt()
    ensures Dealt([], [], [])
  {
  }

  lemma DealtAll(done: seq<Bytes>, key: Bytes, params: seq<Param>)
    requires Dealt(done, key, params)
    ensures key == if done == [] then [] else Lower(done[0])
    ensures params == if done == [] then [] else ParseParams(done[1..])
  {
  }

  // ---- reading back what was written ----

  lemma EscapeFirst(c: byte, v: Bytes)
    ensures Escape([c] + v) == EscapeByte(c) + Escape(v)
  {
    hide EscapeByte;
    EscapeAppend([c], v);
    assert [c][..0] == [];
    assert Escape([c]) == Escape([c][..0]) + EscapeByte(c) == EscapeByte(c);
  }

  lemma UnescapeByte(c: byte, rest: Bytes)
    ensures Unescape(EscapeByte(c) + rest) == [c] + Unescape(rest)
  {
    var s := EscapeByte(c) + rest;
    assert s[|EscapeByte(c)|..] == rest;
  }

  /** Unescaping undoes escaping. */
  lemma {:induction false} UnescapeEscape(v: Bytes)
    ensures Unescape(Escape(v)) == v
  {
    hide Unescape, EscapeByte;
    if v == [] {
      assert Unescape([]) == [] by { UnescapeNothing(); }
      assert Escape([]) == [];
    } else {
      assert v == [v[0]] + v[1..];
      EscapeFirst(v[0], v[1..]);
      UnescapeByte(v[0], Escape(v[1..]));
      UnescapeEscape(v[1..]);
    }
  }

  lemma UnescapeNothing()
    ensures Unescape([]) == []
  {
  }

  lemma {:induction false} ScanWithoutEnd(s: Bytes, token: Bytes)
    requires QUOTE !in s && SEMICOLON !in s && COLON !in s
    ensures Scan(s, false, token) == Head(if token + s == [] then [] else [token + s], [])
    decreases |s|
  {
    if s == [] {
      WithNothing(token);
    } else {
      ScanWithoutEnd(s[1..], token + [s[0]]);
      Associative(token, [s[0]], s[1..]);
      assert [s[0]] + s[1..] == s;
    }
  }

  /** A line without a colon is a key alone. */
  lemma KeyAlone(s: Bytes)
    requires QUOTE !in s && SEMICOLON !in s && COLON !in s
    ensures ParseLine(s) == Line(Lower(s), [], [])
  {
    ScanWithoutEnd(s, []);
    WithNothing(s);
    assert s != [] ==> [s][1..] == [];
  }

  /** A parameter written with its value in quotes. */
  function PrintParam(p: Param): Bytes {
    [SEMICOLON] + p.key + [EQUALS, QUOTE] + p.value + [QUOTE]
  }

  function PrintParams(ps: seq<Param>): Bytes {
    if ps == [] then [] else PrintParam(ps[0]) + PrintParams(ps[1..])
  }

  function PrintLine(line: Line): Bytes {
    line.key + PrintParams(line.params) + [COLON] + Escape(line.value)
  }

  /** Free of the bytes that end a token or begin a quoted part. */
  predicate Plain(s: Bytes) {
    QUOTE !in s && SEMICOLON !in s && COLON !in s
  }

  predicate PrintableParam(p: Param) {
    Plain(p.key) && EQUALS !in p.key && QUOTE !in p.value
  }

  predicate Printable(line: Line) {
    Plain(line.key) && forall p :: p in line.params ==> PrintableParam(p)
  }

  function CanonicalParam(p: Param): Param {
    Param(Lower(p.key), p.value)
  }

  function CanonicalParams(ps: seq<Param>): (r: seq<Param>)
    ensures |r| == |ps| && forall i :: 0 <= i < |ps| ==> r[i] == CanonicalParam(ps[i])
  {
    if ps == [] then [] else [CanonicalParam(ps[0])] + CanonicalParams(ps[1..])
  }

  /** The line with its keys in lower case. */
  function Canonical(line: Line): Line {
    Line(Lower(line.key), CanonicalParams(line.params), line.value)
  }

  lemma {:induction false} ScanPlain(p: Bytes, rest: Bytes, token: Bytes)
    requires Plain(p)
    ensures Scan(p + rest, false, token) == Scan(rest, false, token + p)
    decreases |p|
  {
    if p == [] {
      assert p + rest == rest && token + p == token;
    } else {
      assert (p + rest)[1..] == p[1..] + rest && token + [p[0]] + p[1..] == token + p;
      ScanPlain(p[1..], rest, token + [p[0]]);
    }
  }

  lemma {:induction false} ScanQuoted(p: Bytes, rest: Bytes, token: Bytes)
    requires QUOTE !in p
    ensures Scan(p + rest, true, token) == Scan(rest, true, token + p)
    decreases |p|
  {
    if p == [] {
      assert p + rest == rest && token + p == token;
    } else {
      assert (p + rest)[1..] == p[1..] + rest && token + [p[0]] + p[1..] == token + p;
      ScanQuoted(p[1..], rest, token + [p[0]]);
    }
  }

  function Token(p: Param): Bytes {
    p.key + [EQUALS] + p.value
  }

  function Tokens(ps: seq<Param>): seq<Bytes> {
    if ps == [] then [] else [Token(ps[0])] + Tokens(ps[1..])
  }

  lemma ScanQuote(rest: Bytes, quoted: bool, token: Bytes)
    ensures Scan([QUOTE] + rest, quoted, token) == Scan(rest, !quoted, token)
  {
    assert ([QUOTE] + rest)[1..] == rest;
  }

  lemma ScanSemicolon(rest: Bytes, token: Bytes)
    ensures Scan([SEMICOLON] + rest, false, token) == Before(token, Scan(rest, false, []))
  {
    assert ([SEMICOLON] + rest)[1..] == rest;
  }

  lemma ScanColon(rest: Bytes, token: Bytes)
    ensures Scan([COLON] + rest, false, token) == Head([token], rest)
  {
    assert ([COLON] + rest)[1..] == rest;
  }

  lemma ScanParam(p: Param, rest: Bytes, token: Bytes)
    requires PrintableParam(p)
    ensures Scan(PrintParam(p) + rest, false, token) == Before(token, Scan(rest, false, Token(p)))
  {
    hide Scan;
    var tail := [QUOTE] + rest;
    var quoted := [QUOTE] + (p.value + tail);
    assert PrintParam(p) + rest == [SEMICOLON] + (p.key + ([EQUALS] + quoted));
    ScanSemicolon(p.key + ([EQUALS] + quoted), token);
    ScanPlain(p.key, [EQUALS] + quoted, []);
    assert [] + p.key == p.key;
    ScanPlain([EQUALS], quoted, p.key);
    ScanQuote(p.value + tail, false, p.key + [EQUALS]);
    ScanQuoted(p.value, tail, p.key + [EQUALS]);
    ScanQuote(rest, true, Token(p));
  }

  lemma {:induction false} ScanParams(ps: seq<Param>, value: Bytes, token: Bytes)
    requires forall p :: p in ps ==> PrintableParam(p)
    ensures Scan(PrintParams(ps) + ([COLON] + value), false, token) == Head([token] + Tokens(ps), value)
    decreases |ps|
  {
    hide Scan, PrintableParam, PrintParam, Token;
    if ps == [] {
      assert PrintParams(ps) + ([COLON] + value) == [COLON] + value && [token] + Tokens(ps) == [token];
      ScanColon(value, token);
    } else {
      var rest := PrintParams(ps[1..]) + ([COLON] + value);
      assert PrintParams(ps) + ([COLON] + value) == PrintParam(ps[0]) + rest;
      ScanParam(ps[0], rest, token);
      ScanParams(ps[1..], value, Token(ps[0]));
    }
  }

  lemma IndexOfToken(key: Bytes, value: Bytes)
    requires EQUALS !in key
    ensures IndexOf(key + [EQUALS] + value, EQUALS) == |key|
  {
    var token := key + [EQUALS] + value;
    var p := IndexOf(token, EQUALS);
    assert token[|key|] == EQUALS;
    assert forall i :: 0 <= i < |key| ==> token[i] == key[i];
    assert forall i :: 0 <= i < p ==> token[i] == token[..p][i];
  }

  lemma {:induction false} ParamsOfTokens(ps: seq<Param>)
    requires forall p :: p in ps ==> PrintableParam(p)
    ensures ParseParams(Tokens(ps)) == CanonicalParams(ps)
    decreases |ps|
  {
    if ps != [] {
      var p := ps[0];
      assert p in ps;
      IndexOfToken(p.key, p.value);
      assert Token(p)[..|p.key|] == p.key && Token(p)[|p.key| + 1..] == p.value;
      assert Tokens(ps)[1..] == Tokens(ps[1..]);
      ParamsOfTokens(ps[1..]);
    }
  }

  /** A printed line is read back as it was, with its keys in lower case. */
  lemma ParsePrinted(line: Line)
    requires Printable(line)
    ensures ParseLine(PrintLine(line)) == Canonical(line)
  {
    hide Scan, Unescape, Escape, Lower, PrintParams, Tokens, PrintableParam;
    var value := Escape(line.value);
    var tail := PrintParams(line.params) + ([COLON] + value);
    assert PrintLine(line) == line.key + tail;
    ScanPlain(line.key, tail, []);
    assert [] + line.key == line.key;
    ScanParams(line.params, value, line.key);
    var tokens := [line.key] + Tokens(line.params);
    assert tokens[1..] == Tokens(line.params);
    ParamsOfTokens(line.params);
    UnescapeEscape(line.value);
  }

  // ---- descriptions ----

  const DESCRIPTION: Bytes := [68, 69, 83, 67, 82, 73, 80, 84, 73, 79, 78]

  /** A description line as it stands in the file: escaped, folded and ended. */
  function DescriptionText(s: Bytes): Bytes
    requires StepsInBounds(s)
  {
    DESCRIPTION + [COLON] + Folded(Pieces(s, [])) + CRLF
  }

  /** Behind any start of a line, folded text unfolds to one line with the escaped text. */
  lemma UnfoldLine(start: Bytes, s: Bytes, rest: Bytes)
    requires LF !in start && CR !in start && StepsInBounds(s)
    requires rest == [] || (rest[0] != SPACE && rest[0] != TAB)
    ensures Unfold(start + Folded(Pieces(s, [])) + CRLF + rest, []) == [start + Escape(s)] + Unfold(rest, [])
  {
    hide *;
    var pieces := Pieces(s, []);
    WholeText(s);
    assert start + Folded(pieces) + CRLF + rest == start + (Folded(pieces) + (CRLF + rest));
    UnfoldPlain(start, Folded(pieces) + (CRLF + rest), []);
    assert [] + start == start;
    UnfoldFolded(pieces, CRLF + rest, start);
    UnfoldEnd(rest, start + Escape(s));
  }

  lemma ParseDescription(key: Bytes, s: Bytes)
    requires Plain(key)
    ensures ParseLine(key + [COLON] + Escape(s)) == Line(Lower(key), [], s)
  {
    hide Escape, ParseLine, Lower;
    var line := Line(key, [], s);
    NoParams();
    assert PrintLine(line) == key + [COLON] + Escape(s);
    ParsePrinted(line);
  }

  /** Wherever the folds fall, a folded and escaped description reads back as one line with its text. */
  lemma DescriptionRoundTrip(s: Bytes, rest: Bytes)
    requires StepsInBounds(s) && 0 !in s
    requires rest == [] || (rest[0] != SPACE && rest[0] != TAB)
    ensures DropEmpty(Unfold(DescriptionText(s) + rest, [])) == [DESCRIPTION + [COLON] + Escape(s)] + Unfold(rest, [])
    ensures ParseLine(DESCRIPTION + [COLON] + Escape(s)) == Line(Lower(DESCRIPTION), [], s)
  {
    hide Unfold, Escape, Pieces, Folded, ParseLine, Lower, Scan;
    UnfoldLine(DESCRIPTION + [COLON], s, rest);
    ParseDescription(DESCRIPTION, s);
  }

  lemma WholeText(s: Bytes)
    requires StepsInBounds(s)
    ensures Concat(Pieces(s, [])) == s
  {
  }

  lemma NoParams()
    ensures PrintParams([]) == []
  {
  }
}
