/** The text layer of iCalendar: escaping and folding, unfolding, and the parser of one content line. */
module IcsText {
  import opened Bytes
  import opened Ascii

  const CRLF: Bytes := [CR, LF]

  // ---- escaping ----

  function EscapeByte(c: byte): (e: Bytes)
    ensures |e| > 0 && LF !in e && CR !in e
  {
    if c == BACKSLASH then [BACKSLASH, BACKSLASH]
    else if c == SEMICOLON then [BACKSLASH, SEMICOLON]
    else if c == COMMA then [BACKSLASH, COMMA]
    else if c == LF then [BACKSLASH, LOWER_N]
    else if c == CR then [BACKSLASH, LOWER_R]
    else [c]
  }

  function Escape(s: Bytes): (e: Bytes)
    ensures LF !in e && CR !in e
  {
    if s == [] then [] else Escape(s[..|s| - 1]) + EscapeByte(s[|s| - 1])
  }

  method EscapeTextValue(text: Bytes) returns (result: Bytes)
    ensures result == Escape(text)
  {
    result := [];
    for i := 0 to |text|
      invariant result == Escape(text[..i])
    {
      assert text[..i + 1][..i] == text[..i];
      result := result + EscapeByte(text[i]);
    }
    assert text[..|text|] == text;
  }

  lemma {:induction false} EscapeAppend(a: Bytes, b: Bytes)
    ensures Escape(a + b) == Escape(a) + Escape(b)
  {
    hide EscapeByte;
    if b == [] {
      assert a + b == a;
    } else {
      var front, last := b[..|b| - 1], b[|b| - 1];
      EscapeAppend(a, front);
      assert (a + b)[..|a + b| - 1] == a + front;
      assert Escape(a + b) == (Escape(a) + Escape(front)) + EscapeByte(last);
      assert Escape(a + b) == Escape(a) + (Escape(front) + EscapeByte(last));
    }
  }

  // ---- folding ----

  /** The length of a UTF-8 sequence as its first byte announces it. */
  function Utf8Len(c: byte): (n: nat)
    ensures 1 <= n <= 5
  {
    if c < 0x80 then 1 else if c >= 0xF0 then 4 else if c >= 0xE0 then 3 else if c >= 0xC0 then 2 else 5
  }

  /** Stepping from one announced length to the next ends exactly at the end of the text. */
  predicate StepsInBounds(s: Bytes)
    decreases |s|
  {
    s == [] || (Utf8Len(s[0]) <= |s| && StepsInBounds(s[Utf8Len(s[0])..]))
  }

  /** The pieces that become physical lines: each ends once it is longer than 76 bytes. */
  function Pieces(s: Bytes, line: Bytes): (ps: seq<Bytes>)
    requires StepsInBounds(s)
    ensures Concat(ps) == line + s
    decreases |s|
  {
    if s == [] then
      var single: seq<Bytes> := [line];
      assert single[1..] == [];
      if line == [] then [] else single
    else
      var n := Utf8Len(s[0]);
      var line', rest := line + s[..n], s[n..];
      assert line' + rest == line + s;
      if |line'| > 76 then
        assert ([line'] + Pieces(rest, []))[1..] == Pieces(rest, []);
        [line'] + Pieces(rest, [])
      else Pieces(rest, line')
  }

  /** Escaped pieces with a line break and a blank between them. */
  function Folded(ps: seq<Bytes>): Bytes {
    if ps == [] then []
    else if |ps| == 1 then Escape(ps[0])
    else Folded(ps[..|ps| - 1]) + CRLF + [SPACE] + Escape(ps[|ps| - 1])
  }

  /** What the loop has appended so far: every piece, with its line break. */
  function Appended(ps: seq<Bytes>): Bytes {
    if ps == [] then [] else Folded(ps) + CRLF
  }

  lemma AppendedNext(ps: seq<Bytes>, piece: Bytes)
    ensures Appended(ps + [piece]) == Appended(ps) + (if ps == [] then [] else [SPACE]) + Escape(piece) + CRLF
  {
    hide Escape;
    if ps == [] {
      assert ps + [piece] == [piece];
    } else {
      assert (ps + [piece])[..|ps|] == ps;
    }
  }

  method TrimLineEnd(s: Bytes) returns (r: Bytes)
    ensures |s| >= 2 && s[|s| - 2..] == CRLF ==> r == s[..|s| - 2]
    ensures s != [] && s[|s| - 1] == LF && (|s| < 2 || s[|s| - 2] != CR) ==> r == s[..|s| - 1]
    ensures s == [] || s[|s| - 1] != LF ==> r == s
  {
    r := s;
    if |r| > 0 && r[|r| - 1] == LF {
      r := r[..|r| - 1];
      if |r| > 0 && r[|r| - 1] == CR {
        r := r[..|r| - 1];
      }
    }
  }

  /** Appends one physical line: a blank first unless it is the first line. */
  method AppendLine(r: Bytes, line: Bytes, ghost done: seq<Bytes>) returns (r': Bytes)
    requires r == Appended(done) && (r == [] <==> done == [])
    ensures r' == Appended(done + [line]) && r' != []
  {
    hide Escape, Appended;
    AppendedNext(done, line);
    r' := r;
    if r' != [] {
      r' := r' + [SPACE];
    }
    var escaped := EscapeTextValue(line);
    r' := r' + escaped + CRLF;
  }

  lemma PiecesStep(s: Bytes, i: nat, line: Bytes)
    requires i < |s| && StepsInBounds(s[i..])
    ensures i + Utf8Len(s[i]) <= |s| && StepsInBounds(s[i + Utf8Len(s[i])..])
    ensures var j := i + Utf8Len(s[i]);
            var line' := line + s[i..j];
            Pieces(s[i..], line) == if |line'| > 76 then [line'] + Pieces(s[j..], []) else Pieces(s[j..], line')
  {
    var n := Utf8Len(s[i]);
    assert s[i..][..n] == s[i..i + n] && s[i..][n..] == s[i + n..];
  }

  /** Escapes a description and folds it. */
  method EscapeDescription(s: Bytes) returns (r: Bytes)
    requires StepsInBounds(s) && 0 !in s
    ensures r == Folded(Pieces(s, []))
  {
    hide Escape, Folded, Utf8Len, Appended, Pieces, StepsInBounds, Concat;
    r := [];
    NothingAppended();
    var line: Bytes := [];
    var i := 0;
    ghost var done: seq<Bytes> := [];
    assert s[0..] == s;
    while i < |s|
      invariant i <= |s| && StepsInBounds(s[i..])
      invariant done + Pieces(s[i..], line) == Pieces(s, [])
      invariant r == Appended(done) && (r == [] <==> done == [])
    {
      PiecesStep(s, i, line);
      var n := Utf8Len(s[i]);
      line := line + s[i..i + n];
      i := i + n;
      if |line| > 76 {
        r := AppendLine(r, line, done);
        assert done + ([line] + Pieces(s[i..], [])) == done + [line] + Pieces(s[i..], []);
        done := done + [line];
        line := [];
      }
    }
    LastPiece(s, line);
    if |line| > 0 {
      r := AppendLine(r, line, done);
      done := done + [line];
      line := [];
    }
    assert done == Pieces(s, []);
    if done == [] {
      NothingAppended();
    } else {
      AppendedEnds(done);
      assert r[|r| - 2..] == CRLF && r[..|r| - 2] == Folded(done);
    }
    r := TrimLineEnd(r);
  }

  lemma LastPiece(s: Bytes, line: Bytes)
    ensures Pieces(s[|s|..], line) == if line == [] then [] else [line]
  {
    assert s[|s|..] == [];
  }

  lemma NothingAppended()
    ensures Folded([]) == [] == Appended([])
  {
  }

  lemma AppendedEnds(ps: seq<Bytes>)
    requires ps != []
    ensures Appended(ps) == Folded(ps) + CRLF
  {
  }

  // ---- unfolding ----

  /** The logical lines of a text, when line has been read already. */
  function Unfold(s: Bytes, line: Bytes): seq<Bytes>
    decreases |s|
  {
    if s == [] then (if line == [] then [] else [line])
    else if s[0] == LF then
      if |s| > 1 && (s[1] == SPACE || s[1] == TAB) then Unfold(s[2..], line) else [line] + Unfold(s[1..], [])
    else if s[0] == CR then Unfold(s[1..], line)
    else Unfold(s[1..], line + [s[0]])
  }

  function DropEmpty(lines: seq<Bytes>): seq<Bytes> {
    if lines != [] && lines[0] == [] then DropEmpty(lines[1..]) else lines
  }

  method GetLines(text: Bytes) returns (lines: seq<Bytes>)
    ensures lines == DropEmpty(Unfold(text, []))
  {
    lines := [];
    var line: Bytes := [];
    var i := 0;
    while i < |text|
      invariant i <= |text|
      invariant lines + Unfold(text[i..], line) == Unfold(text, [])
    {
      assert text[i..][1..] == text[i + 1..] && (i + 1 < |text| ==> text[i..][2..] == text[i + 2..]);
      if text[i] == LF {
        if i < |text| - 1 && (text[i + 1] == SPACE || text[i + 1] == TAB) {
          i := i + 2;
          continue;
        }
        lines := lines + [line];
        line := [];
      } else if text[i] != CR {
        line := line + [text[i]];
      }
      i := i + 1;
    }
    assert text[i..] == [];
    if |line| > 0 {
      lines := lines + [line];
    } else {
      assert lines + [] == lines;
    }
    while lines != []
      invariant DropEmpty(lines) == DropEmpty(Unfold(text, []))
      decreases |lines|
    {
      if lines[0] != [] {
        break;
      }
      lines := lines[1..];
    }
  }

  lemma {:induction false} UnfoldPlain(e: Bytes, rest: Bytes, line: Bytes)
    requires LF !in e && CR !in e
    ensures Unfold(e + rest, line) == Unfold(rest, line + e)
    decreases |e|
  {
    if e == [] {
      assert e + rest == rest && line + e == line;
    } else {
      assert (e + rest)[1..] == e[1..] + rest && line + [e[0]] + e[1..] == line + e;
      UnfoldPlain(e[1..], rest, line + [e[0]]);
    }
  }

  lemma UnfoldFold(rest: Bytes, line: Bytes)
    ensures Unfold(CRLF + [SPACE] + rest, line) == Unfold(rest, line)
  {
    var s := CRLF + [SPACE] + rest;
    assert s[1..] == [LF, SPACE] + rest && s[1..][2..] == rest;
  }

  lemma FoldedSnoc(front: seq<Bytes>, last: Bytes)
    requires front != []
    ensures Folded(front + [last]) == Folded(front) + CRLF + [SPACE] + Escape(last)
    ensures Escape(Concat(front + [last])) == Escape(Concat(front)) + Escape(last)
  {
    hide Escape;
    var single: seq<Bytes> := [last];
    assert (front + single)[..|front|] == front && single[1..] == [];
    ConcatAppend(front, single);
    assert Concat(single) == last + Concat([]) == last;
    EscapeAppend(Concat(front), last);
  }

  /** Unfolding undoes folding, wherever the folds fall. */
  lemma {:induction false} UnfoldFolded(ps: seq<Bytes>, rest: Bytes, line: Bytes)
    ensures Unfold(Folded(ps) + rest, line) == Unfold(rest, line + Escape(Concat(ps)))
  {
    hide Unfold, Escape;
    if |ps| <= 1 {
      UnfoldFoldedFew(ps, rest, line);
    } else {
      hide Folded, Concat;
      var front, last := ps[..|ps| - 1], ps[|ps| - 1];
      assert ps == front + [last];
      FoldedSnoc(front, last);
      var tail := Escape(last) + rest;
      assert Folded(ps) + rest == Folded(front) + (CRLF + [SPACE] + tail);
      UnfoldFolded(front, CRLF + [SPACE] + tail, line);
      var line' := line + Escape(Concat(front));
      UnfoldFold(tail, line');
      UnfoldPlain(Escape(last), rest, line');
      assert line' + Escape(last) == line + Escape(Concat(ps));
    }
  }

  lemma UnfoldFoldedFew(ps: seq<Bytes>, rest: Bytes, line: Bytes)
    requires |ps| <= 1
    ensures Unfold(Folded(ps) + rest, line) == Unfold(rest, line + Escape(Concat(ps)))
  {
    if ps == [] {
      hide Unfold;
      assert Folded(ps) + rest == rest;
      assert line + Escape([]) == line;
    } else {
      hide Unfold, Escape;
      assert ps[1..] == [];
      assert Concat(ps) == ps[0];
      UnfoldPlain(Escape(ps[0]), rest, line);
    }
  }

  /** A line break that no blank follows ends the logical line. */
  lemma UnfoldEnd(rest: Bytes, line: Bytes)
    requires rest == [] || (rest[0] != SPACE && rest[0] != TAB)
    ensures Unfold(CRLF + rest, line) == [line] + Unfold(rest, [])
  {
    var s := CRLF + rest;
    assert s[1..] == [LF] + rest && s[1..][1..] == rest;
  }
}
