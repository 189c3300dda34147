/** Where a description is folded: between characters, and how long the lines become. */
module FoldedText {
  import opened Bytes
  import opened Ascii
  import opened IcsText
  import opened TextLines

  // ---- characters ----

  predicate IsContinuation(c: byte) {
    c / 64 == 2
  }

  /** One character in UTF-8: the leading bits of the first byte tell its length, the other bytes continue it. */
  predicate IsUtf8(ch: Bytes) {
    && 1 <= |ch| <= 4
    && (|ch| == 1 ==> ch[0] / 128 == 0) && (|ch| == 2 ==> ch[0] / 32 == 6)
    && (|ch| == 3 ==> ch[0] / 16 == 14) && (|ch| == 4 ==> ch[0] / 8 == 30)
    && forall i :: 1 <= i < |ch| ==> IsContinuation(ch[i])
  }

  predicate AllUtf8(chars: seq<Bytes>) {
    forall ch :: ch in chars ==> IsUtf8(ch)
  }

  lemma LengthOfUtf8(ch: Bytes)
    requires IsUtf8(ch)
    ensures Utf8Len(ch[0]) == |ch| && !IsContinuation(ch[0])
  {
  }

  /** A continuation byte where a character should begin counts as the first of five bytes. */
  lemma StrayContinuation(c: byte)
    ensures IsContinuation(c) <==> Utf8Len(c) == 5
  {
  }

  // ---- pieces ----

  predicate StartsCharacter(piece: Bytes) {
    piece != [] && !IsContinuation(piece[0])
  }

  /** Each piece begins with a character; all but the last have 77 to 80 bytes, the last has 1 to 80. */
  predicate WellCut(ps: seq<Bytes>) {
    && (forall i :: 0 <= i < |ps| ==> StartsCharacter(ps[i]) && |ps[i]| <= 80)
    && (forall i :: 0 <= i < |ps| - 1 ==> |ps[i]| >= 77)
  }

  lemma WellCutMore(piece: Bytes, ps: seq<Bytes>)
    requires WellCut(ps) && StartsCharacter(piece) && 77 <= |piece| <= 80
    ensures WellCut([piece] + ps)
  {
    var all := [piece] + ps;
    forall i | 0 <= i < |all|
      ensures StartsCharacter(all[i]) && |all[i]| <= 80 && (i < |all| - 1 ==> |all[i]| >= 77)
    {
      if i > 0 { assert all[i] == ps[i - 1]; }
    }
  }

  lemma {:induction false} PiecesWellCut(chars: seq<Bytes>, line: Bytes)
    requires AllUtf8(chars) && |line| <= 76 && (line == [] || StartsCharacter(line))
    ensures StepsInBounds(Concat(chars)) && WellCut(Pieces(Concat(chars), line))
    decreases |chars|
  {
    hide IsUtf8, IsContinuation, Utf8Len;
    if chars != [] {
      var ch, s, rest := chars[0], Concat(chars), Concat(chars[1..]);
      assert ch in chars && IsUtf8(ch);
      LengthOfUtf8(ch);
      assert |ch| <= 4 by { LongestUtf8(ch); }
      assert s[0] == ch[0] && s[..|ch|] == ch && s[|ch|..] == rest;
      assert AllUtf8(chars[1..]);
      var line' := line + ch;
      assert line'[0] == if line == [] then ch[0] else line[0];
      if |line'| > 76 {
        PiecesWellCut(chars[1..], []);
        WellCutMore(line', Pieces(rest, []));
      } else {
        PiecesWellCut(chars[1..], line');
      }
    }
  }

  lemma LongestUtf8(ch: Bytes)
    requires IsUtf8(ch)
    ensures 1 <= |ch| <= 4
  {
  }

  /** A text of characters is folded between characters only, after 77 to 80 bytes. */
  lemma FoldsBetweenCharacters(chars: seq<Bytes>)
    requires AllUtf8(chars)
    ensures StepsInBounds(Concat(chars)) && WellCut(Pieces(Concat(chars), []))
  {
    PiecesWellCut(chars, []);
  }

  // ---- the length of the lines ----

  lemma {:induction false} EscapeGrows(s: Bytes)
    ensures |Escape(s)| >= |s|
  {
    hide EscapeByte;
    if s != [] {
      EscapeGrows(s[..|s| - 1]);
    }
  }

  /** A text of more than 76 bytes is cut, behind its first 77 bytes or later; a shorter one is not. */
  lemma {:induction false} FirstPiece(s: Bytes, line: Bytes)
    requires StepsInBounds(s) && |line| <= 76
    ensures var ps := Pieces(s, line);
            if |line + s| > 76 then ps != [] && |ps[0]| >= 77 else ps == if line + s == [] then [] else [line + s]
    decreases |s|
  {
    hide Utf8Len;
    if s == [] {
      WithNothing(line);
    } else {
      var n := Utf8Len(s[0]);
      var line', rest := line + s[..n], s[n..];
      assert line' + rest == line + s;
      if |line'| <= 76 {
        FirstPiece(rest, line');
      }
    }
  }

  lemma {:induction false} FoldedFirst(ps: seq<Bytes>) returns (tail: Bytes)
    requires ps != []
    ensures Folded(ps) == Escape(ps[0]) + tail
    decreases |ps|
  {
    hide Escape;
    tail := [];
    WithNothing(Escape(ps[0]));
    if |ps| > 1 {
      var front, last := ps[..|ps| - 1], ps[|ps| - 1];
      var before := FoldedFirst(front);
      tail := before + CRLF + [SPACE] + Escape(last);
      assert Escape(ps[0]) + before + CRLF + [SPACE] + Escape(last) == Escape(ps[0]) + tail;
    }
  }

  /** The lines stay within the 75 octets of section 3.1 of RFC 5545, behind what is on the first line already, exactly
      when the text needs no fold at all: a fold is looked for only after 76 bytes, and before escaping. */
  lemma FoldLimitExactly(s: Bytes, column: nat)
    requires StepsInBounds(s)
    ensures ShortLines(Folded(Pieces(s, [])), 75, column) <==> column + |Escape(s)| <= 75
  {
    hide Escape, ShortLines, Pieces;
    EscapeGrows(s);
    FirstPiece(s, []);
    WithNothing(s);
    if |s| > 76 {
      var first := Pieces(s, [])[0];
      var tail := FoldedFirst(Pieces(s, []));
      EscapeGrows(first);
      TooLong(Escape(first), tail, 75, column);
    } else {
      assert Folded(Pieces(s, [])) == Escape(s) by { FoldedShort(s); }
      WithNothing(Escape(s));
      ShortEnd(75, column + |Escape(s)|);
      if column + |Escape(s)| <= 75 {
        ShortBehind(Escape(s), [], 75, column);
      } else {
        TooLong(Escape(s), [], 75, column);
      }
    }
  }

  lemma ShortEnd(limit: nat, column: nat)
    ensures ShortLines([], limit, column) <==> column <= limit
  {
  }

  lemma FoldedShort(s: Bytes)
    ensures Folded(if s == [] then [] else [s]) == Escape(s)
  {
  }
}
