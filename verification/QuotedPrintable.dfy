/** Quoted-printable: the encoder with its soft line breaks and the decoder. */
module QuotedPrintable {
  import opened Bytes
  import opened Ascii
  import opened TextLines

  // ---- hexadecimal digits ----

  function HexDigit(v: nat): (c: byte)
    requires v < 16
    ensures c != CR && c != LF
  {
    if v < 10 then v + 48 else v + 55
  }

  const NO_DIGIT: nat := 255

  function DigitValue(c: byte): (v: nat)
    ensures v < 16 || v == NO_DIGIT
  {
    if 48 <= c <= 57 then c - 48 else if 65 <= c <= 70 then c - 55 else if 97 <= c <= 102 then c - 87 else NO_DIGIT
  }

  /** Two digits as a byte; a character that is no digit counts as all ones. */
  function FromHex(c1: byte, c2: byte): byte {
    if DigitValue(c2) == NO_DIGIT then 255 else DigitValue(c1) % 16 * 16 + DigitValue(c2)
  }

  lemma FromHexDigits(c: byte)
    ensures FromHex(HexDigit(c / 16), HexDigit(c % 16)) == c
  {
  }

  // ---- encoding ----

  predicate Literal(c: byte) {
    c == SPACE || (33 <= c <= 126 && c != EQUALS)
  }

  function Char(c: byte): (r: Bytes)
    ensures |r| == 1 || |r| == 3
  {
    if Literal(c) then [c] else [EQUALS, HexDigit(c / 16), HexDigit(c % 16)]
  }

  const SOFT_BREAK: Bytes := [EQUALS, CR, LF]
  const COLUMNS: nat := 76

  /** The soft break behind a character that ends at the column. */
  function Break(mime: bool, column: nat): Bytes {
    if column > COLUMNS && mime then SOFT_BREAK else []
  }

  function Wrap(column: nat): nat {
    if column > COLUMNS then 0 else column
  }

  /** The text of s when column characters are on the current line already. */
  function Encoded(s: Bytes, mime: bool, column: nat): Bytes
    decreases |s|
  {
    if s == [] then []
    else
      var column' := column + |Char(s[0])|;
      Char(s[0]) + (Break(mime, column') + Encoded(s[1..], mime, Wrap(column')))
  }

  lemma EncodedStep(c: byte, rest: Bytes, mime: bool, column: nat)
    ensures var column' := column + |Char(c)|;
            Encoded([c] + rest, mime, column) == Char(c) + (Break(mime, column') + Encoded(rest, mime, Wrap(column')))
  {
    hide Char, Break, Wrap;
    Behind(c, rest);
  }

  /** What is written so far, with what is still to come, is the whole text. */
  ghost predicate Written(result: Bytes, src: Bytes, i: nat, mime: bool, column: nat)
    requires i <= |src|
  {
    result + Encoded(src[i..], mime, column) == Encoded(src, mime, 0)
  }

  lemma WrittenNext(result: Bytes, src: Bytes, i: nat, mime: bool, column: nat)
    requires i < |src| && Written(result, src, i, mime, column)
    ensures var column' := column + |Char(src[i])|;
            Written(result + Char(src[i]) + Break(mime, column'), src, i + 1, mime, Wrap(column'))
  {
    hide Char, Break, Wrap, Encoded;
    assert src[i..] == [src[i]] + src[i + 1..];
    EncodedStep(src[i], src[i + 1..], mime, column);
    var column' := column + |Char(src[i])|;
    var later := Encoded(src[i + 1..], mime, Wrap(column'));
    Associative(result, Char(src[i]), Break(mime, column') + later);
    Associative(result + Char(src[i]), Break(mime, column'), later);
  }

  lemma WrittenAll(src: Bytes, result: Bytes, mime: bool, column: nat)
    ensures Written([], src, 0, mime, 0)
    ensures Written(result, src, |src|, mime, column) ==> result == Encoded(src, mime, 0)
  {
    assert src[0..] == src && src[|src|..] == [] && result + [] == result;
    assert [] + Encoded(src, mime, 0) == Encoded(src, mime, 0);
  }

  method Encode(src: Bytes, mime: bool) returns (result: Bytes)
    ensures result == Encoded(src, mime, 0)
  {
    hide Written, Encoded, HexDigit;
    result := [];
    var column := 0;
    WrittenAll(src, result, mime, 0);
    for i := 0 to |src|
      invariant Written(result, src, i, mime, column)
    {
      WrittenNext(result, src, i, mime, column);
      var c := src[i];
      if c == SPACE || (33 <= c <= 126 && c != EQUALS) {
        result := result + [c];
        column := column + 1;
      } else {
        result := result + [EQUALS, HexDigit(c / 16), HexDigit(c % 16)];
        column := column + 3;
      }
      WithNothing(result);
      if column > COLUMNS {
        if mime {
          result := result + SOFT_BREAK;
        }
        column := 0;
      }
    }
    WrittenAll(src, result, mime, column);
  }

  // ---- decoding ----

  function Decoded(s: Bytes): Bytes
    decreases |s|
  {
    if s == [] then []
    else if s[0] != EQUALS then [s[0]] + Decoded(s[1..])
    else if |s| < 3 then []
    else if s[1] == CR || s[1] == LF then Decoded(if s[2] == CR || s[2] == LF then s[3..] else s[2..])
    else [FromHex(s[1], s[2])] + Decoded(s[3..])
  }

  lemma DecodedAt(src: Bytes, pos: nat)
    requires pos <= |src|
    ensures Decoded(src[pos..]) ==
            if pos == |src| then []
            else if src[pos] != EQUALS then [src[pos]] + Decoded(src[pos + 1..])
            else if pos + 2 >= |src| then []
            else if src[pos + 1] == CR || src[pos + 1] == LF then
              Decoded(if src[pos + 2] == CR || src[pos + 2] == LF then src[pos + 3..] else src[pos + 2..])
            else [FromHex(src[pos + 1], src[pos + 2])] + Decoded(src[pos + 3..])
  {
    hide FromHex;
    var s := src[pos..];
    assert |s| >= 1 ==> s[1..] == src[pos + 1..] && s[0] == src[pos];
    assert |s| >= 3 ==>
        s[1] == src[pos + 1] && s[2] == src[pos + 2] && s[2..] == src[pos + 2..] && s[3..] == src[pos + 3..];
  }

  method Decode(src: Bytes) returns (str: Bytes)
    ensures str == Decoded(src)
  {
    hide Decoded;
    str := [];
    var pos := 0;
    assert src[0..] == src;
    while true
      invariant pos <= |src|
      invariant str + Decoded(src[pos..]) == Decoded(src)
      decreases |src| - pos
    {
      DecodedAt(src, pos);
      WithNothing(str);
      ghost var was := str;
      if pos >= |src| {
        return;
      }
      var c0 := src[pos];
      pos := pos + 1;
      var add := c0;
      if c0 == EQUALS {
        if pos >= |src| {
          return;
        }
        var c1 := src[pos];
        pos := pos + 1;
        if pos >= |src| {
          return;
        }
        var c2 := src[pos];
        pos := pos + 1;
        if c1 == CR || c1 == LF {
          if c2 != CR && c2 != LF {
            pos := pos - 1;
          }
          continue;
        }
        add := FromHex(c1, c2);
      }
      str := str + [add];
      Associative(was, [add], Decoded(src[pos..]));
    }
  }

  // ---- decoding undoes encoding ----

  lemma DecodeChar(c: byte, rest: Bytes)
    ensures Decoded(Char(c) + rest) == [c] + Decoded(rest)
  {
    var s := Char(c) + rest;
    assert s[|Char(c)|..] == rest;
    if !Literal(c) { FromHexDigits(c); }
  }

  lemma DecodeBreak(rest: Bytes)
    ensures Decoded(SOFT_BREAK + rest) == Decoded(rest)
  {
    assert (SOFT_BREAK + rest)[3..] == rest;
  }

  lemma {:induction false} DecodeBefore(s: Bytes, mime: bool, column: nat, rest: Bytes)
    ensures Decoded(Encoded(s, mime, column) + rest) == s + Decoded(rest)
    decreases |s|
  {
    if s == [] {
      WithNothing(rest);
      WithNothing(Decoded(rest));
    } else {
      hide Decoded, Char, Encoded, Break, Wrap;
      assert s == [s[0]] + s[1..];
      var column' := column + |Char(s[0])|;
      var added, later := Break(mime, column'), Encoded(s[1..], mime, Wrap(column'));
      EncodedStep(s[0], s[1..], mime, column);
      Associative(Char(s[0]), added + later, rest);
      Associative(added, later, rest);
      DecodeChar(s[0], added + (later + rest));
      DecodeAdded(mime, column', later + rest);
      DecodeBefore(s[1..], mime, Wrap(column'), rest);
      Associative([s[0]], s[1..], Decoded(rest));
    }
  }

  lemma DecodeAdded(mime: bool, column: nat, rest: Bytes)
    ensures Decoded(Break(mime, column) + rest) == Decoded(rest)
  {
    hide Decoded;
    DecodeBreak(rest);
    WithNothing(rest);
  }

  /** Texts encoded one after the other decode to the bytes one after the other. */
  lemma DecodeEncoded(a: Bytes, b: Bytes, mimeA: bool, mimeB: bool)
    ensures Decoded(Encoded(a, mimeA, 0) + Encoded(b, mimeB, 0)) == a + b
  {
    hide Decoded, Encoded;
    var second := Encoded(b, mimeB, 0);
    DecodeBefore(a, mimeA, 0, second);
    assert second + [] == second;
    DecodeBefore(b, mimeB, 0, []);
    assert Decoded([]) == [] by { NothingDecoded(); }
    assert b + [] == b;
  }

  lemma NothingDecoded()
    ensures Decoded([]) == []
  {
  }

  // ---- lines ----

  const LONGEST: nat := 80

  lemma ShortStep(c: byte, later: Bytes, column: nat)
    requires column <= COLUMNS && ShortLines(later, LONGEST, Wrap(column + |Char(c)|))
    ensures ShortLines(Char(c) + (Break(true, column + |Char(c)|) + later), LONGEST, column)
  {
    CharPlain(c);
    hide Char;
    var column' := column + |Char(c)|;
    if column' > COLUMNS {
      BreakShort(later, column');
      hide ShortLines;
      ShortBefore(Char(c), SOFT_BREAK + later, LONGEST, column);
    } else {
      WithNothing(later);
      hide ShortLines;
      ShortBefore(Char(c), later, LONGEST, column);
    }
  }

  lemma BreakShort(later: Bytes, column: nat)
    requires column < LONGEST && ShortLines(later, LONGEST, 0)
    ensures ShortLines(SOFT_BREAK + later, LONGEST, column)
  {
    var t := SOFT_BREAK + later;
    assert t[1..] == [CR, LF] + later && t[1..][2..] == later;
  }

  /** With soft breaks on, a line has at most 80 characters, its closing equals sign included. */
  lemma {:induction false} EncodedLines(s: Bytes, column: nat)
    requires column <= COLUMNS
    ensures ShortLines(Encoded(s, true, column), LONGEST, column)
    decreases |s|
  {
    if s != [] {
      hide ShortLines, Char, Break;
      var column' := column + |Char(s[0])|;
      EncodedLines(s[1..], Wrap(column'));
      ShortStep(s[0], Encoded(s[1..], true, Wrap(column')), column);
    }
  }

  lemma CharPlain(c: byte)
    ensures CR !in Char(c)
  {
  }

  /** How many columns the characters of s take when no line is broken. */
  function Width(s: Bytes): nat {
    if s == [] then 0 else |Char(s[0])| + Width(s[1..])
  }

  /** The lines stay within 76 characters exactly when no line needs a break at all: a break is looked for only after
      column 76 is passed, so the line in front of every soft break is longer than section 6.7 of RFC 2045 allows. */
  lemma {:induction false} WithinLimitExactly(s: Bytes, column: nat)
    requires column <= COLUMNS
    ensures ShortLines(Encoded(s, true, column), COLUMNS, column) <==> column + Width(s) <= COLUMNS
    decreases |s|
  {
    hide Char;
    if s != [] {
      hide ShortLines;
      var c, column' := s[0], column + |Char(s[0])|;
      var later := Encoded(s[1..], true, Wrap(column'));
      CharPlain(c);
      if column' > COLUMNS {
        TooLong(Char(c), SOFT_BREAK + later, COLUMNS, column);
      } else {
        WithNothing(later);
        ShortBehind(Char(c), later, COLUMNS, column);
        WithinLimitExactly(s[1..], column');
      }
    }
  }

  function Spaces(n: nat): (r: Bytes)
    ensures |r| == n
  {
    if n == 0 then [] else [SPACE] + Spaces(n - 1)
  }

  lemma SpaceStep(rest: Bytes, column: nat)
    requires column < COLUMNS
    ensures Encoded([SPACE] + rest, true, column) == [SPACE] + Encoded(rest, true, column + 1)
  {
    hide Encoded;
    EncodedStep(SPACE, rest, true, column);
    WithNothing(Encoded(rest, true, column + 1));
  }

  lemma {:induction false} EncodedSpaces(n: nat, rest: Bytes, column: nat)
    requires column + n <= COLUMNS
    ensures Encoded(Spaces(n) + rest, true, column) == Spaces(n) + Encoded(rest, true, column + n)
    decreases n
  {
    hide Encoded;
    if n == 0 {
      WithNothing(rest);
      WithNothing(Encoded(rest, true, column));
    } else {
      Associative([SPACE], Spaces(n - 1), rest);
      SpaceStep(Spaces(n - 1) + rest, column);
      EncodedSpaces(n - 1, rest, column + 1);
      Associative([SPACE], Spaces(n - 1), Encoded(rest, true, column + n));
    }
  }

  lemma LastEquals()
    ensures Encoded([EQUALS], true, COLUMNS) == [EQUALS, 51, 68, EQUALS, CR, LF]
  {
    var c := Char(EQUALS);
    assert c == [EQUALS, 51, 68];
    EncodedStep(EQUALS, [], true, COLUMNS);
    WithNothing([EQUALS]);
    assert Encoded([], true, 0) == [];
    hide Encoded, Char;
    WithNothing(SOFT_BREAK);
  }

  /** The bound is reached: the break is looked for only after a character is written, so a line grows beyond the
      76 characters of section 6.7 of RFC 2045. */
  lemma EightyReached()
    ensures Encoded(Spaces(COLUMNS) + [EQUALS], true, 0) == Spaces(COLUMNS) + [EQUALS, 51, 68, EQUALS, CR, LF]
    ensures |Spaces(COLUMNS) + [EQUALS, 51, 68, EQUALS]| == LONGEST
  {
    hide Spaces, Encoded;
    EncodedSpaces(COLUMNS, [EQUALS], 0);
    LastEquals();
  }
}
