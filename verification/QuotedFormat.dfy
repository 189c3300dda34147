/** Quoted-printable as section 6.7 of RFC 2045 describes it: which characters stand for themselves, hexadecimal
    digits of either case, and soft line breaks of any kind. */
module QuotedFormat {
  import opened Bytes
  import opened Ascii
  import opened QuotedPrintable

  const DIGITS: string := "0123456789ABCDEF"
  const SMALL_DIGITS: string := "0123456789abcdef"

  lemma DigitsAre(v: nat)
    requires v < 16
    ensures |DIGITS| == |SMALL_DIGITS| == 16
    ensures v < 10 ==> DIGITS[v] as int == SMALL_DIGITS[v] as int == '0' as int + v
    ensures v >= 10 ==> DIGITS[v] as int == 'A' as int + v - 10 && SMALL_DIGITS[v] as int == 'a' as int + v - 10
  {
  }

  /** This character is the digit of v, capital or small. */
  predicate IsDigitOf(c: byte, v: nat)
    requires v < 16
  {
    DigitsAre(v);
    c == DIGITS[v] as int || c == SMALL_DIGITS[v] as int
  }

  /** Digits are written in capitals and read in either case. */
  lemma DigitMeaning(c: byte, v: nat)
    requires v < 16
    ensures |DIGITS| == 16 && HexDigit(v) == DIGITS[v] as int
    ensures DigitValue(c) == v <==> IsDigitOf(c, v)
  {
    DigitsAre(v);
  }

  // ---- what is written ----

  /** A character stands for itself exactly when it is a printable one other than the equals sign. */
  lemma LiteralExactly(c: byte)
    ensures Char(c) == [c] <==> ' ' as int <= c <= '~' as int && c != '=' as int
  {
  }

  predicate Printable(c: byte) {
    c == CR || c == LF || ' ' as int <= c <= '~' as int
  }

  /** Only printable characters and line ends are written. */
  lemma {:induction false} SevenBit(s: Bytes, mime: bool, column: nat)
    ensures forall c :: c in Encoded(s, mime, column) ==> Printable(c)
    decreases |s|
  {
    if s != [] {
      var column' := column + |Char(s[0])|;
      SevenBit(s[1..], mime, Wrap(column'));
      assert forall c :: c in Char(s[0]) ==> Printable(c);
      assert forall c :: c in Break(mime, column') ==> Printable(c);
    }
  }

  // ---- what is read ----

  /** An escape with digits of either case, behind whatever was written before. */
  lemma EscapeRead(a: Bytes, mime: bool, high: byte, low: byte, v: byte, rest: Bytes)
    requires IsDigitOf(high, v / 16) && IsDigitOf(low, v % 16)
    ensures Decoded(Encoded(a, mime, 0) + ([EQUALS, high, low] + rest)) == a + ([v] + Decoded(rest))
  {
    hide Encoded;
    DecodeBefore(a, mime, 0, [EQUALS, high, low] + rest);
    DigitMeaning(high, v / 16);
    DigitMeaning(low, v % 16);
    var s := [EQUALS, high, low] + rest;
    assert s[3..] == rest;
    NoLineEnd(high, v / 16);
  }

  /** A wrong digit counts as all ones: in the second place it makes the whole byte 255, in the first its high half
      15. */
  lemma WrongDigitRead(a: Bytes, mime: bool, high: byte, low: byte, rest: Bytes)
    requires high != CR && high != LF && !IsAnyDigit(high)
    ensures var v := if IsAnyDigit(low) then 240 + DigitValue(low) else 255;
            Decoded(Encoded(a, mime, 0) + ([EQUALS, high, low] + rest)) == a + ([v] + Decoded(rest))
  {
    hide Encoded;
    DecodeBefore(a, mime, 0, [EQUALS, high, low] + rest);
    AnyDigit(high);
    AnyDigit(low);
    var s := [EQUALS, high, low] + rest;
    assert s[3..] == rest;
  }

  predicate IsAnyDigit(c: byte) {
    '0' as int <= c <= '9' as int || 'A' as int <= c <= 'F' as int || 'a' as int <= c <= 'f' as int
  }

  lemma AnyDigit(c: byte)
    ensures DigitValue(c) < 16 <==> IsAnyDigit(c)
  {
  }

  lemma NoLineEnd(c: byte, v: nat)
    requires v < 16 && IsDigitOf(c, v)
    ensures c != CR && c != LF
  {
    DigitsAre(v);
  }

  predicate IsLineEnd(c: byte) {
    c == CR || c == LF
  }

  lemma {:induction false} NoLineEndWritten(s: Bytes)
    requires s != []
    ensures Encoded(s, false, 0) != [] && !IsLineEnd(Encoded(s, false, 0)[0])
  {
  }

  lemma BreakRead(end: Bytes, text: Bytes)
    requires 1 <= |end| <= 2 && (forall c :: c in end ==> IsLineEnd(c)) && text != [] && !IsLineEnd(text[0])
    ensures Decoded([EQUALS] + (end + text)) == Decoded(text)
  {
    var s := [EQUALS] + (end + text);
    assert end[0] in end && end[|end| - 1] in end;
    if |end| == 1 {
      assert s[1] == end[0] && s[2] == text[0] && s[2..] == text;
    } else {
      assert s[1] == end[0] && s[2] == end[1] && s[3..] == text;
    }
  }

  /** A soft break of one or of two line-end characters between two texts changes nothing. */
  lemma SoftBreaksIgnored(a: Bytes, b: Bytes, mime: bool, end: Bytes)
    requires 1 <= |end| <= 2 && (forall c :: c in end ==> IsLineEnd(c)) && b != []
    ensures Decoded(Encoded(a, mime, 0) + ([EQUALS] + (end + Encoded(b, false, 0)))) == a + b
  {
    hide Encoded, Decoded;
    var text := Encoded(b, false, 0);
    NoLineEndWritten(b);
    BreakRead(end, text);
    DecodeBefore(a, mime, 0, [EQUALS] + (end + text));
    DecodeBefore(b, false, 0, []);
    NothingDecoded();
    WithNothing(text);
    WithNothing(b);
  }

  /** An equals sign with less than two characters behind it ends the text. */
  lemma CutEscapeIgnored(a: Bytes, mime: bool, tail: Bytes)
    requires |tail| <= 1
    ensures Decoded(Encoded(a, mime, 0) + ([EQUALS] + tail)) == a
  {
    hide Encoded;
    DecodeBefore(a, mime, 0, [EQUALS] + tail);
    WithNothing(a);
  }
}
