/** Base64 as RFC 4648 and RFC 2045 write it: the alphabet, the order of the bits, full lines, and illegal
    characters. */
module Base64Format {
  import opened Bytes
  import opened Ascii
  import opened Base64

  /** Table 1 of RFC 4648: capital letters, small letters, digits, plus and slash. */
  function Alphabet(v: nat): (c: int)
    requires v < 64
  {
    if v < 26 then 'A' as int + v
    else if v < 52 then 'a' as int + (v - 26)
    else if v < 62 then '0' as int + (v - 52)
    else if v == 62 then '+' as int else '/' as int
  }

  /** The encoder writes value v as the v-th character of the alphabet; the decoder knows these characters and no
      other. */
  lemma AlphabetExactly(c: byte)
    ensures forall v :: 0 <= v < 64 ==> Letter(v) == Alphabet(v)
    ensures Value(c) < 64 ==> Alphabet(Value(c)) == c
    ensures Value(c) == ILLEGAL <==> forall v :: 0 <= v < 64 ==> Alphabet(v) != c
  {
    hide Letter, Value, Alphabet;
    forall v | 0 <= v < 64
      ensures Letter(v) == Alphabet(v) && Value(Letter(v)) == v
    {
      LetterIs(v);
      ValueOfLetter(v);
    }
    if Value(c) < 64 {
      LetterOfValue(c);
      assert Alphabet(Value(c)) == c;
    }
    forall v | 0 <= v < 64 && Alphabet(v) == c
      ensures Value(c) == v
    {
      assert Letter(v) == c;
    }
  }

  lemma LetterIs(v: nat)
    requires v < 64
    ensures Letter(v) == Alphabet(v)
  {
  }

  lemma LetterOfValue(c: byte)
    requires Value(c) < 64
    ensures Letter(Value(c)) == c
  {
  }

  /** The 24 bits of three bytes as four values of six bits, the most significant first. */
  lemma GroupIsNumber(x: byte, y: byte, z: byte)
    ensures BigEndian([x, y, z]) == ((First(x) * 64 + Second(x, y)) * 64 + Third(y, z)) * 64 + Fourth(z)
  {
    BigEndianSnoc([], x);
    BigEndianSnoc([x], y);
    BigEndianSnoc([x, y], z);
    assert [] + [x] == [x] && [x] + [y] == [x, y] && [x, y] + [z] == [x, y, z];
    assert BigEndian([]) == 0;
    hide BigEndian;
  }

  // ---- lines ----

  /** A line break stands behind every 57 bytes, even at the end. */
  lemma {:induction false} FullLine(a: Bytes, b: Bytes, count: nat)
    requires |a| == 3 * (19 - count) && count < 19
    ensures Encoded(a + b, true, count) == Encoded(a, false, 0) + ([CR, LF] + Encoded(b, true, 0))
    decreases |a|
  {
    hide Quad;
    var s := a + b;
    assert s[..3] == a[..3] && s[3..] == a[3..] + b;
    var q := Quad(a[..3]);
    if count + 1 < 19 {
      FullLine(a[3..], b, count + 1);
      WithNothing(Encoded(a[3..], false, 0));
      WithNothing(Encoded(s[3..], true, count + 1));
      Associative(q, Encoded(a[3..], false, 0), [CR, LF] + Encoded(b, true, 0));
    } else {
      assert a[3..] == [] && a[3..] + b == b;
      WithNothing(q);
      assert Encoded([], false, 0) == [];
    }
  }

  // ---- illegal characters ----

  lemma {:induction false} LettersMatter(x: Bytes, rest: Bytes)
    requires forall i :: 0 <= i < |x| ==> Value(x[i]) < 64
    ensures Clean(x + rest) == x + Clean(rest)
    decreases |x|
  {
    hide Clean;
    if x == [] {
      WithNothing(rest);
      WithNothing(Clean(rest));
    } else {
      assert x == [x[0]] + x[1..];
      Associative([x[0]], x[1..], rest);
      CleanOne(x[0], x[1..] + rest);
      LettersMatter(x[1..], rest);
      Associative([x[0]], x[1..], Clean(rest));
    }
  }

  lemma BrokenGroup(x: Bytes, c: byte, rest: Bytes)
    requires |x| <= 3 && Value(c) == ILLEGAL && c != PAD
    ensures Groups(x + ([c] + rest)) == []
  {
    var t := x + ([c] + rest);
    assert t[|x|] == c;
    hide Value;
  }

  /** The decoder stops at a character that is in no alphabet, and forgets the letters of the group it interrupts. */
  lemma StopsAtIllegal(a: Bytes, mime: bool, x: Bytes, c: byte, rest: Bytes)
    requires |x| <= 3 && forall i :: 0 <= i < |x| ==> Value(x[i]) < 64
    requires Value(c) == ILLEGAL && !IsBlank(c) && c != PERCENT && c != PAD
    ensures Decoded(Encoded(a, mime, 0) + (x + ([c] + rest))) == a
  {
    hide Clean, Groups, Encoded, Value, IsBlank;
    EncodedClean(a, mime, 0, x + ([c] + rest));
    LettersMatter(x, [c] + rest);
    CleanOne(c, rest);
    GroupsPlain(a, x + ([c] + Clean(rest)));
    BrokenGroup(x, c, Clean(rest));
    WithNothing(a);
  }
}
