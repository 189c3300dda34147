/** Base64: the encoder with its line breaks, and the decoder that skips blanks, tolerates missing padding and starts
    again after padding. */
module Base64 {
  import opened Bytes
  import opened Ascii
  import opened TextLines

  const PAD: byte := EQUALS

  // ---- the alphabet ----

  /** A six-bit value as a character. */
  function Letter(v: nat): (c: byte)
    requires v < 64
    ensures c != PAD && !IsBlank(c) && c != PERCENT
  {
    if v < 26 then v + 65 else if v < 52 then v + 71 else if v < 62 then v - 4 else if v == 62 then 43 else 47
  }

  const ILLEGAL: nat := 255

  /** The decoding table. */
  function Value(c: byte): (v: nat)
    ensures v < 64 || v == ILLEGAL
  {
    if 65 <= c <= 90 then c - 65 else if 97 <= c <= 122 then c - 71 else if 48 <= c <= 57 then c + 4
    else if c == 43 then 62 else if c == 47 then 63 else ILLEGAL
  }

  lemma ValueOfLetter(v: nat)
    requires v < 64
    ensures Value(Letter(v)) == v
  {
  }

  predicate IsBlank(c: byte) {
    c == SPACE || c == CR || c == LF
  }

  // ---- encoding ----

  function First(x: byte): (v: nat) ensures v < 64 { x / 4 }
  function Second(x: byte, y: byte): (v: nat) ensures v < 64 { x % 4 * 16 + y / 16 }
  function Third(y: byte, z: byte): (v: nat) ensures v < 64 { y % 16 * 4 + z / 64 }
  function Fourth(z: byte): (v: nat) ensures v < 64 { z % 64 }

  /** One to three bytes as four characters. */
  function Quad(g: Bytes): (q: Bytes)
    requires 1 <= |g| <= 3
    ensures |q| == 4
  {
    if |g| == 1 then [Letter(First(g[0])), Letter(Second(g[0], 0)), PAD, PAD]
    else if |g| == 2 then [Letter(First(g[0])), Letter(Second(g[0], g[1])), Letter(Third(g[1], 0)), PAD]
    else [Letter(First(g[0])), Letter(Second(g[0], g[1])), Letter(Third(g[1], g[2])), Letter(Fourth(g[2]))]
  }

  function GroupLength(s: Bytes): nat {
    if |s| < 3 then |s| else 3
  }

  const QUADS_A_LINE: nat := 19

  /** The line break behind the count-th quad of a line. */
  function Break(mime: bool, count: nat): Bytes {
    if mime && count == QUADS_A_LINE then [CR, LF] else []
  }

  /** Quads are counted only where lines are broken. */
  function Wrap(mime: bool, count: nat): nat {
    if !mime || count == QUADS_A_LINE then 0 else count
  }

  /** The text of s when count quads are on the current line already. */
  function Encoded(s: Bytes, mime: bool, count: nat): Bytes
    decreases |s|
  {
    if s == [] then []
    else
      var n := GroupLength(s);
      Quad(s[..n]) + (Break(mime, count + 1) + Encoded(s[n..], mime, Wrap(mime, count + 1)))
  }

  /** The characters of the group at pos, and where the next group starts. */
  method EncodeQuad(src: Bytes, pos: nat) returns (tmp: Bytes, next: nat)
    requires pos < |src|
    ensures next == pos + GroupLength(src[pos..]) && tmp == Quad(src[pos..next])
  {
    hide Letter, First, Second, Third, Fourth;
    var x := src[pos];
    var left := |src| - pos;
    if left == 1 {
      tmp, next := [Letter(First(x)), Letter(Second(x, 0)), PAD, PAD], pos + 1;
    } else if left == 2 {
      var y := src[pos + 1];
      tmp, next := [Letter(First(x)), Letter(Second(x, y)), Letter(Third(y, 0)), PAD], pos + 2;
    } else {
      var y, z := src[pos + 1], src[pos + 2];
      tmp, next := [Letter(First(x)), Letter(Second(x, y)), Letter(Third(y, z)), Letter(Fourth(z))], pos + 3;
    }
  }

  /** What is written so far, with what is still to come, is the whole text. */
  ghost predicate Written(str: Bytes, src: Bytes, pos: nat, mime: bool, count: nat)
    requires pos <= |src|
  {
    str + Encoded(src[pos..], mime, count) == Encoded(src, mime, 0)
  }

  lemma WrittenNext(str: Bytes, src: Bytes, pos: nat, mime: bool, count: nat)
    requires pos < |src| && Written(str, src, pos, mime, count)
    ensures var next := pos + GroupLength(src[pos..]);
            Written(str + Quad(src[pos..next]) + Break(mime, count + 1), src, next, mime, Wrap(mime, count + 1))
  {
    hide Encoded, Quad, Break, Wrap;
    EncodedNext(src, pos, mime, count);
    var next := pos + GroupLength(src[pos..]);
    var q, added := Quad(src[pos..next]), Break(mime, count + 1);
    var later := Encoded(src[next..], mime, Wrap(mime, count + 1));
    Associative(str, q, added + later);
    Associative(str + q, added, later);
  }

  lemma WrittenAll(src: Bytes, str: Bytes, mime: bool, count: nat)
    ensures Written([], src, 0, mime, 0)
    ensures Written(str, src, |src|, mime, count) ==> str == Encoded(src, mime, 0)
  {
    assert src[0..] == src && src[|src|..] == [] && str + [] == str;
    assert [] + Encoded(src, mime, 0) == Encoded(src, mime, 0);
  }

  method Encode(src: Bytes, mime: bool) returns (str: Bytes)
    ensures str == Encoded(src, mime, 0)
  {
    hide Written, Encoded, Quad;
    str := [];
    var pos, count := 0, 0;
    WrittenAll(src, str, mime, count);
    while pos < |src|
      invariant pos <= |src|
      invariant Written(str, src, pos, mime, count)
      invariant count < QUADS_A_LINE && (!mime ==> count == 0)
    {
      WrittenNext(str, src, pos, mime, count);
      var tmp;
      tmp, pos := EncodeQuad(src, pos);
      str := str + tmp;
      WithNothing(str);
      if mime {
        count := count + 1;
        if count == QUADS_A_LINE {
          count := 0;
          str := str + [CR, LF];
        }
      }
    }
    WrittenAll(src, str, mime, count);
  }

  lemma EncodedNext(src: Bytes, pos: nat, mime: bool, count: nat)
    requires pos < |src|
    ensures var n := GroupLength(src[pos..]);
            Encoded(src[pos..], mime, count) ==
            Quad(src[pos..pos + n]) + (Break(mime, count + 1) + Encoded(src[pos + n..], mime, Wrap(mime, count + 1)))
  {
    hide Quad, Break, Wrap;
    var n := GroupLength(src[pos..]);
    assert src[pos..][..n] == src[pos..pos + n] && src[pos..][n..] == src[pos + n..];
  }

  // ---- decoding ----

  /** The characters that matter: blanks and percent escapes are skipped. */
  function Clean(s: Bytes): Bytes
    decreases |s|
  {
    if s == [] then []
    else if IsBlank(s[0]) then Clean(s[1..])
    else if s[0] == PERCENT then (if |s| < 3 then [] else Clean(s[3..]))
    else [s[0]] + Clean(s[1..])
  }

  /** What one group of four characters stands for; None stops the decoder. */
  function Group(c0: byte, c1: byte, c2: byte, c3: byte): (g: seq<Bytes>)
    ensures |g| <= 1
  {
    var v0, v1, v2, v3 := Value(c0), Value(c1), Value(c2), Value(c3);
    if v0 == ILLEGAL || v1 == ILLEGAL then []
    else
      var x := v0 * 4 + v1 / 16;
      if v2 == ILLEGAL then (if c2 == PAD && c3 == PAD then [[x]] else [])
      else
        var y := v1 % 16 * 16 + v2 / 4;
        if v3 == ILLEGAL then (if c3 == PAD then [[x, y]] else [])
        else [[x, y, v2 % 4 * 64 + v3]]
  }

  function Or(t: Bytes, i: nat): byte {
    if i < |t| then t[i] else PAD
  }

  /** Group after group; the last one may lack its padding. */
  function Groups(t: Bytes): Bytes
    decreases |t|
  {
    if |t| < 2 then []
    else
      var g := Group(t[0], t[1], Or(t, 2), Or(t, 3));
      if g == [] then [] else g[0] + Groups(if |t| < 4 then [] else t[4..])
  }

  function Decoded(s: Bytes): Bytes {
    Groups(Clean(s))
  }

  /** The next character that matters, if there is one. */
  method NextCh(src: Bytes, from: nat) returns (found: bool, c: byte, pos: nat)
    requires from <= |src|
    ensures pos <= |src| && (found ==> from < pos)
    ensures Clean(src[from..]) == if found then [c] + Clean(src[pos..]) else []
    ensures !found ==> pos == |src|
  {
    pos, found, c := from, false, PAD;
    while pos < |src|
      invariant from <= pos <= |src|
      invariant Clean(src[pos..]) == Clean(src[from..])
    {
      assert src[pos..][1..] == src[pos + 1..];
      assert pos + 3 <= |src| ==> src[pos..][3..] == src[pos + 3..];
      c := src[pos];
      pos := pos + 1;
      if IsBlank(c) {
      } else if c == PERCENT {
        // the escape may end behind the text, where the decoder stops all the same
        pos := if pos + 2 <= |src| then pos + 2 else |src|;
      } else {
        return true, c, pos;
      }
    }
  }

  /** Appends what a group stands for. */
  method DecodeGroup(str: Bytes, c0: byte, c1: byte, c2: byte, c3: byte) returns (str': Bytes, legal: bool)
    ensures legal == (Group(c0, c1, c2, c3) != [])
    ensures str' == if legal then str + Group(c0, c1, c2, c3)[0] else str
  {
    str', legal := str, false;
    var v0 := Value(c0);
    if v0 == ILLEGAL {
      return;
    }
    var v1 := Value(c1);
    if v1 == ILLEGAL {
      return;
    }
    var x: byte := v0 * 4 + v1 / 16;
    var v2 := Value(c2);
    if v2 == ILLEGAL {
      if c2 != PAD || c3 != PAD {
        return;
      }
      return str + [x], true;
    }
    var y: byte := v1 % 16 * 16 + v2 / 4;
    var v3 := Value(c3);
    if v3 == ILLEGAL {
      if c3 != PAD {
        return;
      }
      return str + [x, y], true;
    }
    var z: byte := v2 % 4 * 64 + v3;
    return str + [x, y, z], true;
  }

  lemma GroupsStep(c0: byte, c1: byte, tail: Bytes)
    ensures var g := Group(c0, c1, Or(tail, 0), Or(tail, 1));
            Groups([c0] + ([c1] + tail)) == if g == [] then [] else g[0] + Groups(if |tail| < 2 then [] else tail[2..])
  {
    hide Group;
    var t := [c0] + ([c1] + tail);
    assert |t| == |tail| + 2 && t[0] == c0 && t[1] == c1;
    assert Or(t, 2) == Or(tail, 0) && Or(t, 3) == Or(tail, 1);
    hide Or;
    assert |t| >= 4 ==> t[4..] == tail[2..];
  }

  lemma GroupsFew(t: Bytes)
    requires |t| < 2
    ensures Groups(t) == []
  {
  }

  lemma CleanNothing(src: Bytes)
    ensures Clean(src[|src|..]) == []
  {
  }

  /** The loop over groups of four characters; after padding it starts again, which is going on with the next group. */
  method Decode(src: Bytes) returns (str: Bytes)
    ensures str == Decoded(src)
  {
    hide Groups, Clean, Group;
    str := [];
    var pos := 0;
    assert src[0..] == src;
    CleanNothing(src);
    while true
      invariant pos <= |src|
      invariant str + Groups(Clean(src[pos..])) == Groups(Clean(src))
      decreases |src| - pos
    {
      var found0, c0, pos0 := NextCh(src, pos);
      if !found0 {
        GroupsFew([]);
        WithNothing(str);
        return;
      }
      var found1, c1, pos1 := NextCh(src, pos0);
      if !found1 {
        GroupsFew([c0] + []);
        WithNothing(str);
        return;
      }
      var found2, c2, pos2 := NextCh(src, pos1);
      var found3, c3, pos3 := NextCh(src, pos2);
      if !found2 {
        c2 := PAD;
      }
      if !found3 {
        c3 := PAD;
      }
      ghost var tail := Clean(src[pos1..]);
      ghost var rest := Clean(src[pos3..]);
      CleanNothing(src);
      TailOf(tail, found2, c2, found3, c3, rest);
      GroupsStep(c0, c1, tail);
      ghost var was := str;
      var legal;
      str, legal := DecodeGroup(str, c0, c1, c2, c3);
      if !legal {
        WithNothing(str);
        return;
      }
      Associative(was, Group(c0, c1, c2, c3)[0], Groups(rest));
      pos := pos3;
    }
  }

  lemma TailOf(tail: Bytes, found2: bool, c2: byte, found3: bool, c3: byte, rest: Bytes)
    requires if found2 then tail == [c2] + (if found3 then [c3] + rest else []) else tail == [] && !found3
    requires (!found2 ==> c2 == PAD) && (!found3 ==> c3 == PAD && rest == [])
    ensures Or(tail, 0) == c2 && Or(tail, 1) == c3 && rest == if |tail| < 2 then [] else tail[2..]
  {
  }

  // ---- decoding undoes encoding ----

  /** The text without its line breaks. */
  function Plain(s: Bytes): Bytes
    decreases |s|
  {
    if s == [] then [] else Quad(s[..GroupLength(s)]) + Plain(s[GroupLength(s)..])
  }

  lemma QuadClean(g: Bytes, rest: Bytes)
    requires 1 <= |g| <= 3
    ensures Clean(Quad(g) + rest) == Quad(g) + Clean(rest)
  {
    var q := Quad(g);
    assert forall i :: 0 <= i < 4 ==> !IsBlank(q[i]) && q[i] != PERCENT;
    hide Quad, Clean;
    CleanFour(q[0], q[1], q[2], q[3], rest);
    assert q == [q[0], q[1], q[2], q[3]];
  }

  predicate Matters(c: byte) {
    !IsBlank(c) && c != PERCENT
  }

  lemma CleanFour(c0: byte, c1: byte, c2: byte, c3: byte, rest: Bytes)
    requires Matters(c0) && Matters(c1) && Matters(c2) && Matters(c3)
    ensures Clean([c0, c1, c2, c3] + rest) == [c0, c1, c2, c3] + Clean(rest)
  {
    hide Clean, IsBlank;
    CleanOne(c3, rest);
    CleanOne(c2, [c3] + rest);
    CleanOne(c1, [c2] + ([c3] + rest));
    CleanOne(c0, [c1] + ([c2] + ([c3] + rest)));
    OneByOne(c0, c1, c2, c3, rest);
    OneByOne(c0, c1, c2, c3, Clean(rest));
  }

  lemma OneByOne(c0: byte, c1: byte, c2: byte, c3: byte, rest: Bytes)
    ensures [c0, c1, c2, c3] + rest == [c0] + ([c1] + ([c2] + ([c3] + rest)))
  {
  }

  lemma CleanOne(c: byte, rest: Bytes)
    ensures Clean([c] + rest) ==
            if IsBlank(c) then Clean(rest)
            else if c == PERCENT then (if |rest| < 2 then [] else Clean(rest[2..])) else [c] + Clean(rest)
  {
    assert ([c] + rest)[1..] == rest;
    assert |rest| >= 2 ==> ([c] + rest)[3..] == rest[2..];
  }

  lemma BreakClean(rest: Bytes)
    ensures Clean([CR, LF] + rest) == Clean(rest)
  {
    assert [CR, LF] + rest == [CR] + ([LF] + rest);
    CleanOne(CR, [LF] + rest);
    CleanOne(LF, rest);
  }

  lemma {:induction false} EncodedClean(s: Bytes, mime: bool, count: nat, rest: Bytes)
    ensures Clean(Encoded(s, mime, count) + rest) == Plain(s) + Clean(rest)
    decreases |s|
  {
    if s == [] {
      WithNothing(rest);
      WithNothing(Clean(rest));
    } else {
      hide Clean, Quad, Break, Wrap;
      var n := GroupLength(s);
      var q, added := Quad(s[..n]), Break(mime, count + 1);
      var later := Encoded(s[n..], mime, Wrap(mime, count + 1));
      EncodedClean(s[n..], mime, Wrap(mime, count + 1), rest);
      hide Encoded;
      Associative(q, added + later, rest);
      Associative(added, later, rest);
      QuadClean(s[..n], added + (later + rest));
      AddedClean(mime, count + 1, later + rest);
      Associative(q, Plain(s[n..]), Clean(rest));
    }
  }

  lemma AddedClean(mime: bool, count: nat, rest: Bytes)
    ensures Clean(Break(mime, count) + rest) == Clean(rest)
  {
    hide Clean;
    BreakClean(rest);
    WithNothing(rest);
  }

  lemma GroupOfQuad(g: Bytes)
    requires 1 <= |g| <= 3
    ensures Group(Quad(g)[0], Quad(g)[1], Quad(g)[2], Quad(g)[3]) == [g]
  {
    hide First, Second, Third, Fourth, Letter, Value;
    var x, y, z := g[0], if |g| > 1 then g[1] else 0, if |g| > 2 then g[2] else 0;
    ValueOfLetter(First(x));
    ValueOfLetter(Second(x, y));
    ValueOfLetter(Third(y, z));
    ValueOfLetter(Fourth(z));
    SixBits(x, y, z);
    assert g == if |g| == 1 then [x] else if |g| == 2 then [x, y] else [x, y, z];
  }

  lemma SixBits(x: byte, y: byte, z: byte)
    ensures First(x) * 4 + Second(x, y) / 16 == x
    ensures Second(x, y) % 16 * 16 + Third(y, z) / 4 == y
    ensures Third(y, z) % 4 * 64 + Fourth(z) == z
    ensures Value(PAD) == ILLEGAL
  {
  }

  lemma {:induction false} GroupsPlain(s: Bytes, rest: Bytes)
    ensures Groups(Plain(s) + rest) == s + Groups(rest)
    decreases |s|
  {
    if s == [] {
      WithNothing(rest);
      WithNothing(Groups(rest));
    } else {
      hide Group, Groups, Quad, Plain;
      var n := GroupLength(s);
      PlainStep(s);
      var g, t := s[..n], s[n..];
      var q := Quad(g);
      GroupOfQuad(g);
      Associative(q, Plain(t), rest);
      GroupsOfFour(q, Plain(t) + rest);
      GroupsPlain(t, rest);
      Associative(g, t, Groups(rest));
    }
  }

  lemma PlainStep(s: Bytes)
    requires s != []
    ensures var n := GroupLength(s); Plain(s) == Quad(s[..n]) + Plain(s[n..]) && s == s[..n] + s[n..]
  {
    hide Quad;
  }

  lemma GroupsOfFour(q: Bytes, later: Bytes)
    requires |q| == 4
    ensures var g := Group(q[0], q[1], q[2], q[3]); Groups(q + later) == if g == [] then [] else g[0] + Groups(later)
  {
    hide Group, Groups;
    var tail := [q[2], q[3]] + later;
    assert q + later == [q[0]] + ([q[1]] + tail);
    assert tail[2..] == later;
    GroupsStep(q[0], q[1], tail);
  }

  /** Texts encoded one after the other decode to the bytes one after the other, padding in the middle or not. */
  lemma DecodeEncoded(a: Bytes, b: Bytes, mimeA: bool, mimeB: bool)
    ensures Decoded(Encoded(a, mimeA, 0) + Encoded(b, mimeB, 0)) == a + b
  {
    hide Clean, Groups, Encoded, Plain;
    var second := Encoded(b, mimeB, 0);
    EncodedClean(a, mimeA, 0, second);
    assert second + [] == second;
    EncodedClean(b, mimeB, 0, []);
    GroupsPlain(a, Plain(b) + Clean([]));
    GroupsPlain(b, Clean([]));
    NothingDecoded();
    assert a + (b + []) == a + b;
  }

  lemma NothingDecoded()
    ensures Clean([]) == [] && Groups([]) == []
  {
  }

  // ---- what the decoder tolerates ----

  /** How many bytes an unfinished percent escape still swallows behind the text. */
  function Unfinished(s: Bytes): nat
    decreases |s|
  {
    if s == [] then 0
    else if s[0] == PERCENT then (if |s| < 3 then 3 - |s| else Unfinished(s[3..]))
    else Unfinished(s[1..])
  }

  lemma {:induction false} CleanAppend(a: Bytes, b: Bytes)
    requires Unfinished(a) == 0
    ensures Clean(a + b) == Clean(a) + Clean(b)
    decreases |a|
  {
    if a == [] {
      assert a + b == b;
    } else if a[0] == PERCENT {
      assert (a + b)[3..] == a[3..] + b;
      CleanAppend(a[3..], b);
    } else {
      assert (a + b)[1..] == a[1..] + b;
      CleanAppend(a[1..], b);
    }
  }

  lemma {:induction false} BlanksClean(w: Bytes)
    requires forall c :: c in w ==> IsBlank(c)
    ensures Clean(w) == [] && Unfinished(w) == 0
    decreases |w|
  {
    if w != [] {
      assert w[0] in w;
      BlanksClean(w[1..]);
    }
  }

  /** Blanks and line breaks anywhere (but inside a percent escape) change nothing. */
  lemma BlanksIgnored(a: Bytes, w: Bytes, b: Bytes)
    requires Unfinished(a) == 0 && forall c :: c in w ==> IsBlank(c)
    ensures Decoded(a + w + b) == Decoded(a + b)
  {
    hide Clean, Groups, Unfinished;
    BlanksClean(w);
    CleanAppend(w, b);
    assert a + w + b == a + (w + b);
    CleanAppend(a, w + b);
    CleanAppend(a, b);
    assert [] + Clean(b) == Clean(b);
  }

  lemma {:induction false} GroupsPadded(t: Bytes)
    ensures Groups(t + [PAD]) == Groups(t)
    decreases |t|
  {
    var p := t + [PAD];
    if |t| >= 4 {
      assert p[4..] == t[4..] + [PAD];
      GroupsPadded(t[4..]);
    } else if |t| == 3 {
      assert p[4..] == [];
    } else if |t| == 1 {
      assert Value(PAD) == ILLEGAL;
    }
  }

  /** A trailing padding character more or less changes nothing, whatever the text is. */
  lemma PaddingIgnored(s: Bytes)
    requires Unfinished(s) == 0
    ensures Decoded(s + [PAD]) == Decoded(s)
  {
    hide Groups, Unfinished;
    CleanAppend(s, [PAD]);
    assert [PAD][1..] == [];
    assert Clean([PAD]) == [PAD];
    hide Clean;
    GroupsPadded(Clean(s));
  }

  // ---- lines and length ----

  const LINE_LENGTH: nat := 76

  lemma ShortQuad(g: Bytes, rest: Bytes, column: nat)
    requires 1 <= |g| <= 3 && column + 4 <= LINE_LENGTH && ShortLines(rest, LINE_LENGTH, column + 4)
    ensures ShortLines(Quad(g) + rest, LINE_LENGTH, column)
  {
    assert CR !in Quad(g);
    hide Quad;
    ShortBefore(Quad(g), rest, LINE_LENGTH, column);
  }

  /** With line breaks asked for, no line is longer than 76 characters. */
  lemma {:induction false} EncodedLines(s: Bytes, count: nat)
    requires count < QUADS_A_LINE
    ensures ShortLines(Encoded(s, true, count), LINE_LENGTH, 4 * count)
    decreases |s|
  {
    hide Quad;
    if s != [] {
      var n := GroupLength(s);
      var later := Encoded(s[n..], true, Wrap(true, count + 1));
      EncodedLines(s[n..], Wrap(true, count + 1));
      WithNothing(later);
      if count + 1 == QUADS_A_LINE {
        assert ([CR, LF] + later)[2..] == later;
      }
      ShortQuad(s[..n], Break(true, count + 1) + later, 4 * count);
    }
  }

  /** The buffer length callers are told to reserve. */
  function MinLength(length: nat, mime: bool): nat {
    length * 4 / 3 + 4 + (if mime then (length / (76 * 3 / 4) + 1) * 2 + 2 else 0) + 1
  }

  function QuadCount(n: nat): nat {
    (n + 2) / 3
  }

  function BreakCount(mime: bool, count: nat, quads: nat): nat {
    if mime then (count + quads) / QUADS_A_LINE else 0
  }

  lemma {:induction false} EncodedLength(s: Bytes, mime: bool, count: nat)
    requires count < QUADS_A_LINE
    ensures |Encoded(s, mime, count)| == 4 * QuadCount(|s|) + 2 * BreakCount(mime, count, QuadCount(|s|))
    decreases |s|
  {
    hide Quad;
    if s != [] {
      var n := GroupLength(s);
      EncodedLength(s[n..], mime, Wrap(mime, count + 1));
      OneQuad(|s|, n, mime, count);
      hide QuadCount, BreakCount;
    } else {
      assert QuadCount(0) == 0 && BreakCount(mime, count, 0) == 0;
    }
  }

  lemma OneQuad(length: nat, n: nat, mime: bool, count: nat)
    requires 0 < length && n == (if length < 3 then length else 3) && count < QUADS_A_LINE
    ensures QuadCount(length) == 1 + QuadCount(length - n)
    ensures BreakCount(mime, count, 1 + QuadCount(length - n)) ==
            (if mime && count + 1 == QUADS_A_LINE then 1 else 0) +
                BreakCount(mime, Wrap(mime, count + 1), QuadCount(length - n))
  {
    var q := QuadCount(length - n);
    assert count + 1 == QUADS_A_LINE ==> (QUADS_A_LINE + q) / QUADS_A_LINE == 1 + q / QUADS_A_LINE;
  }

  lemma QuadsBound(n: nat)
    ensures 4 * ((n + 2) / 3) <= n * 4 / 3 + 3
    ensures (n + 2) / 3 / 19 <= n / 57 + 1
  {
    var q := (n + 2) / 3;
    assert 3 * q <= n + 2 && 3 * (n * 4 / 3) >= 4 * n - 2;
    var k, m := q / 19, n / 57;
    assert 19 * k <= q && n < 57 * m + 57;
  }

  /** The encoder never writes as much as callers are told to reserve. */
  lemma EncodedFits(s: Bytes, mime: bool)
    ensures |Encoded(s, mime, 0)| < MinLength(|s|, mime)
  {
    hide Encoded;
    EncodedLength(s, mime, 0);
    QuadsBound(|s|);
  }
}
