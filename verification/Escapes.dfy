/** Escaped text values as section 3.3.11 of RFC 5545 reads them, and as the code does. */
module Escapes {
  import opened Bytes
  import opened Ascii
  import opened IcsText
  import opened ContentLine

  /** A character as it is, or behind a backslash. */
  datatype Unit = Bare(c: byte) | Escaped(c: byte)

  function Written(us: seq<Unit>): Bytes {
    if us == [] then []
    else (if us[0].Bare? then [us[0].c] else [BACKSLASH, us[0].c]) + Written(us[1..])
  }

  predicate Proper(us: seq<Unit>) {
    forall u :: u in us ==> u.Bare? ==> u.c != BACKSLASH
  }

  predicate Is(c: byte, ch: char) {
    c == ch as int
  }

  predicate InStandard(c: byte) {
    Is(c, '\\') || Is(c, ';') || Is(c, ',') || Is(c, 'n') || Is(c, 'N')
  }

  /** The escapes of the standard: backslash, semicolon, comma, and the letter n, small or capital. */
  predicate Standard(us: seq<Unit>) {
    forall u :: u in us ==> u.Escaped? ==> InStandard(u.c)
  }

  function Meaning(u: Unit): byte {
    if u.Escaped? && (Is(u.c, 'n') || Is(u.c, 'N')) then LF else u.c
  }

  function Meant(us: seq<Unit>): (r: Bytes)
    ensures |r| == |us| && forall i :: 0 <= i < |us| ==> r[i] == Meaning(us[i])
  {
    if us == [] then [] else [Meaning(us[0])] + Meant(us[1..])
  }

  /** What the code makes of one of them: it knows three letters, all small. */
  function Reading(u: Unit): byte {
    if u.Bare? then u.c
    else if Is(u.c, 'n') then LF
    else if Is(u.c, 'r') then CR
    else if Is(u.c, 't') then TAB
    else u.c
  }

  lemma {:induction false} UnescapeWritten(us: seq<Unit>)
    requires Proper(us)
    ensures |Unescape(Written(us))| == |us|
    ensures forall i :: 0 <= i < |us| ==> Unescape(Written(us))[i] == Reading(us[i])
    decreases |us|
  {
    if us != [] {
      var u, rest := us[0], Written(us[1..]);
      assert u in us && Proper(us[1..]);
      UnescapeWritten(us[1..]);
      var s := Written(us);
      if u.Bare? {
        assert s[1..] == rest;
      } else {
        assert s[2..] == rest;
      }
      assert Unescape(s) == [Reading(u)] + Unescape(rest);
    }
  }

  /** A standard text is read as the standard means it exactly when it writes no line break with a capital letter. */
  lemma UnescapeExactly(us: seq<Unit>)
    requires Proper(us) && Standard(us)
    ensures Unescape(Written(us)) == Meant(us) <==> Escaped('N' as int) !in us
  {
    hide Unescape, Written;
    UnescapeWritten(us);
    var read := Unescape(Written(us));
    if Escaped('N' as int) in us {
      var i :| 0 <= i < |us| && us[i] == Escaped('N' as int);
      assert read[i] != Meant(us)[i];
    } else {
      forall i | 0 <= i < |us|
        ensures read[i] == Meant(us)[i]
      {
        assert us[i] in us;
      }
    }
  }

  // ---- what the printer writes ----

  function UnitOf(c: byte): Unit {
    if c == LF then Escaped('n' as int)
    else if c == CR then Escaped('r' as int)
    else if Is(c, '\\') || Is(c, ';') || Is(c, ',') then Escaped(c)
    else Bare(c)
  }

  function UnitsOf(v: Bytes): (us: seq<Unit>)
    ensures |us| == |v| && forall i :: 0 <= i < |v| ==> us[i] == UnitOf(v[i])
  {
    if v == [] then [] else [UnitOf(v[0])] + UnitsOf(v[1..])
  }

  lemma EscapeUnit(c: byte, us: seq<Unit>)
    ensures Written([UnitOf(c)] + us) == EscapeByte(c) + Written(us)
  {
    assert ([UnitOf(c)] + us)[1..] == us;
  }

  lemma {:induction false} EscapeIsWritten(v: Bytes)
    ensures Escape(v) == Written(UnitsOf(v))
    decreases |v|
  {
    hide Escape, Written, EscapeByte, UnitOf;
    if v == [] {
      NothingWritten();
      assert UnitsOf(v) == [];
    } else {
      assert v == [v[0]] + v[1..];
      EscapeFirst(v[0], v[1..]);
      EscapeIsWritten(v[1..]);
      assert UnitsOf(v) == [UnitOf(v[0])] + UnitsOf(v[1..]);
      EscapeUnit(v[0], UnitsOf(v[1..]));
    }
  }

  lemma NothingWritten()
    ensures Escape([]) == [] == Written([])
  {
  }

  /** The printer leaves no separator and no line break bare. What it writes is a standard text exactly when there is no
      carriage return, and then it means the value. */
  lemma EscapedIsStandard(v: Bytes)
    ensures var us := UnitsOf(v);
            && Escape(v) == Written(us) && Proper(us)
            && (forall u :: u in us ==> u.Bare? ==> !Is(u.c, ';') && !Is(u.c, ',') && u.c != LF && u.c != CR)
            && (Standard(us) <==> CR !in v)
            && (CR !in v ==> Meant(us) == v)
  {
    hide Escape, Written, UnitOf, InStandard, Meaning;
    EscapeIsWritten(v);
    var us := UnitsOf(v);
    forall u | u in us
      ensures u.Bare? ==> u.c != BACKSLASH && !Is(u.c, ';') && !Is(u.c, ',') && u.c != LF && u.c != CR
    {
      var i :| 0 <= i < |us| && us[i] == u;
      UnitMeaning(v[i]);
    }
    forall i | 0 <= i < |v|
      ensures us[i] in us && ((us[i].Escaped? ==> InStandard(us[i].c)) <==> v[i] != CR)
      ensures v[i] != CR ==> Meant(us)[i] == v[i]
    {
      UnitMeaning(v[i]);
    }
  }

  lemma UnitMeaning(c: byte)
    ensures var u := UnitOf(c);
            && (u.Bare? ==> u.c != BACKSLASH && !Is(u.c, ';') && !Is(u.c, ',') && u.c != LF && u.c != CR)
            && ((u.Escaped? ==> InStandard(u.c)) <==> c != CR)
            && (c != CR ==> Meaning(u) == c)
  {
  }
}
