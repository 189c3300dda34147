/** Reading folded text: lines may end in a line feed or in both characters, be folded before a blank or a tab, and
    blank lines may come first. */
module Unfolding {
  import opened Bytes
  import opened Ascii
  import opened IcsText

  /** A logical line as it stands in a text: cut into pieces, with a fold between each two, and its end. */
  datatype Laid = Laid(first: Bytes, folds: seq<Fold>, end: Bytes)

  datatype Fold = Fold(mark: Bytes, piece: Bytes)

  predicate IsEnd(e: Bytes) {
    e == [LF] || e == [CR, LF]
  }

  predicate IsMark(m: Bytes) {
    m == [LF, SPACE] || m == [LF, TAB] || m == [CR, LF, SPACE] || m == [CR, LF, TAB]
  }

  predicate Flat(s: Bytes) {
    CR !in s && LF !in s
  }

  predicate Fine(l: Laid) {
    Flat(l.first) && IsEnd(l.end) && forall f :: f in l.folds ==> IsMark(f.mark) && Flat(f.piece)
  }

  function FoldText(folds: seq<Fold>): Bytes {
    if folds == [] then [] else folds[0].mark + (folds[0].piece + FoldText(folds[1..]))
  }

  function TextOf(l: Laid): Bytes {
    l.first + (FoldText(l.folds) + l.end)
  }

  function Joined(folds: seq<Fold>): Bytes {
    if folds == [] then [] else folds[0].piece + Joined(folds[1..])
  }

  /** The logical line. */
  function LineOf(l: Laid): Bytes {
    l.first + Joined(l.folds)
  }

  predicate StartsBlank(s: Bytes) {
    s != [] && (s[0] == SPACE || s[0] == TAB)
  }

  // ---- one logical line ----

  lemma MarkSkipped(m: Bytes, rest: Bytes, line: Bytes)
    requires IsMark(m)
    ensures Unfold(m + rest, line) == Unfold(rest, line)
  {
    var s := m + rest;
    if m[0] == CR {
      assert s[1..] == m[1..] + rest && s[1..][2..] == rest;
    } else {
      assert s[2..] == rest;
    }
  }

  lemma EndEnds(e: Bytes, rest: Bytes, line: Bytes)
    requires IsEnd(e) && !StartsBlank(rest)
    ensures Unfold(e + rest, line) == [line] + Unfold(rest, [])
  {
    var s := e + rest;
    if e[0] == CR {
      assert s[1..] == [LF] + rest && s[1..][1..] == rest;
    } else {
      assert s[1..] == rest;
    }
  }

  lemma {:induction false} FoldsUnfold(folds: seq<Fold>, end: Bytes, rest: Bytes, line: Bytes)
    requires IsEnd(end) && !StartsBlank(rest) && forall f :: f in folds ==> IsMark(f.mark) && Flat(f.piece)
    ensures Unfold(FoldText(folds) + (end + rest), line) == [line + Joined(folds)] + Unfold(rest, [])
    decreases |folds|
  {
    hide Unfold, IsMark, IsEnd;
    if folds == [] {
      WithNothing(end + rest);
      WithNothing(line);
      EndEnds(end, rest, line);
    } else {
      var f, later := folds[0], FoldText(folds[1..]);
      assert f in folds;
      Associative(f.mark, f.piece + later, end + rest);
      Associative(f.piece, later, end + rest);
      MarkSkipped(f.mark, f.piece + (later + (end + rest)), line);
      UnfoldPlain(f.piece, later + (end + rest), line);
      FoldsUnfold(folds[1..], end, rest, line + f.piece);
      Associative(line, f.piece, Joined(folds[1..]));
    }
  }

  lemma LineUnfolds(l: Laid, rest: Bytes)
    requires Fine(l) && !StartsBlank(rest)
    ensures Unfold(TextOf(l) + rest, []) == [LineOf(l)] + Unfold(rest, [])
  {
    hide Unfold;
    Associative(l.first, FoldText(l.folds) + l.end, rest);
    Associative(FoldText(l.folds), l.end, rest);
    UnfoldPlain(l.first, FoldText(l.folds) + (l.end + rest), []);
    WithNothing(l.first);
    FoldsUnfold(l.folds, l.end, rest, l.first);
  }

  // ---- whole texts ----

  function TextOfAll(ls: seq<Laid>): Bytes {
    if ls == [] then [] else TextOf(ls[0]) + TextOfAll(ls[1..])
  }

  function LinesOf(ls: seq<Laid>): (r: seq<Bytes>)
    ensures |r| == |ls| && forall i :: 0 <= i < |ls| ==> r[i] == LineOf(ls[i])
  {
    if ls == [] then [] else [LineOf(ls[0])] + LinesOf(ls[1..])
  }

  predicate AllFine(ls: seq<Laid>) {
    forall l :: l in ls ==> Fine(l) && !StartsBlank(TextOf(l))
  }

  lemma NotBlankAfter(ls: seq<Laid>)
    requires AllFine(ls)
    ensures !StartsBlank(TextOfAll(ls))
  {
    if ls != [] {
      assert ls[0] in ls;
      assert TextOf(ls[0]) != [] by { assert ls[0].end != []; }
    }
  }

  lemma {:induction false} TextUnfolds(ls: seq<Laid>)
    requires AllFine(ls)
    ensures Unfold(TextOfAll(ls), []) == LinesOf(ls)
    decreases |ls|
  {
    hide Unfold, TextOf, LineOf, Fine;
    if ls == [] {
      NothingUnfolds();
    } else {
      assert ls[0] in ls && AllFine(ls[1..]);
      assert !StartsBlank(TextOfAll(ls[1..])) by { NotBlankAfter(ls[1..]); }
      LineUnfolds(ls[0], TextOfAll(ls[1..]));
      TextUnfolds(ls[1..]);
    }
  }

  lemma NothingUnfolds()
    ensures Unfold([], []) == []
  {
  }

  lemma {:induction false} BlankLinesDropped(a: seq<Bytes>, b: seq<Bytes>)
    requires (forall l :: l in a ==> l == []) && (b == [] || b[0] != [])
    ensures DropEmpty(a + b) == b
    decreases |a|
  {
    if a == [] {
      assert a + b == b;
    } else {
      assert a[0] in a && (a + b)[1..] == a[1..] + b;
      assert forall l :: l in a[1..] ==> l in a;
      BlankLinesDropped(a[1..], b);
    }
  }

  lemma LinesOfBoth(a: seq<Laid>, b: seq<Laid>)
    ensures LinesOf(a + b) == LinesOf(a) + LinesOf(b)
  {
    hide LineOf;
  }

  lemma BlankLines(blank: seq<Laid>)
    requires forall l :: l in blank ==> LineOf(l) == []
    ensures forall l :: l in LinesOf(blank) ==> l == []
  {
    hide LineOf;
    forall l | l in LinesOf(blank)
      ensures l == []
    {
      var i :| 0 <= i < |LinesOf(blank)| && LinesOf(blank)[i] == l;
      assert blank[i] in blank;
    }
  }

  /** The lines that are read: every logical line whole and in order, without blank lines in front. */
  lemma AnyLineEnds(blank: seq<Laid>, ls: seq<Laid>)
    requires AllFine(blank + ls) && (forall l :: l in blank ==> LineOf(l) == []) && (ls == [] || LineOf(ls[0]) != [])
    ensures DropEmpty(Unfold(TextOfAll(blank + ls), [])) == LinesOf(ls)
  {
    hide Unfold, LineOf, AllFine, TextOfAll, DropEmpty;
    TextUnfolds(blank + ls);
    LinesOfBoth(blank, ls);
    BlankLines(blank);
    BlankLinesDropped(LinesOf(blank), LinesOf(ls));
  }
}
