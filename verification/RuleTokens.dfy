/** Blanks, signs and empty tokens in the text of a rule: what is read over, and what counts. */
module RuleTokens {
  import opened Bytes
  import opened Ascii
  import opened RruleText
  import opened RruleForm

  predicate Blank(s: Bytes) {
    forall i :: 0 <= i < |s| ==> IsSpace(s[i])
  }

  /** Blanks, digits and letters are those of the C locale. */
  lemma CharacterClasses(c: byte)
    ensures IsSpace(c) <==> c == SPACE || c == TAB || c == LF || c == CR || c == 11 || c == 12
    ensures IsDigit(c) <==> '0' as int <= c <= '9' as int
    ensures IsAlpha(c) <==> 'A' as int <= c <= 'Z' as int || 'a' as int <= c <= 'z' as int
  {
  }

  // ---- values ----

  lemma {:induction false} SkipBlanks(a: Bytes, v: Bytes)
    requires Blank(a) && (v == [] || !IsSpace(v[0]))
    ensures SkipSpaces(a + v) == v
    decreases |a|
  {
    if a == [] {
      WithNothing(v);
    } else {
      assert (a + v)[1..] == a[1..] + v;
      SkipBlanks(a[1..], v);
    }
  }

  lemma {:induction false} TrimBlanks(v: Bytes, b: Bytes)
    requires Blank(b) && (v == [] || !IsSpace(v[|v| - 1]))
    ensures TrimRight(v + b) == v
    decreases |b|
  {
    if b == [] {
      WithNothing(v);
    } else {
      assert (v + b)[..|v + b| - 1] == v + b[..|b| - 1];
      TrimBlanks(v, b[..|b| - 1]);
    }
  }

  lemma {:induction false} SkipAll(a: Bytes)
    requires Blank(a)
    ensures SkipSpaces(a) == []
  {
    WithNothing(a);
    SkipBlanks(a, []);
  }

  /** What is left of a value is what stands between the blanks at its ends. */
  lemma TrimExactly(a: Bytes, v: Bytes, b: Bytes)
    requires Blank(a) && Blank(b) && (v == [] || (!IsSpace(v[0]) && !IsSpace(v[|v| - 1])))
    ensures Trimmed(a + v + b) == v
  {
    hide SkipSpaces, TrimRight;
    if v == [] {
      WithNothing(a);
      SkipAll(a + b);
      TrimBlanks([], []);
      WithNothing([]);
    } else {
      Associative(a, v, b);
      SkipBlanks(a, v + b);
      TrimBlanks(v, b);
    }
  }

  // ---- numbers ----

  predicate NoDigit(rest: Bytes) {
    rest == [] || !IsDigit(rest[0])
  }

  /** A number may stand behind blanks and a sign; where there is none, 0 is read. */
  lemma AtoiMeaning(blanks: Bytes, n: nat, rest: Bytes)
    requires Blank(blanks) && NoDigit(rest)
    ensures Atoi(blanks + (Decimal(n) + rest)) == n
    ensures Atoi(blanks + ([PLUS] + (Decimal(n) + rest))) == n
    ensures Atoi(blanks + ([MINUS] + (Decimal(n) + rest))) == 0 - n
    ensures rest != [] && !IsSpace(rest[0]) && rest[0] != PLUS && rest[0] != MINUS ==> Atoi(blanks + rest) == 0
  {
    hide Decimal;
    var digits := Decimal(n) + rest;
    NumberDecimal(n, rest);
    assert Number(rest, n) == n && Number(rest, 0) == 0;
    SkipBlanks(blanks, digits);
    Behind(PLUS, digits);
    SkipBlanks(blanks, [PLUS] + digits);
    Behind(MINUS, digits);
    SkipBlanks(blanks, [MINUS] + digits);
    if rest != [] && !IsSpace(rest[0]) {
      SkipBlanks(blanks, rest);
    }
  }

  /** A weekday token ends at a NUL, and so is none when its name would come behind it. */
  lemma {:induction false} NulEndsToken(number: Bytes, rest: Bytes)
    requires forall i :: 0 <= i < |number| ==> !IsAlpha(number[i]) && number[i] != 0
    ensures WeekdayOfToken(number + ([0] + rest)) == []
  {
    LettersBehindNul(number, rest);
    hide Atoi, FromLetter;
    assert FromLetter(number + ([0] + rest))[0] == 0;
  }

  lemma {:induction false} LettersBehindNul(number: Bytes, rest: Bytes)
    requires forall i :: 0 <= i < |number| ==> !IsAlpha(number[i]) && number[i] != 0
    ensures FromLetter(number + ([0] + rest)) == [0] + rest
    decreases |number|
  {
    if number == [] {
      WithNothing([0] + rest);
    } else {
      assert (number + ([0] + rest))[1..] == number[1..] + ([0] + rest);
      LettersBehindNul(number[1..], rest);
    }
  }

  // ---- tokens ----

  lemma {:induction false} TokensGap(a: Bytes, b: Bytes, d: byte, token: Bytes)
    ensures Tokens(a + ([d] + ([d] + b)), d, token) == Tokens(a + ([d] + b), d, token)
    decreases |a|
  {
    Behind(d, [d] + b);
    Behind(d, b);
    if a == [] {
      WithNothing([d] + ([d] + b));
      WithNothing([d] + b);
    } else {
      var s, t := a + ([d] + ([d] + b)), a + ([d] + b);
      assert s[1..] == a[1..] + ([d] + ([d] + b)) && t[1..] == a[1..] + ([d] + b);
      TokensGap(a[1..], b, d, if a[0] == d then [] else token + [a[0]]);
    }
  }

  lemma {:induction false} TokensTail(a: Bytes, d: byte, token: Bytes)
    ensures Tokens(a + [d], d, token) == Tokens(a, d, token)
    decreases |a|
  {
    if a == [] {
      WithNothing([d]);
      assert [d][1..] == [];
    } else {
      assert (a + [d])[1..] == a[1..] + [d];
      TokensTail(a[1..], d, if a[0] == d then [] else token + [a[0]]);
    }
  }

  /** A delimiter in front, at the end, or next to another one adds no token. */
  lemma SplitGaps(a: Bytes, b: Bytes, d: byte)
    ensures Split(a + ([d] + ([d] + b)), d) == Split(a + ([d] + b), d)
    ensures a != [] ==> Split([d] + a, d) == Split(a, d) && Split(a + [d], d) == Split(a, d)
  {
    hide Tokens;
    TokensGap(a, b, d, []);
    TokensDelimiter(a, d);
    TokensTail(a, d, []);
  }
}
