/** The lengths of the lines of a text. */
module TextLines {
  import opened Bytes
  import opened Ascii

  /** No line is longer than limit characters, the first having column characters already. */
  predicate ShortLines(t: Bytes, limit: nat, column: nat)
    decreases |t|
  {
    if t == [] then column <= limit
    else if |t| >= 2 && t[0] == CR && t[1] == LF then column <= limit && ShortLines(t[2..], limit, 0)
    else column < limit && ShortLines(t[1..], limit, column + 1)
  }

  lemma {:induction false} ShortBefore(t: Bytes, rest: Bytes, limit: nat, column: nat)
    requires CR !in t && ShortLines(rest, limit, column + |t|) && column + |t| <= limit
    ensures ShortLines(t + rest, limit, column)
    decreases |t|
  {
    if t == [] {
      assert t + rest == rest;
    } else {
      assert (t + rest)[1..] == t[1..] + rest;
      ShortBefore(t[1..], rest, limit, column + 1);
    }
  }

  /** Behind text without line breaks the lines are short exactly when they are from the column it ends at. */
  lemma {:induction false} ShortBehind(t: Bytes, rest: Bytes, limit: nat, column: nat)
    requires CR !in t && column + |t| <= limit
    ensures ShortLines(t + rest, limit, column) <==> ShortLines(rest, limit, column + |t|)
    decreases |t|
  {
    if t == [] {
      WithNothing(rest);
    } else {
      assert (t + rest)[1..] == t[1..] + rest;
      ShortBehind(t[1..], rest, limit, column + 1);
    }
  }

  lemma {:induction false} TooLong(t: Bytes, rest: Bytes, limit: nat, column: nat)
    requires CR !in t && column + |t| > limit
    ensures !ShortLines(t + rest, limit, column)
    decreases |t|
  {
    if t == [] {
      WithNothing(rest);
    } else {
      assert (t + rest)[1..] == t[1..] + rest;
      if column < limit { TooLong(t[1..], rest, limit, column + 1); }
    }
  }
}
