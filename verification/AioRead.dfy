/** Suspended and resumed reads of an asynchronous handle: what a request yields depends on the bytes of the stream
    alone, never on how they were split into reads or where the handle had to wait. */
module AioRead {
  import opened Bytes
  import opened Options
  import opened AioStage
  import AioCache
  import Bits

  const BUFFER: nat := 4096

  // ---- what a request asks of a stream ----

  datatype Request =
    | ReadN(length: int)
    | ReadDelimiter(delimiter: byte, max: int)
    | GetCint
    | GetCintAndData

  /** Wait: not enough bytes yet. Ready: drop skip bytes, then call back with ret. */
  datatype Answer = Wait | Fail | Ready(skip: nat, ret: nat)

  /** A varint in front of a stream: the header length and the number. The fifth byte is already too much. */
  datatype Cint = Short | Bad | Size(bytes: nat, size: nat)

  function Longer(c: Cint, bytes: nat, size: nat, scale: nat): Cint {
    if c.Size? then Size(bytes + c.bytes, size + scale * c.size) else c
  }

  function DecodeCint(s: Bytes, seen: nat): (c: Cint)
    ensures c.Size? ==> 1 <= c.bytes <= |s|
  {
    if s == [] then Short
    else if seen >= 4 then Bad
    else if s[0] >= 128 then Size(1, s[0] - 128)
    else Longer(DecodeCint(s[1..], seen + 1), 1, s[0], 128)
  }

  /** The number of bytes up to and including the first delimiter, but at most max; None when more must arrive. */
  function Hit(s: Bytes, delimiter: byte, max: nat): (n: Option<nat>)
    requires max > 0
    ensures n.Some? ==> 1 <= n.value <= |s|
  {
    if s == [] then None
    else if s[0] == delimiter || max == 1 then Some(1)
    else
      match Hit(s[1..], delimiter, max - 1)
      case None => None
      case Some(n) => Some(n + 1)
  }

  /** The first delimiter or the limit, whichever comes first. */
  lemma {:induction false} HitMeaning(s: Bytes, delimiter: byte, max: nat, n: nat)
    requires max > 0
    ensures Hit(s, delimiter, max) == Some(n) <==>
            && 1 <= n <= |s| && n <= max && delimiter !in s[..n - 1] && (s[n - 1] == delimiter || n == max)
    decreases |s|
  {
    if s != [] && s[0] != delimiter && max > 1 {
      if n > 1 && n <= |s| {
        HitMeaning(s[1..], delimiter, max - 1, n - 1);
        assert s[..n - 1] == [s[0]] + s[1..][..n - 2];
        assert s[1..][n - 2] == s[n - 1];
      }
    } else if s != [] && n > 1 && n <= |s| {
      assert s[..n - 1][0] == s[0];
    }
  }

  /** Looking at a prefix first changes nothing: an answer there stays, and otherwise the search goes on behind it. */
  lemma {:induction false} HitSplit(a: Bytes, b: Bytes, delimiter: byte, max: nat)
    requires max > 0
    ensures Hit(a, delimiter, max).Some? ==> Hit(a + b, delimiter, max) == Hit(a, delimiter, max)
    ensures Hit(a, delimiter, max).None? ==> |a| < max && delimiter !in a
    ensures Hit(a, delimiter, max).None? && Hit(b, delimiter, max - |a|).None? ==> Hit(a + b, delimiter, max).None?
    ensures Hit(a, delimiter, max).None? && Hit(b, delimiter, max - |a|).Some? ==>
            Hit(a + b, delimiter, max) == Some(|a| + Hit(b, delimiter, max - |a|).value)
    decreases |a|
  {
    if a == [] {
      assert a + b == b;
    } else {
      assert (a + b)[1..] == a[1..] + b && (a + b)[0] == a[0];
      if max > 1 && a[0] != delimiter { HitSplit(a[1..], b, delimiter, max - 1); }
    }
  }

  lemma {:induction false} DecodeStable(s: Bytes, more: Bytes, seen: nat)
    requires DecodeCint(s, seen) != Short
    ensures DecodeCint(s + more, seen) == DecodeCint(s, seen)
    decreases |s|
  {
    assert (s + more)[1..] == s[1..] + more && (s + more)[0] == s[0];
    if seen < 4 && s[0] < 128 { DecodeStable(s[1..], more, seen + 1); }
  }

  function AnswerTo(request: Request, s: Bytes): (a: Answer)
    ensures a.Ready? ==> a.skip <= |s| && (!request.GetCint? ==> a.skip + a.ret <= |s|)
  {
    match request
    case ReadN(n) => if n < 1 then Ready(0, 0) else if n <= |s| then Ready(0, n) else Wait
    case ReadDelimiter(d, max) =>
      if max < 1 then Ready(0, 0)
      else (match Hit(s, d, max) case None => Wait case Some(n) => Ready(0, n))
    case GetCint =>
      (match DecodeCint(s, 0) case Short => Wait case Bad => Fail case Size(k, n) => Ready(k, n))
    case GetCintAndData =>
      match DecodeCint(s, 0)
      case Short => Wait
      case Bad => Fail
      case Size(k, n) => if k + n <= |s| then Ready(k, n) else Wait
  }

  /** An answer never changes when more bytes arrive. */
  lemma AnswerStable(request: Request, s: Bytes, more: Bytes)
    requires AnswerTo(request, s) != Wait
    ensures AnswerTo(request, s + more) == AnswerTo(request, s)
  {
    match request
    case ReadN(n) =>
    case ReadDelimiter(d, max) => if max >= 1 { HitSplit(s, more, d, max); }
    case GetCint => DecodeStable(s, more, 0);
    case GetCintAndData => DecodeStable(s, more, 0);
  }

  // ---- what the system delivers ----

  /** The result of one read: some bytes, nothing yet, or the end of the stream (or an error), which stays. */
  datatype Io = Data(bytes: Bytes) | Again | Closed

  predicate ValidInput(input: seq<Io>) {
    forall i :: 0 <= i < |input| && input[i].Data? ==> 0 < |input[i].bytes| <= BUFFER
  }

  /** The bytes that will still arrive. */
  function Arriving(input: seq<Io>): Bytes {
    if input == [] then []
    else
      match input[0]
      case Data(b) => b + Arriving(input[1..])
      case Again => Arriving(input[1..])
      case Closed => []
  }

  function Closes(input: seq<Io>): bool {
    input != [] && (input[0].Closed? || Closes(input[1..]))
  }

  // ---- the handle ----

  datatype Action = Idle | ActionReadN | ActionReadDelimiter | ActionReadCint

  /** Called: the callback ran. Suspended: the handle waits for the system. Requeued: it entered the queue again. */
  datatype Outcome = Called | Suspended | Requeued

  class Handle {
    var action: Action
    var wantLen: int
    var delimiter: byte
    var delimiterChecked: bool
    var cintWantData: bool
    var ioOkOnce: bool
    var ret: int
    var cache: Bytes
    var input: seq<Io>

    /** What was done with the cache, in order. */
    ghost var uses: seq<AioCache.Use>

    constructor (input: seq<Io>)
      requires ValidInput(input)
      ensures cache == [] && this.input == input && uses == [] && Recorded()
    {
      action, wantLen, delimiter := Idle, 0, 0;
      delimiterChecked, cintWantData, ioOkOnce := false, false, false;
      ret, cache := 1, [];
      this.input := input;
      uses := [];
    }

    /** The uses of the cache so far leave what the cache holds. */
    ghost predicate Recorded()
      reads this`uses, this`cache
    {
      AioCache.TakesWhatIsThere(uses) && AioCache.PlainCache(uses) == cache
    }

    /** All that was read so far and all that will be. */
    ghost function Passing(): Bytes
      reads this`uses, this`input
    {
      AioCache.AllPut(uses) + Arriving(input)
    }

    /** Bytes that were read go behind what is cached. */
    method CacheAppend(buffer: Bytes)
      requires Recorded()
      modifies this`cache, this`uses
      ensures cache == old(cache) + buffer && Recorded()
      ensures AioCache.AllPut(uses) == AioCache.AllPut(old(uses)) + buffer
    {
      cache := cache + buffer;
      ghost var was := uses;
      uses := uses + [AioCache.Put(buffer)];
      assert uses[..|uses| - 1] == was;
    }

    method CacheShift(count: nat)
      requires Recorded() && count <= |cache|
      modifies this`cache, this`uses
      ensures cache == old(cache)[count..] && Recorded() && Passing() == old(Passing())
    {
      cache := cache[count..];
      ghost var was := uses;
      uses := uses + [AioCache.Take(count)];
      assert uses[..|uses| - 1] == was;
      WithNothing(AioCache.AllPut(was));
    }

    /** The request is under way and s has been received since it was issued. */
    ghost predicate Pending(request: Request, s: Bytes)
      reads this
    {
      && ValidInput(input) && Recorded()
      && match request
         case ReadN(n) => action == ActionReadN && wantLen == n && cache == s
         case ReadDelimiter(d, max) =>
           && action == ActionReadDelimiter && wantLen == max && delimiter == d && cache == s
           && (delimiterChecked ==> AnswerTo(request, s) == Wait)
         case GetCint => action == ActionReadCint && !cintWantData && wantLen < 0 && cache == s
         case GetCintAndData =>
           && action == ActionReadCint && cintWantData
           && if wantLen < 0 then cache == s
              else
                && wantLen > 0 && DecodeCint(s, 0).Size? && DecodeCint(s, 0).size == wantLen
                && cache == s[DecodeCint(s, 0).bytes..]
    }

    /** The callback ran and s is everything received for the request. */
    ghost predicate Answered(request: Request, s: Bytes)
      reads this
    {
      && Recorded()
      && match AnswerTo(request, s)
         case Ready(skip, n) => ret == n && cache == s[skip..]
         case Fail => ret == -1 && cache == s
         case Wait => ret == -1 && Closes(input) && Arriving(input) == []
    }

    ghost predicate After(outcome: Outcome, request: Request, s: Bytes)
      reads this
    {
      match outcome
      case Called => Answered(request, s)
      case Suspended => Pending(request, s) && AnswerTo(request, s) == Wait
      case Requeued => Pending(request, s) && wantLen >= 0
    }

    // ---- issuing a request ----

    method IssueReadN(length: int)
      requires ValidInput(input) && Recorded()
      modifies this`action, this`wantLen
      ensures Pending(ReadN(length), cache)
    {
      action, wantLen := ActionReadN, length;
    }

    method IssueReadDelimiter(delimiter: byte, max: int)
      requires ValidInput(input) && Recorded()
      modifies this`action, this`wantLen, this`delimiter, this`delimiterChecked
      ensures Pending(ReadDelimiter(delimiter, max), cache)
    {
      action, wantLen := ActionReadDelimiter, max;
      this.delimiter, delimiterChecked := delimiter, false;
    }

    method IssueGetCint(wantData: bool)
      requires ValidInput(input) && Recorded()
      modifies this`action, this`wantLen, this`cintWantData
      ensures wantLen < 0 && Pending(if wantData then GetCintAndData else GetCint, cache)
    {
      cintWantData, wantLen, action := wantData, -2020, ActionReadCint;
    }

    // ---- one read ----

    /** Reads into buffer: a positive length, 0 when nothing is there yet, -1 at the end. */
    method IoRead() returns (n: int, buffer: Bytes)
      requires ValidInput(input)
      modifies this`input, this`ioOkOnce
      ensures ValidInput(input)
      ensures Closes(input) == old(Closes(input))
      ensures n > 0 ==> n == |buffer| && Arriving(old(input)) == buffer + Arriving(input) && |input| < old(|input|)
      ensures n <= 0 ==> buffer == [] && Arriving(old(input)) == Arriving(input)
      ensures n == 0 ==> input == [] || |input| < old(|input|)
      ensures n < 0 ==> n == -1 && input == old(input) && Closes(input) && Arriving(input) == []
    {
      if input == [] {
        return 0, [];
      }
      match input[0]
      case Data(b) =>
        ioOkOnce := true;
        input := input[1..];
        return |b|, b;
      case Again =>
        input := input[1..];
        return 0, [];
      case Closed =>
        return -1, [];
    }

    /** One read whose bytes, if any, go into the cache. */
    method ReadIntoCache() returns (n: int, buffer: Bytes)
      requires ValidInput(input) && Recorded()
      modifies this`cache, this`uses, this`input, this`ioOkOnce
      ensures ValidInput(input) && Recorded() && Passing() == old(Passing())
      ensures Closes(input) == old(Closes(input)) && cache == old(cache) + buffer
      ensures n > 0 ==> n == |buffer| && Arriving(old(input)) == buffer + Arriving(input) && |input| < old(|input|)
      ensures n <= 0 ==> buffer == [] && Arriving(old(input)) == Arriving(input) && cache == old(cache)
      ensures n == 0 ==> input == [] || |input| < old(|input|)
      ensures n < 0 ==> n == -1 && input == old(input) && Closes(input) && Arriving(input) == []
    {
      hide Arriving, Closes, ValidInput;
      n, buffer := IoRead();
      if n > 0 {
        ghost var before := uses;
        CacheAppend(buffer);
        Associative(AioCache.AllPut(before), buffer, Arriving(input));
      } else {
        WithNothing(cache);
      }
    }

    // ---- the activities ----

    /** A timeout: an error when bytes have been read on this handle before, else the timeout code. */
    method TimedOut()
      modifies this`ret
      ensures ret == if ioOkOnce then -1 else -2
    {
      ret := if ioOkOnce then -1 else -2;
    }

    method ActiveReadN(request: Request, ghost s: Bytes) returns (outcome: Outcome, ghost s': Bytes)
      requires Pending(request, s) && (request.ReadN? || (request.GetCintAndData? && wantLen >= 0))
      modifies this`ret, this`cache, this`uses, this`input, this`ioOkOnce
      ensures outcome != Requeued && After(outcome, request, s') && ValidInput(input)
      ensures s + Arriving(old(input)) == s' + Arriving(input) && Closes(input) == Closes(old(input))
      ensures Passing() == old(Passing())
      ensures outcome == Suspended ==> input == [] || |input| < |old(input)|
    {
      hide Recorded, Passing, ValidInput;
      hide Arriving, Closes, DecodeCint;
      s' := s;
      if wantLen < 1 {
        ret := 0;
        return Called, s;
      }
      while true
        invariant Pending(request, s') && |input| <= |old(input)|
        invariant s + Arriving(old(input)) == s' + Arriving(input) && Closes(input) == Closes(old(input))
        invariant Passing() == old(Passing())
        decreases |input|
      {
        if wantLen <= |cache| {
          break;
        }
        ghost var before := cache;
        var n, buffer := ReadIntoCache();
        if n == 0 {
          ret := 0;
          return Suspended, s';
        } else if n < 0 {
          ret := -1;
          return Called, s';
        }
        if request.GetCintAndData? {
          MoreReadN(s', before, buffer);
        }
        assert s' + (buffer + Arriving(input)) == s' + buffer + Arriving(input);
        s' := s' + buffer;
      }
      ret := wantLen;
      return Called, s';
    }

    static lemma MoreReadN(s: Bytes, before: Bytes, buffer: Bytes)
      requires DecodeCint(s, 0).Size? && before == s[DecodeCint(s, 0).bytes..]
      ensures DecodeCint(s + buffer, 0) == DecodeCint(s, 0)
      ensures (s + buffer)[DecodeCint(s, 0).bytes..] == before + buffer
    {
      DecodeStable(s, buffer, 0);
    }

    /** The scan of what is cached already, done once per request. */
    method ScanCache() returns (found: bool, length: nat)
      requires wantLen >= 1
      ensures found == Hit(cache, delimiter, wantLen).Some?
      ensures found ==> length == Hit(cache, delimiter, wantLen).value
    {
      length := 0;
      assert cache[0..] == cache;
      while length < |cache|
        invariant length <= |cache| && length < wantLen
        invariant Hit(cache, delimiter, wantLen) ==
                  match Hit(cache[length..], delimiter, wantLen - length)
                  case None => None
                  case Some(n) => Some(length + n)
      {
        assert cache[length..][1..] == cache[length + 1..];
        var ch := cache[length];
        length := length + 1;
        if ch == delimiter || length == wantLen {
          return true, length;
        }
      }
      found := false;
    }

    /** The position of the first delimiter in buffer, if any. */
    method FindByte(buffer: Bytes, ch: byte) returns (position: Option<nat>)
      ensures position.None? ==> ch !in buffer
      ensures position.Some? ==>
                && position.value < |buffer| && buffer[position.value] == ch
                && ch !in buffer[..position.value]
    {
      for i := 0 to |buffer|
        invariant ch !in buffer[..i]
      {
        if buffer[i] == ch {
          return Some(i);
        }
      }
      return None;
    }

    /** After a read: the length to report, or -1. Only the bytes just read are searched. */
    method LengthAfter(ghost front: Bytes, buffer: Bytes) returns (length: int)
      requires wantLen >= 1 && cache == front + buffer && Hit(front, delimiter, wantLen).None?
      ensures length == match Hit(cache, delimiter, wantLen) case None => -1 case Some(n) => n
    {
      hide Hit;
      HitSplit(front, buffer, delimiter, wantLen);
      var position := FindByte(buffer, delimiter);
      NextHit(buffer, delimiter, wantLen - |front|, position);
      length := -1;
      if position.Some? {
        length := |cache| - |buffer| + position.value + 1;
        if length > wantLen {
          length := wantLen;
        }
      } else if wantLen <= |cache| {
        length := wantLen;
      }
    }

    method ActiveReadDelimiter(request: Request, ghost s: Bytes) returns (outcome: Outcome, ghost s': Bytes)
      requires Pending(request, s) && request.ReadDelimiter?
      modifies this`ret, this`cache, this`uses, this`input, this`ioOkOnce, this`delimiterChecked
      ensures outcome != Requeued && After(outcome, request, s') && ValidInput(input)
      ensures s + Arriving(old(input)) == s' + Arriving(input) && Closes(input) == Closes(old(input))
      ensures Passing() == old(Passing())
      ensures outcome == Suspended ==> input == [] || |input| < |old(input)|
    {
      hide Recorded, Passing, ValidInput;
      hide Arriving, Closes, Hit;
      s' := s;
      if wantLen < 1 {
        ret := 0;
        return Called, s;
      }
      if !delimiterChecked {
        delimiterChecked := true;
        var found, length := ScanCache();
        if found {
          ret := length;
          return Called, s;
        }
      }
      while true
        invariant Pending(request, s') && delimiterChecked && |input| <= |old(input)|
        invariant s + Arriving(old(input)) == s' + Arriving(input) && Closes(input) == Closes(old(input))
        invariant Passing() == old(Passing())
        decreases |input|
      {
        var n, buffer := ReadIntoCache();
        if n < 0 {
          ret := -1;
          return Called, s';
        } else if n == 0 {
          ret := 0;
          return Suspended, s';
        }
        assert s' + (buffer + Arriving(input)) == s' + buffer + Arriving(input);
        s' := s' + buffer;
        var length := LengthAfter(cache[..|cache| - n], buffer);
        if length != -1 {
          ret := length;
          return Called, s';
        }
      }
    }

    method ActiveReadCint(request: Request, ghost s: Bytes) returns (outcome: Outcome, ghost s': Bytes)
      requires Pending(request, s) && (request.GetCint? || request.GetCintAndData?)
      modifies this`ret, this`cache, this`uses, this`input, this`ioOkOnce, this`wantLen
      ensures After(outcome, request, s') && ValidInput(input)
      ensures s + Arriving(old(input)) == s' + Arriving(input) && Closes(input) == Closes(old(input))
      ensures Passing() == old(Passing())
      ensures outcome == Suspended ==> input == [] || |input| < |old(input)|
      ensures outcome == Requeued ==> old(wantLen) < 0 && |input| <= |old(input)|
    {
      hide Recorded, Passing, ValidInput;
      hide Arriving, Closes, DecodeCint;
      s' := s;
      if cintWantData && wantLen > -1 {
        outcome, s' := ActiveReadN(request, s);
        return;
      }
      while true
        invariant Pending(request, s') && wantLen < 0 && cache == s' && |input| <= |old(input)|
        invariant s + Arriving(old(input)) == s' + Arriving(input) && Closes(input) == Closes(old(input))
        invariant Passing() == old(Passing())
        decreases |input|
      {
        var cint := DecodeCached();
        if cint == Bad {
          ret := -1;
          return Called, s';
        }
        if cint.Size? {
          CacheShift(cint.bytes);
          if !cintWantData || cint.size == 0 {
            ret := cint.size;
            return Called, s';
          } else {
            wantLen := cint.size;
            return Requeued, s';
          }
        }
        var n, buffer := ReadIntoCache();
        if n < 0 {
          ret := -1;
          return Called, s';
        } else if n == 0 {
          ret := 0;
          return Suspended, s';
        }
        assert s' + (buffer + Arriving(input)) == s' + buffer + Arriving(input);
        s' := s' + buffer;
      }
    }

    /** The loop over the cached bytes: seven bits a byte, at most four bytes. */
    method DecodeCached() returns (c: Cint)
      ensures c == DecodeCint(cache, 0)
    {
      hide DecodeCint, Longer, Bits.Or, Bits.ShiftLeft;
      var size: nat, shift: nat := 0, 0;
      var i := 0;
      assert cache[0..] == cache;
      LongerByNothing(DecodeCint(cache, 0));
      while i < |cache|
        invariant i <= |cache| && size < Bits.Pow2(shift)
        invariant DecodeCint(cache, 0) == Longer(DecodeCint(cache[i..], i), i, size, Bits.Pow2(shift))
      {
        DecodeNext(cache, i, size, shift);
        if i + 1 > 4 {
          return Bad;
        }
        var ch := cache[i];
        size := Bits.Or(size, Bits.ShiftLeft(ch % 128, shift));
        if ch >= 128 {
          return Size(i + 1, size);
        }
        shift := shift + 7;
        i := i + 1;
      }
      assert cache[|cache|..] == [];
      DecodeNothing(i, size, Bits.Pow2(shift));
      return Short;
    }

    // ---- one activation of whatever is under way ----

    method Activate(stage: Stage, request: Request, ghost s: Bytes) returns (outcome: Outcome, ghost s': Bytes)
      requires Pending(request, s)
      modifies this
      ensures stage == Timeout ==>
                && outcome == Called && ret == (if old(ioOkOnce) then -1 else -2)
                && cache == old(cache) && input == old(input) && s' == s && Recorded()
      ensures stage != Timeout ==> After(outcome, request, s')
      ensures ValidInput(input)
      ensures s + Arriving(old(input)) == s' + Arriving(input) && Closes(input) == Closes(old(input))
      ensures Passing() == old(Passing())
      ensures outcome == Suspended ==> input == [] || |input| < |old(input)|
      ensures outcome == Requeued ==> old(wantLen) < 0 && |input| <= |old(input)|
    {
      hide Arriving, Closes, After;
      if stage == Timeout {
        TimedOut();
        return Called, s;
      }
      match action
      case Idle =>
        assert false;
      case ActionReadN =>
        outcome, s' := ActiveReadN(request, s);
      case ActionReadDelimiter =>
        outcome, s' := ActiveReadDelimiter(request, s);
      case ActionReadCint =>
        outcome, s' := ActiveReadCint(request, s);
    }

    // ---- taking the bytes ----

    /** Moves bytes out of the cache, 1024 at a time. */
    method GetReadCache(strictLen: int) returns (taken: Bytes)
      requires strictLen <= |cache| && Recorded()
      modifies this`cache, this`uses
      ensures Recorded() && Passing() == old(Passing())
      ensures taken == if strictLen < 0 then [] else old(cache)[..strictLen]
      ensures old(cache) == taken + cache
    {
      hide Recorded, Passing, Arriving;
      taken := [];
      var left := strictLen;
      while left > 0
        invariant left <= |cache| && old(cache) == taken + cache
        invariant Recorded() && Passing() == old(Passing()) && input == old(input)
        invariant if strictLen < 0 then taken == [] else left >= 0 && |taken| + left == strictLen
      {
        var n := if left > 1024 then 1024 else left;
        taken := taken + cache[..n];
        CacheShift(n);
        left := left - n;
      }
      assert old(cache)[..|taken|] == taken;
    }

    /** Activates until the callback has run or nothing more can arrive. */
    method Await(request: Request, ghost s: Bytes) returns (called: bool)
      requires Pending(request, s)
      modifies this
      ensures Recorded() && Passing() == old(Passing())
      ensures var all := s + Arriving(old(input));
              var closes := Closes(old(input));
              && ValidInput(input) && Closes(input) == closes
              && called == (AnswerTo(request, all) != Wait || closes)
              && match AnswerTo(request, all)
                 case Ready(skip, n) =>
                   ret == n && cache + Arriving(input) == all[skip..] && (!request.GetCint? ==> n <= |cache|)
                 case Fail => ret == -1 && cache + Arriving(input) == all
                 case Wait => called ==> ret == -1
    {
      hide Arriving, Closes, AnswerTo;
      ghost var received := s;
      var stage := Incoming;
      while true
        invariant stage != Timeout && Pending(request, received) && Closes(input) == Closes(old(input))
        invariant s + Arriving(old(input)) == received + Arriving(input) && Passing() == old(Passing())
        decreases |input|, if wantLen < 0 then 1 else 0
      {
        var outcome;
        outcome, received := Activate(stage, request, received);
        if outcome == Called {
          Settled(request, received, s + Arriving(old(input)));
          return true;
        }
        if outcome == Suspended && input == [] {
          NothingMore(received);
          return false;
        }
        stage := if outcome == Requeued then Incoming else Epoll;
      }
    }

    lemma NothingMore(s: Bytes)
      requires input == []
      ensures s + Arriving(input) == s && !Closes(input)
    {
    }

    /** Bytes that arrive later do not change what the callback has been told. */
    lemma Settled(request: Request, s: Bytes, all: Bytes)
      requires Answered(request, s) && all == s + Arriving(input)
      ensures match AnswerTo(request, all)
              case Ready(skip, n) =>
                ret == n && cache + Arriving(input) == all[skip..] && (!request.GetCint? ==> n <= |cache|)
              case Fail => ret == -1 && cache + Arriving(input) == all
              case Wait => ret == -1 && Closes(input)
    {
      hide Arriving, Closes;
      if AnswerTo(request, s) == Wait {
        assert all == s;
      } else {
        AnswerStable(request, s, Arriving(input));
      }
    }
  }

  lemma NextHit(buffer: Bytes, delimiter: byte, max: nat, position: Option<nat>)
    requires max > 0
    requires position.None? ==> delimiter !in buffer
    requires position.Some? ==>
               && position.value < |buffer| && buffer[position.value] == delimiter
               && delimiter !in buffer[..position.value]
    ensures Hit(buffer, delimiter, max) ==
            if position.Some? then Some(if position.value + 1 <= max then position.value + 1 else max)
            else if max <= |buffer| then Some(max) else None
  {
    hide Hit;
    if position.Some? {
      var n := if position.value + 1 <= max then position.value + 1 else max;
      assert forall i :: 0 <= i < n - 1 ==> buffer[i] == buffer[..position.value][i];
      HitMeaning(buffer, delimiter, max, n);
    } else if max <= |buffer| {
      HitMeaning(buffer, delimiter, max, max);
    } else {
      var hit := Hit(buffer, delimiter, max);
      if hit.Some? {
        HitMeaning(buffer, delimiter, max, hit.value);
      }
    }
  }

  lemma LongerByNothing(c: Cint)
    ensures Longer(c, 0, 0, 1) == c
  {
  }

  lemma DecodeNothing(i: nat, size: nat, scale: nat)
    ensures Longer(DecodeCint([], i), i, size, scale) == Short
  {
  }

  lemma LongerTwice(c: Cint, bytes: nat, size: nat, scale: nat, bits: nat)
    ensures Longer(Longer(c, 1, bits, 128), bytes, size, scale) ==
            Longer(c, bytes + 1, size + bits * scale, 128 * scale)
  {
    if c.Size? {
      assert scale * (bits + 128 * c.size) == bits * scale + (128 * scale) * c.size;
    }
  }

  /** What the decoder makes of one more byte: its low seven bits are or-ed in above those that are there. */
  lemma DecodeNext(s: Bytes, i: nat, size: nat, shift: nat)
    requires i < |s| && size < Bits.Pow2(shift)
    ensures var more := Bits.Or(size, Bits.ShiftLeft(s[i] % 128, shift));
            && more < Bits.Pow2(shift + 7)
            && Longer(DecodeCint(s[i..], i), i, size, Bits.Pow2(shift)) ==
               if i >= 4 then Bad
               else if s[i] >= 128 then Size(i + 1, more)
               else Longer(DecodeCint(s[i + 1..], i + 1), i + 1, more, Bits.Pow2(shift + 7))
  {
    hide Bits.Or, Bits.ShiftLeft, Bits.Pow2, Longer;
    assert s[i..][1..] == s[i + 1..];
    var scale := Bits.Pow2(shift);
    Bits.OrSeven(size, s[i] % 128, shift);
    if i < 4 && s[i] < 128 {
      LongerTwice(DecodeCint(s[i + 1..], i + 1), i, size, scale, s[i] % 128);
    } else if i < 4 {
      LongerLast(i, size, scale, s[i] % 128);
    } else {
      LongerBad(i, size, scale);
    }
  }

  lemma LongerLast(bytes: nat, size: nat, scale: nat, bits: nat)
    ensures Longer(Size(1, bits), bytes, size, scale) == Size(bytes + 1, size + bits * scale)
  {
  }

  lemma LongerBad(bytes: nat, size: nat, scale: nat)
    ensures Longer(Bad, bytes, size, scale) == Bad
  {
  }
}
