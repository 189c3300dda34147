/** Whole sessions of requests on one handle, and the framing that cint-and-data requests read back. */
module AioSession {
  import opened Bytes
  import opened Options
  import opened CdbFormat
  import CdbCompile
  import AioCache
  import opened AioRead

  /** What one request gave: the callback's result and the bytes taken for it. */
  datatype Reply = Reply(ret: int, data: Bytes)

  /** What one request yields over the bytes of a stream; None when it waits for ever. */
  function ReplyTo(request: Request, stream: Bytes, closes: bool): Option<Reply> {
    match AnswerTo(request, stream)
    case Ready(skip, n) => Some(Reply(n, if request.GetCint? then [] else stream[skip..skip + n]))
    case Fail => Some(Reply(-1, []))
    case Wait => if closes then Some(Reply(-1, [])) else None
  }

  /** The bytes left for the next request. */
  function Left(request: Request, stream: Bytes): Bytes {
    match AnswerTo(request, stream)
    case Ready(skip, n) => stream[if request.GetCint? then skip else skip + n..]
    case _ => stream
  }

  /** What the requests yield over the bytes of a stream, with no regard to how those bytes come in. */
  function Serve(requests: seq<Request>, stream: Bytes, closes: bool): seq<Reply>
    decreases |requests|
  {
    if requests == [] then []
    else
      match ReplyTo(requests[0], stream, closes)
      case None => []
      case Some(reply) =>
        if reply.ret < 0 then [reply] else [reply] + Serve(requests[1..], Left(requests[0], stream), closes)
  }

  method Issue(handle: Handle, request: Request)
    requires ValidInput(handle.input) && handle.Recorded()
    modifies handle
    ensures handle.Pending(request, handle.cache)
    ensures handle.cache == old(handle.cache) && handle.input == old(handle.input) && handle.uses == old(handle.uses)
  {
    match request
    case ReadN(n) => handle.IssueReadN(n);
    case ReadDelimiter(d, max) => handle.IssueReadDelimiter(d, max);
    case GetCint => handle.IssueGetCint(false);
    case GetCintAndData => handle.IssueGetCint(true);
  }

  /** One request, awaited, and its bytes taken. */
  method Ask(handle: Handle, request: Request, ghost stream: Bytes, ghost closes: bool) returns (reply: Option<Reply>)
    requires ValidInput(handle.input) && handle.Recorded()
    requires stream == handle.cache + Arriving(handle.input) && closes == Closes(handle.input)
    modifies handle
    ensures ValidInput(handle.input) && Closes(handle.input) == closes
    ensures handle.Recorded() && handle.Passing() == old(handle.Passing())
    ensures reply == ReplyTo(request, stream, closes)
    ensures reply.Some? && reply.value.ret >= 0 ==> handle.cache + Arriving(handle.input) == Left(request, stream)
  {
    hide Arriving, Closes, AnswerTo, ValidInput, Handle.Recorded, Handle.Passing, Handle.Pending;
    Issue(handle, request);
    var called := handle.Await(request, handle.cache);
    if !called {
      return None;
    }
    var data := [];
    if handle.ret >= 0 && !request.GetCint? {
      data := handle.GetReadCache(handle.ret);
      Taken(stream, AnswerTo(request, stream).skip, handle.ret, data, handle.cache, Arriving(handle.input));
    }
    return Some(Reply(handle.ret, data));
  }

  /** The replies so far are the beginning of all, and the requests from i on give the rest. */
  ghost predicate Served(requests: seq<Request>, i: nat, stream: Bytes, closes: bool, replies: seq<Reply>,
      all: seq<Reply>)
    requires i <= |requests|
  {
    replies + Serve(requests[i..], stream, closes) == all
  }

  lemma ServedNext(requests: seq<Request>, i: nat, stream: Bytes, closes: bool, replies: seq<Reply>, all: seq<Reply>)
    requires i < |requests| && Served(requests, i, stream, closes, replies, all)
    ensures match ReplyTo(requests[i], stream, closes)
            case None => replies == all
            case Some(reply) =>
              if reply.ret < 0 then replies + [reply] == all
              else Served(requests, i + 1, Left(requests[i], stream), closes, replies + [reply], all)
  {
    hide ReplyTo, Left;
    assert requests[i..][1..] == requests[i + 1..] && requests[i..][0] == requests[i];
    match ReplyTo(requests[i], stream, closes)
    case None => assert replies + [] == replies;
    case Some(reply) =>
      var rest := Serve(requests[i + 1..], Left(requests[i], stream), closes);
      assert replies + ([reply] + rest) == replies + [reply] + rest;
  }

  lemma ServedAll(requests: seq<Request>, stream: Bytes, closes: bool, replies: seq<Reply>, all: seq<Reply>)
    ensures all == Serve(requests, stream, closes) ==> Served(requests, 0, stream, closes, [], all)
    ensures Served(requests, |requests|, stream, closes, replies, all) ==> replies == all
  {
    assert requests[0..] == requests && [] + all == all;
    assert requests[|requests|..] == [] && replies + [] == replies;
  }

  lemma StoredInBlocks(handle: Handle)
    requires handle.Recorded()
    ensures |handle.Passing()| <= AioCache.SIZE || AioCache.ShortBursts(handle.uses) ==> AioCache.InBlocks(handle.uses)
  {
    AioCache.ShortBurstsInBlocks(handle.uses);
  }

  /** One request after the other; each callback takes the bytes it was told about. The replies are those of the plain
      stream, whatever the reads were and wherever the handle had to wait. The blocks of the cache hold its bytes all
      the time when no more than 4096 bytes come in, in all or between two times when the cache is empty. */
  method Session(handle: Handle, requests: seq<Request>) returns (replies: seq<Reply>)
    requires ValidInput(handle.input) && handle.Recorded()
    modifies handle
    ensures handle.Recorded() && handle.Passing() == old(handle.Passing())
    ensures |handle.Passing()| <= AioCache.SIZE || AioCache.ShortBursts(handle.uses) ==> AioCache.InBlocks(handle.uses)
    ensures replies == Serve(requests, old(handle.cache) + Arriving(old(handle.input)), Closes(old(handle.input)))
  {
    hide Arriving, Closes, ReplyTo, Left, Serve, Served, ValidInput, Handle.Recorded, Handle.Passing, AioCache.InBlocks;
    replies := [];
    ghost var stream, closes := handle.cache + Arriving(handle.input), Closes(handle.input);
    ghost var all := Serve(requests, stream, closes);
    ServedAll(requests, stream, closes, [], all);
    for i := 0 to |requests|
      invariant ValidInput(handle.input) && Closes(handle.input) == closes
      invariant handle.Recorded() && handle.Passing() == old(handle.Passing())
      invariant stream == handle.cache + Arriving(handle.input)
      invariant Served(requests, i, stream, closes, replies, all)
    {
      ServedNext(requests, i, stream, closes, replies, all);
      var reply := Ask(handle, requests[i], stream, closes);
      StoredInBlocks(handle);
      if reply.None? {
        return;
      }
      replies := replies + [reply.value];
      if reply.value.ret < 0 {
        return;
      }
      stream := Left(requests[i], stream);
    }
    StoredInBlocks(handle);
    ServedAll(requests, stream, closes, replies, all);
  }

  lemma Taken(stream: Bytes, skip: nat, n: nat, data: Bytes, cache: Bytes, arriving: Bytes)
    requires skip <= |stream| && (data + cache) + arriving == stream[skip..] && |data| == n
    ensures skip + n <= |stream|
    ensures data == stream[skip..skip + n] && cache + arriving == stream[skip + n..]
  {
    var rest := stream[skip..];
    assert rest == data + (cache + arriving);
    assert rest[..n] == data && rest[n..] == cache + arriving;
    assert stream[skip..][..n] == stream[skip..skip + n] && stream[skip..][n..] == stream[skip + n..];
  }

  // ---- the varint in front of data ----

  const CINT_LIMIT: nat := 0x1000_0000

  function Groups(seen: nat): nat
    requires seen <= 4
  {
    if seen == 0 then CINT_LIMIT else if seen == 1 then 0x20_0000 else if seen == 2 then 0x4000
    else if seen == 3 then 0x80 else 1
  }

  lemma {:induction false} DecodeVarintFrom(n: nat, rest: Bytes, seen: nat)
    requires seen <= 4
    ensures DecodeCint(Varint(n) + rest, seen) ==
            if seen < 4 && n < Groups(seen) then Size(|Varint(n)|, n) else Bad
    decreases n
  {
    var s := Varint(n) + rest;
    if seen < 4 && n >= 128 {
      assert s[1..] == Varint(n / 128) + rest && s[0] == n % 128;
      DecodeVarintFrom(n / 128, rest, seen + 1);
    } else {
      assert s[0] == Varint(n)[0];
    }
  }

  /** The decoder of the handle reads what the writer of varints wrote exactly when it is below 2^28;
      a longer form is refused. */
  lemma DecodeVarint(n: nat, rest: Bytes)
    ensures DecodeCint(Varint(n) + rest, 0) == if n < CINT_LIMIT then Size(|Varint(n)|, n) else Bad
  {
    DecodeVarintFrom(n, rest, 0);
  }

  /** Data sent with its length in front, piece after piece. */
  function Wire(pieces: seq<Bytes>): Bytes {
    if pieces == [] then [] else Varint(|pieces[0]|) + pieces[0] + Wire(pieces[1..])
  }

  function Asking(count: nat): (r: seq<Request>)
    ensures |r| == count
  {
    if count == 0 then [] else [GetCintAndData] + Asking(count - 1)
  }

  function Delivered(pieces: seq<Bytes>): seq<Reply> {
    if pieces == [] then [] else [Reply(|pieces[0]|, pieces[0])] + Delivered(pieces[1..])
  }

  lemma ServeNothing(stream: Bytes, closes: bool)
    ensures Serve([], stream, closes) == []
  {
  }

  lemma ServeFrame(piece: Bytes, later: Bytes, requests: seq<Request>, closes: bool)
    requires |piece| < CINT_LIMIT
    ensures Serve([GetCintAndData] + requests, Varint(|piece|) + piece + later, closes) ==
            [Reply(|piece|, piece)] + Serve(requests, later, closes)
  {
    hide Varint, DecodeCint;
    var stream, k := Varint(|piece|) + piece + later, |Varint(|piece|)|;
    assert stream == Varint(|piece|) + (piece + later);
    DecodeVarint(|piece|, piece + later);
    assert stream[k..k + |piece|] == piece && stream[k + |piece|..] == later;
    assert ([GetCintAndData] + requests)[1..] == requests;
  }

  /** Every piece below 2^28 bytes comes out whole, in order, from whatever the stream was cut into. */
  lemma {:induction false} FramesRoundTrip(pieces: seq<Bytes>, rest: Bytes, closes: bool)
    requires forall p :: p in pieces ==> |p| < CINT_LIMIT
    ensures Serve(Asking(|pieces|), Wire(pieces) + rest, closes) == Delivered(pieces)
    decreases |pieces|
  {
    hide Serve, Varint;
    if pieces == [] {
      assert Asking(0) == [];
      ServeNothing(Wire(pieces) + rest, closes);
    } else {
      var piece, later := pieces[0], Wire(pieces[1..]) + rest;
      assert piece in pieces;
      assert Wire(pieces) + rest == Varint(|piece|) + piece + later;
      ServeFrame(piece, later, Asking(|pieces| - 1), closes);
      FramesRoundTrip(pieces[1..], rest, closes);
    }
  }

  /** Appends the length and the data to what is to be written, in two uses of the cache. */
  method CacheWriteCintAndData(cache: Bytes, data: Bytes, ghost uses: seq<AioCache.Use>)
    returns (more: Bytes, ghost uses': seq<AioCache.Use>)
    requires AioCache.PlainCache(uses) == cache
    ensures more == cache + (Varint(|data|) + data)
    ensures uses' == uses + WriteUses(data) && AioCache.PlainCache(uses') == more
  {
    var buf := CdbCompile.CintPut(|data|);
    more := cache + buf;
    Associative(cache, buf, data);
    more := more + data;
    uses' := uses + WriteUses(data);
    assert uses'[..|uses'| - 1] == uses + [AioCache.Put(buf)];
    assert (uses + [AioCache.Put(buf)])[..|uses|] == uses;
  }

  function WriteUses(data: Bytes): seq<AioCache.Use> {
    [AioCache.Put(Varint(|data|)), AioCache.Put(data)]
  }

  /** What a sender of the pieces does with its write cache before anything is written out. */
  function SenderUses(pieces: seq<Bytes>): seq<AioCache.Use> {
    if pieces == [] then [] else SenderUses(pieces[..|pieces| - 1]) + WriteUses(pieces[|pieces| - 1])
  }

  lemma {:induction false} SenderPuts(pieces: seq<Bytes>)
    ensures AioCache.OnlyPuts(SenderUses(pieces)) && AioCache.AllPut(SenderUses(pieces)) == Wire(pieces)
    decreases |pieces|
  {
    hide Varint, Wire;
    if pieces == [] {
      assert Wire(pieces) == [] by { NoPieces(); }
    } else {
      var front, last := pieces[..|pieces| - 1], pieces[|pieces| - 1];
      assert pieces == front + [last];
      SenderPuts(front);
      WireSnoc(front, last);
      var uses, uses' := SenderUses(front), SenderUses(pieces);
      var put := AioCache.Put(Varint(|last|));
      assert uses'[..|uses'| - 1] == uses + [put] && (uses + [put])[..|uses|] == uses;
      Associative(Wire(front), Varint(|last|), last);
    }
  }

  lemma NoPieces()
    ensures Wire([]) == []
  {
  }

  /** The blocks of the write cache hold what a sender puts in exactly when it is 4096 bytes at most, lengths included.
      One piece of 4095 bytes is too long. */
  lemma SenderInBlocksExactly(pieces: seq<Bytes>, blank: Bytes)
    requires |blank| == AioCache.SIZE
    ensures AioCache.AlwaysHolds(SenderUses(pieces), blank) <==> |Wire(pieces)| <= AioCache.SIZE
  {
    hide *;
    SenderPuts(pieces);
    AioCache.OnlyPutsExactly(SenderUses(pieces), blank);
  }

  lemma {:induction false} WireSnoc(front: seq<Bytes>, last: Bytes)
    ensures Wire(front + [last]) == Wire(front) + (Varint(|last|) + last)
    decreases |front|
  {
    hide Varint;
    if front == [] {
      var single: seq<Bytes> := [last];
      assert front + single == single && single[1..] == [];
      WithNothing(Varint(|last|) + last);
    } else {
      assert (front + [last])[1..] == front[1..] + [last];
      WireSnoc(front[1..], last);
      Associative(Varint(|front[0]|) + front[0], Wire(front[1..]), Varint(|last|) + last);
    }
  }

  /** What a sender of several pieces puts on the wire. */
  method Send(pieces: seq<Bytes>) returns (wire: Bytes, ghost uses: seq<AioCache.Use>)
    ensures wire == Wire(pieces)
    ensures uses == SenderUses(pieces) && AioCache.PlainCache(uses) == wire
  {
    hide Varint;
    wire, uses := [], [];
    for i := 0 to |pieces|
      invariant wire == Wire(pieces[..i]) && uses == SenderUses(pieces[..i]) && AioCache.PlainCache(uses) == wire
    {
      assert pieces[..i + 1] == pieces[..i] + [pieces[i]];
      WireSnoc(pieces[..i], pieces[i]);
      wire, uses := CacheWriteCintAndData(wire, pieces[i], uses);
    }
    assert pieces[..|pieces|] == pieces;
  }

  /** Whatever pieces the wire is cut into, and whatever follows, the receiver gets the pieces that were sent. */
  method Transfer(handle: Handle, pieces: seq<Bytes>, ghost rest: Bytes) returns (replies: seq<Reply>)
    requires ValidInput(handle.input) && handle.cache == [] && Arriving(handle.input) == Wire(pieces) + rest
    requires handle.Recorded()
    requires forall p :: p in pieces ==> |p| < CINT_LIMIT
    modifies handle
    ensures replies == Delivered(pieces)
    ensures handle.Recorded() && handle.Passing() == old(handle.Passing())
    ensures |handle.Passing()| <= AioCache.SIZE || AioCache.ShortBursts(handle.uses) ==> AioCache.InBlocks(handle.uses)
  {
    hide Wire, Serve, Arriving, ValidInput, Closes, Handle.Recorded, Handle.Passing, AioCache.InBlocks,
        AioCache.ShortBursts;
    WithNothing(Wire(pieces) + rest);
    FramesRoundTrip(pieces, rest, Closes(handle.input));
    replies := Session(handle, Asking(|pieces|));
  }

  /** The wire as a receiver may find it: cut into pieces of the wanted lengths, with waits in between. A length that is
      not possible is replaced by the nearest that is; behind the last cut come whole buffers. */
  function Cut(wire: Bytes, cuts: seq<nat>): (input: seq<Io>)
    ensures ValidInput(input) && Arriving(input) == wire && !Closes(input)
    decreases |wire|
  {
    if wire == [] then []
    else
      var wanted := if cuts == [] || cuts[0] > BUFFER then BUFFER else if cuts[0] == 0 then 1 else cuts[0];
      var n := if wanted > |wire| then |wire| else wanted;
      var rest := Cut(wire[n..], if cuts == [] then [] else cuts[1..]);
      assert wire == wire[..n] + wire[n..];
      var input := [Data(wire[..n]), Again] + rest;
      assert input[1..] == [Again] + rest && input[1..][1..] == rest;
      input
  }

  /** Sender and receiver together: wherever the wire is cut, the receiver gets the pieces that were sent. The blocks of
      the sender hold what it sends exactly when it is 4096 bytes at most, and then those of the receiver do too. */
  method SendAndReceive(pieces: seq<Bytes>, cuts: seq<nat>) returns (replies: seq<Reply>, receiver: Handle)
    requires forall p :: p in pieces ==> |p| < CINT_LIMIT
    ensures replies == Delivered(pieces)
    ensures fresh(receiver) && receiver.Recorded() && receiver.Passing() == Wire(pieces)
    ensures |Wire(pieces)| <= AioCache.SIZE <==> AioCache.InBlocks(SenderUses(pieces))
    ensures AioCache.InBlocks(SenderUses(pieces)) ==> AioCache.InBlocks(receiver.uses)
  {
    hide Wire, Cut, Handle.Recorded, AioCache.InBlocks, AioCache.ShortBursts, SenderUses;
    var wire, _ := Send(pieces);
    receiver := new Handle(Cut(wire, cuts));
    WithNothing(wire);
    assert receiver.Passing() == wire;
    replies := Transfer(receiver, pieces, []);
    SenderInBlocks(pieces);
  }

  lemma SenderInBlocks(pieces: seq<Bytes>)
    ensures |Wire(pieces)| <= AioCache.SIZE <==> AioCache.InBlocks(SenderUses(pieces))
  {
    hide Wire, SenderUses, AioCache.AlwaysHolds;
    var zeros: Bytes := seq(AioCache.SIZE, _ => 0);
    SenderInBlocksExactly(pieces, zeros);
    forall blank: Bytes | |blank| == AioCache.SIZE
      ensures AioCache.AlwaysHolds(SenderUses(pieces), blank) <==> |Wire(pieces)| <= AioCache.SIZE
    {
      SenderInBlocksExactly(pieces, blank);
    }
  }

  /** A piece of 2^28 bytes or more is refused as soon as its fifth length byte is there. */
  lemma LongPieceRefused(piece: Bytes, rest: Bytes, closes: bool)
    requires |piece| >= CINT_LIMIT
    ensures Serve([GetCintAndData], Wire([piece]) + rest, closes) == [Reply(-1, [])]
  {
    hide Varint, DecodeCint;
    var single: seq<Bytes> := [piece];
    assert single[1..] == [] && single[0] == piece;
    assert Wire(single) + rest == Varint(|piece|) + (piece + rest);
    DecodeVarint(|piece|, piece + rest);
  }
}
