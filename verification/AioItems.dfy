/** A stream made of items, each for one request: blocks of a given length, delimited lines, numbers, and data with its
    length in front. Each request is answered by its item, not before the last byte of it is there,
    and leaves the rest. */
module AioItems {
  import opened Bytes
  import opened Options
  import opened CdbFormat
  import opened AioRead
  import opened AioSession

  datatype Item =
    | Block(length: int, data: Bytes)
    | Delimited(delimiter: byte, max: int, data: Bytes)
    | Number(n: nat)
    | Piece(data: Bytes)

  /** The item is what its request asks for. A length or a limit below one asks for nothing. */
  predicate Fine(item: Item) {
    match item
    case Block(length, data) => |data| == if length < 1 then 0 else length
    case Delimited(delimiter, max, data) =>
      if max < 1 then data == []
      else
        && 1 <= |data| <= max && delimiter !in data[..|data| - 1]
        && (data[|data| - 1] == delimiter || |data| == max)
    case Number(n) => n < CINT_LIMIT
    case Piece(data) => |data| < CINT_LIMIT
  }

  function RequestOf(item: Item): Request {
    match item
    case Block(length, _) => ReadN(length)
    case Delimited(delimiter, max, _) => ReadDelimiter(delimiter, max)
    case Number(_) => GetCint
    case Piece(_) => GetCintAndData
  }

  function WireOf(item: Item): Bytes {
    match item
    case Block(_, data) => data
    case Delimited(_, _, data) => data
    case Number(n) => Varint(n)
    case Piece(data) => Varint(|data|) + data
  }

  /** The length and the bytes, or the number. */
  function ReplyOf(item: Item): Reply {
    if item.Number? then Reply(item.n, []) else Reply(|item.data|, item.data)
  }

  function Requests(items: seq<Item>): (r: seq<Request>)
    ensures |r| == |items|
  {
    if items == [] then [] else [RequestOf(items[0])] + Requests(items[1..])
  }

  function Stream(items: seq<Item>): Bytes {
    if items == [] then [] else WireOf(items[0]) + Stream(items[1..])
  }

  function Replies(items: seq<Item>): (r: seq<Reply>)
    ensures |r| == |items|
  {
    if items == [] then [] else [ReplyOf(items[0])] + Replies(items[1..])
  }

  // ---- one request ----

  lemma FrontAndRest(a: Bytes, rest: Bytes)
    ensures (a + rest)[..|a|] == a && (a + rest)[|a|..] == rest
  {
  }

  lemma AnswerBlock(length: int, data: Bytes, rest: Bytes)
    requires Fine(Block(length, data))
    ensures AnswerTo(ReadN(length), data + rest) == Ready(0, |data|)
  {
  }

  lemma AnswerDelimited(delimiter: byte, max: int, data: Bytes, rest: Bytes)
    requires Fine(Delimited(delimiter, max, data))
    ensures AnswerTo(ReadDelimiter(delimiter, max), data + rest) == Ready(0, |data|)
  {
    hide Hit;
    if max >= 1 {
      HitMeaning(data, delimiter, max, |data|);
      HitSplit(data, rest, delimiter, max);
    }
  }

  lemma AnswerPiece(data: Bytes, rest: Bytes)
    requires |data| < CINT_LIMIT
    ensures AnswerTo(GetCintAndData, Varint(|data|) + data + rest) == Ready(|Varint(|data|)|, |data|)
  {
    hide Varint, DecodeCint;
    Associative(Varint(|data|), data, rest);
    DecodeVarint(|data|, data + rest);
  }

  lemma AnswerNumber(n: nat, rest: Bytes)
    requires n < CINT_LIMIT
    ensures AnswerTo(GetCint, Varint(n) + rest) == Ready(|Varint(n)|, n)
  {
    hide Varint, DecodeCint;
    DecodeVarint(n, rest);
  }

  /** A request is answered by its item and leaves exactly what follows it. */
  lemma AnsweredByItem(item: Item, rest: Bytes, closes: bool)
    requires Fine(item)
    ensures ReplyTo(RequestOf(item), WireOf(item) + rest, closes) == Some(ReplyOf(item))
    ensures Left(RequestOf(item), WireOf(item) + rest) == rest
  {
    hide Varint, AnswerTo;
    FrontAndRest(WireOf(item), rest);
    match item
    case Block(length, data) => AnswerBlock(length, data, rest);
    case Delimited(delimiter, max, data) => AnswerDelimited(delimiter, max, data, rest);
    case Number(n) => AnswerNumber(n, rest);
    case Piece(data) =>
      AnswerPiece(data, rest);
      FrontAndRest(Varint(|data|), data);
      var s := Varint(|data|) + data + rest;
      assert s[|Varint(|data|)|..|Varint(|data|)| + |data|] == s[..|Varint(|data|)| + |data|][|Varint(|data|)|..];
  }

  // ---- not before it is all there ----

  lemma {:induction false} ShortVarint(n: nat, k: nat, seen: nat)
    requires seen < 4 && n < Groups(seen) && k < |Varint(n)|
    ensures DecodeCint(Varint(n)[..k], seen) == Short
    decreases k
  {
    if k > 0 && n >= 128 {
      var s := Varint(n)[..k];
      assert s[1..] == Varint(n / 128)[..k - 1] && s[0] == n % 128;
      ShortVarint(n / 128, k - 1, seen + 1);
    }
  }

  lemma WaitsForDelimiter(delimiter: byte, max: int, data: Bytes, k: nat)
    requires Fine(Delimited(delimiter, max, data)) && k < |data|
    ensures AnswerTo(ReadDelimiter(delimiter, max), data[..k]) == Wait
  {
    hide Hit;
    var hit := Hit(data[..k], delimiter, max);
    if hit.Some? {
      HitMeaning(data[..k], delimiter, max, hit.value);
    }
  }

  lemma WaitsForPiece(data: Bytes, k: nat)
    requires |data| < CINT_LIMIT && k < |Varint(|data|) + data|
    ensures AnswerTo(GetCintAndData, (Varint(|data|) + data)[..k]) == Wait
  {
    hide Varint, DecodeCint;
    var header := Varint(|data|);
    if k < |header| {
      assert (header + data)[..k] == header[..k];
      ShortVarint(|data|, k, 0);
    } else {
      assert (header + data)[..k] == header + data[..k - |header|];
      DecodeVarint(|data|, data[..k - |header|]);
    }
  }

  /** With a byte missing there is no answer yet; at the end of the stream there is an error. */
  lemma NotBefore(item: Item, k: nat, closes: bool)
    requires Fine(item) && k < |WireOf(item)|
    ensures ReplyTo(RequestOf(item), WireOf(item)[..k], closes) == if closes then Some(Reply(-1, [])) else None
  {
    hide Varint, DecodeCint, Hit;
    match item
    case Block(length, data) =>
    case Delimited(delimiter, max, data) => WaitsForDelimiter(delimiter, max, data, k);
    case Number(n) => ShortVarint(n, k, 0);
    case Piece(data) => WaitsForPiece(data, k);
  }

  // ---- whole streams ----

  lemma ServeOne(request: Request, requests: seq<Request>, stream: Bytes, closes: bool)
    ensures Serve([request] + requests, stream, closes) ==
            match ReplyTo(request, stream, closes)
            case None => []
            case Some(reply) =>
              if reply.ret < 0 then [reply] else [reply] + Serve(requests, Left(request, stream), closes)
  {
    assert ([request] + requests)[1..] == requests;
  }

  /** Every item comes out whole and in order, whatever follows. */
  lemma {:induction false} ItemsServed(items: seq<Item>, requests: seq<Request>, rest: Bytes, closes: bool)
    requires forall item :: item in items ==> Fine(item)
    ensures Serve(Requests(items) + requests, Stream(items) + rest, closes) ==
            Replies(items) + Serve(requests, rest, closes)
    decreases |items|
  {
    hide Serve, ReplyTo, Left, WireOf, RequestOf, ReplyOf, Fine;
    if items == [] {
      WithNothing(rest);
      assert [] + requests == requests && [] + Serve(requests, rest, closes) == Serve(requests, rest, closes);
    } else {
      var item, later := items[0], items[1..];
      assert item in items;
      Associative(WireOf(item), Stream(later), rest);
      assert Requests(items) + requests == [RequestOf(item)] + (Requests(later) + requests);
      ServeOne(RequestOf(item), Requests(later) + requests, Stream(items) + rest, closes);
      AnsweredByItem(item, Stream(later) + rest, closes);
      ItemsServed(later, requests, rest, closes);
      assert ReplyOf(item).ret >= 0 by { ReplyIsLength(item); }
      assert [ReplyOf(item)] + (Replies(later) + Serve(requests, rest, closes)) ==
             Replies(items) + Serve(requests, rest, closes);
    }
  }

  lemma ReplyIsLength(item: Item)
    ensures ReplyOf(item).ret >= 0
  {
  }

  /** Items that end the stream are all served; with a byte of the last one missing all others are, and the last request
      waits, or fails when the stream has ended. */
  lemma StreamServed(items: seq<Item>, last: Item, k: nat, closes: bool)
    requires Fine(last) && forall item :: item in items ==> Fine(item)
    requires k <= |WireOf(last)|
    ensures Serve(Requests(items) + [RequestOf(last)], Stream(items) + WireOf(last)[..k], closes) ==
            Replies(items) + if k == |WireOf(last)| then [ReplyOf(last)] else if closes then [Reply(-1, [])] else []
  {
    hide Serve, ReplyTo, Left, WireOf, RequestOf, ReplyOf, Fine;
    var request, tail := RequestOf(last), WireOf(last)[..k];
    ItemsServed(items, [request], tail, closes);
    assert [request] + [] == [request];
    ServeOne(request, [], tail, closes);
    ServeNothing(Left(request, tail), closes);
    ReplyIsLength(last);
    if k == |WireOf(last)| {
      WithNothing(WireOf(last));
      AnsweredByItem(last, [], closes);
      assert tail == WireOf(last);
      assert [ReplyOf(last)] + [] == [ReplyOf(last)];
    } else {
      NotBefore(last, k, closes);
    }
  }
}
