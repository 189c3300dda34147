/** The cache of a handle as it is stored: blocks of 4096 bytes, each with the part of it that is in use. */
module AioCache {
  import opened Bytes

  const SIZE: nat := 4096

  /** The bytes in use are data[p1..p2 + 1]. */
  datatype Chunk = Chunk(p1: int, p2: int, data: Bytes)
  {
    predicate Whole() { 0 <= p1 <= p2 < SIZE && |data| == SIZE }

    function Held(): Bytes {
      if Whole() then data[p1..p2 + 1] else []
    }
  }

  function Contents(chunks: seq<Chunk>): Bytes {
    if chunks == [] then [] else Contents(chunks[..|chunks| - 1]) + chunks[|chunks| - 1].Held()
  }

  predicate AllWhole(chunks: seq<Chunk>) {
    forall c :: c in chunks ==> c.Whole()
  }

  // ---- appending ----

  /** A state of the loop that appends: the blocks, and the position of the byte written last. */
  datatype Filling = Filling(chunks: seq<Chunk>, p2: int)

  predicate Ready(f: Filling) {
    (f.chunks != [] ==> 0 <= f.p2 < SIZE) && forall c :: c in f.chunks ==> |c.data| == SIZE
  }

  function Last(f: Filling): Chunk
    requires f.chunks != []
  {
    f.chunks[|f.chunks| - 1]
  }

  function WithLast(chunks: seq<Chunk>, c: Chunk): seq<Chunk>
    requires chunks != []
  {
    chunks[..|chunks| - 1] + [c]
  }

  /** One byte: behind the last one, or in a new block. The block before a new one gets its start moved. */
  function PutByte(f: Filling, b: byte, blank: Bytes): (r: Filling)
    requires Ready(f) && |blank| == SIZE
    ensures Ready(r) && r.chunks != []
  {
    if f.chunks == [] then Filling([Chunk(0, 0, blank[0 := b])], 0)
    else if f.p2 == SIZE - 1 then
      var t := Last(f);
      Filling(WithLast(f.chunks, t.(p1 := f.p2)) + [Chunk(0, 0, blank[0 := b])], 0)
    else
      var t := Last(f);
      Filling(WithLast(f.chunks, t.(data := t.data[f.p2 + 1 := b])), f.p2 + 1)
  }

  function Fill(f: Filling, buf: Bytes, blank: Bytes): (r: Filling)
    requires Ready(f) && |blank| == SIZE
    ensures Ready(r) && (buf != [] || f.chunks != [] ==> r.chunks != [])
    decreases |buf|
  {
    if buf == [] then f else PutByte(Fill(f, buf[..|buf| - 1], blank), buf[|buf| - 1], blank)
  }

  function Start(chunks: seq<Chunk>): (f: Filling)
    ensures AllWhole(chunks) ==> Ready(f)
  {
    if chunks != [] then
      assert chunks[|chunks| - 1] in chunks;
      Filling(chunks, chunks[|chunks| - 1].p2)
    else Filling(chunks, 0)
  }

  /** A filled block as it ends up: in use up to the last byte written. */
  function Closed(f: Filling): seq<Chunk>
    requires f.chunks != []
  {
    WithLast(f.chunks, Last(f).(p2 := f.p2))
  }

  /** The blocks after appending buf, new blocks holding blank before they are written. */
  function Appended(chunks: seq<Chunk>, buf: Bytes, blank: Bytes): seq<Chunk>
    requires AllWhole(chunks) && |blank| == SIZE
  {
    if buf == [] then chunks
    else
      Closed(Fill(Start(chunks), buf, blank))
  }

  // ---- taking out ----

  /** The blocks after count bytes are taken out at the front. */
  function Shifted(chunks: seq<Chunk>, count: nat): seq<Chunk>
    requires AllWhole(chunks)
    decreases |chunks|
  {
    if count == 0 || chunks == [] then chunks
    else
      assert chunks[0] in chunks;
      var head := chunks[0];
      var rlen := head.p2 - head.p1 + 1;
      if count >= rlen then Shifted(chunks[1..], count - rlen) else [head.(p1 := head.p1 + count)] + chunks[1..]
  }

  lemma FillNothing(f: Filling, blank: Bytes)
    requires Ready(f) && |blank| == SIZE
    ensures Fill(f, [], blank) == f
  {
  }

  lemma FillNext(f: Filling, buf: Bytes, i: nat, blank: Bytes)
    requires Ready(f) && |blank| == SIZE && i < |buf|
    ensures Fill(f, buf[..i + 1], blank) == PutByte(Fill(f, buf[..i], blank), buf[i], blank)
  {
    assert buf[..i + 1][..i] == buf[..i];
  }

  class Cache {
    var chunks: seq<Chunk>
    var len: int

    constructor ()
      ensures chunks == [] && len == 0
    {
      chunks, len := [], 0;
    }

    ghost predicate Valid()
      reads this
    {
      AllWhole(chunks) && len == |Contents(chunks)|
    }

    /** Appends byte by byte, as the source does. */
    method Append(buf: Bytes, blank: Bytes)
      requires Valid() && |blank| == SIZE
      modifies this
      ensures chunks == Appended(old(chunks), buf, blank) && len == old(len) + |buf|
    {
      hide PutByte, Fill, Contents;
      if |buf| < 1 {
        return;
      }
      var p2 := 0;
      if chunks != [] {
        p2 := chunks[|chunks| - 1].p2;
      }
      ghost var start := Start(chunks);
      var cs := chunks;
      assert buf[..0] == [];
      FillNothing(start, blank);
      for i := 0 to |buf|
        invariant chunks == old(chunks) && len == old(len)
        invariant Ready(Filling(cs, p2)) && Filling(cs, p2) == Fill(start, buf[..i], blank)
      {
        FillNext(start, buf, i, blank);
        cs, p2 := Put(cs, p2, buf[i], blank);
      }
      assert buf[..|buf|] == buf;
      chunks := WithLast(cs, cs[|cs| - 1].(p2 := p2));
      len := len + |buf|;
    }

    /** One byte of the loop. */
    static method Put(cs0: seq<Chunk>, p0: int, b: byte, blank: Bytes) returns (cs: seq<Chunk>, p2: int)
      requires Ready(Filling(cs0, p0)) && |blank| == SIZE
      ensures Filling(cs, p2) == PutByte(Filling(cs0, p0), b, blank)
    {
      cs, p2 := cs0, p0;
      if cs == [] || p2 == SIZE - 1 {
        if cs != [] {
          cs := WithLast(cs, cs[|cs| - 1].(p1 := p2));
        }
        cs := cs + [Chunk(0, 0, blank)];
        p2 := 0;
      } else {
        p2 := p2 + 1;
      }
      var t := cs[|cs| - 1];
      cs := WithLast(cs, t.(data := t.data[p2 := b]));
    }

    /** Takes bytes out at the front, block by block. */
    method Shift(count: nat) returns (taken: Bytes)
      requires Valid() && count <= len
      modifies this
      ensures Valid() && len == old(len) - count
      ensures |taken| == count && Contents(old(chunks)) == taken + Contents(chunks)
      ensures chunks == Shifted(old(chunks), count)
    {
      hide Contents;
      taken := [];
      var left := count;
      ghost var all := Contents(chunks);
      assert [] + all == all;
      while left > 0
        invariant 0 <= left && |taken| + left == count
        invariant AllWhole(chunks) && taken + Contents(chunks) == all && left <= |Contents(chunks)|
        invariant Shifted(chunks, left) == Shifted(old(chunks), count)
        invariant len == old(len)
        decreases left
      {
        NotEmpty(chunks);
        var head := chunks[0];
        ghost var rest := chunks[1..];
        assert head in chunks && chunks == [head] + rest;
        ContentsFront(head, rest);
        var rlen := head.p2 - head.p1 + 1;
        ghost var was := taken;
        if left >= rlen {
          taken := taken + head.data[head.p1..head.p1 + rlen];
          chunks := chunks[1..];
          left := left - rlen;
          Associative(was, head.Held(), Contents(rest));
        } else {
          var piece := head.data[head.p1..head.p1 + left];
          var head' := head.(p1 := head.p1 + left);
          taken := taken + piece;
          HeadSplit(head, left, rest);
          chunks := [head'] + chunks[1..];
          Associative(was, piece, Contents([head'] + rest));
          left := 0;
        }
      }
      len := len - count;
    }
  }

  /** A block of which the first bytes are taken. */
  lemma HeadSplit(head: Chunk, left: nat, rest: seq<Chunk>)
    requires head.Whole() && left <= head.p2 - head.p1
    ensures var head' := head.(p1 := head.p1 + left);
            head'.Whole() && Contents([head] + rest) == head.data[head.p1..head.p1 + left] + Contents([head'] + rest)
  {
    hide Contents;
    var piece, head' := head.data[head.p1..head.p1 + left], head.(p1 := head.p1 + left);
    assert head.Held() == piece + head'.Held();
    ContentsFront(head, rest);
    ContentsFront(head', rest);
    Associative(piece, head'.Held(), Contents(rest));
  }

  lemma NotEmpty(chunks: seq<Chunk>)
    requires Contents(chunks) != []
    ensures chunks != []
  {
  }

  lemma {:induction false} ContentsFront(head: Chunk, rest: seq<Chunk>)
    ensures Contents([head] + rest) == head.Held() + Contents(rest)
    decreases |rest|
  {
    var all := [head] + rest;
    if rest == [] {
      assert all[..0] == [];
    } else {
      var front, last := rest[..|rest| - 1], rest[|rest| - 1];
      assert all[..|all| - 1] == [head] + front;
      ContentsFront(head, front);
      Associative(head.Held(), Contents(front), last.Held());
    }
  }

  lemma ContentsSnoc(front: seq<Chunk>, last: Chunk)
    ensures Contents(front + [last]) == Contents(front) + last.Held()
  {
    assert (front + [last])[..|front|] == front;
  }

  // ---- when appending appends ----

  /** The bytes fit behind the last block's, or they start the first block, or all that the last block still holds is
      its very last byte and they fit into the one new block. */
  predicate Fits(chunks: seq<Chunk>, buf: Bytes) {
    || buf == []
    || (chunks == [] && |buf| <= SIZE)
    || (chunks != [] && chunks[|chunks| - 1].p2 + |buf| < SIZE)
    || (chunks != [] && chunks[|chunks| - 1].p1 == chunks[|chunks| - 1].p2 == SIZE - 1 && |buf| <= SIZE)
  }

  /** As long as the block has room the bytes go into it, one behind the other. */
  lemma {:induction false} FillRoom(f: Filling, buf: Bytes, blank: Bytes)
    requires Ready(f) && |blank| == SIZE && f.chunks != [] && f.p2 + |buf| < SIZE
    ensures var r := Fill(f, buf, blank);
            && r.p2 == f.p2 + |buf| && |r.chunks| == |f.chunks|
            && r.chunks[..|r.chunks| - 1] == f.chunks[..|f.chunks| - 1]
            && Last(r) == Last(f).(data := Last(r).data)
            && |Last(r).data| == SIZE
            && Last(r).data[..f.p2 + 1 + |buf|] == Last(f).data[..f.p2 + 1] + buf
    decreases |buf|
  {
    if buf == [] {
      assert Last(f).data[..f.p2 + 1] + buf == Last(f).data[..f.p2 + 1];
    } else {
      var front, b := buf[..|buf| - 1], buf[|buf| - 1];
      FillRoom(f, front, blank);
      var r1 := Fill(f, front, blank);
      var n := r1.p2;
      var d, d' := Last(r1).data, Last(r1).data[n + 1 := b];
      assert d'[..n + 2] == d[..n + 1] + [b];
      assert front + [b] == buf;
      Associative(Last(f).data[..f.p2 + 1], front, [b]);
    }
  }

  lemma {:induction false} FillSplit(f: Filling, a: Bytes, b: Bytes, blank: Bytes)
    requires Ready(f) && |blank| == SIZE
    ensures Fill(f, a + b, blank) == Fill(Fill(f, a, blank), b, blank)
    decreases |b|
  {
    hide PutByte;
    if b == [] {
      assert a + b == a;
    } else {
      FillSplit(f, a, b[..|b| - 1], blank);
      assert (a + b)[..|a + b| - 1] == a + b[..|b| - 1];
    }
  }

  lemma PutKeepsFront(f: Filling, b: byte, blank: Bytes)
    requires Ready(f) && |blank| == SIZE && f.chunks != []
    ensures var r := PutByte(f, b, blank);
            |r.chunks| >= |f.chunks| && r.chunks[..|f.chunks| - 1] == f.chunks[..|f.chunks| - 1]
  {
  }

  /** Blocks before the last are never touched again. */
  lemma {:induction false} FrontFrozen(f: Filling, buf: Bytes, blank: Bytes)
    requires Ready(f) && |blank| == SIZE && f.chunks != []
    ensures var r := Fill(f, buf, blank);
            |r.chunks| >= |f.chunks| && r.chunks[..|f.chunks| - 1] == f.chunks[..|f.chunks| - 1]
    decreases |buf|
  {
    if buf != [] {
      hide PutByte, Ready;
      var front, b := buf[..|buf| - 1], buf[|buf| - 1];
      FrontFrozen(f, front, blank);
      var r1 := Fill(f, front, blank);
      PutKeepsFront(r1, b, blank);
      FrontOfFront(f.chunks, r1.chunks, PutByte(r1, b, blank).chunks);
    }
  }

  lemma FrontOfFront(a: seq<Chunk>, b: seq<Chunk>, c: seq<Chunk>)
    requires 0 < |a| <= |b| <= |c| && b[..|a| - 1] == a[..|a| - 1] && c[..|b| - 1] == b[..|b| - 1]
    ensures c[..|a| - 1] == a[..|a| - 1]
  {
    assert c[..|a| - 1] == c[..|b| - 1][..|a| - 1] && b[..|a| - 1] == b[..|b| - 1][..|a| - 1];
  }

  /** Bytes that fit are appended. */
  lemma FitsAppends(chunks: seq<Chunk>, buf: Bytes, blank: Bytes)
    requires AllWhole(chunks) && |blank| == SIZE && Fits(chunks, buf)
    ensures AllWhole(Appended(chunks, buf, blank))
    ensures Contents(Appended(chunks, buf, blank)) == Contents(chunks) + buf
  {
    hide Contents, Fill, Closed, AllWhole;
    if buf == [] {
      WithNothing(Contents(chunks));
    } else if chunks == [] {
      var first := [Chunk(0, 0, blank[0 := buf[0]])];
      assert [] + first == first;
      NoBlocks();
      FirstBlock([], buf, blank);
    } else if chunks[|chunks| - 1].p2 + |buf| < SIZE {
      RoomAppends(chunks, buf, blank);
    } else {
      NewBlock(chunks, buf, blank);
    }
  }

  lemma NoBlocks()
    ensures AllWhole([]) && Contents([]) == []
  {
  }

  /** A block begun with buf, behind blocks that stay as they are. */
  lemma FirstBlock(before: seq<Chunk>, buf: Bytes, blank: Bytes)
    requires AllWhole(before) && |blank| == SIZE && 0 < |buf| <= SIZE
    ensures var f := Filling(before + [Chunk(0, 0, blank[0 := buf[0]])], 0);
            && Ready(f)
            && var r := Closed(Fill(f, buf[1..], blank));
               AllWhole(r) && Contents(r) == Contents(before) + buf
    ensures before == [] ==>
              Fill(Start([]), buf, blank) == Fill(Filling([Chunk(0, 0, blank[0 := buf[0]])], 0), buf[1..], blank)
  {
    hide Contents, Fill;
    var first := Chunk(0, 0, blank[0 := buf[0]]);
    var f := Filling(before + [first], 0);
    assert Ready(f) by {
      assert forall c :: c in before ==> c.Whole();
    }
    FillRoom(f, buf[1..], blank);
    var g := Fill(f, buf[1..], blank);
    var last := Last(g).(p2 := g.p2);
    assert g.chunks[..|g.chunks| - 1] == before;
    assert Closed(g) == before + [last];
    assert first.data[..1] == [buf[0]] && [buf[0]] + buf[1..] == buf;
    assert last.Held() == last.data[..|buf|] == buf;
    ContentsSnoc(before, last);
    if before == [] {
      assert buf == [buf[0]] + buf[1..];
      FillSplit(Start([]), [buf[0]], buf[1..], blank);
      FillOne(Start([]), buf[0], blank);
      assert [] + [first] == [first];
    }
  }

  lemma FillOne(f: Filling, b: byte, blank: Bytes)
    requires Ready(f) && |blank| == SIZE
    ensures Fill(f, [b], blank) == PutByte(f, b, blank)
  {
    assert [b][..0] == [];
    assert Fill(f, [], blank) == f;
  }

  lemma HeldGrows(t: Chunk, last: Chunk, buf: Bytes)
    requires t.Whole() && last == Chunk(t.p1, t.p2 + |buf|, last.data) && |last.data| == SIZE && t.p2 + |buf| < SIZE
    requires last.data[..t.p2 + 1 + |buf|] == t.data[..t.p2 + 1] + buf
    ensures last.Held() == t.Held() + buf
  {
    var n := t.p2 + 1 + |buf|;
    assert last.Held() == last.data[..n][t.p1..];
    assert (t.data[..t.p2 + 1] + buf)[t.p1..] == t.data[..t.p2 + 1][t.p1..] + buf;
    assert t.data[..t.p2 + 1][t.p1..] == t.Held();
  }

  lemma RoomAppends(chunks: seq<Chunk>, buf: Bytes, blank: Bytes)
    requires AllWhole(chunks) && |blank| == SIZE && chunks != [] && buf != [] && chunks[|chunks| - 1].p2 + |buf| < SIZE
    ensures AllWhole(Appended(chunks, buf, blank)) && Contents(Appended(chunks, buf, blank)) == Contents(chunks) + buf
  {
    hide *;
    var before, t := chunks[..|chunks| - 1], chunks[|chunks| - 1];
    assert chunks == before + [t];
    StartReady(chunks);
    RoomFilled(chunks, buf, blank);
    var r := Fill(Start(chunks), buf, blank);
    LastReplaced(before, t, Last(r).(p2 := r.p2), buf);
  }

  lemma StartReady(chunks: seq<Chunk>)
    requires AllWhole(chunks) && chunks != []
    ensures Start(chunks).chunks == chunks && Ready(Start(chunks))
  {
  }

  lemma RoomFilled(chunks: seq<Chunk>, buf: Bytes, blank: Bytes)
    requires AllWhole(chunks) && |blank| == SIZE && chunks != [] && buf != [] && chunks[|chunks| - 1].p2 + |buf| < SIZE
    ensures var r := Fill(Start(chunks), buf, blank);
            var t := chunks[|chunks| - 1];
            var last := Last(r).(p2 := r.p2);
            && Appended(chunks, buf, blank) == chunks[..|chunks| - 1] + [last]
            && last.Whole() && last.Held() == t.Held() + buf && last.p2 == t.p2 + |buf|
  {
    hide Fill;
    var t := chunks[|chunks| - 1];
    assert t in chunks;
    FillRoom(Start(chunks), buf, blank);
    var r := Fill(Start(chunks), buf, blank);
    HeldGrows(t, Last(r).(p2 := r.p2), buf);
  }

  lemma LastReplaced(before: seq<Chunk>, t: Chunk, last: Chunk, buf: Bytes)
    requires AllWhole(before + [t]) && last.Whole() && last.Held() == t.Held() + buf
    ensures AllWhole(before + [last]) && Contents(before + [last]) == Contents(before + [t]) + buf
  {
    hide Contents, Chunk.Held, Chunk.Whole;
    assert forall c :: c in before ==> c in before + [t];
    ContentsSnoc(before, t);
    ContentsSnoc(before, last);
    Associative(Contents(before), t.Held(), buf);
  }

  /** The last block holds only its last byte: moving its start there changes nothing. */
  lemma NewBlock(chunks: seq<Chunk>, buf: Bytes, blank: Bytes)
    requires AllWhole(chunks) && |blank| == SIZE && chunks != [] && 0 < |buf| <= SIZE
    requires chunks[|chunks| - 1].p1 == chunks[|chunks| - 1].p2 == SIZE - 1
    ensures AllWhole(Appended(chunks, buf, blank)) && Contents(Appended(chunks, buf, blank)) == Contents(chunks) + buf
  {
    hide Contents, Fill, AllWhole;
    var f := Start(chunks);
    assert buf == [buf[0]] + buf[1..];
    FillSplit(f, [buf[0]], buf[1..], blank);
    FillOne(f, buf[0], blank);
    PutBehindFull(chunks, buf[0], blank);
    hide PutByte, Start;
    FirstBlock(chunks, buf, blank);
  }

  lemma PutBehindFull(chunks: seq<Chunk>, b: byte, blank: Bytes)
    requires AllWhole(chunks) && |blank| == SIZE && chunks != []
    requires chunks[|chunks| - 1].p1 == chunks[|chunks| - 1].p2 == SIZE - 1
    ensures PutByte(Start(chunks), b, blank) == Filling(chunks + [Chunk(0, 0, blank[0 := b])], 0)
  {
    var t := chunks[|chunks| - 1];
    assert WithLast(chunks, t.(p1 := SIZE - 1)) == chunks;
  }

  /** When the bytes do not fit into the last block, its start is moved to its last byte, and its end stays where it
      was before the call. */
  lemma Spill(f: Filling, buf: Bytes, blank: Bytes)
    requires Ready(f) && |blank| == SIZE && f.chunks != [] && f.p2 + |buf| >= SIZE
    ensures var r := Closed(Fill(f, buf, blank)); var n := |f.chunks|;
            |r| > n && r[n - 1].p1 == SIZE - 1 && r[n - 1].p2 == Last(f).p2
  {
    hide Fill;
    var m := SIZE - 1 - f.p2;
    var a, b, c := buf[..m], buf[m], buf[m + 1..];
    assert buf == a + [b] + c;
    FillSplit(f, a + [b], c, blank);
    FillSplit(f, a, [b], blank);
    FillRoom(f, a, blank);
    var f1 := Fill(f, a, blank);
    FillOne(f1, b, blank);
    var f2 := PutByte(f1, b, blank);
    FrontFrozen(f2, c, blank);
    var r := Fill(f2, c, blank);
    var n := |f.chunks|;
    assert r.chunks[n - 1] == r.chunks[..|f2.chunks| - 1][n - 1] == f2.chunks[..|f2.chunks| - 1][n - 1];
  }

  lemma NotWhole(chunks: seq<Chunk>, k: nat)
    requires k < |chunks| && chunks[k].p1 > chunks[k].p2
    ensures !AllWhole(chunks)
  {
    assert chunks[k] in chunks;
  }

  /** A full last block keeps one byte only. */
  lemma FullSpoiled(chunks: seq<Chunk>, buf: Bytes, blank: Bytes)
    requires AllWhole(chunks) && |blank| == SIZE && chunks != [] && buf != []
    requires chunks[|chunks| - 1].p2 == SIZE - 1 && !Fits(chunks, buf)
    ensures !AllWhole(Appended(chunks, buf, blank)) ||
            |Contents(Appended(chunks, buf, blank))| < |Contents(chunks)| + |buf|
  {
    hide Contents, Fill;
    var f := Start(chunks);
    var before, t := chunks[..|chunks| - 1], chunks[|chunks| - 1];
    assert t in chunks && chunks == before + [t];
    var t' := t.(p1 := SIZE - 1);
    var kept := before + [t'];
    var first := Chunk(0, 0, blank[0 := buf[0]]);
    var f1 := Filling(kept + [first], 0);
    assert buf == [buf[0]] + buf[1..];
    FillSplit(f, [buf[0]], buf[1..], blank);
    FillOne(f, buf[0], blank);
    assert PutByte(f, buf[0], blank) == f1;
    if |buf| <= SIZE {
      FirstBlock(kept, buf, blank);
      ContentsSnoc(before, t);
      ContentsSnoc(before, t');
    } else {
      Spill(f1, buf[1..], blank);
      NotWhole(Appended(chunks, buf, blank), |kept|);
    }
  }

  lemma DoesNotFit(chunks: seq<Chunk>, buf: Bytes, blank: Bytes)
    requires AllWhole(chunks) && |blank| == SIZE && !Fits(chunks, buf)
    ensures !AllWhole(Appended(chunks, buf, blank)) ||
            |Contents(Appended(chunks, buf, blank))| < |Contents(chunks)| + |buf|
  {
    hide Contents, Fill;
    if chunks == [] {
      var first := Chunk(0, 0, blank[0 := buf[0]]);
      var f1 := Filling([first], 0);
      assert buf == [buf[0]] + buf[1..];
      FillSplit(Start([]), [buf[0]], buf[1..], blank);
      FillOne(Start([]), buf[0], blank);
      Spill(f1, buf[1..], blank);
      NotWhole(Appended(chunks, buf, blank), 0);
    } else if chunks[|chunks| - 1].p2 == SIZE - 1 {
      FullSpoiled(chunks, buf, blank);
    } else {
      assert chunks[|chunks| - 1] in chunks;
      Spill(Start(chunks), buf, blank);
      NotWhole(Appended(chunks, buf, blank), |chunks| - 1);
    }
  }

  /** Appending appends exactly when the bytes fit: as soon as a block is started behind one that still holds more than
      its last byte, bytes are lost. The code moves the start of the block it leaves where its end should move. */
  lemma AppendsExactly(chunks: seq<Chunk>, buf: Bytes, blank: Bytes)
    requires AllWhole(chunks) && |blank| == SIZE
    ensures (AllWhole(Appended(chunks, buf, blank)) && Contents(Appended(chunks, buf, blank)) == Contents(chunks) + buf)
            <==> Fits(chunks, buf)
  {
    hide Contents, Fill, Appended, AllWhole, Fits;
    if Fits(chunks, buf) {
      FitsAppends(chunks, buf, blank);
    } else {
      DoesNotFit(chunks, buf, blank);
    }
  }

  /** Two ordinary reads lose nearly everything: after a full block and one byte more the cache counts 4097 bytes and
      holds two. */
  method FullBlockThenOne(buf: Bytes, b: byte, blank: Bytes) returns (cache: Cache)
    requires |buf| == SIZE && |blank| == SIZE
    ensures cache.len == 4097 && AllWhole(cache.chunks)
    ensures Contents(cache.chunks) == [buf[SIZE - 1], b]
  {
    hide Contents, Appended, AllWhole;
    cache := new Cache();
    NoBlocks();
    cache.Append(buf, blank);
    FitsAppends([], buf, blank);
    WithNothing(buf);
    OneBlock(buf, blank);
    ghost var first := cache.chunks[0];
    cache.Append([b], blank);
    SecondBlock(first, b, blank);
    hide Chunk.Held;
    assert first.Held() == buf;
  }

  /** A full block: all of it is in use. */
  lemma OneBlock(buf: Bytes, blank: Bytes)
    requires |buf| == SIZE && |blank| == SIZE
    ensures AllWhole([]) && Appended([], buf, blank) == [Chunk(0, SIZE - 1, buf)]
    ensures Chunk(0, SIZE - 1, buf).Held() == buf
  {
    hide Fill;
    var f := Filling([Chunk(0, 0, blank[0 := buf[0]])], 0);
    var none: seq<Chunk> := [];
    assert none + [Chunk(0, 0, blank[0 := buf[0]])] == f.chunks;
    FirstBlock([], buf, blank);
    FillRoom(f, buf[1..], blank);
    var g := Fill(f, buf[1..], blank);
    assert Last(g).data == Last(g).data[..SIZE] == blank[0 := buf[0]][..1] + buf[1..] == buf;
    assert g.chunks == [Last(g)];
  }

  lemma SecondBlock(first: Chunk, b: byte, blank: Bytes)
    requires first == Chunk(0, SIZE - 1, first.data) && |first.data| == SIZE && |blank| == SIZE
    ensures AllWhole([first]) && AllWhole(Appended([first], [b], blank))
    ensures Contents(Appended([first], [b], blank)) == [first.Held()[SIZE - 1], b]
  {
    var kept, new1 := first.(p1 := SIZE - 1), Chunk(0, 0, blank[0 := b]);
    FillOne(Start([first]), b, blank);
    assert Appended([first], [b], blank) == [kept, new1];
    assert [kept, new1][..1] == [kept] && [kept][..0] == [];
    assert kept.Held() == [first.data[SIZE - 1]] && new1.Held() == [b];
    assert Contents([kept]) == Contents([]) + kept.Held();
  }

  // ---- whole runs ----

  /** What a handle does with its cache: bytes that were read are put behind, bytes that are asked for taken out. */
  datatype Use = Put(bytes: Bytes) | Take(count: nat)

  /** The cache as a sequence of bytes. */
  function PlainCache(uses: seq<Use>): Bytes {
    if uses == [] then []
    else
      var before := PlainCache(uses[..|uses| - 1]);
      match uses[|uses| - 1]
      case Put(bytes) => before + bytes
      case Take(count) => if count <= |before| then before[count..] else []
  }

  /** The cache as blocks, followed as long as they are whole. */
  function Blocks(uses: seq<Use>, blank: Bytes): seq<Chunk>
    requires |blank| == SIZE
  {
    if uses == [] then []
    else
      var before := Blocks(uses[..|uses| - 1], blank);
      if !AllWhole(before) then before
      else
        match uses[|uses| - 1]
        case Put(bytes) => Appended(before, bytes, blank)
        case Take(count) => Shifted(before, count)
  }

  /** Never more is taken out than is there. */
  predicate TakesWhatIsThere(uses: seq<Use>) {
    uses == [] ||
    var front, last := uses[..|uses| - 1], uses[|uses| - 1];
    TakesWhatIsThere(front) && (last.Take? ==> last.count <= |PlainCache(front)|)
  }

  predicate Holds(uses: seq<Use>, blank: Bytes)
    requires |blank| == SIZE
  {
    AllWhole(Blocks(uses, blank)) && Contents(Blocks(uses, blank)) == PlainCache(uses)
  }

  /** After every use the blocks hold the bytes. */
  predicate AlwaysHolds(uses: seq<Use>, blank: Bytes)
    requires |blank| == SIZE
  {
    Holds(uses, blank) && (uses == [] || AlwaysHolds(uses[..|uses| - 1], blank))
  }

  /** Whatever is put in fits at that time. */
  predicate AlwaysFits(uses: seq<Use>, blank: Bytes)
    requires |blank| == SIZE
  {
    uses == [] ||
    var front, last := uses[..|uses| - 1], uses[|uses| - 1];
    AlwaysFits(front, blank) && (last.Put? ==> Fits(Blocks(front, blank), last.bytes))
  }

  lemma {:induction false} ShiftedTakes(chunks: seq<Chunk>, count: nat)
    requires AllWhole(chunks) && count <= |Contents(chunks)|
    ensures AllWhole(Shifted(chunks, count)) && Contents(Shifted(chunks, count)) == Contents(chunks)[count..]
    decreases |chunks|
  {
    hide Contents;
    if count > 0 {
      NotEmpty(chunks);
      var head, rest := chunks[0], chunks[1..];
      assert head in chunks && chunks == [head] + rest;
      ContentsFront(head, rest);
      var rlen := head.p2 - head.p1 + 1;
      if count >= rlen {
        ShiftedTakes(rest, count - rlen);
        assert (head.Held() + Contents(rest))[count..] == Contents(rest)[count - rlen..];
      } else {
        HeadSplit(head, count, rest);
        var piece, kept := head.data[head.p1..head.p1 + count], Contents([head.(p1 := head.p1 + count)] + rest);
        assert (piece + kept)[count..] == kept;
      }
    }
  }

  lemma UseHolds(uses: seq<Use>, blank: Bytes)
    requires |blank| == SIZE && uses != [] && TakesWhatIsThere(uses) && Holds(uses[..|uses| - 1], blank)
    ensures var front, last := uses[..|uses| - 1], uses[|uses| - 1];
            Holds(uses, blank) <==> (last.Put? ==> Fits(Blocks(front, blank), last.bytes))
  {
    hide Contents, Appended, Shifted, Fits, AllWhole;
    var front, last := uses[..|uses| - 1], uses[|uses| - 1];
    var before := Blocks(front, blank);
    match last
    case Put(bytes) => AppendsExactly(before, bytes, blank);
    case Take(count) => ShiftedTakes(before, count);
  }

  /** Over a whole run the blocks hold what a sequence of bytes would hold, after every use, exactly when everything put
      in fits at its time. */
  lemma {:induction false} BlocksAreBytesExactly(uses: seq<Use>, blank: Bytes)
    requires |blank| == SIZE && TakesWhatIsThere(uses)
    ensures AlwaysHolds(uses, blank) <==> AlwaysFits(uses, blank)
    decreases |uses|
  {
    hide Holds, Fits, Blocks;
    if uses == [] {
      NoUse(blank);
    } else {
      var front := uses[..|uses| - 1];
      BlocksAreBytesExactly(front, blank);
      if AlwaysHolds(front, blank) {
        UseHolds(uses, blank);
      }
    }
  }

  lemma NoUse(blank: Bytes)
    requires |blank| == SIZE
    ensures Holds([], blank)
  {
  }

  // ---- when whole runs hold ----

  /** Everything that was ever put in. */
  function AllPut(uses: seq<Use>): Bytes {
    if uses == [] then []
    else
      var front, last := uses[..|uses| - 1], uses[|uses| - 1];
      AllPut(front) + if last.Put? then last.bytes else []
  }

  /** The number of bytes put in since the cache was last empty. */
  function Burst(uses: seq<Use>): nat {
    if uses == [] then 0
    else
      var front, last := uses[..|uses| - 1], uses[|uses| - 1];
      (if PlainCache(front) == [] then 0 else Burst(front)) + if last.Put? then |last.bytes| else 0
  }

  /** Between two times when the cache is empty no more is put in than one block takes. */
  predicate ShortBursts(uses: seq<Use>) {
    uses == [] || (ShortBursts(uses[..|uses| - 1]) && Burst(uses) <= SIZE)
  }

  /** At most one block, filled from its beginning by the bytes of the burst. */
  predicate Single(chunks: seq<Chunk>, burst: nat) {
    chunks == [] || (|chunks| == 1 && chunks[0].p2 + 1 == burst)
  }

  lemma EmptyBlocks(chunks: seq<Chunk>)
    requires AllWhole(chunks)
    ensures Contents(chunks) == [] <==> chunks == []
  {
    if chunks != [] {
      assert chunks[|chunks| - 1] in chunks;
    }
  }

  lemma FirstAppended(buf: Bytes, blank: Bytes)
    requires |blank| == SIZE && 0 < |buf| <= SIZE
    ensures Single(Appended([], buf, blank), |buf|)
  {
    hide Fill, Contents;
    var f := Filling([Chunk(0, 0, blank[0 := buf[0]])], 0);
    var none: seq<Chunk> := [];
    assert none + [Chunk(0, 0, blank[0 := buf[0]])] == f.chunks;
    FirstBlock([], buf, blank);
    FillRoom(f, buf[1..], blank);
  }

  lemma SinglePut(chunks: seq<Chunk>, burst: nat, buf: Bytes, blank: Bytes)
    requires AllWhole(chunks) && Single(chunks, burst) && |blank| == SIZE && (chunks == [] ==> burst == 0)
    requires burst + |buf| <= SIZE
    ensures Fits(chunks, buf) && Single(Appended(chunks, buf, blank), burst + |buf|)
  {
    hide Contents, Fill, Start, Closed;
    if buf != [] && chunks == [] {
      FirstAppended(buf, blank);
    } else if buf != [] {
      RoomFilled(chunks, buf, blank);
    }
  }

  lemma SingleTake(chunks: seq<Chunk>, burst: nat, count: nat)
    requires AllWhole(chunks) && Single(chunks, burst)
    ensures Single(Shifted(chunks, count), burst)
  {
    if chunks != [] {
      assert chunks[1..] == [];
      assert forall n: nat :: Shifted([], n) == [];
    }
  }

  /** Runs of short bursts are held in one block at a time. */
  lemma {:induction false} BurstsFit(uses: seq<Use>, blank: Bytes)
    requires |blank| == SIZE && TakesWhatIsThere(uses) && ShortBursts(uses)
    ensures AlwaysFits(uses, blank) && Holds(uses, blank) && Single(Blocks(uses, blank), Burst(uses))
    decreases |uses|
  {
    hide Contents, Appended, Shifted, Fits, AllWhole, Single;
    if uses == [] {
      NoUse(blank);
      assert Single([], 0) by { NothingSingle(); }
    } else {
      var front, last := uses[..|uses| - 1], uses[|uses| - 1];
      BurstsFit(front, blank);
      var before := Blocks(front, blank);
      EmptyBlocks(before);
      var base := if PlainCache(front) == [] then 0 else Burst(front);
      if before == [] { NothingSingle(); }
      match last {
        case Put(bytes) => SinglePut(before, base, bytes, blank);
        case Take(count) => SingleTake(before, base, count);
      }
      UseHolds(uses, blank);
    }
  }

  lemma NothingSingle()
    ensures forall burst :: Single([], burst)
  {
  }

  lemma {:induction false} BurstsWithinTotal(uses: seq<Use>)
    ensures Burst(uses) <= |AllPut(uses)| && (|AllPut(uses)| <= SIZE ==> ShortBursts(uses))
    decreases |uses|
  {
    if uses != [] {
      BurstsWithinTotal(uses[..|uses| - 1]);
    }
  }

  /** After every use the blocks hold the bytes, whatever new blocks hold before they are written. */
  ghost predicate InBlocks(uses: seq<Use>) {
    forall blank: Bytes :: |blank| == SIZE ==> AlwaysHolds(uses, blank)
  }

  /** A run of short bursts is held by the blocks as by a sequence of bytes; so is any run that puts in no more than
      4096 bytes in all. */
  lemma ShortBurstsInBlocks(uses: seq<Use>)
    requires TakesWhatIsThere(uses)
    ensures ShortBursts(uses) ==> InBlocks(uses)
    ensures |AllPut(uses)| <= SIZE ==> ShortBursts(uses) && InBlocks(uses)
  {
    hide AlwaysHolds, AlwaysFits, Holds;
    BurstsWithinTotal(uses);
    if ShortBursts(uses) {
      forall blank: Bytes | |blank| == SIZE
        ensures AlwaysHolds(uses, blank)
      {
        BurstsFit(uses, blank);
        BlocksAreBytesExactly(uses, blank);
      }
    }
  }

  predicate OnlyPuts(uses: seq<Use>) {
    forall use :: use in uses ==> use.Put?
  }

  lemma {:induction false} OnlyPutsMeaning(uses: seq<Use>)
    requires OnlyPuts(uses)
    ensures PlainCache(uses) == AllPut(uses) && Burst(uses) == |AllPut(uses)| && TakesWhatIsThere(uses)
    decreases |uses|
  {
    if uses != [] {
      assert uses[|uses| - 1] in uses;
      OnlyPutsMeaning(uses[..|uses| - 1]);
    }
  }

  /** One block with nothing taken out yet: what it has room for is all that fits. */
  lemma UntakenFits(chunks: seq<Chunk>, total: nat, buf: Bytes)
    requires AllWhole(chunks) && Single(chunks, total) && |Contents(chunks)| == total && Fits(chunks, buf)
    ensures total + |buf| <= SIZE || buf == []
  {
    if chunks != [] {
      assert chunks == [] + [chunks[0]];
      ContentsSnoc([], chunks[0]);
      assert chunks[0] in chunks;
    }
  }

  /** Nothing taken out in between: the blocks hold what is put in exactly when it is 4096 bytes at most. */
  lemma {:induction false} OnlyPutsExactly(uses: seq<Use>, blank: Bytes)
    requires |blank| == SIZE && OnlyPuts(uses)
    ensures AlwaysHolds(uses, blank) <==> |AllPut(uses)| <= SIZE
    decreases |uses|
  {
    hide Contents, Fits, Blocks, Holds, Single;
    OnlyPutsMeaning(uses);
    BlocksAreBytesExactly(uses, blank);
    if |AllPut(uses)| <= SIZE {
      BurstsWithinTotal(uses);
      BurstsFit(uses, blank);
    } else {
      var front, last := uses[..|uses| - 1], uses[|uses| - 1];
      assert last in uses;
      OnlyPutsExactly(front, blank);
      if AlwaysFits(uses, blank) {
        OnlyPutsMeaning(front);
        BlocksAreBytesExactly(front, blank);
        BurstsWithinTotal(front);
        BurstsFit(front, blank);
        HoldsMeaning(front, blank);
        UntakenFits(Blocks(front, blank), |AllPut(front)|, last.bytes);
        assert false;
      }
    }
  }

  lemma HoldsMeaning(uses: seq<Use>, blank: Bytes)
    requires |blank| == SIZE && Holds(uses, blank)
    ensures AllWhole(Blocks(uses, blank)) && Contents(Blocks(uses, blank)) == PlainCache(uses)
  {
  }
}
