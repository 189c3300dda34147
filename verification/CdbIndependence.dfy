/** When the compiled bytes depend on the final map alone: not on the order of the updates, and not on what the buffers
    of the values held before. */
module CdbIndependence {
  import opened Bytes
  import opened Options
  import opened CdbModel
  import opened CdbFormat
  import opened CdbImage
  import opened CdbHistory
  import opened CdbTheorems

  // ---- regions that are as long as each other ----

  ghost predicate SameLengths<T(!new)>(items: seq<T>, r: (T, nat) -> Bytes, q: (T, nat) -> Bytes) {
    forall i: nat, p: nat :: i < |items| ==> |r(items[i], p)| == |q(items[i], p)|
  }

  lemma {:induction false} RegionsSameLength<T(!new)>(items: seq<T>, at: nat, r: (T, nat) -> Bytes,
      q: (T, nat) -> Bytes)
    requires SameLengths(items, r, q)
    ensures |Regions(items, at, r)| == |Regions(items, at, q)|
  {
    if items != [] {
      var front, n := items[..|items| - 1], |items| - 1;
      assert SameLengths(front, r, q) by {
        assert forall i :: 0 <= i < n ==> front[i] == items[i];
      }
      RegionsSameLength(front, at, r, q);
      assert |r(items[n], at + |Regions(front, at, r)|)| == |q(items[n], at + |Regions(front, at, r)|)|;
    }
  }

  lemma StartsAgree<T(!new)>(items: seq<T>, at: nat, r: (T, nat) -> Bytes, q: (T, nat) -> Bytes, i: nat)
    requires SameLengths(items, r, q) && i <= |items|
    ensures Start(items, at, r, i) == Start(items, at, q, i)
  {
    hide Regions;
    var front := items[..i];
    assert SameLengths(front, r, q) by {
      assert forall j :: 0 <= j < i ==> front[j] == items[j];
    }
    RegionsSameLength(front, at, r, q);
  }

  lemma OffsetsAgree<T(!new)>(items: seq<T>, at: nat, r: (T, nat) -> Bytes, q: (T, nat) -> Bytes)
    requires SameLengths(items, r, q)
    ensures Offsets(items, at, r) == Offsets(items, at, q)
  {
    hide Start;
    forall i | 0 <= i < |items|
      ensures OffsetOf(items, at, r, i) == OffsetOf(items, at, q, i)
    {
      StartsAgree(items, at, r, q, i);
      var p := Start(items, at, r, i);
      assert |r(items[i], p)| == |q(items[i], p)|;
    }
  }

  /** The i-th regions are equal, where the i-th region starts. */
  ghost predicate SameRegion<T(!new)>(items: seq<T>, at: nat, r: (T, nat) -> Bytes, q: (T, nat) -> Bytes, i: nat)
    requires i < |items|
  {
    r(items[i], Start(items, at, r, i)) == q(items[i], Start(items, at, r, i))
  }

  lemma SameRegionInFront<T(!new)>(items: seq<T>, at: nat, r: (T, nat) -> Bytes, q: (T, nat) -> Bytes, i: nat)
    requires i < |items| - 1
    ensures SameRegion(items[..|items| - 1], at, r, q, i) <==> SameRegion(items, at, r, q, i)
  {
    assert items[..|items| - 1][..i] == items[..i];
  }

  /** Where regions are as long as each other, they are equal together exactly when they are equal one by one. */
  lemma {:induction false} RegionsAgree<T(!new)>(items: seq<T>, at: nat, r: (T, nat) -> Bytes, q: (T, nat) -> Bytes)
    requires SameLengths(items, r, q)
    ensures Regions(items, at, r) == Regions(items, at, q) <==>
            forall i :: 0 <= i < |items| ==> SameRegion(items, at, r, q, i)
  {
    if items != [] {
      hide SameRegion;
      var n := |items| - 1;
      var front := items[..n];
      assert SameLengths(front, r, q) by {
        assert forall i :: 0 <= i < n ==> front[i] == items[i];
      }
      RegionsAgree(front, at, r, q);
      LastRegion(items, at, r, q);
      forall i | 0 <= i < n
        ensures SameRegion(front, at, r, q, i) <==> SameRegion(items, at, r, q, i)
      {
        SameRegionInFront(items, at, r, q, i);
      }
    }
  }

  lemma LastRegion<T(!new)>(items: seq<T>, at: nat, r: (T, nat) -> Bytes, q: (T, nat) -> Bytes)
    requires SameLengths(items, r, q) && items != []
    ensures var n := |items| - 1;
            Regions(items, at, r) == Regions(items, at, q) <==>
            Regions(items[..n], at, r) == Regions(items[..n], at, q) && SameRegion(items, at, r, q, n)
  {
    hide Regions;
    var n := |items| - 1;
    assert items[..n + 1] == items;
    RegionsSnoc(items, at, r, n);
    RegionsSnoc(items, at, q, n);
    StartsAgree(items, at, r, q, n);
    var p := Start(items, at, r, n);
    assert |r(items[n], p)| == |q(items[n], p)|;
    EqualParts(Regions(items[..n], at, r), r(items[n], p), Regions(items[..n], at, q), q(items[n], p));
  }

  lemma EqualParts(a: Bytes, x: Bytes, b: Bytes, y: Bytes)
    requires |a| == |b|
    ensures a + x == b + y <==> a == b && x == y
  {
    if a + x == b + y {
      assert a == (a + x)[..|a|] && b == (b + y)[..|b|];
      assert x == (a + x)[|a|..] && y == (b + y)[|b|..];
    }
  }

  // ---- the same tables in two modes of the same value length ----

  lemma {:induction false} ConcatAgree(a: seq<Bytes>, b: seq<Bytes>)
    requires |a| == |b| && forall i :: 0 <= i < |a| ==> |a[i]| == |b[i]|
    ensures |Concat(a)| == |Concat(b)|
    ensures Concat(a) == Concat(b) <==> a == b
  {
    if a != [] {
      ConcatAgree(a[1..], b[1..]);
      EqualParts(a[0], Concat(a[1..]), b[0], Concat(b[1..]));
      assert a == [a[0]] + a[1..] && b == [b[0]] + b[1..];
    }
  }

  lemma BucketsAgree(klen: nat, m: Mode, n: Mode, c: Chain, at: nat)
    requires m.valLength == n.valLength
    ensures |BucketBytes(klen, m, c, at)| == |BucketBytes(klen, n, c, at)|
    ensures BucketBytes(klen, m, c, at) == BucketBytes(klen, n, c, at) <==> RecordedChain(m, c) == RecordedChain(n, c)
  {
    hide Concat, Pack, VariableRecords;
    if c != [] && m.valLength != VARIABLE {
      var a, b := FixedRows(m, c), FixedRows(n, c);
      assert forall i :: 0 <= i < |c| ==> |a[i]| == |c[i].key| + m.valLength == |b[i]|;
      ConcatAgree(a, b);
      EqualParts(Pack(|c|), Concat(a), Pack(|c|), Concat(b));
      RowsAgree(m, n, c);
    }
  }

  lemma RowsAgree(m: Mode, n: Mode, c: Chain)
    requires m.valLength == n.valLength != VARIABLE
    ensures FixedRows(m, c) == FixedRows(n, c) <==> RecordedChain(m, c) == RecordedChain(n, c)
  {
    hide CStr;
    var a, b, r, q := FixedRows(m, c), FixedRows(n, c), RecordedChain(m, c), RecordedChain(n, c);
    forall i | 0 <= i < |c|
      ensures a[i] == b[i] <==> r[i] == q[i]
    {
      EqualParts(c[i].key, CStr(c[i], m.valLength, m.beyond), c[i].key, CStr(c[i], n.valLength, n.beyond));
    }
    assert a == b <==> forall i :: 0 <= i < |c| ==> a[i] == b[i];
    assert r == q <==> forall i :: 0 <= i < |c| ==> r[i] == q[i];
  }

  lemma TablesAgree(m: Mode, n: Mode, t: TableSlot, at: nat)
    requires m.valLength == n.valLength
    ensures |TableBytes(m, t, at)| == |TableBytes(n, t, at)|
    ensures TableBytes(m, t, at) == TableBytes(n, t, at) <==> RecordedSlot(m, t) == RecordedSlot(n, t)
  {
    hide Pack, Records, Regions, Offsets, BucketBytes, RecordedChain, Start;
    if t.Present? {
      var bs, r, q := t.buckets, BucketRender(t.klen, m), BucketRender(t.klen, n);
      var first := at + 4 + |bs| * 4;
      forall i: nat, p: nat | i < |bs|
        ensures |r(bs[i], p)| == |q(bs[i], p)|
      {
        BucketsAgree(t.klen, m, n, bs[i], p);
      }
      OffsetsAgree(bs, first, r, q);
      RegionsSameLength(bs, first, r, q);
      RegionsAgree(bs, first, r, q);
      var head := Pack(|bs|) + Records(NoKeys(|bs|), Offsets(bs, first, r));
      EqualParts(head, Regions(bs, first, r), head, Regions(bs, first, q));
      forall i | 0 <= i < |bs|
        ensures SameRegion(bs, first, r, q, i) <==> RecordedChain(m, bs[i]) == RecordedChain(n, bs[i])
      {
        BucketsAgree(t.klen, m, n, bs[i], Start(bs, first, r, i));
      }
      SameBuckets(m, n, bs);
    }
  }

  lemma SameBuckets(m: Mode, n: Mode, bs: Buckets)
    ensures RecordedBuckets(m, bs) == RecordedBuckets(n, bs) <==>
            forall i :: 0 <= i < |bs| ==> RecordedChain(m, bs[i]) == RecordedChain(n, bs[i])
  {
    hide RecordedChain;
    var r, q := RecordedBuckets(m, bs), RecordedBuckets(n, bs);
    assert forall i :: 0 <= i < |bs| ==> r[i] == RecordedChain(m, bs[i]) && q[i] == RecordedChain(n, bs[i]);
    assert r == q <==> forall i :: 0 <= i < |bs| ==> r[i] == q[i];
  }

  /** With the same value length, two memories give the same image exactly when they give a reader the same tables. */
  lemma ImagesAgree(m: Mode, n: Mode, slots: seq<TableSlot>, count: nat)
    requires m.valLength == n.valLength && slots != []
    ensures Image(m, slots, count) == Image(n, slots, count) <==> RecordedSlots(m, slots) == RecordedSlots(n, slots)
  {
    hide Pack, Records, Regions, Offsets, TableBytes, RecordedSlot, Start, Header;
    var r, q := TableRender(m), TableRender(n);
    var first := HEADER_SIZE + |slots| * 4;
    forall k: nat, p: nat | k < |slots|
      ensures |r(slots[k], p)| == |q(slots[k], p)|
    {
      TablesAgree(m, n, slots[k], p);
    }
    OffsetsAgree(slots, first, r, q);
    RegionsSameLength(slots, first, r, q);
    RegionsAgree(slots, first, r, q);
    var records := Records(NoKeys(|slots|), Offsets(slots, first, r));
    EqualParts(records, Regions(slots, first, r), records, Regions(slots, first, q));
    var size := HEADER_SIZE + |Body(m, slots)|;
    assert size == HEADER_SIZE + |Body(n, slots)|;
    var header := Header(size, count, |slots|, m.valLength);
    EqualParts(header, Body(m, slots), header, Body(n, slots));
    forall k | 0 <= k < |slots|
      ensures SameRegion(slots, first, r, q, k) <==> RecordedSlot(m, slots[k]) == RecordedSlot(n, slots[k])
    {
      TablesAgree(m, n, slots[k], Start(slots, first, r, k));
    }
    SameSlots(m, n, slots);
  }

  lemma SameSlots(m: Mode, n: Mode, slots: seq<TableSlot>)
    ensures RecordedSlots(m, slots) == RecordedSlots(n, slots) <==>
            forall k :: 0 <= k < |slots| ==> RecordedSlot(m, slots[k]) == RecordedSlot(n, slots[k])
  {
    hide RecordedSlot;
    var r, q := RecordedSlots(m, slots), RecordedSlots(n, slots);
    assert forall k :: 0 <= k < |slots| ==> r[k] == RecordedSlot(m, slots[k]) && q[k] == RecordedSlot(n, slots[k]);
    assert r == q <==> forall k :: 0 <= k < |slots| ==> r[k] == q[k];
  }

  // ---- the memory that is read ----

  /** Storing the value reads no byte behind its terminator. */
  predicate StaysInside(valLength: nat, val: Bytes) {
    valLength == VARIABLE || valLength <= |val| + 1
  }

  ghost predicate AllInside(valLength: nat, m: map<Bytes, Bytes>) {
    forall key {:trigger key in m} :: key in m ==> StaysInside(valLength, m[key])
  }

  lemma InsideAgrees(valLength: nat, e: Entry, b1: Memory, b2: Memory)
    requires StaysInside(valLength, e.val) && valLength != VARIABLE
    ensures CStr(e, valLength, b1) == CStr(e, valLength, b2)
  {
  }

  /** The memories differ at the first byte that is read behind the terminator. */
  lemma OutsideDiffers(valLength: nat, e: Entry, b1: Memory, b2: Memory)
    requires !StaysInside(valLength, e.val) && b1(e.key, 0) != b2(e.key, 0)
    ensures CStr(e, valLength, b1) != CStr(e, valLength, b2)
  {
    var i := |e.val| + 1;
    assert CStr(e, valLength, b1)[i] == b1(e.key, 0) && CStr(e, valLength, b2)[i] == b2(e.key, 0);
  }

  /** Where an entry of the map stands in the tables. */
  lemma EntryPlace(s: BuilderState, m: map<Bytes, Bytes>, key: Bytes) returns (k: nat, i: nat, j: nat)
    requires Tracks(s, m) && key in m
    ensures k <= s.maxKlen < |s.slots| && s.slots[k].Present? && i < |s.slots[k].buckets| && j < |s.slots[k].buckets[i]|
    ensures s.slots[k].buckets[i][j] == Entry(key, m[key])
  {
    hide Memcmp, Flatten;
    k := |key|;
    var bs := BucketsOf(s.slots[k]);
    assert Represents(bs, k, OfLength(m, k)) && key in OfLength(m, k);
    i := BucketOf(key, |bs|);
    assert Get(bs, key) == Some(m[key]);
    GetChainIff(bs[i], key, m[key]);
    j :| 0 <= j < |bs[i]| && bs[i][j] == Entry(key, m[key]);
  }

  lemma EntryInMap(s: BuilderState, m: map<Bytes, Bytes>, k: nat, i: nat, j: nat)
    requires Tracks(s, m) && k <= MAX_KEY_LEN && s.slots[k].Present?
    requires i < |s.slots[k].buckets| && j < |s.slots[k].buckets[i]|
    ensures var e := s.slots[k].buckets[i][j]; e.key in m && m[e.key] == e.val
  {
    hide Memcmp, Flatten;
    var bs := s.slots[k].buckets;
    var e: Entry := bs[i][j];
    assert Represents(BucketsOf(s.slots[k]), k, OfLength(m, k));
    GetChainIff(bs[i], e.key, e.val);
    assert Get(bs, e.key) == Some(e.val);
  }

  /** Every value stays inside: the memory does not matter. */
  lemma MemoryUnread(s: BuilderState, m: map<Bytes, Bytes>, b1: Memory, b2: Memory)
    requires Tracks(s, m) && AllInside(ValLength(s), m)
    ensures RecordedSlots(ModeOf(s, b1), Used(s)) == RecordedSlots(ModeOf(s, b2), Used(s))
  {
    hide Represents, Placed, CStr, RecordedChain;
    var n1, n2, vl := ModeOf(s, b1), ModeOf(s, b2), ValLength(s);
    forall k | 0 <= k < |Used(s)|
      ensures RecordedSlot(n1, Used(s)[k]) == RecordedSlot(n2, Used(s)[k])
    {
      if s.slots[k].Present? {
        forall i | 0 <= i < |s.slots[k].buckets|
          ensures RecordedChain(n1, s.slots[k].buckets[i]) == RecordedChain(n2, s.slots[k].buckets[i])
        {
          ChainUnread(s, m, k, i, b1, b2);
        }
        SameBuckets(n1, n2, s.slots[k].buckets);
      }
    }
    SameSlots(n1, n2, Used(s));
  }

  lemma ChainUnread(s: BuilderState, m: map<Bytes, Bytes>, k: nat, i: nat, b1: Memory, b2: Memory)
    requires Tracks(s, m) && AllInside(ValLength(s), m) && k <= MAX_KEY_LEN && s.slots[k].Present? &&
             i < |s.slots[k].buckets|
    ensures RecordedChain(ModeOf(s, b1), s.slots[k].buckets[i]) == RecordedChain(ModeOf(s, b2), s.slots[k].buckets[i])
  {
    hide Tracks, CStr, StaysInside;
    TracksBounds(s, m);
    var c, vl := s.slots[k].buckets[i], ValLength(s);
    if vl != VARIABLE {
      forall j | 0 <= j < |c|
        ensures CStr(c[j], vl, b1) == CStr(c[j], vl, b2)
      {
        EntryInMap(s, m, k, i, j);
        InsideAgrees(vl, c[j], b1, b2);
      }
    }
  }

  /** A value that does not stay inside: memories that differ behind it give different tables. */
  lemma MemoryShows(s: BuilderState, m: map<Bytes, Bytes>, key: Bytes, b1: Memory, b2: Memory)
    requires Tracks(s, m) && key in m && !StaysInside(ValLength(s), m[key]) && b1(key, 0) != b2(key, 0)
    ensures s.maxKlen < |s.slots|
    ensures RecordedSlots(ModeOf(s, b1), Used(s)) != RecordedSlots(ModeOf(s, b2), Used(s))
  {
    hide Tracks, CStr;
    var k, i, j := EntryPlace(s, m, key);
    var n1, n2 := ModeOf(s, b1), ModeOf(s, b2);
    OutsideDiffers(ValLength(s), Entry(key, m[key]), b1, b2);
    var c := s.slots[k].buckets[i];
    assert RecordedChain(n1, c)[j] != RecordedChain(n2, c)[j];
    SameBuckets(n1, n2, s.slots[k].buckets);
    assert RecordedSlot(n1, Used(s)[k]) != RecordedSlot(n2, Used(s)[k]);
    SameSlots(n1, n2, Used(s));
  }

  // ---- the compiled bytes ----

  /** Two histories that leave the same map in the same value-length mode. */
  ghost predicate SameEnd(g: Chain, h: Chain) {
    Admissible(g) && Admissible(h) && MapOf(g) == MapOf(h) && ValLength(Run(g)) == ValLength(Run(h))
  }

  lemma SameEndFacts(g: Chain, h: Chain)
    requires SameEnd(g, h)
    ensures var s, t := Run(g), Run(h);
            && Tracks(s, MapOf(g)) && s.slots == t.slots && s.count == t.count >= 0
            && s.maxKlen == t.maxKlen < |s.slots| && ValLength(s) == ValLength(t)
  {
    hide Run, Represents, PlacedSlots;
    RunTracks(g);
    RunTracks(h);
    StateIsCanonical(Run(g), Run(h), MapOf(g));
    TracksBounds(Run(g), MapOf(g));
  }

  /** The compiled bytes are the same whatever the two memories hold. */
  ghost predicate SameImages(g: Chain, h: Chain)
    requires SameEnd(g, h)
  {
    SameEndFacts(g, h);
    forall b1: Memory, b2: Memory :: Compiled(Run(g), b1) == Compiled(Run(h), b2)
  }

  lemma ImagesOf(g: Chain, h: Chain, b1: Memory, b2: Memory)
    requires SameEnd(g, h)
    ensures var s := Run(g);
            && s.count >= 0 && s.maxKlen < |s.slots| && Run(h).count >= 0 && Run(h).maxKlen < |Run(h).slots|
            && (Compiled(s, b1) == Compiled(Run(h), b2) <==>
                RecordedSlots(ModeOf(s, b1), Used(s)) == RecordedSlots(ModeOf(s, b2), Used(s)))
  {
    hide Run, Tracks, Image, RecordedSlots;
    SameEndFacts(g, h);
    ImagesAgree(ModeOf(Run(g), b1), ModeOf(Run(g), b2), Used(Run(g)), Run(g).count);
  }

  /** History independence, exactly: two histories with the same end compile to the same bytes, whatever the buffers
      held before, if and only if no stored value is read past its terminator. */
  lemma HistoryIndependence(g: Chain, h: Chain)
    requires SameEnd(g, h)
    ensures SameImages(g, h) <==> AllInside(ValLength(Run(g)), MapOf(g))
  {
    hide Run, Tracks, Compiled, RecordedSlots, StaysInside;
    var s, m := Run(g), MapOf(g);
    SameEndFacts(g, h);
    if AllInside(ValLength(s), m) {
      forall b1: Memory, b2: Memory
        ensures Compiled(s, b1) == Compiled(Run(h), b2)
      {
        MemoryUnread(s, m, b1, b2);
        ImagesOf(g, h, b1, b2);
      }
    } else {
      var key :| key in m && !StaysInside(ValLength(s), m[key]);
      var zero: Memory, one: Memory := (k, i) => 0, (k, i) => 1;
      MemoryShows(s, m, key, zero, one);
      ImagesOf(g, h, zero, one);
    }
  }

  /** Histories of only non-empty or only empty values need no condition. */
  lemma UnmixedIndependence(g: Chain, h: Chain)
    requires SameEnd(g, h) && (NoEmptyValue(g) || OnlyEmptyValues(g))
    ensures SameImages(g, h)
  {
    hide Run, SameImages;
    HistoryIndependence(g, h);
    forall key | key in MapOf(g)
      ensures StaysInside(ValLength(Run(g)), MapOf(g)[key])
    {
      UnmixedIsFaithful(g, key);
    }
  }

  // ---- a map that two histories compile differently ----

  const A: Bytes := [97]
  const B: Bytes := [98]
  const XY: Bytes := [120, 121]

  /** The value under "a" is empty from the start. */
  const STRAIGHT: Chain := [Entry(A, []), Entry(B, XY)]

  /** The value under "a" was "xy" before: its buffer still holds the "y". */
  const DETOUR: Chain := [Entry(A, XY), Entry(A, []), Entry(B, XY)]

  lemma DetourEndsAlike()
    ensures SameEnd(STRAIGHT, DETOUR) && ValLength(Run(STRAIGHT)) == 2
    ensures MapOf(STRAIGHT) == map[A := [], B := XY]
  {
    hide Run;
    var g, h := STRAIGHT, DETOUR;
    assert g[..1] == [Entry(A, [])] && g[..1][..0] == [];
    assert h[..2] == [Entry(A, XY), Entry(A, [])] && h[..2][..1] == [Entry(A, XY)] && h[..2][..1][..0] == [];
    assert MapOf([]) == map[];
    assert MapOf(g[..1]) == map[A := []];
    assert MapOf(h[..2][..1]) == map[A := XY] && MapOf(h[..2]) == map[A := []];
    FixedLengthTwo(g, 1);
    FixedLengthTwo(h, 2);
  }

  /** All lengths are at most two, and only the last value counts for the smallest one. */
  lemma FixedLengthTwo(h: Chain, p: nat)
    requires Admissible(h) && |h| == p + 1 > 1 && h[p].val == XY && h[p - 1].val == []
    requires forall i :: 0 <= i < |h| ==> |h[i].val| <= 2
    ensures ValLength(Run(h)) == 2
  {
    hide Run;
    LengthsTracked(h);
    assert h[..p][..p] == h[..p];
    assert AfterLastEmpty(h) == p;
    assert |h[p].val| == 2;
  }

  /** The same map in the same mode, and different bytes as soon as the buffers of "a" differ behind the terminator. */
  lemma DetourCompilesDifferently(b1: Memory, b2: Memory)
    requires b1(A, 0) != b2(A, 0)
    ensures SameEnd(STRAIGHT, DETOUR) && !SameImages(STRAIGHT, DETOUR)
    ensures Run(STRAIGHT).count >= 0 && Run(STRAIGHT).maxKlen < |Run(STRAIGHT).slots|
    ensures Run(DETOUR).count >= 0 && Run(DETOUR).maxKlen < |Run(DETOUR).slots|
    ensures Compiled(Run(STRAIGHT), b1) != Compiled(Run(DETOUR), b2)
  {
    hide Run, Tracks, Compiled, MapOf, RecordedSlots;
    DetourEndsAlike();
    SameEndFacts(STRAIGHT, DETOUR);
    ImagesOf(STRAIGHT, DETOUR, b1, b2);
    MemoryShows(Run(STRAIGHT), MapOf(STRAIGHT), A, b1, b2);
    assert A in MapOf(STRAIGHT) && MapOf(STRAIGHT)[A] == [];
    HistoryIndependence(STRAIGHT, DETOUR);
  }

  /** A value one byte shorter than the mode calls for is read up to its terminator only: "a" = "" and "b" = "x" compile
      to the same bytes in every memory, although the empty value does not come back. */
  lemma TerminatorIsEnough(h: Chain)
    requires SameEnd([Entry(A, []), Entry(B, [120])], h)
    ensures SameImages([Entry(A, []), Entry(B, [120])], h) && !KeepsValue(Run(h), [])
  {
    hide Run;
    var g := [Entry(A, []), Entry(B, [120])];
    LengthsTracked(g);
    assert g[..1][..1] == g[..1] && AfterLastEmpty(g) == 1;
    assert |g[1].val| == 1;
    assert g[..1] == [Entry(A, [])] && g[..1][..0] == [] && MapOf([]) == map[] && MapOf(g[..1]) == map[A := []];
    HistoryIndependence(g, h);
  }
}
