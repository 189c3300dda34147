/** The order in which entries are stored and handed out: by key length, bucket, and the number the key writes. */
module CdbOrder {
  import opened Bytes
  import opened CdbModel
  import opened CdbFormat
  import opened CdbImage
  import opened CdbWalker
  import opened CdbHistory
  import opened CdbTheorems

  // ---- one table ----

  /** Keys that stand one after the other write larger and larger numbers. */
  ghost predicate Rising(c: Chain) {
    forall i, j :: 0 <= i < j < |c| ==> BigEndian(c[i].key) < BigEndian(c[j].key)
  }

  lemma SortedRises(c: Chain, klen: nat)
    requires Sorted(c, klen)
    ensures Rising(c)
  {
    hide Memcmp, BigEndian;
    forall i, j | 0 <= i < j < |c|
      ensures BigEndian(c[i].key) < BigEndian(c[j].key)
    {
      MemcmpBigEndian(c[i].key, c[j].key);
    }
  }

  /** In a table of size buckets: the bucket decides, then the number the key writes. */
  ghost predicate InTable(a: Bytes, b: Bytes, size: nat)
    requires size > 0
  {
    BucketOf(a, size) < BucketOf(b, size)
    || (BucketOf(a, size) == BucketOf(b, size) && BigEndian(a) < BigEndian(b))
  }

  ghost predicate TableOrder(c: Chain, size: nat)
    requires size > 0
  {
    forall i, j :: 0 <= i < j < |c| ==> InTable(c[i].key, c[j].key, size)
  }

  /** All keys of a chain have this length and belong below this bucket. */
  predicate Within(c: Chain, klen: nat, size: nat, bound: nat)
    requires size > 0
  {
    forall i :: 0 <= i < |c| ==> |c[i].key| == klen && BucketOf(c[i].key, size) < bound
  }

  lemma BucketInOrder(bs: Buckets, klen: nat, h: nat)
    requires Placed(bs, klen) && h < |bs|
    ensures Rising(bs[h])
    ensures forall j :: 0 <= j < |bs[h]| ==> |bs[h][j].key| == klen && BucketOf(bs[h][j].key, |bs|) == h
  {
    hide BucketOf, BigEndian, Rising;
    SortedRises(bs[h], klen);
  }

  lemma JoinTables(front: Chain, last: Chain, klen: nat, size: nat, h: nat)
    requires size > 0 && TableOrder(front, size) && Within(front, klen, size, h) && Rising(last)
    requires forall j :: 0 <= j < |last| ==> |last[j].key| == klen && BucketOf(last[j].key, size) == h
    ensures TableOrder(front + last, size) && Within(front + last, klen, size, h + 1)
  {
    hide BucketOf, BigEndian;
  }

  lemma {:induction false} FlattenInOrder(bs: Buckets, klen: nat, n: nat)
    requires Placed(bs, klen) && n <= |bs|
    ensures TableOrder(Flatten(bs[..n]), |bs|) && Within(Flatten(bs[..n]), klen, |bs|, n)
    decreases n
  {
    assert |bs| > 0;
    hide BucketOf, Memcmp, BigEndian, Placed, TableOrder, Within, Rising;
    if n == 0 {
      NothingInOrder(klen, |bs|);
    } else {
      FlattenInOrder(bs, klen, n - 1);
      assert bs[..n][..n - 1] == bs[..n - 1];
      BucketInOrder(bs, klen, n - 1);
      JoinTables(Flatten(bs[..n - 1]), bs[n - 1], klen, |bs|, n - 1);
    }
  }

  lemma NothingInOrder(klen: nat, size: nat)
    requires size > 0
    ensures TableOrder([], size) && Within([], klen, size, 0)
  {
  }

  // ---- all tables ----

  /** The number of buckets of the table for a key length, as the final map alone decides it. */
  function Size(m: map<Bytes, Bytes>, klen: nat): (n: nat)
    ensures n > 0
  {
    SizeFor(|OfLength(m, klen)|)
  }

  /** Shorter keys come first, keys of one length in the order of their table. */
  ghost predicate Before(m: map<Bytes, Bytes>, a: Bytes, b: Bytes) {
    |a| < |b| || (|a| == |b| && InTable(a, b, Size(m, |a|)))
  }

  ghost predicate InOrder(c: Chain, m: map<Bytes, Bytes>) {
    forall i, j :: 0 <= i < j < |c| ==> Before(m, c[i].key, c[j].key)
  }

  /** Each table has its buckets, and each bucket its own keys in rising order. */
  ghost predicate SlotsInOrder(slots: seq<TableSlot>, m: map<Bytes, Bytes>) {
    forall k :: 0 <= k < |slots| && slots[k].Present? ==>
      Placed(slots[k].buckets, k) && |slots[k].buckets| == Size(m, k)
  }

  lemma RecordedPlaced(mode: Mode, bs: Buckets, klen: nat)
    requires Placed(bs, klen)
    ensures Placed(RecordedBuckets(mode, bs), klen)
  {
    hide BucketOf, Memcmp, RecordedChain;
  }

  lemma RecordedInOrder(s: BuilderState, m: map<Bytes, Bytes>, mode: Mode)
    requires Tracks(s, m)
    ensures s.maxKlen < |s.slots| && SlotsInOrder(RecordedSlots(mode, Used(s)), m)
  {
    hide Placed, RecordedBuckets, Flatten;
    TracksBounds(s, m);
    var slots := RecordedSlots(mode, Used(s));
    forall k | 0 <= k < |slots| && slots[k].Present?
      ensures Placed(slots[k].buckets, k) && |slots[k].buckets| == Size(m, k)
    {
      TracksTable(s, m, k);
      RecordedPlaced(mode, s.slots[k].buckets, k);
    }
  }

  lemma JoinEntries(below: Chain, c: Chain, m: map<Bytes, Bytes>, k: nat)
    requires InOrder(below, m) && (forall i :: 0 <= i < |below| ==> |below[i].key| < k)
    requires TableOrder(c, Size(m, k)) && Within(c, k, Size(m, k), Size(m, k))
    ensures InOrder(below + c, m) && forall i :: 0 <= i < |below + c| ==> |(below + c)[i].key| < k + 1
  {
    hide InTable, Size, BucketOf;
  }

  lemma {:induction false} EntriesInOrder(slots: seq<TableSlot>, m: map<Bytes, Bytes>, n: nat)
    requires SlotsInOrder(slots, m) && n <= |slots|
    ensures InOrder(EntriesBelow(slots, n), m)
    ensures forall i :: 0 <= i < |EntriesBelow(slots, n)| ==> |EntriesBelow(slots, n)[i].key| < n
    decreases n
  {
    hide Placed, TableOrder, Within, InOrder, Size;
    if n == 0 {
      assert InOrder([], m) by { NothingBefore(m); }
    } else {
      var k := n - 1;
      EntriesInOrder(slots, m, k);
      TableDone(slots, k);
      hide EntriesBelow;
      if slots[k].Present? {
        var bs := slots[k].buckets;
        FlattenInOrder(bs, k, |bs|);
        JoinEntries(EntriesBelow(slots, k), Flatten(bs), m, k);
      }
    }
  }

  lemma NothingBefore(m: map<Bytes, Bytes>)
    ensures InOrder([], m)
  {
  }

  /** After any history the compiled tables, and the walk over them, have the keys in this order. */
  lemma CompiledInOrder(h: Chain, beyond: Memory)
    requires Admissible(h)
    ensures Run(h).maxKlen < |Run(h).slots|
    ensures var slots := RecordedSlots(ModeOf(Run(h), beyond), Used(Run(h)));
            && InOrder(AllEntries(slots), MapOf(h))
            && forall k, i :: 0 <= k < |slots| && slots[k].Present? && 0 <= i < |slots[k].buckets| ==>
                 Rising(slots[k].buckets[i])
  {
    hide Run, Tracks, InOrder, Rising, EntriesBelow, Placed;
    var s, m := Run(h), MapOf(h);
    RunTracks(h);
    var mode := ModeOf(s, beyond);
    RecordedInOrder(s, m, mode);
    var slots := RecordedSlots(mode, Used(s));
    EntriesInOrder(slots, m, |slots|);
    forall k, i | 0 <= k < |slots| && slots[k].Present? && 0 <= i < |slots[k].buckets|
      ensures Rising(slots[k].buckets[i])
    {
      BucketInOrder(slots[k].buckets, k, i);
    }
  }
}
