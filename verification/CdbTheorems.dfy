/** What the builder and the reader achieve together, for every history of updates. */
module CdbTheorems {
  import opened Bytes
  import opened Options
  import opened CdbModel
  import opened CdbFormat
  import opened CdbImage
  import opened CdbReader
  import opened CdbHistory
  import opened CdbWalker
  import CdbFile

  function Lookup(m: map<Bytes, Bytes>, key: Bytes): Option<Bytes> {
    if key in m then Some(m[key]) else None
  }

  function ModeOf(s: BuilderState, beyond: Memory): Mode {
    Mode(ValLength(s), beyond)
  }

  /** The bytes that are stored for a value. */
  function RecordedValue(mode: Mode, key: Bytes, val: Bytes): Bytes {
    if mode.valLength == VARIABLE then val else CStr(Entry(key, val), mode.valLength, mode.beyond)
  }

  // ---- canonical tables ----

  lemma {:induction false} SortedChainUnique(c: Chain, d: Chain, klen: nat)
    requires Sorted(c, klen) && Sorted(d, klen)
    requires forall e :: e in c <==> e in d
    ensures c == d
  {
    hide Memcmp, Sorted;
    assert (c != [] ==> c[0] in c) && (d != [] ==> d[0] in d);
    if c != [] && d != [] {
      SmallestFirst(c, d[0], klen);
      SmallestFirst(d, c[0], klen);
      MemcmpAntisymmetric(c[0].key, d[0].key);
      TailMembers(c, d, klen);
      TailMembers(d, c, klen);
      SortedChainUnique(c[1..], d[1..], klen);
      assert c == [c[0]] + c[1..] && d == [d[0]] + d[1..];
    }
  }

  lemma SmallestFirst(c: Chain, e: Entry, klen: nat)
    requires Sorted(c, klen) && e in c
    ensures e == c[0] || Memcmp(c[0].key, e.key) < 0
  {
  }

  lemma TailMembers(c: Chain, d: Chain, klen: nat)
    requires Sorted(c, klen) && c != [] && d != [] && c[0] == d[0] && forall e :: e in c ==> e in d
    ensures forall e :: e in c[1..] ==> e in d[1..]
    ensures Sorted(c[1..], klen)
  {
    hide Memcmp;
    forall e | e in c[1..] ensures e in d[1..] {
      var i :| 1 <= i < |c| && c[i] == e;
      assert Memcmp(c[0].key, c[i].key) < 0;
      assert e in d && e != d[0];
    }
  }

  /** The buckets of a table depend on its map alone, not on the order of the updates. */
  lemma TableIsCanonical(a: Buckets, b: Buckets, klen: nat, m: map<Bytes, Bytes>)
    requires Represents(a, klen, m) && Represents(b, klen, m)
    ensures a == b
  {
    hide Memcmp, GetChain, BucketOf, Flatten;
    forall i | 0 <= i < |a| ensures a[i] == b[i] {
      SameMembers(a, b, klen, m, i);
      SameMembers(b, a, klen, m, i);
      SortedChainUnique(a[i], b[i], klen);
    }
  }

  lemma SameMembers(a: Buckets, b: Buckets, klen: nat, m: map<Bytes, Bytes>, i: nat)
    requires Represents(a, klen, m) && Represents(b, klen, m) && i < |a|
    ensures |a| == |b| && forall e :: e in a[i] ==> e in b[i]
  {
    hide Memcmp, GetChain, Flatten;
    forall e | e in a[i] ensures e in b[i] {
      var j :| 0 <= j < |a[i]| && a[i][j] == e;
      GetChainIff(a[i], e.key, e.val);
      assert Get(a, e.key) == Some(e.val) == Get(b, e.key);
      GetChainIff(b[i], e.key, e.val);
    }
  }

  lemma StateIsCanonical(s: BuilderState, t: BuilderState, m: map<Bytes, Bytes>)
    requires Tracks(s, m) && Tracks(t, m)
    ensures s.slots == t.slots && s.count == t.count && s.maxKlen == t.maxKlen
  {
    hide Represents, Placed;
    forall k | 0 <= k <= MAX_KEY_LEN ensures s.slots[k] == t.slots[k] {
      TableIsCanonical(BucketsOf(s.slots[k]), BucketsOf(t.slots[k]), k, OfLength(m, k));
    }
    LongestKey(s, m, t.maxKlen);
    LongestKey(t, m, s.maxKlen);
  }

  lemma LongestKey(s: BuilderState, m: map<Bytes, Bytes>, bound: nat)
    requires Tracks(s, m) && forall key {:trigger key in m} :: key in m ==> |key| <= bound
    ensures s.maxKlen <= bound
  {
  }

  lemma TracksBounds(s: BuilderState, m: map<Bytes, Bytes>)
    requires Tracks(s, m)
    ensures s.count == |m| && s.maxKlen < |s.slots| == MAX_KEY_LEN + 1
  {
  }

  // ---- the image of every history can be read ----

  /** How many keys are shorter than n. */
  function Below(m: map<Bytes, Bytes>, n: nat): map<Bytes, Bytes> {
    map k | k in m && |k| < n :: m[k]
  }

  lemma BelowNext(m: map<Bytes, Bytes>, n: nat)
    ensures |Below(m, n + 1)| == |Below(m, n)| + |OfLength(m, n)|
  {
    assert Below(m, n + 1).Keys == Below(m, n).Keys + OfLength(m, n).Keys;
    assert Below(m, n).Keys !! OfLength(m, n).Keys;
  }

  lemma TableTakesRoom(mode: Mode, t: TableSlot, at: nat)
    requires t.Present?
    ensures |TableBytes(mode, t, at)| >= 4 * |t.buckets|
  {
    hide Records, Regions, Offsets;
    NoKeysOfLength(|t.buckets|);
    RecordsLength(NoKeys(|t.buckets|), Offsets(t.buckets, at + 4 + |t.buckets| * 4, BucketRender(t.klen, mode)), 0);
  }

  /** Every key takes at least four bytes of hash vector. */
  lemma {:induction false} RegionsTakeRoom(mode: Mode, s: BuilderState, m: map<Bytes, Bytes>, at: nat, n: nat)
    requires Tracks(s, m) && n <= MAX_KEY_LEN + 1
    ensures |Regions(s.slots[..n], at, TableRender(mode))| >= 4 * |Below(m, n)|
  {
    hide TableBytes, Tracks, Regions, Below;
    TracksBounds(s, m);
    if n == 0 {
      NoneBelow(m);
    } else {
      RegionsTakeRoom(mode, s, m, at, n - 1);
      BelowNext(m, n - 1);
      RegionsSnoc(s.slots, at, TableRender(mode), n - 1);
      SlotTakesRoom(mode, s, m, Start(s.slots, at, TableRender(mode), n - 1), n - 1);
    }
  }

  lemma NoneBelow(m: map<Bytes, Bytes>)
    ensures |Below(m, 0)| == 0
  {
    assert Below(m, 0) == map[];
  }

  lemma SlotTakesRoom(mode: Mode, s: BuilderState, m: map<Bytes, Bytes>, at: nat, k: nat)
    requires Tracks(s, m) && k <= MAX_KEY_LEN
    ensures |TableBytes(mode, s.slots[k], at)| >= 4 * |OfLength(m, k)|
  {
    hide TableBytes, PlacedSlots, Placed, Get, Flatten;
    TracksBounds(s, m);
    var t := s.slots[k];
    assert Represents(BucketsOf(t), k, OfLength(m, k));
    if t.Present? {
      TableTakesRoom(mode, t, at);
    }
  }

  lemma AllBelow(s: BuilderState, m: map<Bytes, Bytes>)
    requires Tracks(s, m)
    ensures Below(m, s.maxKlen + 1) == m
  {
  }

  lemma CountFits(s: BuilderState, m: map<Bytes, Bytes>, beyond: Memory)
    requires Tracks(s, m) && |Compiled(s, beyond)| < CdbFile.LIMIT
    ensures s.count < CdbFile.LIMIT
  {
    hide Header, Records, Regions, Offsets, Represents, Placed;
    RegionsTakeRoom(ModeOf(s, beyond), s, m, HEADER_SIZE + (s.maxKlen + 1) * 4, s.maxKlen + 1);
    AllBelow(s, m);
  }

  lemma UsedIsStorable(s: BuilderState, m: map<Bytes, Bytes>)
    requires Tracks(s, m)
    ensures StorableSlots(Used(s))
  {
    hide Flatten, GetChain, Memcmp;
    var used := Used(s);
    forall k | 0 <= k < |used| && used[k].Present?
      ensures used[k].klen == k && Storable(used[k].buckets, k)
    {
      assert Represents(BucketsOf(s.slots[k]), k, OfLength(m, k));
    }
  }

  lemma {:induction false} LengthsAreInts(h: Chain)
    requires Admissible(h)
    ensures Run(h).valLengthMax < 0x8000_0000
  {
    hide Update, Placed, Flatten;
    if h != [] { LengthsAreInts(h[..|h| - 1]); }
  }

  /** Compiling after any history gives an image that encodes what the builder held. */
  lemma CompiledEncodes(h: Chain, beyond: Memory)
    requires Admissible(h)
    ensures Run(h).count >= 0 && Run(h).maxKlen < |Run(h).slots|
    ensures |Compiled(Run(h), beyond)| < CdbFile.LIMIT ==>
              var s := Run(h);
              var slots := RecordedSlots(ModeOf(s, beyond), Used(s));
              Encodes(Compiled(s, beyond), slots, s.count, ValLength(s)) && SortedSlots(slots)
  {
    hide Run, Represents, PlacedSlots, Image, StorableSlots, SortedSlots;
    var s, m := Run(h), MapOf(h);
    RunTracks(h);
    TracksBounds(s, m);
    LengthsAreInts(h);
    if |Compiled(s, beyond)| < CdbFile.LIMIT {
      CountFits(s, m, beyond);
      UsedIsStorable(s, m);
      RecordedIsSorted(s, m, ModeOf(s, beyond));
      ImageEncodes(ModeOf(s, beyond), Used(s), s.count);
    }
  }

  lemma RecordedChainSorted(mode: Mode, c: Chain, klen: nat)
    requires Sorted(c, klen)
    ensures Sorted(RecordedChain(mode, c), klen)
  {
    hide Memcmp;
  }

  lemma RecordedIsSorted(s: BuilderState, m: map<Bytes, Bytes>, mode: Mode)
    requires Tracks(s, m)
    ensures SortedSlots(RecordedSlots(mode, Used(s)))
  {
    hide Flatten, GetChain, Memcmp, RecordedChain, Sorted;
    var slots := RecordedSlots(mode, Used(s));
    forall k, i | 0 <= k < |slots| && slots[k].Present? && 0 <= i < |slots[k].buckets|
      ensures Sorted(slots[k].buckets[i], slots[k].klen)
    {
      assert Represents(BucketsOf(s.slots[k]), k, OfLength(m, k));
      RecordedChainSorted(mode, s.slots[k].buckets[i], k);
    }
  }

  // ---- find agrees with the map ----

  lemma RecordedChainGet(mode: Mode, c: Chain, key: Bytes)
    ensures GetChain(RecordedChain(mode, c), key)
         == match GetChain(c, key) { case None => None case Some(v) => Some(RecordedValue(mode, key, v)) }
  {
    SlotOfRecorded(mode, c, key);
  }

  lemma SlotOfRecorded(mode: Mode, c: Chain, key: Bytes)
    ensures SlotOf(RecordedChain(mode, c), key) == SlotOf(c, key)
  {
    SlotOfUnique(RecordedChain(mode, c), key, SlotOf(c, key));
  }

  /** What a reader of the compiled tables finds: the empty key never, any other key with its recorded value. */
  lemma FindsRecorded(s: BuilderState, m: map<Bytes, Bytes>, mode: Mode, key: Bytes)
    requires Tracks(s, m)
    ensures ReaderGet(RecordedSlots(mode, Used(s)), key)
         == if key != [] && key in m then Some(RecordedValue(mode, key, m[key])) else None
  {
    hide Flatten, GetChain, Memcmp, RecordedChain, Sorted;
    var klen, slots := |key|, RecordedSlots(mode, Used(s));
    if klen > s.maxKlen {
      assert key !in m;
    } else {
      var bs := BucketsOf(s.slots[klen]);
      assert Represents(bs, klen, OfLength(m, klen));
      if s.slots[klen].Missing? {
        assert key !in OfLength(m, klen);
      } else if key == [] {
        EmptyKeyIsMissed(bs, OfLength(m, 0));
        RecordedChainGet(mode, bs[0], key);
      } else {
        RecordedChainGet(mode, bs[BucketOf(key, |bs|)], key);
        assert Get(bs, key) == Lookup(OfLength(m, klen), key);
      }
    }
  }

  /** The builder puts the empty key in bucket 5381 mod 3, the reader looks in bucket 0. */
  lemma EmptyKeyIsMissed(bs: Buckets, m: map<Bytes, Bytes>)
    requires Represents(bs, 0, m)
    ensures |bs| > 0 && GetChain(bs[0], []) == None
  {
    assert m.Keys <= {[]};
    assert |m| <= 1 by {
      if |m| > 1 { KeysBound(m); }
    }
    EmptyKeyBucket();
    assert |bs| == 3;
    WrongBucket(bs, 0, 0, []);
  }

  lemma WrongBucket(bs: Buckets, klen: nat, i: nat, key: Bytes)
    requires Placed(bs, klen) && i < |bs| && BucketOf(key, |bs|) != i
    ensures GetChain(bs[i], key) == None
  {
  }

  lemma KeysBound(m: map<Bytes, Bytes>)
    requires m.Keys <= {[]}
    ensures |m| <= 1
  {
    assert |m| == |m.Keys|;
    if m.Keys == {} {
    } else {
      assert m.Keys == {[]};
    }
  }

  /** Whether a value comes back unchanged from an image compiled in this state. */
  predicate KeepsValue(s: BuilderState, val: Bytes) {
    ValLength(s) == VARIABLE || |val| == ValLength(s)
  }

  lemma RecordedUnchanged(s: BuilderState, beyond: Memory, key: Bytes, val: Bytes)
    ensures RecordedValue(ModeOf(s, beyond), key, val) == val <==> KeepsValue(s, val)
  {
  }

  /** Reading agrees with the map at every key, except for the empty key and for values of another length in
      fixed-length mode. */
  lemma FindAgreesExactly(h: Chain, beyond: Memory, key: Bytes)
    requires Admissible(h)
    ensures Run(h).maxKlen < |Run(h).slots|
    ensures var s, m := Run(h), MapOf(h);
            ReaderGet(RecordedSlots(ModeOf(s, beyond), Used(s)), key) == Lookup(m, key)
            <==> (key !in m || (key != [] && KeepsValue(s, m[key])))
  {
    hide Run, Represents, PlacedSlots;
    var s, m := Run(h), MapOf(h);
    RunTracks(h);
    TracksBounds(s, m);
    FindsRecorded(s, m, ModeOf(s, beyond), key);
    if key in m { RecordedUnchanged(s, beyond, key, m[key]); }
  }

  // ---- the value-length mode ----

  predicate NoEmptyValue(h: Chain) {
    forall i :: 0 <= i < |h| ==> h[i].val != []
  }

  predicate OnlyEmptyValues(h: Chain) {
    forall i :: 0 <= i < |h| ==> h[i].val == []
  }

  /** Where the values that follow the last empty value start. */
  function AfterLastEmpty(h: Chain): (p: nat)
    ensures p <= |h|
    ensures forall i :: p <= i < |h| ==> h[i].val != []
    ensures p > 0 ==> h[p - 1].val == []
  {
    if h == [] || h[|h| - 1].val == [] then |h| else AfterLastEmpty(h[..|h| - 1])
  }

  ghost predicate IsMinimum(n: nat, h: Chain, p: nat) {
    (forall i :: p <= i < |h| ==> n <= |h[i].val|) && (exists i :: p <= i < |h| && n == |h[i].val|)
  }

  ghost predicate IsMaximum(n: nat, h: Chain) {
    (forall i :: 0 <= i < |h| ==> |h[i].val| <= n) && (n == 0 || exists i :: 0 <= i < |h| && n == |h[i].val|)
  }

  lemma MaximumStep(front: Chain, e: Entry, max: nat)
    requires IsMaximum(max, front)
    ensures IsMaximum(NewMax(max, |e.val|), front + [e])
  {
    var h, max' := front + [e], NewMax(max, |e.val|);
    assert forall i :: 0 <= i < |front| ==> h[i] == front[i];
    if max' == |e.val| {
      assert |h[|front|].val| == max';
    } else if max' != 0 {
      var i :| 0 <= i < |front| && max == |front[i].val|;
      assert max' == |h[i].val|;
    }
  }

  lemma MinimumStep(front: Chain, e: Entry, p: nat, min: nat)
    requires p <= |front| && e.val != [] && if p == |front| then min == 0 else IsMinimum(min, front, p) && min > 0
    ensures IsMinimum(NewMin(min, |e.val|), front + [e], p) && NewMin(min, |e.val|) > 0
  {
    var h, min' := front + [e], NewMin(min, |e.val|);
    assert forall i :: 0 <= i < |front| ==> h[i] == front[i];
    if min' == |e.val| {
      assert |h[|front|].val| == min';
    } else {
      var i :| p <= i < |front| && min == |front[i].val|;
      assert min' == |h[i].val|;
    }
  }

  /** The maximum counts every value ever seen; the minimum forgets everything up to the last empty value. */
  lemma {:induction false} LengthsTracked(h: Chain)
    requires Admissible(h)
    ensures IsMaximum(Run(h).valLengthMax, h)
    ensures if AfterLastEmpty(h) == |h| then Run(h).valLengthMin == 0
            else IsMinimum(Run(h).valLengthMin, h, AfterLastEmpty(h)) && Run(h).valLengthMin > 0
  {
    hide Update, Placed, PlacedSlots, Flatten, IsMaximum, IsMinimum, NewMax;
    if h == [] {
      assert IsMaximum(0, []) by { EmptyMaximum(); }
    } else {
      var front, e := h[..|h| - 1], h[|h| - 1];
      assert h == front + [e];
      LengthsTracked(front);
      MaximumStep(front, e, Run(front).valLengthMax);
      if e.val != [] {
        MinimumStep(front, e, AfterLastEmpty(h), Run(front).valLengthMin);
      }
    }
  }

  lemma EmptyMaximum()
    ensures IsMaximum(0, [])
  {
  }

  /** Exactly when values are stored without their own length. */
  lemma FixedModeExactly(h: Chain)
    requires Admissible(h)
    ensures Run(h).valLengthMin == Run(h).valLengthMax
            <==> OnlyEmptyValues(h)
                 || (AfterLastEmpty(h) < |h| && forall i :: AfterLastEmpty(h) <= i < |h| ==> IsMaximum(|h[i].val|, h))
  {
    hide Run;
    LengthsTracked(h);
    var p, min, max := AfterLastEmpty(h), Run(h).valLengthMin, Run(h).valLengthMax;
    if p < |h| {
      assert |h[|h| - 1].val| <= max;
      assert h[|h| - 1].val != [];
    }
  }

  /** A history of only non-empty or only empty values is stored faithfully. */
  lemma UnmixedIsFaithful(h: Chain, key: Bytes)
    requires Admissible(h) && (NoEmptyValue(h) || OnlyEmptyValues(h)) && key in MapOf(h)
    ensures KeepsValue(Run(h), MapOf(h)[key])
  {
    hide Run;
    LengthsTracked(h);
    var i := LastUpdate(h, key);
  }

  lemma {:induction false} LastUpdate(h: Chain, key: Bytes) returns (i: nat)
    requires key in MapOf(h)
    ensures i < |h| && h[i].key == key && h[i].val == MapOf(h)[key]
  {
    var n := |h| - 1;
    if h[n].key == key {
      i := n;
    } else {
      i := LastUpdate(h[..n], key);
    }
  }

  /** Mixing empty and non-empty values: after "a" = "" and "b" = "xy", the reader finds two bytes under "a". */
  lemma MixedHistoryMisreads(beyond: Memory)
    ensures var h := [Entry([97], []), Entry([98], [120, 121])];
            && Admissible(h) && MapOf(h)[[97]] == [] && Run(h).maxKlen < |Run(h).slots|
            && ReaderGet(RecordedSlots(ModeOf(Run(h), beyond), Used(Run(h))), [97]) == Some([0, beyond([97], 0)])
  {
    hide Run, Tracks, PlacedSlots, Used, RecordedSlots;
    var h := [Entry([97], []), Entry([98], [120, 121])];
    assert h[..1] == [Entry([97], [])] && h[..1][..0] == [];
    assert MapOf([]) == map[] && MapOf(h[..1]) == map[[97] := []];
    assert MapOf(h) == map[[97] := [], [98] := [120, 121]];
    FixedModeExactly(h);
    LengthsTracked(h);
    assert |h[1].val| == 2 && AfterLastEmpty(h) == 1;
    RunTracks(h);
    TracksBounds(Run(h), MapOf(h));
    FindsRecorded(Run(h), MapOf(h), ModeOf(Run(h), beyond), [97]);
    assert CStr(Entry([97], []), 2, beyond) == [0, beyond([97], 0)];
  }

  // ---- the walk yields the map ----

  lemma {:induction false} RecordedFlatten(mode: Mode, bs: Buckets)
    ensures Flatten(RecordedBuckets(mode, bs)) == RecordedChain(mode, Flatten(bs))
  {
    if bs == [] {
      assert RecordedChain(mode, []) == [];
    } else {
      var n := |bs| - 1;
      RecordedFlatten(mode, bs[..n]);
      assert RecordedBuckets(mode, bs)[..n] == RecordedBuckets(mode, bs[..n]);
      RecordedAppend(mode, Flatten(bs[..n]), bs[n]);
    }
  }

  lemma RecordedAppend(mode: Mode, c: Chain, d: Chain)
    ensures RecordedChain(mode, c + d) == RecordedChain(mode, c) + RecordedChain(mode, d)
  {
  }

  ghost predicate Has(es: Chain, key: Bytes) {
    exists i :: 0 <= i < |es| && es[i].key == key
  }

  ghost predicate Sound(es: Chain, m: map<Bytes, Bytes>, mode: Mode) {
    forall i :: 0 <= i < |es| ==> es[i].key in m && es[i].val == RecordedValue(mode, es[i].key, m[es[i].key])
  }

  ghost predicate Covers(es: Chain, m: map<Bytes, Bytes>) {
    forall key {:trigger key in m} :: key in m ==> Has(es, key)
  }

  ghost predicate ShorterFirst(es: Chain) {
    forall i, j :: 0 <= i < j < |es| ==> |es[i].key| <= |es[j].key|
  }

  /** The entries list exactly the keys of m, once each, with their recorded values, shorter keys first. */
  ghost predicate Lists(es: Chain, m: map<Bytes, Bytes>, mode: Mode) {
    Distinct(es) && |es| == |m| && Sound(es, m, mode) && Covers(es, m) && ShorterFirst(es)
  }

  lemma {:induction false} FindLastSome(es: Chain, key: Bytes) returns (i: nat)
    requires FindLast(es, key).Some?
    ensures i < |es| && es[i].key == key && FindLast(es, key) == Some(es[i].val)
  {
    var n := |es| - 1;
    if es[n].key == key {
      i := n;
    } else {
      i := FindLastSome(es[..n], key);
    }
  }

  lemma TableMembers(bs: Buckets, klen: nat, m: map<Bytes, Bytes>, i: nat)
    requires Represents(bs, klen, m) && i < |Flatten(bs)|
    ensures var e := Flatten(bs)[i]; e.key in m && e.val == m[e.key] && |e.key| == klen
  {
    hide GetChain, Flatten, SlotOf, Memcmp;
    FlattenPrefix(bs, klen, |bs|);
    assert bs[..|bs|] == bs;
    var e := Flatten(bs)[i];
    FindLastAt(Flatten(bs), i);
    FlattenFind(bs, klen, |bs|, e.key);
    assert Get(bs, e.key) == Some(e.val);
  }

  lemma TableCovers(bs: Buckets, klen: nat, m: map<Bytes, Bytes>, key: Bytes)
    requires Represents(bs, klen, m) && key in m
    ensures Has(Flatten(bs), key)
  {
    hide GetChain, Flatten, SlotOf, Memcmp;
    assert bs[..|bs|] == bs;
    FlattenFind(bs, klen, |bs|, key);
    assert Get(bs, key) == Some(m[key]);
    var i := FindLastSome(Flatten(bs), key);
  }

  lemma SameKeysHave(es: Chain, r: Chain, key: Bytes)
    requires |es| == |r| && forall i :: 0 <= i < |es| ==> r[i].key == es[i].key
    ensures Has(es, key) ==> Has(r, key)
  {
    if i :| 0 <= i < |es| && es[i].key == key {
      assert r[i].key == key;
    }
  }

  lemma FlattenFacts(bs: Buckets, klen: nat, m: map<Bytes, Bytes>)
    requires Represents(bs, klen, m)
    ensures |Flatten(bs)| == |m| && Distinct(Flatten(bs)) && Keyed(Flatten(bs), klen)
  {
    FlattenPrefix(bs, klen, |bs|);
    assert bs[..|bs|] == bs;
  }

  lemma TableLists(bs: Buckets, klen: nat, m: map<Bytes, Bytes>, mode: Mode)
    requires Represents(bs, klen, m)
    ensures Lists(RecordedChain(mode, Flatten(bs)), m, mode)
  {
    hide Represents, Flatten, Has;
    var es := Flatten(bs);
    var r := RecordedChain(mode, es);
    FlattenFacts(bs, klen, m);
    forall i | 0 <= i < |r| ensures r[i].key in m && r[i].val == RecordedValue(mode, r[i].key, m[r[i].key]) {
      TableMembers(bs, klen, m, i);
    }
    forall key | key in m ensures Has(r, key) {
      TableCovers(bs, klen, m, key);
      SameKeysHave(es, r, key);
    }
  }

  lemma HasAppend(a: Chain, b: Chain, key: Bytes)
    ensures Has(a + b, key) <==> Has(a, key) || Has(b, key)
  {
    if i :| 0 <= i < |a| && a[i].key == key {
      assert (a + b)[i].key == key;
    }
    if i :| 0 <= i < |b| && b[i].key == key {
      assert (a + b)[|a| + i].key == key;
    }
  }

  lemma JoinOrder(a: Chain, b: Chain, m: map<Bytes, Bytes>, n: map<Bytes, Bytes>, mode: Mode, k: nat)
    requires Distinct(a) && Distinct(b) && ShorterFirst(a) && ShorterFirst(b) && Sound(a, m, mode) && Sound(b, n, mode)
    requires forall key {:trigger key in m} :: key in m ==> |key| < k
    requires forall key {:trigger key in n} :: key in n ==> |key| == k
    ensures Distinct(a + b) && ShorterFirst(a + b)
  {
    assert forall i :: 0 <= i < |a| ==> |a[i].key| < k;
    assert forall i :: 0 <= i < |b| ==> |b[i].key| == k;
    hide Sound;
  }

  lemma JoinSize(m: map<Bytes, Bytes>, n: map<Bytes, Bytes>, k: nat)
    requires forall key {:trigger key in m} :: key in m ==> |key| < k
    requires forall key {:trigger key in n} :: key in n ==> |key| == k
    ensures |m + n| == |m| + |n| && m.Keys !! n.Keys
  {
    assert m.Keys !! n.Keys && (m + n).Keys == m.Keys + n.Keys;
    assert |m + n| == |(m + n).Keys| == |m.Keys| + |n.Keys|;
  }

  lemma JoinLists(a: Chain, b: Chain, m: map<Bytes, Bytes>, n: map<Bytes, Bytes>, mode: Mode, k: nat)
    requires Lists(a, m, mode) && Lists(b, n, mode)
    requires forall key {:trigger key in m} :: key in m ==> |key| < k
    requires forall key {:trigger key in n} :: key in n ==> |key| == k
    ensures Lists(a + b, m + n, mode)
  {
    hide Has, Distinct, ShorterFirst;
    JoinOrder(a, b, m, n, mode, k);
    JoinSize(m, n, k);
    forall key | key in m + n ensures Has(a + b, key) {
      HasAppend(a, b, key);
    }
  }

  lemma {:induction false} EntriesList(s: BuilderState, m: map<Bytes, Bytes>, mode: Mode, n: nat)
    requires Tracks(s, m) && n <= s.maxKlen + 1
    ensures Lists(EntriesBelow(RecordedSlots(mode, Used(s)), n), Below(m, n), mode)
  {
    hide Tracks, Represents, Flatten, Lists, RecordedSlots, EntriesBelow, RecordedBuckets, RecordedChain;
    TracksBounds(s, m);
    var slots := RecordedSlots(mode, Used(s));
    if n == 0 {
      NothingListed(slots, mode);
      assert Below(m, 0) == map[];
    } else {
      var k := n - 1;
      EntriesList(s, m, mode, k);
      RecordedAt(s, mode, k);
      TableDone(slots, k);
      BelowSplit(m, k);
      var bs := BucketsOf(s.slots[k]);
      TracksTable(s, m, k);
      if s.slots[k].Present? {
        EntriesStep(EntriesBelow(slots, k), Below(m, k), bs, OfLength(m, k), mode, k);
      } else {
        assert Below(m, k) + map[] == Below(m, k);
      }
    }
  }

  lemma TracksTable(s: BuilderState, m: map<Bytes, Bytes>, k: nat)
    requires Tracks(s, m) && k <= MAX_KEY_LEN
    ensures Represents(BucketsOf(s.slots[k]), k, OfLength(m, k))
    ensures s.slots[k].Missing? <==> OfLength(m, k) == map[]
  {
    hide Represents;
  }

  lemma EntriesStep(below: Chain, m: map<Bytes, Bytes>, bs: Buckets, n: map<Bytes, Bytes>, mode: Mode, k: nat)
    requires Lists(below, m, mode) && Represents(bs, k, n)
    requires forall key {:trigger key in m} :: key in m ==> |key| < k
    requires forall key {:trigger key in n} :: key in n ==> |key| == k
    ensures Lists(below + Flatten(RecordedBuckets(mode, bs)), m + n, mode)
  {
    hide Represents, Flatten, Lists, RecordedBuckets, RecordedChain;
    RecordedFlatten(mode, bs);
    TableLists(bs, k, n, mode);
    JoinLists(below, RecordedChain(mode, Flatten(bs)), m, n, mode, k);
  }

  lemma BelowSplit(m: map<Bytes, Bytes>, k: nat)
    ensures Below(m, k + 1) == Below(m, k) + OfLength(m, k)
    ensures forall key {:trigger key in Below(m, k)} :: key in Below(m, k) ==> |key| < k
    ensures forall key {:trigger key in OfLength(m, k)} :: key in OfLength(m, k) ==> |key| == k
  {
  }

  lemma RecordedAt(s: BuilderState, mode: Mode, k: nat)
    requires k <= s.maxKlen < |s.slots|
    ensures RecordedSlots(mode, Used(s))[k] == RecordedSlot(mode, s.slots[k])
  {
  }

  lemma NothingListed(slots: seq<TableSlot>, mode: Mode)
    ensures Lists(EntriesBelow(slots, 0), map[], mode)
  {
  }

  /** After any history, the walk order lists the final map: each key once, shorter keys first, as many as the header
      says. */
  lemma WalkListsMap(h: Chain, beyond: Memory)
    requires Admissible(h)
    ensures Run(h).maxKlen < |Run(h).slots|
    ensures Lists(AllEntries(RecordedSlots(ModeOf(Run(h), beyond), Used(Run(h)))), MapOf(h), ModeOf(Run(h), beyond))
    ensures Run(h).count == |MapOf(h)|
  {
    hide Run, Tracks, Lists, Below, EntriesBelow;
    var s, m := Run(h), MapOf(h);
    RunTracks(h);
    TracksBounds(s, m);
    EntriesList(s, m, ModeOf(s, beyond), s.maxKlen + 1);
    AllBelow(s, m);
  }
}
