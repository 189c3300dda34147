/** Histories of updates as values: the state the builder is in after them, and the map they leave. */
module CdbHistory {
  import opened Bytes
  import opened CdbModel
  import opened CdbFormat

  const MAX_KEY_LEN: nat := 4096

  datatype BuilderState = BuilderState(slots: seq<TableSlot>, maxKlen: nat, count: int, valLengthMin: nat,
      valLengthMax: nat)

  function NewMax(max: nat, vlen: nat): nat {
    var max1 := if vlen != 0 && max == 0 then vlen else max;
    if vlen > max1 then vlen else max1
  }

  function NewMin(min: nat, vlen: nat): nat {
    var min1 := if vlen != 0 && min == 0 then vlen else min;
    if vlen < min1 then vlen else min1
  }

  /** The buckets of a slot; a table that is created starts out empty. */
  function BucketsOf(t: TableSlot): Buckets {
    if t.Missing? then Empty(INITIAL_SIZE) else t.buckets
  }

  ghost predicate PlacedSlots(slots: seq<TableSlot>) {
    && |slots| == MAX_KEY_LEN + 1
    && forall k :: 0 <= k < |slots| ==> (slots[k].Present? ==> slots[k].klen == k) && Placed(BucketsOf(slots[k]), k)
  }

  ghost function Step(s: BuilderState, key: Bytes, val: Bytes): BuilderState
    requires PlacedSlots(s.slots) && |key| <= MAX_KEY_LEN
  {
    var k := |key|;
    var before := BucketsOf(s.slots[k]);
    var after := Update(before, key, val);
    BuilderState(s.slots[k := Present(k, after)],
                 if k > s.maxKlen then k else s.maxKlen,
                 s.count - |Flatten(before)| + |Flatten(after)|,
                 NewMin(s.valLengthMin, |val|),
                 NewMax(s.valLengthMax, |val|))
  }

  lemma StepPlaced(s: BuilderState, key: Bytes, val: Bytes)
    requires PlacedSlots(s.slots) && |key| <= MAX_KEY_LEN
    ensures PlacedSlots(Step(s, key, val).slots)
  {
  }

  function Initial(): BuilderState {
    BuilderState(seq(MAX_KEY_LEN + 1, _ => Missing), 0, 0, 0, 0)
  }

  /** A history the builder accepts: longer keys end the process, and lengths are C ints. */
  predicate Admissible(h: Chain) {
    forall i :: 0 <= i < |h| ==> |h[i].key| <= MAX_KEY_LEN && |h[i].val| < 0x8000_0000
  }

  ghost function Run(h: Chain): (s: BuilderState)
    requires Admissible(h)
    ensures PlacedSlots(s.slots)
  {
    if h == [] then Initial()
    else
      var s, e := Run(h[..|h| - 1]), h[|h| - 1];
      StepPlaced(s, e.key, e.val);
      Step(s, e.key, e.val)
  }

  /** The map that a history of updates leaves. */
  function MapOf(h: Chain): map<Bytes, Bytes> {
    if h == [] then map[] else MapOf(h[..|h| - 1])[h[|h| - 1].key := h[|h| - 1].val]
  }

  // ---- what the compiled image is made from ----

  /** Fixed-length values when the smallest and the largest length that were seen are equal. */
  function ValLength(s: BuilderState): nat {
    if s.valLengthMin == s.valLengthMax then s.valLengthMax else VARIABLE
  }

  function Used(s: BuilderState): seq<TableSlot>
    requires s.maxKlen < |s.slots|
  {
    s.slots[..s.maxKlen + 1]
  }

  /** The bytes that compiling in this state produces. */
  ghost function Compiled(s: BuilderState, beyond: Memory): Bytes
    requires s.maxKlen < |s.slots| && s.count >= 0
  {
    Image(Mode(ValLength(s), beyond), Used(s), s.count)
  }

  // ---- what every history keeps ----

  function OfLength(m: map<Bytes, Bytes>, klen: nat): map<Bytes, Bytes> {
    map k | k in m && |k| == klen :: m[k]
  }

  /** The tables hold the map, one table for each key length that occurs; the counters agree with it. */
  ghost predicate Tracks(s: BuilderState, m: map<Bytes, Bytes>) {
    && PlacedSlots(s.slots)
    && (forall k {:trigger s.slots[k]} :: 0 <= k <= MAX_KEY_LEN ==>
        Represents(BucketsOf(s.slots[k]), k, OfLength(m, k)))
    && (forall k {:trigger s.slots[k]} :: 0 <= k <= MAX_KEY_LEN ==> (s.slots[k].Missing? <==> OfLength(m, k) == map[]))
    && s.count == |m|
    && (forall key {:trigger key in m} :: key in m ==> |key| <= s.maxKlen)
    && (s.maxKlen == 0 || exists key :: key in m && |key| == s.maxKlen)
    && s.maxKlen <= MAX_KEY_LEN
  }

  lemma OfLengthUpdate(m: map<Bytes, Bytes>, key: Bytes, val: Bytes, klen: nat)
    ensures OfLength(m[key := val], klen) == if |key| == klen then OfLength(m, klen)[key := val] else OfLength(m, klen)
  {
  }

  lemma InitialTracks()
    ensures Tracks(Initial(), map[])
  {
    forall k | 0 <= k <= MAX_KEY_LEN ensures Represents(BucketsOf(Initial().slots[k]), k, OfLength(map[], k)) {
      EmptyRepresents(k);
      assert OfLength(map[], k) == map[];
    }
  }

  lemma StepTracks(s: BuilderState, m: map<Bytes, Bytes>, key: Bytes, val: Bytes)
    requires Tracks(s, m) && |key| <= MAX_KEY_LEN
    ensures Tracks(Step(s, key, val), m[key := val])
  {
    hide Represents, Flatten, Update, Placed;
    var s', m', klen := Step(s, key, val), m[key := val], |key|;
    StepPlaced(s, key, val);
    var before := BucketsOf(s.slots[klen]);
    UpdateRepresents(before, key, val, OfLength(m, klen));
    forall k {:trigger s'.slots[k]} | 0 <= k <= MAX_KEY_LEN
      ensures Represents(BucketsOf(s'.slots[k]), k, OfLength(m', k))
      ensures s'.slots[k].Missing? <==> OfLength(m', k) == map[]
    {
      OfLengthUpdate(m, key, val, k);
      assert s.slots[k] == s.slots[k];
      if k == klen { assert key in OfLength(m', k); }
    }
    CountStep(s, m, key, val);
    assert key in m';
    if klen <= s.maxKlen && s.maxKlen != 0 {
      var longest :| longest in m && |longest| == s.maxKlen;
      assert longest in m';
    }
  }

  lemma RepresentsCount(bs: Buckets, klen: nat, m: map<Bytes, Bytes>)
    requires Represents(bs, klen, m)
    ensures |Flatten(bs)| == |m|
  {
  }

  lemma CountStep(s: BuilderState, m: map<Bytes, Bytes>, key: Bytes, val: Bytes)
    requires Tracks(s, m) && |key| <= MAX_KEY_LEN
    ensures Step(s, key, val).count == |m[key := val]|
  {
    hide Represents, Flatten, Update, Placed;
    var k := |key|;
    var before := BucketsOf(s.slots[k]);
    UpdateRepresents(before, key, val, OfLength(m, k));
    RepresentsCount(before, k, OfLength(m, k));
    RepresentsCount(Update(before, key, val), k, OfLength(m, k)[key := val]);
    assert key in m <==> key in OfLength(m, k);
  }

  lemma {:induction false} RunTracks(h: Chain)
    requires Admissible(h)
    ensures Tracks(Run(h), MapOf(h))
  {
    if h == [] {
      InitialTracks();
    } else {
      var e := h[|h| - 1];
      RunTracks(h[..|h| - 1]);
      StepTracks(Run(h[..|h| - 1]), MapOf(h[..|h| - 1]), e.key, e.val);
    }
  }
}
