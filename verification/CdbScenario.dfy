/** From a history of updates to the answers of the reader and the walker, through the compiled bytes. */
module CdbScenario {
  import opened Bytes
  import opened Options
  import opened CdbModel
  import opened CdbFormat
  import opened CdbImage
  import opened CdbReader
  import opened CdbWalker
  import opened CdbHistory
  import opened CdbTheorems
  import opened CdbOrder
  import CdbFile
  import CdbBuilder

  /** The image is small enough for the builder's int capacity. */
  ghost predicate Fits(h: Chain, beyond: Memory) {
    Admissible(h) && Run(h).maxKlen < |Run(h).slots| && Run(h).count >= 0 && |Compiled(Run(h), beyond)| < CdbFile.LIMIT
  }

  /** What a reader sees of the tables after this history. */
  ghost function Seen(h: Chain, beyond: Memory): seq<TableSlot>
    requires Fits(h, beyond)
  {
    RecordedSlots(ModeOf(Run(h), beyond), Used(Run(h)))
  }

  /** Feeds a history to a new builder and compiles it. */
  method Build(h: Chain, beyond: Memory) returns (data: Bytes)
    requires Fits(h, beyond)
    ensures data == Compiled(Run(h), beyond)
  {
    hide Run, Step, Compiled, PlacedSlots;
    var builder := new CdbBuilder.Builder();
    RunSteps(h, 0);
    for i := 0 to |h|
      invariant builder.Valid() && !builder.over && fresh(builder) && fresh(builder.tableVector)
      invariant fresh(builder.foot) && fresh(builder.file) && fresh(builder.file.data)
      invariant Admissible(h[..i]) && builder.State() == Run(h[..i])
    {
      RunSteps(h, i);
      var ok := builder.Update(h[i].key, h[i].val);
    }
    assert h[..|h|] == h;
    var r := builder.Compile(beyond);
    data := builder.file.data[..builder.file.size];
  }

  lemma RunSteps(h: Chain, i: nat)
    requires Admissible(h) && i <= |h|
    ensures Admissible(h[..i]) && Run(h[..0]) == Initial()
    ensures i < |h| ==>
              && Admissible(h[..i + 1]) && PlacedSlots(Run(h[..i]).slots)
              && Run(h[..i + 1]) == Step(Run(h[..i]), h[i].key, h[i].val)
  {
    if i < |h| {
      assert h[..i + 1][..i] == h[..i];
    }
  }

  /** Opens the compiled bytes. */
  method Open(h: Chain, beyond: Memory, data: Bytes) returns (reader: Reader)
    requires Fits(h, beyond) && data == Compiled(Run(h), beyond)
    ensures fresh(reader) && reader.Reads(Seen(h, beyond)) && reader.count == |MapOf(h)|
  {
    hide Run, Compiled, Encodes, SortedSlots, RecordedSlots;
    CompiledEncodes(h, beyond);
    CountIsSize(h);
    reader := new Reader();
    ImageBytes(data, Seen(h, beyond), Run(h).count, ValLength(Run(h)));
    var ok := reader.OpenData(data);
  }

  lemma CountIsSize(h: Chain)
    requires Admissible(h)
    ensures Run(h).count == |MapOf(h)|
  {
    RunTracks(h);
  }

  lemma ImageBytes(d: Bytes, slots: seq<TableSlot>, count: nat, valLength: nat)
    requires Encodes(d, slots, count, valLength)
    ensures |d| >= HEADER_SIZE && At(d, 0, MAGIC) && Unpack(d, 12) == count
  {
  }

  /** Building, compiling and looking a key up gives the value of its last update. */
  method BuildAndFind(h: Chain, beyond: Memory, key: Bytes) returns (r: Option<Bytes>)
    requires Fits(h, beyond)
    ensures r == Lookup(MapOf(h), key) <==> (key !in MapOf(h) || (key != [] && KeepsValue(Run(h), MapOf(h)[key])))
    ensures NoEmptyValue(h) || OnlyEmptyValues(h) ==> key != [] ==> r == Lookup(MapOf(h), key)
    ensures key == [] ==> r == None
  {
    var data := Build(h, beyond);
    var reader := Open(h, beyond, data);
    r := reader.Find(key, Seen(h, beyond));
    FindAgreesExactly(h, beyond, key);
    if key in MapOf(h) && (NoEmptyValue(h) || OnlyEmptyValues(h)) {
      UnmixedIsFaithful(h, key);
    }
    EmptyKeyNeverFound(h, beyond);
  }

  lemma EmptyKeyNeverFound(h: Chain, beyond: Memory)
    requires Fits(h, beyond)
    ensures ReaderGet(Seen(h, beyond), []) == None
  {
    hide Run;
    RunTracks(h);
    FindsRecorded(Run(h), MapOf(h), ModeOf(Run(h), beyond), []);
  }

  /** The count a reader of the compiled bytes gives is the number of keys in the map. */
  method BuildAndCount(h: Chain, beyond: Memory) returns (n: nat)
    requires Fits(h, beyond)
    ensures n == |MapOf(h)|
  {
    hide Run, Compiled;
    var data := Build(h, beyond);
    var reader := Open(h, beyond, data);
    n := reader.GetCount();
  }

  /** A whole walk over the compiled bytes lists the map, and ends. An entry has the value of the map exactly when an
      image compiled in this mode keeps that value, so always after a history of only non-empty or only empty values. */
  method BuildAndWalk(h: Chain, beyond: Memory) returns (es: Chain, last: int)
    requires Fits(h, beyond)
    ensures Lists(es, MapOf(h), ModeOf(Run(h), beyond)) && last == 0
    ensures InOrder(es, MapOf(h))
    ensures forall i :: 0 <= i < |es| ==> Lookup(MapOf(h), es[i].key).Some?
    ensures forall i :: 0 <= i < |es| ==>
              (es[i].val == MapOf(h)[es[i].key] <==> KeepsValue(Run(h), MapOf(h)[es[i].key]))
    ensures NoEmptyValue(h) || OnlyEmptyValues(h) ==>
              forall i :: 0 <= i < |es| ==> es[i].val == MapOf(h)[es[i].key]
  {
    hide Run, Compiled, Lists, RecordedSlots, AllEntries, InOrder, Rising;
    var data := Build(h, beyond);
    var reader := Open(h, beyond, data);
    ghost var slots := Seen(h, beyond);
    var walker := new Walker();
    walker.SetReader(reader);
    es, last := WalkToEnd(walker, slots);
    WalkListsMap(h, beyond);
    CompiledInOrder(h, beyond);
    ListedValues(h, beyond, es);
  }

  lemma ListedValues(h: Chain, beyond: Memory, es: Chain)
    requires Admissible(h) && Lists(es, MapOf(h), ModeOf(Run(h), beyond))
    ensures forall i :: 0 <= i < |es| ==> Lookup(MapOf(h), es[i].key).Some?
    ensures forall i :: 0 <= i < |es| ==>
              (es[i].val == MapOf(h)[es[i].key] <==> KeepsValue(Run(h), MapOf(h)[es[i].key]))
    ensures NoEmptyValue(h) || OnlyEmptyValues(h) ==>
              forall i :: 0 <= i < |es| ==> es[i].val == MapOf(h)[es[i].key]
  {
    hide Run, Covers, ShorterFirst, Distinct, RecordedValue, KeepsValue;
    forall i | 0 <= i < |es|
      ensures es[i].key in MapOf(h)
      ensures es[i].val == MapOf(h)[es[i].key] <==> KeepsValue(Run(h), MapOf(h)[es[i].key])
      ensures NoEmptyValue(h) || OnlyEmptyValues(h) ==> KeepsValue(Run(h), MapOf(h)[es[i].key])
    {
      var key := es[i].key;
      RecordedUnchanged(Run(h), beyond, key, MapOf(h)[key]);
      if NoEmptyValue(h) || OnlyEmptyValues(h) {
        UnmixedIsFaithful(h, key);
      }
    }
  }

  /** Calls the walker until it has no more. */
  method WalkToEnd(walker: Walker, ghost slots: seq<TableSlot>) returns (es: Chain, last: int)
    requires walker.Valid(slots) && walker.klen == -1
    modifies walker
    ensures es == AllEntries(slots) && last == 0
  {
    hide Walker.Inside, AllEntries, Encodes, SortedSlots, Walker.Place;
    ghost var all := AllEntries(slots);
    es := [];
    assert all[..0] == [];
    while true
      invariant walker.Valid(slots)
      invariant walker.Position(slots) == |es| <= |all| && es == all[..|es|]
      decreases |all| - |es|
    {
      var ret, entry := walker.Walk(slots);
      if ret <= 0 {
        last := ret;
        break;
      }
      assert all[..|es| + 1] == all[..|es|] + [all[|es|]];
      es := es + [entry];
    }
  }
}
