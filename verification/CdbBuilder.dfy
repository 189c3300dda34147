/** The builder: one hash table per key length, counters, and the compiled file. */
module CdbBuilder {
  import opened Bytes
  import opened CdbModel
  import CdbTable
  import opened CdbFile
  import opened CdbFormat
  import opened CdbCompile
  import opened CdbHistory

  type Tables = array<CdbTable.Table?>

  /** Slot k describes the table at k: valid, for keys of length k, inside the footprint. */
  ghost predicate TableAt(t: CdbTable.Table?, slot: TableSlot, k: nat, foot: set<object>)
    reads foot, if t == null then {} else {t}, if t == null then {} else t.Repr
  {
    if t == null then slot.Missing?
    else t in foot && t.Repr <= foot && t.Valid() && t.klen == k && slot == Present(k, t.buckets)
  }

  ghost predicate Apart(tv: Tables)
    reads tv, set k | 0 <= k < tv.Length && tv[k] != null :: tv[k]
  {
    forall j, k :: 0 <= j < k < tv.Length && tv[j] != null && tv[k] != null ==> tv[j].Repr !! tv[k].Repr
  }

  ghost predicate TablesValid(tv: Tables, slots: seq<TableSlot>, foot: set<object>)
    reads tv, foot, set k | 0 <= k < tv.Length && tv[k] != null :: tv[k]
  {
    && tv !in foot && tv.Length == |slots|
    && (forall k :: 0 <= k < |slots| && tv[k] != null ==> tv[k] in foot && tv[k].Repr <= foot)
    && (forall k :: 0 <= k < |slots| ==> TableAt(tv[k], slots[k], k, foot))
    && Apart(tv)
  }

  /** Creates the table for keys of this length unless there is one. */
  method EnsureTable(tv: Tables, klen: nat, ghost slots: seq<TableSlot>, ghost foot: set<object>)
    returns (ghost slots': seq<TableSlot>, ghost foot': set<object>)
    requires TablesValid(tv, slots, foot) && klen < |slots|
    modifies tv
    ensures TablesValid(tv, slots', foot') && foot <= foot' && fresh(foot' - foot) && tv[klen] != null
    ensures slots' == slots[klen := Present(klen, BucketsOf(slots[klen]))]
  {
    hide CdbTable.Table.Valid;
    if tv[klen] == null {
      var t := new CdbTable.Table(klen);
      tv[klen] := t;
      foot' := foot + t.Repr;
      slots' := slots[klen := Present(klen, t.buckets)];
    } else {
      slots', foot' := slots, foot;
    }
  }

  /** Updates one table; the others are out of its reach. */
  method UpdateTable(tv: Tables, key: Bytes, val: Bytes, ghost slots: seq<TableSlot>, ghost foot: set<object>)
    returns (ghost slots': seq<TableSlot>, ghost foot': set<object>)
    requires TablesValid(tv, slots, foot) && |key| < |slots| && tv[|key|] != null
    requires Placed(slots[|key|].buckets, |key|)
    modifies foot
    ensures TablesValid(tv, slots', foot') && foot <= foot' && fresh(foot' - foot)
    ensures tv[|key|] == old(tv[|key|])
    ensures slots' == slots[|key| := Present(|key|, CdbModel.Update(slots[|key|].buckets, key, val))]
  {
    hide CdbTable.Table.Valid, CdbModel.Update;
    var t := tv[|key|];
    t.Update(key, val);
    foot' := foot + t.Repr;
    slots' := slots[|key| := Present(|key|, t.buckets)];
    forall k | 0 <= k < |slots| && k != |key|
      ensures TableAt(tv[k], slots[k], k, foot')
    {
      assert old(TableAt(tv[k], slots[k], k, foot));
    }
  }

  class Builder {
    var tableVector: Tables
    var maxKlen: nat
    var count: int
    var valLengthMin: nat
    var valLengthMax: nat
    var file: File
    var over: bool
    ghost var slots: seq<TableSlot>
    ghost var foot: set<object>

    /** The state as a value. */
    ghost function State(): BuilderState
      reads this
    {
      BuilderState(slots, maxKlen, count, valLengthMin, valLengthMax)
    }

    ghost predicate Valid()
      reads this, tableVector, foot, file, file.data
      reads set k | 0 <= k < tableVector.Length && tableVector[k] != null :: tableVector[k]
    {
      && {this, tableVector, file, file.data} !! foot
      && maxKlen <= MAX_KEY_LEN
      && file.Valid()
      && PlacedSlots(slots)
      && TablesValid(tableVector, slots, foot)
      && (!over ==> AtEnd(file, []))
    }

    constructor ()
      ensures Valid() && fresh(foot) && fresh(tableVector) && fresh(file) && fresh(file.data) && !over
      ensures State() == Initial()
    {
      var tables := new CdbTable.Table?[MAX_KEY_LEN + 1](_ => null);
      var f := new File();
      tableVector, file := tables, f;
      maxKlen, count, valLengthMin, valLengthMax, over := 0, 0, 0, 0, false;
      slots, foot := Initial().slots, {};
      InitialTracks();
    }

    /** Keeps track of the smallest and the largest value length. */
    method NoteLength(vlen: nat)
      modifies this`valLengthMin, this`valLengthMax
      ensures valLengthMin == NewMin(old(valLengthMin), vlen)
      ensures valLengthMax == NewMax(old(valLengthMax), vlen)
    {
      if vlen != 0 {
        if valLengthMin == 0 {
          valLengthMin := vlen;
        }
        if valLengthMax == 0 {
          valLengthMax := vlen;
        }
      }
      if vlen > valLengthMax {
        valLengthMax := vlen;
      }
      if vlen < valLengthMin {
        valLengthMin := vlen;
      }
    }

    /** Adds or overwrites a key; a key that is too long is fatal and changes nothing here. */
    method Update(key: Bytes, val: Bytes) returns (ok: bool)
      requires Valid()
      modifies this`maxKlen, this`count, this`valLengthMin, this`valLengthMax, this`slots, this`foot, tableVector, foot
      ensures Valid() && old(foot) <= foot && fresh(foot - old(foot))
      ensures ok <==> |key| <= 4096
      ensures State() == if ok then Step(old(State()), key, val) else old(State())
    {
      hide CdbTable.Table.Valid, Placed, CdbModel.Update, Flatten, TablesValid;
      var klen := |key|;
      if klen > MAX_KEY_LEN {
        return false;
      }
      ghost var s := State();
      StepPlaced(s, key, val);
      ghost var slots1, foot1 := EnsureTable(tableVector, klen, slots, foot);
      TableCount(tableVector, slots1, foot1, klen);
      var before := tableVector[klen].count;
      ghost var slots2, foot2 := UpdateTable(tableVector, key, val, slots1, foot1);
      TableCount(tableVector, slots2, foot2, klen);
      UpdateCounters(klen, |val|, before, tableVector[klen].count, slots2, foot2);
      assert State() == Step(s, key, val);
      ok := true;
    }

    method UpdateCounters(klen: nat, vlen: nat, before: nat, after: nat, ghost slots': seq<TableSlot>,
        ghost foot': set<object>)
      requires TablesValid(tableVector, slots', foot') && this !in foot'
      modifies this`maxKlen, this`count, this`valLengthMin, this`valLengthMax, this`slots, this`foot
      ensures TablesValid(tableVector, slots, foot)
      ensures slots == slots' && foot == foot'
      ensures maxKlen == if klen > old(maxKlen) then klen else old(maxKlen)
      ensures count == old(count) - before + after
      ensures valLengthMin == NewMin(old(valLengthMin), vlen) && valLengthMax == NewMax(old(valLengthMax), vlen)
    {
      hide TablesValid, NewMin, NewMax;
      if klen > maxKlen {
        maxKlen := klen;
      }
      NoteLength(vlen);
      count := count - before + after;
      slots, foot := slots', foot';
    }

    /** Serialises the tables into the file; a second call does nothing. */
    method Compile(beyond: Memory) returns (r: int)
      requires Valid()
      requires !over ==> count >= 0 && |Compiled(State(), beyond)| < LIMIT
      modifies this`over, file, file.data
      ensures Valid() && over && State() == old(State()) && r == 1
      ensures if old(over) then file.Contents() == old(file.Contents())
              else file.Contents() == Compiled(State(), beyond)
    {
      hide TablesValid, PlacedSlots, Pack, Image, Body, AtEnd;
      SlotCount(slots);
      if over {
        return 1;
      }
      over := true;
      var valLength, attribute := VARIABLE, VARIABLE;
      if valLengthMin == valLengthMax {
        valLength, attribute := valLengthMax, count;
      }
      var mode := Mode(valLength, beyond);
      var header := MAGIC + Pack(count) + Pack(count) + Pack(maxKlen) + Pack(attribute);
      ghost var used := Used(State());
      ImageSize(mode, used, count);
      assert [] + header == header;
      Append(file, header, []);
      WriteSlots(file, maxKlen + 1, header);
      WriteTables(file, tableVector, maxKlen + 1, mode, slots, foot, header);
      PatchHeader(file, mode, used, count, attribute);
      r := 1;
    }
  }

  lemma TableCount(tv: Tables, slots: seq<TableSlot>, foot: set<object>, k: nat)
    requires TablesValid(tv, slots, foot) && k < |slots| && slots[k].Present?
    ensures k < tv.Length && tv[k] != null && tv[k].count == |Flatten(slots[k].buckets)|
  {
    assert TableAt(tv[k], slots[k], k, foot);
  }

  lemma SlotCount(slots: seq<TableSlot>)
    requires PlacedSlots(slots)
    ensures |slots| == MAX_KEY_LEN + 1
  {
  }

  lemma ImageSize(mode: Mode, used: seq<TableSlot>, count: nat)
    requires used != []
    ensures |Image(mode, used, count)| == HEADER_SIZE + |Body(mode, used)|
    ensures HEADER_SIZE + |used| * 4 <= |Image(mode, used, count)|
  {
    hide Records, Regions, Offsets;
    var n := |used|;
    CdbImage.NoKeysOfLength(n);
    RecordsLength(NoKeys(n), Offsets(used, HEADER_SIZE + n * 4, TableRender(mode)), 0);
  }

  /** Overwrites four bytes in the middle of the file. */
  method PatchFour(file: File, v: nat, ghost a: Bytes, ghost b: Bytes, ghost c: Bytes, at: nat)
    requires file.Valid() && file.Contents() == a + b + c && |b| == 4 && at == |a| && |a + b + c| < LIMIT
    modifies file, file.data
    ensures file.Valid() && (file.data == old(file.data) || fresh(file.data))
    ensures file.Contents() == a + Pack(v) + c
  {
    hide Pack, Overwrite;
    OverwriteMiddle(a, b, c, 0, Pack(v));
    assert b[..0] + Pack(v) == Pack(v);
    file.Seek(at, SeekSet);
    file.Write(Pack(v));
  }

  /** Puts the final size and the value-length attribute into the header. */
  method PatchHeader(file: File, mode: Mode, ghost used: seq<TableSlot>, ghost count: nat, ghost attribute: nat)
    requires used != [] && |Image(mode, used, count)| < LIMIT
    requires AtEnd(file, MAGIC + Pack(count) + Pack(count) + Pack(|used| - 1) + Pack(attribute) + Body(mode, used))
    modifies file, file.data
    ensures file.Valid() && (file.data == old(file.data) || fresh(file.data))
    ensures file.Contents() == Image(mode, used, count)
  {
    hide Pack, Body;
    ghost var body, mid := Body(mode, used), Pack(count) + Pack(|used| - 1);
    ghost var before := MAGIC + Pack(count) + Pack(count) + Pack(|used| - 1) + Pack(attribute) + body;
    assert before == MAGIC + Pack(count) + (mid + Pack(attribute) + body);
    var dblen := SeekEndTell(file, before);
    PatchFour(file, dblen, MAGIC, Pack(count), mid + Pack(attribute) + body, 8);
    ghost var front := MAGIC + Pack(dblen) + mid;
    assert MAGIC + Pack(dblen) + (mid + Pack(attribute) + body) == front + Pack(attribute) + body;
    PatchFour(file, mode.valLength, front, Pack(attribute), body, 20);
    assert front + Pack(mode.valLength) == MAGIC + Pack(dblen) + Pack(count) + Pack(|used| - 1) + Pack(mode.valLength);
  }

  /** Appends the region of every table and patches its offset in. */
  method WriteTables(file: File, tv: Tables, n: nat, mode: Mode, ghost slots: seq<TableSlot>, ghost foot: set<object>,
      ghost before: Bytes)
    requires TablesValid(tv, slots, foot) && PlacedSlots(slots) && 0 < n <= |slots|
    requires {tv, file, file.data} !! foot
    requires |before| == HEADER_SIZE && AtEnd(file, before + Records(NoKeys(n), []))
    requires |before + Body(mode, slots[..n])| < LIMIT
    modifies file, file.data
    ensures TablesValid(tv, slots, foot) && {tv, file, file.data} !! foot
    ensures AtEnd(file, before + Body(mode, slots[..n])) && (file.data == old(file.data) || fresh(file.data))
  {
    hide Records, Regions, Offsets, AtEnd, RegionsWritten, TableBytes, TablesValid, PlacedSlots;
    ghost var used, r, first := slots[..n], TableRender(mode), HEADER_SIZE + n * 4;
    NothingWritten(file, before, used, first, r);
    for tbi := 0 to n
      invariant TablesValid(tv, slots, foot)
      invariant {tv, file, file.data} !! foot && (file.data == old(file.data) || fresh(file.data))
      invariant RegionsWritten(file, before, used, first, r, tbi)
    {
      ghost var at := Start(used, first, r, tbi);
      TableFacts(tv, slots, foot, tbi, mode, at);
      var t := tv[tbi];
      if t == null {
        SkipRegion(file, HEADER_SIZE + 4 * tbi, before, used, first, r, tbi);
      } else {
        OpenRegion(file, HEADER_SIZE + 4 * tbi, before, used, first, r, tbi);
        TableStep(mode, used, before, tbi);
        WriteTable(file, t.hashNodeVector, tbi, mode, t.chains, t.buckets,
                   before + Records(NoKeys(n), Offsets(used[..tbi + 1], first, r)) + Regions(used[..tbi], first, r));
        CloseRegion(file, before, used, first, r, tbi);
      }
    }
    AllWritten(file, before, used, first, r);
    assert before + Records(NoKeys(n), Offsets(used, first, r)) + Regions(used, first, r) == before + Body(mode, used);
  }

  lemma TableFacts(tv: Tables, slots: seq<TableSlot>, foot: set<object>, k: nat, mode: Mode, at: nat)
    requires TablesValid(tv, slots, foot) && PlacedSlots(slots) && k < |slots|
    ensures k < tv.Length
    ensures tv[k] == null <==> TableRender(mode)(slots[k], at) == []
    ensures tv[k] != null ==> var t := tv[k];
                              && t in foot && t.Repr <= foot && t.hashNodeVector in foot
                              && CdbTable.NodesOf(t.chains) <= foot
                              && CdbTable.LinkedAll(t.hashNodeVector, t.chains, t.buckets)
                              && slots[k] == Present(k, t.buckets)
                              && forall i :: 0 <= i < |t.buckets| ==> Keyed(t.buckets[i], k)
  {
    assert TableAt(tv[k], slots[k], k, foot);
    assert Placed(BucketsOf(slots[k]), k);
  }

  lemma TableStep(mode: Mode, used: seq<TableSlot>, before: Bytes, k: nat)
    requires k < |used| && |before| == HEADER_SIZE
    ensures var n, r := |used|, TableRender(mode);
            var first := HEADER_SIZE + n * 4;
            var w := before + Records(NoKeys(n), Offsets(used[..k + 1], first, r)) + Regions(used[..k], first, r);
            && |w| == Start(used, first, r, k)
            && |w + TableBytes(mode, used[k], |w|)| <= |before + Body(mode, used)|
  {
    hide Records, Regions, Offsets, TableBytes;
    var n, r := |used|, TableRender(mode);
    var first := HEADER_SIZE + n * 4;
    CdbImage.NoKeysOfLength(n);
    RecordsLength(NoKeys(n), Offsets(used[..k + 1], first, r), 0);
    RecordsLength(NoKeys(n), Offsets(used, first, r), 0);
    RegionsSnoc(used, first, r, k);
    RegionsGrow(used, first, r, k);
  }
}
