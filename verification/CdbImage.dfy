/** Every image that the layout produces is one that a reader may rely on. */
module CdbImage {
  import opened Bytes
  import opened CdbModel
  import opened CdbFormat
  import CdbFile

  /** The chain as a reader sees it: with fixed-length values, exactly that many bytes of each buffer. */
  function RecordedChain(mode: Mode, c: Chain): (r: Chain)
    ensures |r| == |c|
    ensures forall i :: 0 <= i < |c| ==> r[i].key == c[i].key
  {
    if mode.valLength == VARIABLE then c
    else seq(|c|, i requires 0 <= i < |c| => Entry(c[i].key, CStr(c[i], mode.valLength, mode.beyond)))
  }

  function RecordedBuckets(mode: Mode, bs: Buckets): (r: Buckets)
    ensures |r| == |bs|
  {
    seq(|bs|, i requires 0 <= i < |bs| => RecordedChain(mode, bs[i]))
  }

  function RecordedSlot(mode: Mode, t: TableSlot): TableSlot {
    if t.Missing? then t else Present(t.klen, RecordedBuckets(mode, t.buckets))
  }

  function RecordedSlots(mode: Mode, slots: seq<TableSlot>): (r: seq<TableSlot>)
    ensures |r| == |slots|
  {
    seq(|slots|, i requires 0 <= i < |slots| => RecordedSlot(mode, slots[i]))
  }

  /** The region at offset o is where a rendered region of a larger image is. */
  lemma RegionIn<T>(d: Bytes, at: nat, items: seq<T>, render: (T, nat) -> Bytes, i: nat)
    requires i < |items| && At(d, at, Regions(items, at, render))
    ensures var p := Start(items, at, render, i);
            at <= p <= |d| && At(d, p, render(items[i], p))
  {
    RegionAt(items, at, render, i, |items|);
    assert items[..|items|] == items;
    var p := Start(items, at, render, i);
    AtWithin(d, at, Regions(items, at, render), p - at, render(items[i], p));
  }

  /** What the i-th slot of a table of records holds. */
  lemma SlotIn(d: Bytes, at: nat, keys: seq<Bytes>, offs: seq<nat>, klen: nat, i: nat)
    requires At(d, at, Records(keys, offs)) && AllOfLength(keys, klen) && |offs| == |keys| && i < |keys|
    ensures At(d, at + i * (klen + 4), keys[i])
    ensures At(d, at + i * (klen + 4) + klen, Pack(offs[i])) && at + i * (klen + 4) + klen + 4 <= |d|
  {
    RecordAt(keys, offs, klen, i);
    AtWithin(d, at, Records(keys, offs), i * (klen + 4), keys[i] + Pack(offs[i]));
    AtSplit(d, at + i * (klen + 4), keys[i], Pack(offs[i]));
  }

  lemma KeysOfLength(c: Chain, klen: nat)
    requires Keyed(c, klen)
    ensures AllOfLength(KeysOf(c), klen)
  {
  }

  lemma NoKeysOfLength(n: nat)
    ensures AllOfLength(NoKeys(n), 0)
  {
  }

  lemma RecordedVariable(mode: Mode, c: Chain)
    requires mode.valLength == VARIABLE
    ensures RecordedChain(mode, c) == c
  {
  }

  lemma VariableParts(d: Bytes, at: nat, klen: nat, c: Chain, values: nat)
    requires Keyed(c, klen) && At(d, at, VariableRecords(klen, c, at)) && values == at + |c| * (klen + 4)
    ensures AllOfLength(KeysOf(c), klen)
    ensures At(d, at, Records(KeysOf(c), Offsets(c, values, ValueBytes))) &&
            At(d, values, Regions(c, values, ValueBytes))
  {
    hide At, Regions, Records, Offsets;
    KeysOfLength(c, klen);
    AtSplit(d, at, Records(KeysOf(c), Offsets(c, values, ValueBytes)), Regions(c, values, ValueBytes));
    RecordsLength(KeysOf(c), Offsets(c, values, ValueBytes), klen);
  }

  /** The record at q points at the value's region, or at nothing for an empty value. */
  lemma VariableRecordAt(d: Bytes, values: nat, c: Chain, i: nat, q: nat, offs: seq<nat>)
    requires i < |c| && 0 < values && |d| < CdbFile.LIMIT && offs == Offsets(c, values, ValueBytes)
    requires At(d, q, c[i].key) && At(d, q + |c[i].key|, Pack(offs[i])) && q + |c[i].key| + 4 <= |d|
    requires At(d, values, Regions(c, values, ValueBytes))
    ensures EncodesRecord(d, q, VARIABLE, c[i])
  {
    hide At, Pack, Unpack, Varint, Regions, Start;
    RegionIn(d, values, c, ValueBytes, i);
    UnpackAt(d, q + |c[i].key|, offs[i]);
  }

  lemma VariableRecordEncodes(d: Bytes, at: nat, klen: nat, c: Chain, i: nat, q: nat)
    requires i < |c| && Keyed(c, klen) && q == at + i * (klen + 4)
    requires At(d, at, VariableRecords(klen, c, at)) && 0 < at && |d| < CdbFile.LIMIT
    ensures EncodesRecord(d, q, VARIABLE, c[i])
  {
    hide At, Pack, Regions, Records, Offsets, VariableRecords, EncodesRecord;
    var values := at + |c| * (klen + 4);
    var offs := Offsets(c, values, ValueBytes);
    VariableParts(d, at, klen, c, values);
    SlotIn(d, at, KeysOf(c), offs, klen, i);
    VariableRecordAt(d, values, c, i, q, offs);
  }

  lemma FixedRecordEncodes(d: Bytes, at: nat, klen: nat, mode: Mode, c: Chain, i: nat)
    requires i < |c| && Keyed(c, klen) && mode.valLength != VARIABLE && At(d, at, Concat(FixedRows(mode, c)))
    ensures EncodesRecord(d, at + i * Stride(klen, mode.valLength), mode.valLength, RecordedChain(mode, c)[i])
  {
    hide At, Concat, CStr;
    var rows, w := FixedRows(mode, c), klen + mode.valLength;
    forall j | 0 <= j < |rows| ensures |rows[j]| == w {
      assert |c[j].key| == klen;
    }
    ConcatRow(rows, w, i);
    AtWithin(d, at, Concat(rows), i * w, rows[i]);
    AtSplit(d, at + i * w, c[i].key, CStr(c[i], mode.valLength, mode.beyond));
  }

  lemma StrideOf(klen: nat, mode: Mode)
    requires mode.valLength == VARIABLE
    ensures Stride(klen, mode.valLength) == klen + 4
  {
  }

  lemma BucketEncodes(d: Bytes, p: nat, klen: nat, mode: Mode, c: Chain)
    requires c != [] && Keyed(c, klen) && |c| < TWO_TO_THE_32
    requires At(d, p, BucketBytes(klen, mode, c, p)) && |d| < CdbFile.LIMIT
    ensures EncodesChain(d, p, klen, mode.valLength, RecordedChain(mode, c))
  {
    hide At, Pack, Unpack, EncodesRecord, VariableRecords, Concat, FixedRows, Stride, RecordedChain;
    var rest := if mode.valLength == VARIABLE then VariableRecords(klen, c, p + 4) else Concat(FixedRows(mode, c));
    AtSplit(d, p, Pack(|c|), rest);
    UnpackAt(d, p, |c|);
    var r := RecordedChain(mode, c);
    forall i {:trigger r[i]} | 0 <= i < |r|
      ensures EncodesRecord(d, p + 4 + i * Stride(klen, mode.valLength), mode.valLength, r[i])
    {
      if mode.valLength == VARIABLE {
        StrideOf(klen, mode);
        VariableRecordEncodes(d, p + 4, klen, c, i, p + 4 + i * Stride(klen, mode.valLength));
        RecordedVariable(mode, c);
      } else {
        FixedRecordEncodes(d, p + 4, klen, mode, c, i);
      }
    }
  }

  /** What the builder keeps of every table, as far as the image depends on it. */
  ghost predicate Storable(bs: Buckets, klen: nat) {
    && bs != []
    && |Flatten(bs)| <= |bs|
    && forall i :: 0 <= i < |bs| ==> Keyed(bs[i], klen)
  }

  lemma TableEncodes(d: Bytes, p: nat, mode: Mode, t: TableSlot)
    requires t.Present? && Storable(t.buckets, t.klen)
    requires At(d, p, TableBytes(mode, t, p)) && |d| < CdbFile.LIMIT
    ensures EncodesTable(d, p, t.klen, mode.valLength, RecordedBuckets(mode, t.buckets))
  {
    hide At, Pack, Unpack, Regions, Records, Flatten, EncodesChain, Start;
    var bs, n, r := t.buckets, |t.buckets|, BucketRender(t.klen, mode);
    var first := p + 4 + n * 4;
    var offs := Offsets(bs, first, r);
    var rb := RecordedBuckets(mode, bs);
    NoKeysOfLength(n);
    AtSplit(d, p, Pack(n) + Records(NoKeys(n), offs), Regions(bs, first, r));
    AtSplit(d, p, Pack(n), Records(NoKeys(n), offs));
    RecordsLength(NoKeys(n), offs, 0);
    UnpackAt(d, p, n);
    forall i {:trigger rb[i]} | 0 <= i < n
      ensures var o := Unpack(d, p + 4 + i * 4);
              if rb[i] == [] then o == 0 else o != 0 && EncodesChain(d, o, t.klen, mode.valLength, rb[i])
    {
      SlotIn(d, p + 4, NoKeys(n), offs, 0, i);
      RegionIn(d, first, bs, r, i);
      UnpackAt(d, p + 4 + i * 4, offs[i]);
      if bs[i] != [] {
        FlattenReplace(bs, i, []);
        BucketEncodes(d, Start(bs, first, r, i), t.klen, mode, bs[i]);
      }
    }
  }

  ghost predicate StorableSlots(slots: seq<TableSlot>) {
    && slots != []
    && forall k :: 0 <= k < |slots| && slots[k].Present? ==> slots[k].klen == k && Storable(slots[k].buckets, k)
  }

  lemma HeaderEncodes(d: Bytes, size: nat, count: nat, slots: nat, valLength: nat)
    requires slots > 0 && At(d, 0, Header(size, count, slots, valLength))
    requires size < TWO_TO_THE_32 && count < TWO_TO_THE_32 && slots < TWO_TO_THE_32 && valLength < TWO_TO_THE_32
    ensures At(d, 0, MAGIC) && Unpack(d, 8) == size && Unpack(d, 12) == count
    ensures Unpack(d, 16) == slots - 1 && Unpack(d, 20) == valLength
  {
    hide Pack, UnpackFour;
    AtSplit(d, 0, MAGIC + Pack(size) + Pack(count) + Pack(slots - 1), Pack(valLength));
    AtSplit(d, 0, MAGIC + Pack(size) + Pack(count), Pack(slots - 1));
    AtSplit(d, 0, MAGIC + Pack(size), Pack(count));
    AtSplit(d, 0, MAGIC, Pack(size));
    UnpackAt(d, 8, size);
    UnpackAt(d, 12, count);
    UnpackAt(d, 16, slots - 1);
    UnpackAt(d, 20, valLength);
  }

  lemma WholeAt(d: Bytes)
    ensures At(d, 0, d)
  {
  }

  lemma ImageParts(mode: Mode, slots: seq<TableSlot>, count: nat)
    requires slots != []
    ensures var d, n, r := Image(mode, slots, count), |slots|, TableRender(mode);
            var first := HEADER_SIZE + n * 4;
            && first <= |d| && At(d, 0, Header(|d|, count, n, mode.valLength))
            && At(d, HEADER_SIZE, Records(NoKeys(n), Offsets(slots, first, r)))
            && At(d, first, Regions(slots, first, r))
  {
    hide Header, Regions, Records, Offsets;
    var d, n, r := Image(mode, slots, count), |slots|, TableRender(mode);
    var first := HEADER_SIZE + n * 4;
    var header, records, regions :=
      Header(|d|, count, n, mode.valLength), Records(NoKeys(n), Offsets(slots, first, r)), Regions(slots, first, r);
    assert |d| == HEADER_SIZE + |Body(mode, slots)|;
    assert d == header + (records + regions);
    WholeAt(d);
    hide At;
    AtSplit(d, 0, header, records + regions);
    AtSplit(d, HEADER_SIZE, records, regions);
    NoKeysOfLength(n);
    RecordsLength(NoKeys(n), Offsets(slots, first, r), 0);
  }

  /** The compiled image encodes the tables it was laid out from. */
  lemma ImageEncodes(mode: Mode, slots: seq<TableSlot>, count: nat)
    requires StorableSlots(slots) && |Image(mode, slots, count)| < CdbFile.LIMIT
    requires count < TWO_TO_THE_32 && mode.valLength < TWO_TO_THE_32
    ensures Encodes(Image(mode, slots, count), RecordedSlots(mode, slots), count, mode.valLength)
  {
    hide Image, Header, Pack, Unpack, Regions, Records, Storable, EncodesTable, Start, At;
    var d, n, r := Image(mode, slots, count), |slots|, TableRender(mode);
    var first := HEADER_SIZE + n * 4;
    var offs := Offsets(slots, first, r);
    var rs := RecordedSlots(mode, slots);
    ImageParts(mode, slots, count);
    NoKeysOfLength(n);
    HeaderEncodes(d, |d|, count, n, mode.valLength);
    forall k {:trigger rs[k]} | 0 <= k < n
      ensures var o := Unpack(d, HEADER_SIZE + k * 4);
              if rs[k].Missing? then o == 0
              else o != 0 && rs[k].klen == k && EncodesTable(d, o, k, mode.valLength, rs[k].buckets)
    {
      SlotIn(d, HEADER_SIZE, NoKeys(n), offs, 0, k);
      RegionIn(d, first, slots, r, k);
      UnpackAt(d, HEADER_SIZE + k * 4, offs[k]);
      if slots[k].Present? {
        TableEncodes(d, Start(slots, first, r, k), mode, slots[k]);
      }
    }
  }
}
