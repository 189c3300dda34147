/** The byte image of a compiled database: how it is laid out, and what a reader may rely on. */
module CdbFormat {
  import opened Bytes
  import opened CdbModel
  import Ascii
  import CdbFile

  /** The value-length attribute that stands for "each value has its own length". */
  const VARIABLE: nat := 536870912

  const MAGIC: Bytes := [0x5A, 0x43, 0x44, 0x42, 0x30, 0x30, 0x30, 0x31] // ZCDB0001

  const HEADER_SIZE: nat := 24

  // ---- seven-bit varints: the last byte carries the high bit ----

  function Varint(n: nat): (r: Bytes)
    ensures |r| > 0
  {
    if n < 128 then [n + 128] else [n % 128] + Varint(n / 128)
  }

  /** The number that seven-bit groups write, the least significant group first. */
  function SevenBits(s: Bytes): nat {
    if s == [] then 0 else s[0] % 128 + 128 * SevenBits(s[1..])
  }

  /** A varint writes its number in groups of seven bits, without leading zero groups; only the last byte has its high
      bit set. */
  lemma {:induction false} VarintMeaning(n: nat)
    ensures var s := Varint(n);
            && SevenBits(s) == n && s[|s| - 1] >= 128
            && (forall i :: 0 <= i < |s| - 1 ==> s[i] < 128)
            && (|s| > 1 ==> s[|s| - 1] > 128)
    decreases n
  {
    if n < 128 {
      assert [n + 128][1..] == [];
    } else {
      VarintMeaning(n / 128);
      Behind(n % 128, Varint(n / 128));
    }
  }

  /** The first eight bytes of every file. */
  lemma MagicSpelled()
    ensures MAGIC == Ascii.Text("ZCDB0001")
  {
  }

  // ---- regions laid end to end, and the offsets that point to them ----

  /** The i-th item is rendered at the absolute position where its region starts. */
  ghost function Regions<T>(items: seq<T>, at: nat, render: (T, nat) -> Bytes): Bytes {
    if items == [] then []
    else
      var front := Regions(items[..|items| - 1], at, render);
      front + render(items[|items| - 1], at + |front|)
  }

  ghost function Start<T>(items: seq<T>, at: nat, render: (T, nat) -> Bytes, i: nat): nat
    requires i <= |items|
  {
    at + |Regions(items[..i], at, render)|
  }

  ghost function OffsetOf<T>(items: seq<T>, at: nat, render: (T, nat) -> Bytes, i: nat): nat
    requires i < |items|
  {
    var p := Start(items, at, render, i);
    if render(items[i], p) == [] then 0 else p
  }

  /** Where each region starts; 0 for an empty region. */
  ghost function Offsets<T>(items: seq<T>, at: nat, render: (T, nat) -> Bytes): (offs: seq<nat>)
    ensures |offs| == |items|
  {
    seq(|items|, i requires 0 <= i < |items| => OffsetOf(items, at, render, i))
  }

  lemma RegionsSnoc<T>(items: seq<T>, at: nat, render: (T, nat) -> Bytes, i: nat)
    requires i < |items|
    ensures Regions(items[..i + 1], at, render) == Regions(items[..i], at, render) +
            render(items[i], Start(items, at, render, i))
    ensures Offsets(items[..i + 1], at, render) == Offsets(items[..i], at, render) + [OffsetOf(items, at, render, i)]
  {
    assert items[..i + 1][..i] == items[..i];
    var a, b := Offsets(items[..i + 1], at, render), Offsets(items[..i], at, render) + [OffsetOf(items, at, render, i)];
    forall j | 0 <= j <= i ensures a[j] == b[j] {
      assert items[..i + 1][..j] == items[..j];
      if j < i { assert items[..i][..j] == items[..j]; }
    }
  }

  /** Each region stands where its offset says, and before the start of every later one. */
  lemma {:induction false} RegionAt<T>(items: seq<T>, at: nat, render: (T, nat) -> Bytes, i: nat, j: nat)
    requires i < j <= |items|
    ensures var p := Start(items, at, render, i);
            && At(Regions(items[..j], at, render), p - at, render(items[i], p))
            && p + |render(items[i], p)| <= Start(items, at, render, j)
  {
    RegionsSnoc(items, at, render, j - 1);
    if i < j - 1 {
      RegionAt(items, at, render, i, j - 1);
    }
  }

  lemma RegionsGrow<T>(items: seq<T>, at: nat, render: (T, nat) -> Bytes, i: nat)
    requires i <= |items|
    ensures |Regions(items[..i], at, render)| <= |Regions(items, at, render)|
    ensures i < |items| ==> |Regions(items[..i + 1], at, render)| <= |Regions(items, at, render)|
  {
    assert items[..|items|] == items;
    if i < |items| {
      RegionAt(items, at, render, i, |items|);
      RegionsSnoc(items, at, render, i);
    }
  }

  // ---- records: a key and a four-byte offset each ----

  ghost function RecordRow(keys: seq<Bytes>, offs: seq<nat>, i: nat): Bytes
    requires i < |keys|
  {
    keys[i] + Pack(if i < |offs| then offs[i] else 0)
  }

  ghost function RecordRows(keys: seq<Bytes>, offs: seq<nat>): seq<Bytes> {
    seq(|keys|, i requires 0 <= i < |keys| => RecordRow(keys, offs, i))
  }

  /** Fixed-stride records; the slots without an offset yet are zero. */
  ghost function Records(keys: seq<Bytes>, offs: seq<nat>): Bytes {
    Concat(RecordRows(keys, offs))
  }

  function NoKeys(n: nat): (keys: seq<Bytes>)
    ensures |keys| == n
  {
    seq(n, _ => [])
  }

  function KeysOf(c: Chain): (keys: seq<Bytes>)
    ensures |keys| == |c|
  {
    seq(|c|, i requires 0 <= i < |c| => c[i].key)
  }

  ghost predicate AllOfLength(keys: seq<Bytes>, klen: nat) {
    forall i :: 0 <= i < |keys| ==> |keys[i]| == klen
  }

  lemma RowsOfLength(keys: seq<Bytes>, offs: seq<nat>, klen: nat)
    requires AllOfLength(keys, klen)
    ensures forall i :: 0 <= i < |keys| ==> |RecordRows(keys, offs)[i]| == klen + 4
  {
    assert forall i :: 0 <= i < |keys| ==> RecordRows(keys, offs)[i] == RecordRow(keys, offs, i) && |keys[i]| == klen;
  }

  lemma RecordsLength(keys: seq<Bytes>, offs: seq<nat>, klen: nat)
    requires AllOfLength(keys, klen)
    ensures |Records(keys, offs)| == |keys| * (klen + 4)
  {
    RowsOfLength(keys, offs, klen);
    ConcatLength(RecordRows(keys, offs), klen + 4);
  }

  /** Writing out the records with empty slots, one after the other. */
  lemma RecordsSnoc(keys: seq<Bytes>, i: nat)
    requires i < |keys|
    ensures Records(keys[..i + 1], []) == Records(keys[..i], []) + keys[i] + Pack(0)
  {
    var rows := RecordRows(keys[..i + 1], []);
    assert rows == RecordRows(keys[..i], []) + [keys[i] + Pack(0)];
    ConcatAppend(RecordRows(keys[..i], []), [keys[i] + Pack(0)]);
    assert Concat([keys[i] + Pack(0)]) == keys[i] + Pack(0);
  }

  /** A slot that was never patched reads as 0. */
  lemma RecordsZero(keys: seq<Bytes>, offs: seq<nat>)
    ensures Records(keys, offs + [0]) == Records(keys, offs)
  {
    assert RecordRows(keys, offs + [0]) == RecordRows(keys, offs);
  }

  /** Back-patching the next offset changes this offset and nothing else. */
  lemma PatchRecord(before: Bytes, keys: seq<Bytes>, offs: seq<nat>, after: Bytes, klen: nat, v: nat)
    requires AllOfLength(keys, klen) && |offs| < |keys|
    ensures |before| + |offs| * (klen + 4) + klen <= |before + Records(keys, offs) + after|
    ensures Overwrite(before + Records(keys, offs) + after, |before| + |offs| * (klen + 4) + klen, Pack(v))
         == before + Records(keys, offs + [v]) + after
  {
    var rows, i := RecordRows(keys, offs), |offs|;
    RowsOfLength(keys, offs, klen);
    ConcatPatch(before, rows, after, klen + 4, i, klen, Pack(v));
    assert rows[i][..klen] == keys[i];
    assert rows[i := rows[i][..klen] + Pack(v)] == RecordRows(keys, offs + [v]);
  }

  lemma RecordAt(keys: seq<Bytes>, offs: seq<nat>, klen: nat, i: nat)
    requires AllOfLength(keys, klen) && |offs| == |keys| && i < |keys|
    ensures At(Records(keys, offs), i * (klen + 4), keys[i] + Pack(offs[i]))
  {
    RowsOfLength(keys, offs, klen);
    ConcatRow(RecordRows(keys, offs), klen + 4, i);
  }

  // ---- the layout ----

  /** beyond(key, i) is the i-th byte after the terminator in the buffer of the value stored under a key. What stands
      there is left over from what the buffer held before, so it is read only past the end of a value. */
  type Memory = (Bytes, nat) -> byte

  datatype Mode = Mode(valLength: nat, beyond: Memory)

  /** n bytes read from the buffer of a terminated value. */
  function CStr(e: Entry, n: nat, beyond: Memory): (r: Bytes)
    ensures |r| == n
    ensures n == |e.val| ==> r == e.val
  {
    var end := |e.val|;
    seq(n, i requires 0 <= i < n => if i < end then e.val[i] else if i == end then 0 else beyond(e.key, i - end - 1))
  }

  datatype TableSlot = Missing | Present(klen: nat, buckets: Buckets)

  ghost function ValueBytes(e: Entry, at: nat): Bytes {
    if e.val == [] then [] else Varint(|e.val|) + e.val
  }

  function FixedRows(mode: Mode, c: Chain): seq<Bytes> {
    seq(|c|, i requires 0 <= i < |c| => c[i].key + CStr(c[i], mode.valLength, mode.beyond))
  }

  ghost function VariableRecords(klen: nat, c: Chain, at: nat): Bytes {
    var values := at + |c| * (klen + 4);
    Records(KeysOf(c), Offsets(c, values, ValueBytes)) + Regions(c, values, ValueBytes)
  }

  ghost function BucketBytes(klen: nat, mode: Mode, c: Chain, at: nat): Bytes {
    if c == [] then []
    else Pack(|c|) + if mode.valLength == VARIABLE then VariableRecords(klen, c, at + 4) else Concat(FixedRows(mode, c))
  }

  ghost function BucketRender(klen: nat, mode: Mode): (Chain, nat) -> Bytes {
    (c, at) => BucketBytes(klen, mode, c, at)
  }

  ghost function TableBytes(mode: Mode, t: TableSlot, at: nat): Bytes {
    if t.Missing? then []
    else
      var n, r := |t.buckets|, BucketRender(t.klen, mode);
      var first := at + 4 + n * 4;
      Pack(n) + Records(NoKeys(n), Offsets(t.buckets, first, r)) + Regions(t.buckets, first, r)
  }

  ghost function TableRender(mode: Mode): (TableSlot, nat) -> Bytes {
    (t, at) => TableBytes(mode, t, at)
  }

  function Header(size: nat, count: nat, slots: nat, valLength: nat): (h: Bytes)
    requires slots > 0
    ensures |h| == HEADER_SIZE
  {
    MAGIC + Pack(size) + Pack(count) + Pack(slots - 1) + Pack(valLength)
  }

  /** Everything behind the header. */
  ghost function Body(mode: Mode, slots: seq<TableSlot>): Bytes {
    var first := HEADER_SIZE + |slots| * 4;
    Records(NoKeys(|slots|), Offsets(slots, first, TableRender(mode))) + Regions(slots, first, TableRender(mode))
  }

  ghost function Image(mode: Mode, slots: seq<TableSlot>, count: nat): Bytes
    requires |slots| > 0
  {
    var body := Body(mode, slots);
    Header(HEADER_SIZE + |body|, count, |slots|, mode.valLength) + body
  }

  // ---- what a reader may rely on ----

  ghost predicate EncodesRecord(d: Bytes, q: nat, valLength: nat, e: Entry) {
    && At(d, q, e.key)
    && var v := q + |e.key|;
       if valLength == VARIABLE then
         && v + 4 <= |d|
         && if e.val == [] then Unpack(d, v) == 0 else Unpack(d, v) != 0 && At(d, Unpack(d, v), Varint(|e.val|) + e.val)
       else |e.val| == valLength && At(d, v, e.val)
  }

  function Stride(klen: nat, valLength: nat): nat {
    klen + if valLength == VARIABLE then 4 else valLength
  }

  ghost predicate EncodesChain(d: Bytes, p: nat, klen: nat, valLength: nat, c: Chain) {
    && c != [] && Keyed(c, klen)
    && p + 4 <= |d| && Unpack(d, p) == |c|
    && forall i {:trigger c[i]} :: 0 <= i < |c| ==>
        EncodesRecord(d, p + 4 + i * Stride(klen, valLength), valLength, c[i])
  }

  ghost predicate EncodesTable(d: Bytes, p: nat, klen: nat, valLength: nat, bs: Buckets) {
    && bs != []
    && p + 4 + |bs| * 4 <= |d| && Unpack(d, p) == |bs|
    && forall i {:trigger bs[i]} :: 0 <= i < |bs| ==>
                                     var o := Unpack(d, p + 4 + i * 4);
                                     if bs[i] == [] then o == 0
                                     else o != 0 && EncodesChain(d, o, klen, valLength, bs[i])
  }

  /** The bytes d encode these tables, in the terms of the format description. */
  ghost predicate Encodes(d: Bytes, slots: seq<TableSlot>, count: nat, valLength: nat) {
    && slots != []
    && HEADER_SIZE + |slots| * 4 <= |d| < CdbFile.LIMIT
    && At(d, 0, MAGIC)
    && Unpack(d, 8) == |d|
    && Unpack(d, 12) == count
    && Unpack(d, 16) == |slots| - 1
    && Unpack(d, 20) == valLength
    && forall k {:trigger slots[k]} :: 0 <= k < |slots| ==>
                                        var o := Unpack(d, HEADER_SIZE + k * 4);
                                        if slots[k].Missing? then o == 0
                                        else
                                          && o != 0 && slots[k].klen == k
                                          && EncodesTable(d, o, k, valLength, slots[k].buckets)
  }
}
