/** Serialising the tables: seeks back to patch an offset, then appends the region it points to. */
module CdbCompile {
  import opened Bytes
  import opened CdbModel
  import opened CdbTable
  import opened CdbFile
  import opened CdbFormat
  import CdbImage

  /** The C loop that puts a size in seven-bit groups, lowest first. */
  method CintPut(size: nat) returns (buf: Bytes)
    ensures buf == Varint(size)
  {
    var left, ch := size, 0;
    buf := [];
    while true
      invariant Varint(size) == buf + Varint(left)
      decreases left
    {
      ch := left % 128;
      left := left / 128;
      if left == 0 {
        ch := ch + 128;
      }
      buf := buf + [ch];
      if left == 0 {
        break;
      }
    }
  }

  /** The file holds these bytes and the cursor is behind them. */
  ghost predicate AtEnd(file: File, contents: Bytes)
    reads file, file.data
  {
    file.Valid() && file.cursor == file.size && file.Contents() == contents
  }

  method SeekEndTell(file: File, ghost contents: Bytes) returns (p: nat)
    requires AtEnd(file, contents)
    modifies file
    ensures AtEnd(file, contents) && file.data == old(file.data) && p == |contents|
  {
    file.Seek(0, SeekEnd);
    p := file.Tell();
  }

  /** Writes at the end of the file, where the cursor is. */
  method Append(file: File, bytes: Bytes, ghost before: Bytes)
    requires AtEnd(file, before) && |before| + |bytes| < LIMIT
    modifies file, file.data
    ensures AtEnd(file, before + bytes) && (file.data == old(file.data) || fresh(file.data))
  {
    OverwriteEnd(before, bytes);
    file.Write(bytes);
  }

  /** Seeks back to an empty slot of a table of records, fills it in and returns to the end. */
  method PatchSlot(file: File, slot: nat, v: nat,
                   ghost before: Bytes, ghost keys: seq<Bytes>, ghost offs: seq<nat>, ghost after: Bytes,
                   ghost klen: nat)
    requires AtEnd(file, before + Records(keys, offs) + after)
    requires AllOfLength(keys, klen) && |offs| < |keys|
    requires slot == |before| + |offs| * (klen + 4) + klen
    modifies file, file.data
    ensures AtEnd(file, before + Records(keys, offs + [v]) + after)
    ensures file.data == old(file.data) || fresh(file.data)
  {
    hide Pack, Records, Overwrite;
    PatchRecord(before, keys, offs, after, klen, v);
    SlotInside(before, keys, offs, after, klen);
    file.Seek(slot, SeekSet);
    file.Write(Pack(v));
    file.Seek(0, SeekEnd);
  }

  lemma SlotInside(before: Bytes, keys: seq<Bytes>, offs: seq<nat>, after: Bytes, klen: nat)
    requires AllOfLength(keys, klen) && |offs| < |keys|
    ensures |before| + |offs| * (klen + 4) + klen + 4 <= |before + Records(keys, offs) + after|
  {
    hide Records;
    RecordsLength(keys, offs, klen);
    RowsBelow(|offs|, |keys|, klen + 4);
  }

  lemma {:induction false} RowsBelow(i: nat, n: nat, w: nat)
    requires i < n
    ensures i * w + w <= n * w
  {
    if i + 1 < n { RowsBelow(i, n - 1, w); }
  }

  lemma RecordsPrefix(keys: seq<Bytes>, j: nat, klen: nat)
    requires j <= |keys| && AllOfLength(keys, klen)
    ensures |Records(keys[..j], [])| == j * (klen + 4) <= |Records(keys, [])|
    ensures j < |keys| ==> |Records(keys[..j], [])| + klen + 4 <= |Records(keys, [])|
    ensures Records(keys[..0], []) == []
  {
    RecordsLength(keys[..j], [], klen);
    RecordsLength(keys, [], klen);
    if j < |keys| { RowsBelow(j, |keys|, klen + 4); }
  }

  /** The records of a chain, with empty slots. */
  method WriteRecords(file: File, head: Node?, klen: nat, ghost nodes: seq<Node>, ghost c: Chain, ghost before: Bytes)
    requires AtEnd(file, before) && Linked(head, nodes, c) && Keyed(c, klen)
    requires |before + Records(KeysOf(c), [])| < LIMIT
    modifies file, file.data
    ensures AtEnd(file, before + Records(KeysOf(c), []))
    ensures file.data == old(file.data) || fresh(file.data)
  {
    hide Records, AtEnd;
    var node := head;
    ghost var j, keys := 0, KeysOf(c);
    CdbImage.KeysOfLength(c, klen);
    RecordsPrefix(keys, 0, klen);
    assert before + [] == before;
    while node != null
      invariant j <= |c| && node == NodeAt(nodes, j)
      invariant AtEnd(file, before + Records(keys[..j], []))
      invariant file.data == old(file.data) || fresh(file.data)
      decreases |c| - j
    {
      RecordsSnoc(keys, j);
      RecordsPrefix(keys, j, klen);
      ghost var now := before + Records(keys[..j], []);
      if klen > 0 {
        Append(file, node.key, now);
      } else {
        assert now + node.key == now;
      }
      assert Pack(0) == [0, 0, 0, 0];
      Append(file, [0, 0, 0, 0], now + node.key);
      assert now + node.key + Pack(0) == before + Records(keys[..j + 1], []);
      j, node := j + 1, node.next;
    }
    assert keys[..j] == keys;
  }

  /** Appends each non-empty value and patches its offset into its record. */
  method WriteValues(file: File, head: Node?, klen: nat, offset3: nat, ghost nodes: seq<Node>, ghost c: Chain,
      ghost before: Bytes)
    requires Linked(head, nodes, c) && Keyed(c, klen) && offset3 == |before|
    requires AtEnd(file, before + Records(KeysOf(c), []))
    requires |before + VariableRecords(klen, c, offset3)| < LIMIT
    modifies file, file.data
    ensures AtEnd(file, before + VariableRecords(klen, c, offset3))
    ensures file.data == old(file.data) || fresh(file.data)
  {
    hide Records, Regions, AtEnd, Start, Offsets, KeysOf, ValueBytes, Varint;
    var node, ni := head, 0;
    ghost var keys, values := KeysOf(c), offset3 + |c| * (klen + 4);
    CdbImage.KeysOfLength(c, klen);
    NoRegions(c, values, ValueBytes);
    assert before + Records(keys, []) + [] == before + Records(keys, []);
    while node != null
      invariant ni <= |c| && node == NodeAt(nodes, ni)
      invariant AtEnd(file, before + Records(keys, Offsets(c[..ni], values, ValueBytes)) +
                Regions(c[..ni], values, ValueBytes))
      invariant file.data == old(file.data) || fresh(file.data)
      decreases |c| - ni
    {
      WriteValue(file, node.val, klen, offset3 + (klen + 4) * ni + klen, c, ni, before);
      ni, node := ni + 1, node.next;
    }
    assert c[..ni] == c;
    assert before + Records(keys, Offsets(c, values, ValueBytes)) + Regions(c, values, ValueBytes)
        == before + VariableRecords(klen, c, offset3);
  }

  lemma NoRegions<T>(items: seq<T>, at: nat, render: (T, nat) -> Bytes)
    ensures Regions(items[..0], at, render) == [] && Offsets(items[..0], at, render) == []
  {
  }

  method WriteValue(file: File, val: Bytes, klen: nat, slot: nat, ghost c: Chain, ghost ni: nat, ghost before: Bytes)
    requires ni < |c| && val == c[ni].val && Keyed(c, klen)
    requires slot == |before| + (klen + 4) * ni + klen
    requires |before + VariableRecords(klen, c, |before|)| < LIMIT
    requires var values := |before| + |c| * (klen + 4);
             AtEnd(file, before + Records(KeysOf(c), Offsets(c[..ni], values, ValueBytes)) +
                 Regions(c[..ni], values, ValueBytes))
    modifies file, file.data
    ensures var values := |before| + |c| * (klen + 4);
            AtEnd(file, before + Records(KeysOf(c), Offsets(c[..ni + 1], values, ValueBytes)) +
                Regions(c[..ni + 1], values, ValueBytes))
    ensures file.data == old(file.data) || fresh(file.data)
  {
    hide Records, Regions, AtEnd, Offsets, KeysOf, Varint, Start, VariableRecords;
    ghost var values, keys := |before| + |c| * (klen + 4), KeysOf(c);
    ghost var offs, regions := Offsets(c[..ni], values, ValueBytes), Regions(c[..ni], values, ValueBytes);
    ghost var now := before + Records(keys, offs) + regions;
    ValueStep(before, c, klen, ni);
    var vlen := |val|;
    if vlen == 0 {
      assert regions + [] == regions;
      return;
    }
    var offset4 := SeekEndTell(file, now);
    var buf := CintPut(vlen);
    Append(file, buf, now);
    Append(file, val, now + buf);
    assert now + buf + val == before + Records(keys, offs) + (regions + (buf + val));
    PatchSlot(file, slot, offset4, before, keys, offs, regions + (buf + val), klen);
  }

  /** How the layout grows by the ni-th value. */
  lemma ValueStep(before: Bytes, c: Chain, klen: nat, ni: nat)
    requires ni < |c| && Keyed(c, klen)
    ensures var keys, values := KeysOf(c), |before| + |c| * (klen + 4);
            var offs, regions := Offsets(c[..ni], values, ValueBytes), Regions(c[..ni], values, ValueBytes);
            var now := before + Records(keys, offs) + regions;
            var region := ValueBytes(c[ni], |now|);
            && AllOfLength(keys, klen) && |offs| == ni < |keys| && (klen + 4) * ni == ni * (klen + 4)
            && |now + region| <= |before + VariableRecords(klen, c, |before|)|
            && Regions(c[..ni + 1], values, ValueBytes) == regions + region
            && Offsets(c[..ni + 1], values, ValueBytes) == offs + [if region == [] then 0 else |now|]
            && Records(keys, offs + [0]) == Records(keys, offs)
  {
    hide Records, Regions, Offsets, KeysOf, ValueBytes;
    var values, keys := |before| + |c| * (klen + 4), KeysOf(c);
    var offs := Offsets(c[..ni], values, ValueBytes);
    RegionsSnoc(c, values, ValueBytes, ni);
    RegionsGrow(c, values, ValueBytes, ni);
    CdbImage.KeysOfLength(c, klen);
    RecordsLength(keys, offs, klen);
    RecordsLength(keys, Offsets(c, values, ValueBytes), klen);
    RecordsZero(keys, offs);
  }

  /** Fixed-length values stand right behind their keys. */
  method WriteFixed(file: File, head: Node?, klen: nat, mode: Mode, ghost nodes: seq<Node>, ghost c: Chain,
      ghost before: Bytes)
    requires AtEnd(file, before) && Linked(head, nodes, c) && Keyed(c, klen)
    requires |before + Concat(FixedRows(mode, c))| < LIMIT
    modifies file, file.data
    ensures AtEnd(file, before + Concat(FixedRows(mode, c)))
    ensures file.data == old(file.data) || fresh(file.data)
  {
    hide Concat, AtEnd, CStr;
    var node := head;
    ghost var j, rows := 0, FixedRows(mode, c);
    RowsPrefix(rows, 0);
    assert before + [] == before;
    while node != null
      invariant j <= |c| && node == NodeAt(nodes, j)
      invariant AtEnd(file, before + Concat(rows[..j]))
      invariant file.data == old(file.data) || fresh(file.data)
      decreases |c| - j
    {
      RowsPrefix(rows, j);
      ghost var now := before + Concat(rows[..j]);
      var val := CStr(Entry(node.key, node.val), mode.valLength, mode.beyond);
      assert rows[j] == node.key + val;
      if klen > 0 {
        Append(file, node.key, now);
      } else {
        assert now + node.key == now;
      }
      if mode.valLength > 0 {
        Append(file, val, now + node.key);
      } else {
        assert now + node.key + val == now + node.key;
      }
      assert now + node.key + val == before + Concat(rows[..j + 1]);
      j, node := j + 1, node.next;
    }
    assert rows[..j] == rows;
  }

  lemma RowsPrefix(rows: seq<Bytes>, j: nat)
    requires j <= |rows|
    ensures j < |rows| ==>
              && Concat(rows[..j + 1]) == Concat(rows[..j]) + rows[j]
              && |Concat(rows[..j])| + |rows[j]| <= |Concat(rows)|
    ensures Concat(rows[..0]) == []
  {
    if j < |rows| {
      assert rows[..j + 1] == rows[..j] + [rows[j]] && rows == rows[..j + 1] + rows[j + 1..];
      ConcatAppend(rows[..j], [rows[j]]);
      assert Concat([rows[j]]) == rows[j] + Concat([]) == rows[j];
      ConcatAppend(rows[..j + 1], rows[j + 1..]);
    }
  }

  /** Appends the region of one bucket that is not empty. */
  method WriteBucket(file: File, head: Node?, klen: nat, mode: Mode, ghost nodes: seq<Node>, ghost c: Chain,
      ghost before: Bytes)
    requires AtEnd(file, before) && Linked(head, nodes, c) && Keyed(c, klen) && c != []
    requires |before + BucketBytes(klen, mode, c, |before|)| < LIMIT
    modifies file, file.data
    ensures AtEnd(file, before + BucketBytes(klen, mode, c, |before|))
    ensures file.data == old(file.data) || fresh(file.data)
  {
    hide Concat, AtEnd, Records, Regions, Offsets, FixedRows, Pack;
    var ncount, node := 0, head;
    while node != null
      invariant ncount <= |c| && node == NodeAt(nodes, ncount)
      decreases |c| - ncount
    {
      ncount, node := ncount + 1, node.next;
    }
    Append(file, Pack(ncount), before);
    ghost var now := before + Pack(ncount);
    if mode.valLength == VARIABLE {
      ghost var records := Records(KeysOf(c), []);
      assert now + VariableRecords(klen, c, |now|) == before + BucketBytes(klen, mode, c, |before|);
      VariableRecordsLength(c, klen, |now|);
      var offset3 := SeekEndTell(file, now);
      WriteRecords(file, head, klen, nodes, c, now);
      WriteValues(file, head, klen, offset3, nodes, c, now);
    } else {
      assert now + Concat(FixedRows(mode, c)) == before + BucketBytes(klen, mode, c, |before|);
      WriteFixed(file, head, klen, mode, nodes, c, now);
    }
  }

  lemma VariableRecordsLength(c: Chain, klen: nat, at: nat)
    requires Keyed(c, klen)
    ensures |Records(KeysOf(c), [])| <= |VariableRecords(klen, c, at)|
  {
    hide Records;
    CdbImage.KeysOfLength(c, klen);
    RecordsLength(KeysOf(c), [], klen);
    RecordsLength(KeysOf(c), Offsets(c, at + |c| * (klen + 4), ValueBytes), klen);
  }

  /** A row of empty slots. */
  method WriteSlots(file: File, n: nat, ghost before: Bytes)
    requires AtEnd(file, before) && |before| + n * 4 < LIMIT
    modifies file, file.data
    ensures AtEnd(file, before + Records(NoKeys(n), []))
    ensures file.data == old(file.data) || fresh(file.data)
  {
    hide Records, AtEnd;
    ghost var keys := NoKeys(n);
    CdbImage.NoKeysOfLength(n);
    RecordsPrefix(keys, 0, 0);
    RecordsLength(keys, [], 0);
    assert before + [] == before;
    for i := 0 to n
      invariant AtEnd(file, before + Records(keys[..i], []))
      invariant file.data == old(file.data) || fresh(file.data)
    {
      RecordsSnoc(keys, i);
      RecordsPrefix(keys, i, 0);
      assert Pack(0) == [0, 0, 0, 0];
      Append(file, [0, 0, 0, 0], before + Records(keys[..i], []));
      assert before + Records(keys[..i], []) + Pack(0) == before + Records(keys[..i + 1], []);
    }
    assert keys[..n] == keys;
  }

  /** The slots before and after the i-th region of a row of regions is appended. */
  ghost predicate RegionsWritten<T(!new)>(file: File, before: Bytes, items: seq<T>, first: nat,
      render: (T, nat) -> Bytes, i: nat)
    requires i <= |items|
    reads file, file.data
  {
    AtEnd(file, before + Records(NoKeys(|items|), Offsets(items[..i], first, render)) +
        Regions(items[..i], first, render))
  }

  /** An empty region: its slot is written again with 0. */
  method SkipRegion<T(!new)>(file: File, slot: nat, ghost before: Bytes, ghost items: seq<T>, ghost first: nat,
                             ghost render: (T, nat) -> Bytes, ghost i: nat)
    requires i < |items| && first == |before| + |items| * 4 && slot == |before| + i * 4
    requires RegionsWritten(file, before, items, first, render, i)
    requires render(items[i], Start(items, first, render, i)) == []
    modifies file, file.data
    ensures RegionsWritten(file, before, items, first, render, i + 1)
    ensures file.data == old(file.data) || fresh(file.data)
  {
    hide Records, Regions, Offsets, Start, AtEnd;
    ghost var keys, offs, regions := NoKeys(|items|), Offsets(items[..i], first, render),
        Regions(items[..i], first, render);
    CdbImage.NoKeysOfLength(|items|);
    RegionsSnoc(items, first, render, i);
    assert Regions(items[..i + 1], first, render) == regions;
    PatchSlot(file, slot, 0, before, keys, offs, regions, 0);
  }

  /** Patches the slot of the region that is appended next. */
  method OpenRegion<T(!new)>(file: File, slot: nat, ghost before: Bytes, ghost items: seq<T>, ghost first: nat,
                             ghost render: (T, nat) -> Bytes, ghost i: nat)
    requires i < |items| && first == |before| + |items| * 4 && slot == |before| + i * 4
    requires RegionsWritten(file, before, items, first, render, i)
    requires render(items[i], Start(items, first, render, i)) != []
    modifies file, file.data
    ensures file.data == old(file.data) || fresh(file.data)
    ensures var now := before + Records(NoKeys(|items|), Offsets(items[..i + 1], first, render)) +
            Regions(items[..i], first, render);
            AtEnd(file, now) && |now| == Start(items, first, render, i)
  {
    hide Records, Regions, Offsets, AtEnd;
    ghost var keys, offs, regions := NoKeys(|items|), Offsets(items[..i], first, render),
        Regions(items[..i], first, render);
    CdbImage.NoKeysOfLength(|items|);
    RegionsSnoc(items, first, render, i);
    RecordsLength(keys, offs, 0);
    RecordsLength(keys, Offsets(items[..i + 1], first, render), 0);
    var offset := SeekEndTell(file, before + Records(keys, offs) + regions);
    PatchSlot(file, slot, offset, before, keys, offs, regions, 0);
  }

  /** Appending the region behind its patched slot completes the step. */
  lemma CloseRegion<T(!new)>(file: File, before: Bytes, items: seq<T>, first: nat, render: (T, nat) -> Bytes, i: nat)
    requires i < |items| && first == |before| + |items| * 4
    requires var now := before + Records(NoKeys(|items|), Offsets(items[..i + 1], first, render)) +
             Regions(items[..i], first, render);
             AtEnd(file, now + render(items[i], Start(items, first, render, i)))
    ensures RegionsWritten(file, before, items, first, render, i + 1)
  {
    hide Records, Regions, Offsets, AtEnd;
    RegionsSnoc(items, first, render, i);
    var a, b, c := before + Records(NoKeys(|items|), Offsets(items[..i + 1], first, render)),
                   Regions(items[..i], first, render), render(items[i], Start(items, first, render, i));
    assert a + b + c == a + (b + c);
  }

  /** The region of one table: its size, the slots of its buckets and their regions. */
  method WriteTable(file: File, hv: array<Node?>, klen: nat, mode: Mode,
                    ghost chains: seq<seq<Node>>, ghost bs: Buckets, ghost before: Bytes)
    requires AtEnd(file, before) && LinkedAll(hv, chains, bs)
    requires forall i :: 0 <= i < |bs| ==> Keyed(bs[i], klen)
    requires |before + TableBytes(mode, Present(klen, bs), |before|)| < LIMIT
    modifies file, file.data
    ensures AtEnd(file, before + TableBytes(mode, Present(klen, bs), |before|))
    ensures file.data == old(file.data) || fresh(file.data)
  {
    hide Records, Regions, Offsets, AtEnd, RegionsWritten, Pack, BucketBytes, Linked;
    var n := hv.Length;
    ghost var now, r := before + Pack(n), BucketRender(klen, mode);
    ghost var first := |now| + n * 4;
    TableParts(mode, klen, bs, before);
    Append(file, Pack(n), before);
    var offset1 := SeekEndTell(file, now);
    WriteSlots(file, n, now);
    NothingWritten(file, now, bs, first, r);
    for hi := 0 to n
      invariant LinkedAll(hv, chains, bs)
      invariant RegionsWritten(file, now, bs, first, r, hi)
      invariant file.data == old(file.data) || fresh(file.data)
    {
      assert Linked(hv[hi], chains[hi], bs[hi]);
      var head := hv[hi];
      EmptyBucket(head, chains[hi], bs[hi], klen, mode, Start(bs, first, r, hi));
      if head == null {
        SkipRegion(file, offset1 + 4 * hi, now, bs, first, r, hi);
      } else {
        OpenRegion(file, offset1 + 4 * hi, now, bs, first, r, hi);
        BucketStep(mode, klen, bs, before, hi);
        WriteBucket(file, head, klen, mode, chains[hi], bs[hi],
                    now + Records(NoKeys(n), Offsets(bs[..hi + 1], first, r)) + Regions(bs[..hi], first, r));
        CloseRegion(file, now, bs, first, r, hi);
      }
    }
    AllWritten(file, now, bs, first, r);
  }

  lemma EmptyBucket(head: Node?, nodes: seq<Node>, c: Chain, klen: nat, mode: Mode, at: nat)
    requires Linked(head, nodes, c)
    ensures head == null <==> c == []
    ensures c == [] <==> BucketRender(klen, mode)(c, at) == []
  {
  }

  lemma TableParts(mode: Mode, klen: nat, bs: Buckets, before: Bytes)
    ensures var n, now, r := |bs|, before + Pack(|bs|), BucketRender(klen, mode);
            var first := |now| + n * 4;
            var table := before + TableBytes(mode, Present(klen, bs), |before|);
            && table == now + Records(NoKeys(n), Offsets(bs, first, r)) + Regions(bs, first, r)
            && first <= |table|
  {
    hide Records, Regions, Offsets, Pack;
    var n, r := |bs|, BucketRender(klen, mode);
    var first := |before| + 4 + n * 4;
    CdbImage.NoKeysOfLength(n);
    RecordsLength(NoKeys(n), Offsets(bs, first, r), 0);
    var a, b, c := Pack(n), Records(NoKeys(n), Offsets(bs, first, r)), Regions(bs, first, r);
    assert before + (a + b + c) == before + a + b + c;
  }

  /** There is room for every bucket that the layout calls for. */
  lemma BucketStep(mode: Mode, klen: nat, bs: Buckets, before: Bytes, hi: nat)
    requires hi < |bs|
    ensures var n, now, r := |bs|, before + Pack(|bs|), BucketRender(klen, mode);
            var first := |now| + n * 4;
            var w := now + Records(NoKeys(n), Offsets(bs[..hi + 1], first, r)) + Regions(bs[..hi], first, r);
            && |w| == Start(bs, first, r, hi)
            && |w + BucketBytes(klen, mode, bs[hi], |w|)| <= |before + TableBytes(mode, Present(klen, bs), |before|)|
  {
    hide Records, Regions, Offsets, Pack, BucketBytes;
    var n, now, r := |bs|, before + Pack(|bs|), BucketRender(klen, mode);
    var first := |now| + n * 4;
    TableParts(mode, klen, bs, before);
    CdbImage.NoKeysOfLength(n);
    RecordsLength(NoKeys(n), Offsets(bs[..hi + 1], first, r), 0);
    RecordsLength(NoKeys(n), Offsets(bs, first, r), 0);
    RegionsSnoc(bs, first, r, hi);
    RegionsGrow(bs, first, r, hi);
  }

  lemma NothingWritten<T(!new)>(file: File, before: Bytes, items: seq<T>, first: nat, render: (T, nat) -> Bytes)
    requires AtEnd(file, before + Records(NoKeys(|items|), []))
    ensures RegionsWritten(file, before, items, first, render, 0)
  {
    hide Records, AtEnd;
    NoRegions(items, first, render);
    assert before + Records(NoKeys(|items|), []) + [] == before + Records(NoKeys(|items|), []);
  }

  lemma AllWritten<T(!new)>(file: File, before: Bytes, items: seq<T>, first: nat, render: (T, nat) -> Bytes)
    requires RegionsWritten(file, before, items, first, render, |items|)
    ensures AtEnd(file, before + Records(NoKeys(|items|), Offsets(items, first, render)) +
            Regions(items, first, render))
  {
    assert items[..|items|] == items;
  }
}
