/** The walker: a triple loop over lengths, buckets and records that stops and resumes at every record. */
module CdbWalker {
  import opened Bytes
  import opened CdbModel
  import opened CdbFormat
  import opened CdbReader

  /** All entries of the tables for keys shorter than n, in the order of the image. */
  function EntriesBelow(slots: seq<TableSlot>, n: nat): Chain
    requires n <= |slots|
  {
    if n == 0 then []
    else EntriesBelow(slots, n - 1) + if slots[n - 1].Missing? then [] else Flatten(slots[n - 1].buckets)
  }

  function AllEntries(slots: seq<TableSlot>): Chain {
    EntriesBelow(slots, |slots|)
  }

  lemma {:induction false} EntriesBelowGrow(slots: seq<TableSlot>, k: nat, n: nat)
    requires k <= n <= |slots|
    ensures |EntriesBelow(slots, k)| <= |EntriesBelow(slots, n)|
    ensures EntriesBelow(slots, n)[..|EntriesBelow(slots, k)|] == EntriesBelow(slots, k)
  {
    if k < n { EntriesBelowGrow(slots, k, n - 1); }
  }

  lemma {:induction false} FlattenGrow(bs: Buckets, i: nat, n: nat)
    requires i <= n <= |bs|
    ensures |Flatten(bs[..i])| <= |Flatten(bs[..n])|
    ensures Flatten(bs[..n])[..|Flatten(bs[..i])|] == Flatten(bs[..i])
  {
    if i < n {
      assert bs[..n][..n - 1] == bs[..n - 1];
      FlattenGrow(bs, i, n - 1);
    }
  }

  lemma FlattenNext(bs: Buckets, i: nat)
    requires i < |bs|
    ensures Flatten(bs[..i + 1]) == Flatten(bs[..i]) + bs[i]
  {
    assert bs[..i + 1][..i] == bs[..i];
  }

  /** The entry at a place in the triple loop is the one at its position in the whole. */
  lemma EntryAtPlace(slots: seq<TableSlot>, k: nat, i: nat, j: nat)
    requires k < |slots| && slots[k].Present? && i < |slots[k].buckets| && j < |slots[k].buckets[i]|
    ensures var p := |EntriesBelow(slots, k)| + |Flatten(slots[k].buckets[..i])| + j;
            p < |AllEntries(slots)| && AllEntries(slots)[p] == slots[k].buckets[i][j]
  {
    hide EntriesBelow, Flatten;
    var bs := slots[k].buckets;
    var a, b := |EntriesBelow(slots, k)|, |Flatten(bs[..i])|;
    FlattenNext(bs, i);
    FlattenGrow(bs, i + 1, |bs|);
    TableDone(slots, k);
    EntriesBelowGrow(slots, k + 1, |slots|);
    IndexInPrefix(Flatten(bs), Flatten(bs[..i + 1]), b + j);
    IndexInPrefix(AllEntries(slots), EntriesBelow(slots, k + 1), a + (b + j));
  }

  lemma IndexInPrefix(s: Chain, t: Chain, i: nat)
    requires |t| <= |s| && s[..|t|] == t && i < |t|
    ensures s[i] == t[i]
  {
    assert s[i] == s[..|t|][i];
  }

  /** The entries for one more key length. */
  lemma TableDone(slots: seq<TableSlot>, k: nat)
    requires k < |slots|
    ensures slots[k].Missing? ==> EntriesBelow(slots, k + 1) == EntriesBelow(slots, k)
    ensures slots[k].Present? ==> var bs := slots[k].buckets;
                                  && EntriesBelow(slots, k + 1) == EntriesBelow(slots, k) + Flatten(bs)
                                  && bs[..|bs|] == bs && Flatten(bs[..0]) == []
  {
  }

  class Walker {
    var reader: Reader?
    var klen: int
    var hashVectorData: nat
    var hashVectorSize: nat
    var hashVectorI: int
    var ndata: nat
    var ncount: nat
    var ni: int

    constructor ()
      ensures reader == null && klen == -1
    {
      reader := null;
      klen, hashVectorData, hashVectorSize, hashVectorI, ndata, ncount, ni := -1, 0, 0, 0, 0, 0, 0;
    }

    method SetReader(r: Reader)
      modifies this`reader, this`klen
      ensures reader == r && klen == -1
    {
      reader := r;
      klen := -1;
    }

    method Reset()
      modifies this`klen, this`hashVectorData, this`hashVectorSize, this`hashVectorI, this`ndata, this`ncount, this`ni
      ensures klen == -1 && reader == old(reader)
    {
      klen, hashVectorData, hashVectorSize, hashVectorI, ndata, ncount, ni := -1, 0, 0, 0, 0, 0, 0;
    }

    /** The fields of the inner loops point into the image, as far as they are set. */
    ghost predicate Inside(slots: seq<TableSlot>)
      requires reader != null
      reads this, reader
    {
      && reader.Reads(slots)
      && 0 <= klen <= |slots| && -1 <= hashVectorI
      && (hashVectorI >= 0 ==>
            && klen < |slots| && slots[klen].Present?
            && var bs := slots[klen].buckets;
               && hashVectorSize == |bs| && hashVectorI <= |bs| && 4 <= hashVectorData
               && EncodesTable(reader.data, hashVectorData - 4, klen, reader.valLength, bs)
               && -1 <= ni
               && (ni >= 0 ==>
                     && hashVectorI < |bs| && ni <= |bs[hashVectorI]| == ncount && 4 <= ndata
                     && EncodesChain(reader.data, ndata - 4, klen, reader.valLength, bs[hashVectorI])))
    }

    /** How many entries stand before the place the fields point to. */
    ghost function Place(slots: seq<TableSlot>): nat
      requires reader != null && Inside(slots)
      reads this, reader
    {
      |EntriesBelow(slots, klen)| +
      if hashVectorI < 0 then 0
      else |Flatten(slots[klen].buckets[..hashVectorI])| + if ni < 0 then 0 else ni
    }

    /** Between two calls. */
    ghost predicate Valid(slots: seq<TableSlot>)
      reads this, if reader == null then {} else {reader}
    {
      reader != null && reader.Reads(slots)
      && (klen == -1 || klen == -2 || (Inside(slots) && hashVectorI >= 0 && ni >= 0))
    }

    /** How many entries have been handed out since the last reset. */
    ghost function Position(slots: seq<TableSlot>): nat
      requires Valid(slots)
      reads this, if reader == null then {} else {reader}
    {
      if klen == -1 then 0 else if klen == -2 then |AllEntries(slots)| else Place(slots)
    }

    method EnterBucket(ghost slots: seq<TableSlot>, offset: nat)
      requires reader != null && Inside(slots) && 0 <= hashVectorI < hashVectorSize && ni == -1
      requires EncodesChain(reader.data, offset, klen, reader.valLength, slots[klen].buckets[hashVectorI])
      modifies this`ndata, this`ncount, this`ni
      ensures Inside(slots) && ni == 0 && Place(slots) == old(Place(slots))
    {
      hide Encodes, EncodesTable, EncodesChain, Flatten, EntriesBelow;
      ChainCount(reader.data, offset, klen, reader.valLength, slots[klen].buckets[hashVectorI]);
      ndata, ncount, ni := offset + 4, Unpack(reader.data, offset), 0;
    }

    /** The innermost loop: the next record of the current bucket, or on to the next bucket. */
    method WalkBucket(ghost slots: seq<TableSlot>) returns (found: bool, entry: Entry)
      requires reader != null && Inside(slots) && 0 <= hashVectorI < hashVectorSize
      modifies this`hashVectorI, this`ndata, this`ncount, this`ni
      ensures Inside(slots) && hashVectorI >= 0
      ensures if found then ni >= 0 && Place(slots) == old(Place(slots)) + 1
                            && old(Place(slots)) < |AllEntries(slots)| && entry == AllEntries(slots)[old(Place(slots))]
              else ni == -1 && hashVectorI == old(hashVectorI) + 1 && Place(slots) == old(Place(slots))
    {
      hide Encodes, EncodesTable, EncodesChain, EncodesRecord, EntriesBelow, AllEntries, Flatten;
      found, entry := false, Entry([], []);
      ghost var bs := slots[klen].buckets;
      FlattenNext(bs, hashVectorI);
      assert 4 + (hashVectorData - 4) == hashVectorData;
      BucketFacts(reader.data, hashVectorData - 4, klen, reader.valLength, bs, hashVectorI);
      var offset := Unpack(reader.data, hashVectorData + 4 * hashVectorI);
      if offset == 0 {
        BucketIsEmpty(reader.data, ndata - 4, klen, reader.valLength, bs[hashVectorI], ni);
        hashVectorI := hashVectorI + 1;
        return;
      }
      if ni == -1 {
        EnterBucket(slots, offset);
      }
      if ni < ncount {
        EntryAtPlace(slots, klen, hashVectorI, ni);
        entry := GetNext(slots, bs[hashVectorI]);
        ni := ni + 1;
        return true, entry;
      }
      ni := -1;
      hashVectorI := hashVectorI + 1;
    }

    /** Key and value of the record with the current number. */
    method GetNext(ghost slots: seq<TableSlot>, ghost c: Chain) returns (entry: Entry)
      requires reader != null && 0 <= klen && 4 <= ndata && 0 <= ni < |c|
      requires EncodesChain(reader.data, ndata - 4, klen, reader.valLength, c)
      ensures entry == c[ni]
    {
      hide EncodesChain, EncodesRecord, Stride;
      var data := ndata + ni * Stride(klen, reader.valLength);
      RecordKey(reader.data, ndata - 4, klen, reader.valLength, c, ni);
      var key := reader.data[data..data + klen];
      var val := reader.ReadValue(data + klen, c[ni]);
      entry := Entry(key, val.value);
    }

    method EnterTable(ghost slots: seq<TableSlot>, offset: nat)
      requires reader != null && Inside(slots) && klen < |slots| && slots[klen].Present? && hashVectorI == -1
      requires EncodesTable(reader.data, offset, klen, reader.valLength, slots[klen].buckets)
      modifies this`hashVectorData, this`hashVectorSize, this`hashVectorI, this`ni
      ensures Inside(slots) && hashVectorI == 0 && ni == -1 && Place(slots) == old(Place(slots))
    {
      hide EncodesChain, Encodes;
      assert slots[klen].buckets[..0] == [];
      hashVectorData := offset + 4;
      hashVectorSize := Unpack(reader.data, hashVectorData - 4);
      hashVectorI, ni := 0, -1;
    }

    /** The middle loop: the next record of the current table, or on to the next length. */
    method WalkTable(ghost slots: seq<TableSlot>) returns (found: bool, entry: Entry)
      requires reader != null && Inside(slots) && klen < |slots|
      modifies this`klen, this`hashVectorData, this`hashVectorSize, this`hashVectorI, this`ndata, this`ncount, this`ni
      ensures Inside(slots)
      ensures if found then hashVectorI >= 0 && ni >= 0 && Place(slots) == old(Place(slots)) + 1
                            && old(Place(slots)) < |AllEntries(slots)| && entry == AllEntries(slots)[old(Place(slots))]
              else klen == old(klen) + 1 && hashVectorI == -1 && Place(slots) == old(Place(slots))
    {
      hide Encodes, EncodesTable, EncodesChain, AllEntries, EntriesBelow, Flatten;
      TableDone(slots, klen);
      found, entry := false, Entry([], []);
      ghost var p := Place(slots);
      SlotFacts(reader.data, slots, reader.count, reader.valLength, klen);
      var offset := Unpack(reader.data, HEADER_SIZE + 4 * klen);
      if offset == 0 {
        klen := klen + 1;
        return;
      }
      ghost var bs := slots[klen].buckets;
      if hashVectorI == -1 {
        EnterTable(slots, offset);
      }
      while hashVectorI < hashVectorSize
        invariant Inside(slots) && hashVectorI >= 0 && klen == old(klen) && Place(slots) == p
        invariant hashVectorI == hashVectorSize ==> ni == -1
        decreases hashVectorSize - hashVectorI
      {
        found, entry := WalkBucket(slots);
        if found {
          return;
        }
      }
      hashVectorI := -1;
      klen := klen + 1;
    }

    /** Hands out the next entry, or 0 from the end on. */
    method Walk(ghost slots: seq<TableSlot>) returns (ret: int, entry: Entry)
      requires Valid(slots)
      modifies this`klen, this`hashVectorData, this`hashVectorSize, this`hashVectorI, this`ndata, this`ncount, this`ni
      ensures Valid(slots)
      ensures var p, all := old(Position(slots)), AllEntries(slots);
              if p < |all| then ret == 1 && entry == all[p] && Position(slots) == p + 1
              else ret == 0 && Position(slots) == p
    {
      ret, entry := 0, Entry([], []);
      if klen == -2 {
        return;
      }
      if klen == -1 {
        klen, hashVectorI, ni := 0, -1, -1;
      }
      ghost var p := old(Position(slots));
      while klen <= reader.maxKeyLength
        invariant Inside(slots) && Place(slots) == p && klen <= |slots|
        invariant klen == |slots| ==> hashVectorI == -1
        decreases |slots| - klen
      {
        var found;
        found, entry := WalkTable(slots);
        if found {
          return 1, entry;
        }
      }
      klen := -2;
    }
  }

  lemma ChainCount(d: Bytes, p: nat, klen: nat, valLength: nat, c: Chain)
    requires EncodesChain(d, p, klen, valLength, c)
    ensures p + 4 <= |d| && Unpack(d, p) == |c|
  {
  }

  lemma BucketIsEmpty(d: Bytes, p: int, klen: nat, valLength: nat, c: Chain, ni: int)
    requires c == []
    ensures p < 0 || !EncodesChain(d, p, klen, valLength, c)
  {
  }
}
