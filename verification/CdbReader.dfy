/** The reader: from the offset table to the hash vector, the binary search and the value. */
module CdbReader {
  import opened Bytes
  import opened Options
  import opened CdbModel
  import opened CdbFormat
  import Bits

  /** The bucket the reader looks in: unlike the builder, it takes the hash of the empty key to be 0. */
  function ReaderBucket(key: Bytes, size: nat): (i: nat)
    requires size > 0
    ensures i < size
  {
    if key == [] then 0 else BucketOf(key, size)
  }

  /** What a reader of these tables finds under a key. */
  function ReaderGet(slots: seq<TableSlot>, key: Bytes): Option<Bytes> {
    if |key| >= |slots| || slots[|key|].Missing? || slots[|key|].buckets == [] then None
    else
      var bs := slots[|key|].buckets;
      GetChain(bs[ReaderBucket(key, |bs|)], key)
  }

  ghost predicate SortedSlots(slots: seq<TableSlot>) {
    forall k, i :: 0 <= k < |slots| && slots[k].Present? && 0 <= i < |slots[k].buckets| ==>
        Sorted(slots[k].buckets[i], slots[k].klen)
  }

  /** The groups decoded so far, and what is left of the number above them. */
  ghost predicate Partly(size: nat, shift: nat, left: nat, total: nat) {
    size < Bits.Pow2(shift) && size + Bits.Pow2(shift) * left == total
  }

  /** Decodes the length in front of a value; the value itself stands right behind it. */
  method DecodeSize(data: Bytes, at: nat, ghost val: Bytes) returns (p: nat, size: nat)
    requires At(data, at, Varint(|val|) + val)
    ensures size == |val| && At(data, p, val)
  {
    hide At, Varint, Bits.Or, Bits.ShiftLeft, Partly;
    ghost var left: nat := |val|;
    var shift := 0;
    p, size := at, 0;
    NothingDecoded(|val|);
    while true
      invariant At(data, p, Varint(left) + val)
      invariant Partly(size, shift, left, |val|)
      decreases left
    {
      VarintStep(data, p, left, val);
      OrGroup(size, shift, left, |val|);
      var ch := data[p];
      p := p + 1;
      size := Bits.Or(size, Bits.ShiftLeft(ch % 128, shift));
      if ch >= 128 {
        break;
      }
      left, shift := left / 128, shift + 7;
    }
  }

  lemma NothingDecoded(total: nat)
    ensures Partly(0, 0, total, total)
  {
  }

  /** The lowest seven bits of what is left are or-ed in above those that are there. */
  lemma OrGroup(size: nat, shift: nat, left: nat, total: nat)
    requires Partly(size, shift, left, total)
    ensures var more := Bits.Or(size, Bits.ShiftLeft(left % 128, shift));
            Partly(more, shift + 7, left / 128, total) && (left < 128 ==> more == total)
  {
    hide Bits.Or, Bits.ShiftLeft, Bits.Pow2;
    var scale, low, high := Bits.Pow2(shift), left % 128, left / 128;
    Bits.OrSeven(size, low, shift);
    assert left == 128 * high + low;
    Distribute(scale, high, low);
  }

  lemma Distribute(scale: nat, high: nat, low: nat)
    ensures scale * (128 * high + low) == (128 * scale) * high + low * scale
    ensures high == 0 ==> (128 * scale) * high == 0
  {
    assert scale * (128 * high) == (128 * scale) * high;
  }

  /** One step of the decoder. */
  lemma VarintStep(data: Bytes, p: nat, n: nat, rest: Bytes)
    requires At(data, p, Varint(n) + rest)
    ensures p < |data| && data[p] == if n < 128 then n + 128 else n % 128
    ensures At(data, p + 1, if n < 128 then rest else Varint(n / 128) + rest)
  {
    assert data[p] == (Varint(n) + rest)[0];
    if n < 128 {
      AtSplit(data, p, [n + 128], rest);
    } else {
      assert Varint(n) + rest == [n % 128] + (Varint(n / 128) + rest);
      AtSplit(data, p, [n % 128], Varint(n / 128) + rest);
    }
  }

  class Reader {
    var data: Bytes
    var maxKeyLength: nat
    var valLength: nat
    var count: nat
    var used: bool

    /** The fields agree with an image that encodes these tables. */
    ghost predicate Reads(slots: seq<TableSlot>)
      reads this
    {
      && Encodes(data, slots, count, valLength)
      && maxKeyLength == |slots| - 1
      && SortedSlots(slots)
    }

    constructor ()
      ensures !used
    {
      data, maxKeyLength, valLength, count, used := [], 0, 0, 0, false;
    }

    /** Accepts exactly the data that carries the file type and version. */
    method OpenData(bytes: Bytes) returns (ok: bool)
      requires |bytes| >= HEADER_SIZE
      modifies this
      ensures ok <==> At(bytes, 0, MAGIC)
      ensures ok ==> used && data == bytes && count == Unpack(bytes, 12)
      ensures ok ==> forall slots, n, vl :: Encodes(bytes, slots, n, vl) && SortedSlots(slots) ==> Reads(slots)
      ensures !ok ==> !used
    {
      if used {
        used := false;
      }
      if bytes[0..4] != MAGIC[0..4] || bytes[4..8] != MAGIC[4..8] {
        assert bytes[0..4] == bytes[0..8][0..4] && bytes[4..8] == bytes[0..8][4..8];
        return false;
      }
      assert bytes[0..8] == bytes[0..4] + bytes[4..8];
      data := bytes;
      count, maxKeyLength, valLength := Unpack(bytes, 12), Unpack(bytes, 16), Unpack(bytes, 20);
      used := true;
      ok := true;
    }

    method GetCount() returns (n: nat)
      ensures n == count
    {
      n := count;
    }

    /** Binary search for the key among the records of one bucket. */
    method Search(key: Bytes, p: nat, ncount: nat, ghost c: Chain) returns (found: bool, keyP: nat, ghost j: nat)
      requires EncodesChain(data, p, |key|, valLength, c) && Sorted(c, |key|) && ncount == |c|
      ensures found <==> GetChain(c, key).Some?
      ensures found ==> j < |c| && c[j].key == key && keyP == p + 4 + j * Stride(|key|, valLength)
    {
      hide Memcmp, Sorted, EncodesRecord, GetChain, Stride;
      var klen, first := |key|, p + 4;
      var stride := Stride(klen, valLength);
      var left, right := 0, ncount - 1;
      found, keyP, j := false, 0, 0;
      while left <= right
        invariant 0 <= left <= right + 1 <= |c|
        invariant forall i :: 0 <= i < left ==> Memcmp(key, c[i].key) > 0
        invariant forall i :: right < i < |c| ==> Memcmp(key, c[i].key) < 0
        decreases right - left
      {
        var middle := (left + right) / 2;
        keyP := first + middle * stride;
        RecordKey(data, p, klen, valLength, c, middle);
        var r := Memcmp(key, data[keyP..keyP + klen]);
        if r == 0 {
          GetChainComplete(c, middle);
          found, j := true, middle;
          return;
        }
        if r < 0 {
          AfterSlotLarger(c, key, middle);
          right := middle - 1;
        } else {
          BeforeSlotSmaller(c, key, middle);
          left := middle + 1;
        }
      }
      NotFound(c, key, left);
    }

    /** Finds the value of a key: null where there is none. */
    method Find(key: Bytes, ghost slots: seq<TableSlot>) returns (r: Option<Bytes>)
      requires Reads(slots)
      ensures r == ReaderGet(slots, key)
    {
      hide Encodes, EncodesTable, EncodesChain, EncodesRecord, Sorted, GetChain, BucketOf;
      var klen := |key|;
      ImageFacts(data, slots, count, valLength);
      if klen > maxKeyLength {
        return None;
      }
      SlotFacts(data, slots, count, valLength, klen);
      var offset := Unpack(data, HEADER_SIZE + 4 * klen);
      if offset == 0 {
        return None;
      }
      ghost var bs := slots[klen].buckets;
      var size := Unpack(data, offset);
      var hash := 0;
      if klen > 0 {
        hash := ComputeBucket(key, size);
      }
      BucketFacts(data, offset, klen, valLength, bs, hash);
      offset := Unpack(data, offset + 4 + 4 * hash);
      if offset == 0 {
        EmptyChain(key);
        return None;
      }
      r := FindInChain(key, offset, bs[hash]);
    }

    /** Searches one bucket that is not empty. */
    method FindInChain(key: Bytes, p: nat, ghost c: Chain) returns (r: Option<Bytes>)
      requires EncodesChain(data, p, |key|, valLength, c) && Sorted(c, |key|)
      ensures r == GetChain(c, key)
    {
      hide Memcmp, SlotOf, EncodesRecord;
      var ncount := Unpack(data, p);
      if ncount < 1 {
        return None;
      }
      var found, keyP, j := Search(key, p, ncount, c);
      if !found {
        return None;
      }
      GetChainComplete(c, j);
      RecordKey(data, p, |key|, valLength, c, j);
      r := ReadValue(keyP + |key|, c[j]);
    }

    /** Reads the value behind a record's key. */
    method ReadValue(v: nat, ghost e: Entry) returns (r: Option<Bytes>)
      requires v >= |e.key| && EncodesRecord(data, v - |e.key|, valLength, e)
      ensures r == Some(e.val)
    {
      if valLength == VARIABLE {
        var offset := Unpack(data, v);
        if offset == 0 {
          return Some([]);
        }
        var p, size := DecodeSize(data, offset, e.val);
        return Some(data[p..p + size]);
      }
      return Some(data[v..v + valLength]);
    }
  }

  lemma RecordKey(d: Bytes, p: nat, klen: nat, valLength: nat, c: Chain, i: nat)
    requires EncodesChain(d, p, klen, valLength, c) && i < |c|
    ensures var q := p + 4 + i * Stride(klen, valLength);
            && q + klen <= |d| && d[q..q + klen] == c[i].key
            && EncodesRecord(d, q, valLength, c[i])
  {
    assert EncodesRecord(d, p + 4 + i * Stride(klen, valLength), valLength, c[i]);
  }

  lemma EmptyChain(key: Bytes)
    ensures GetChain([], key) == None
  {
  }

  lemma ImageFacts(d: Bytes, slots: seq<TableSlot>, count: nat, valLength: nat)
    requires Encodes(d, slots, count, valLength)
    ensures |slots| > 0 && HEADER_SIZE + |slots| * 4 <= |d|
  {
  }

  lemma SlotFacts(d: Bytes, slots: seq<TableSlot>, count: nat, valLength: nat, k: nat)
    requires Encodes(d, slots, count, valLength) && k < |slots|
    ensures HEADER_SIZE + 4 * k + 4 <= |d|
    ensures var o := Unpack(d, HEADER_SIZE + 4 * k);
            if slots[k].Missing? then o == 0
            else o != 0 && slots[k].klen == k && EncodesTable(d, o, k, valLength, slots[k].buckets)
                 && o + 4 <= |d| && Unpack(d, o) == |slots[k].buckets| > 0
  {
    assert 4 * k == k * 4 && slots[k] == slots[k];
  }

  lemma BucketFacts(d: Bytes, p: nat, klen: nat, valLength: nat, bs: Buckets, i: nat)
    requires EncodesTable(d, p, klen, valLength, bs) && i < |bs|
    ensures p + 4 + 4 * i + 4 <= |d|
    ensures var o := Unpack(d, p + 4 + 4 * i);
            if o == 0 then bs[i] == [] else EncodesChain(d, o, klen, valLength, bs[i]) && o + 4 <= |d|
  {
    assert 4 * i == i * 4 && bs[i] == bs[i];
  }

  lemma BeforeSlotSmaller(c: Chain, key: Bytes, p: nat)
    requires Sorted(c, |key|) && p < |c| && Memcmp(key, c[p].key) > 0
    ensures forall j :: 0 <= j <= p ==> Memcmp(key, c[j].key) > 0
  {
    hide Memcmp;
    forall j | 0 <= j < p ensures Memcmp(key, c[j].key) > 0 {
      MemcmpAntisymmetric(c[p].key, key);
      MemcmpTransitive(c[j].key, c[p].key, key);
      MemcmpAntisymmetric(c[j].key, key);
    }
  }

  lemma NotFound(c: Chain, key: Bytes, left: nat)
    requires left <= |c|
    requires forall i :: 0 <= i < left ==> Memcmp(key, c[i].key) > 0
    requires forall i :: left <= i < |c| ==> Memcmp(key, c[i].key) < 0
    ensures GetChain(c, key) == None
  {
    SlotOfUnique(c, key, left);
  }
}
