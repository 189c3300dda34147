/** Hash tables with sorted chains, as values: what cdb_builder keeps for the keys of one length. */
module CdbModel {
  import opened Bytes
  import opened Options

  datatype Entry = Entry(key: Bytes, val: Bytes)

  type Chain = seq<Entry>

  type Buckets = seq<Chain>

  /** The bucket vector a table starts with. */
  const INITIAL_SIZE: nat := 3

  // ---- one chain ----

  predicate Keyed(c: Chain, klen: nat) {
    forall j :: 0 <= j < |c| ==> |c[j].key| == klen
  }

  ghost predicate Sorted(c: Chain, klen: nat) {
    && Keyed(c, klen)
    && forall i, j :: 0 <= i < j < |c| ==> Memcmp(c[i].key, c[j].key) < 0
  }

  /** The first position whose key is not smaller than the given key. */
  function SlotOf(c: Chain, key: Bytes): (p: nat)
    ensures p <= |c|
    ensures forall j :: 0 <= j < p ==> Memcmp(key, c[j].key) > 0
    ensures p < |c| ==> Memcmp(key, c[p].key) <= 0
  {
    if c == [] || Memcmp(key, c[0].key) <= 0 then 0 else 1 + SlotOf(c[1..], key)
  }

  lemma SlotOfUnique(c: Chain, key: Bytes, p: nat)
    requires p <= |c|
    requires forall j :: 0 <= j < p ==> Memcmp(key, c[j].key) > 0
    requires p < |c| ==> Memcmp(key, c[p].key) <= 0
    ensures SlotOf(c, key) == p
  {
    var q := SlotOf(c, key);
    if q < p { assert false; }
    if p < q { assert false; }
  }

  /** x put in before position p. */
  function Spliced<T>(s: seq<T>, p: nat, x: T): seq<T>
    requires p <= |s|
  {
    s[..p] + [x] + s[p..]
  }

  /** Overwrite the value of an equal key, or splice a new entry in before the first larger one. */
  function InsertChain(c: Chain, key: Bytes, val: Bytes): Chain
  {
    var p := SlotOf(c, key);
    if p < |c| && c[p].key == key then c[p := Entry(key, val)]
    else Spliced(c, p, Entry(key, val))
  }

  function GetChain(c: Chain, key: Bytes): Option<Bytes>
  {
    var p := SlotOf(c, key);
    if p < |c| && c[p].key == key then Some(c[p].val) else None
  }

  lemma AfterSlotLarger(c: Chain, key: Bytes, p: nat)
    requires Sorted(c, |key|) && p <= |c|
    requires p < |c| ==> Memcmp(key, c[p].key) < 0
    ensures forall j :: p <= j < |c| ==> Memcmp(key, c[j].key) < 0
  {
    hide Memcmp;
    forall j | p < j < |c| ensures Memcmp(key, c[j].key) < 0 {
      MemcmpTransitive(key, c[p].key, c[j].key);
    }
  }

  /** The source's search stops at the first key that is not smaller; in a sorted chain that loses nothing. */
  lemma GetChainComplete(c: Chain, j: nat)
    requires j < |c| && Sorted(c, |c[j].key|)
    ensures SlotOf(c, c[j].key) == j
    ensures GetChain(c, c[j].key) == Some(c[j].val)
  {
    forall i | 0 <= i < j ensures Memcmp(c[j].key, c[i].key) > 0 {
      MemcmpAntisymmetric(c[i].key, c[j].key);
    }
    SlotOfUnique(c, c[j].key, j);
  }

  lemma InsertChainSorted(c: Chain, key: Bytes, val: Bytes)
    requires Sorted(c, |key|)
    ensures Sorted(InsertChain(c, key, val), |key|)
  {
    hide Memcmp;
    var p, d := SlotOf(c, key), InsertChain(c, key, val);
    if p < |c| && c[p].key == key {
      assert forall i :: 0 <= i < |c| ==> d[i].key == c[i].key;
    } else {
      AfterSlotLarger(c, key, p);
      assert forall i :: 0 <= i < |d| ==> d[i] == if i < p then c[i] else if i == p then Entry(key, val) else c[i - 1];
      forall i, j | 0 <= i < j < |d| ensures Memcmp(d[i].key, d[j].key) < 0 {
        if j == p { MemcmpAntisymmetric(c[i].key, key); }
        if i < p < j - 1 {
          assert Memcmp(c[i].key, c[j - 1].key) < 0;
        }
      }
    }
  }

  /** In a sorted chain, what the search finds is exactly what is there. */
  lemma GetChainIff(c: Chain, key: Bytes, val: Bytes)
    requires Sorted(c, |key|)
    ensures GetChain(c, key) == Some(val) <==> Entry(key, val) in c
  {
    if j :| 0 <= j < |c| && c[j] == Entry(key, val) {
      GetChainComplete(c, j);
    }
  }

  lemma InsertChainMembers(c: Chain, key: Bytes, val: Bytes, e: Entry)
    requires Sorted(c, |key|)
    ensures e in InsertChain(c, key, val) <==> e == Entry(key, val) || (e in c && e.key != key)
  {
    var p, d := SlotOf(c, key), InsertChain(c, key, val);
    if p < |c| && c[p].key == key {
      assert d[p] == Entry(key, val);
      forall i | 0 <= i < |c| && i != p ensures c[i].key != key && d[i] == c[i] {
        assert if i < p then Memcmp(c[i].key, c[p].key) < 0 else Memcmp(c[p].key, c[i].key) < 0;
      }
    } else {
      AfterSlotLarger(c, key, p);
      assert d == c[..p] + [Entry(key, val)] + c[p..] && c == c[..p] + c[p..];
    }
  }

  lemma InsertChainGet(c: Chain, key: Bytes, val: Bytes, k: Bytes)
    requires Sorted(c, |key|) && |k| == |key|
    ensures GetChain(InsertChain(c, key, val), k) == if k == key then Some(val) else GetChain(c, k)
  {
    InsertChainSorted(c, key, val);
    var d := InsertChain(c, key, val);
    forall v ensures GetChain(d, k) == Some(v) <==> if k == key then v == val else GetChain(c, k) == Some(v) {
      GetChainIff(d, k, v);
      GetChainIff(c, k, v);
      InsertChainMembers(c, key, val, Entry(k, v));
    }
  }

  // ---- all chains of a table ----

  /** Every chain is sorted and holds only keys of its own bucket. */
  ghost predicate Placed(bs: Buckets, klen: nat) {
    && |bs| > 0
    && (forall i :: 0 <= i < |bs| ==> Sorted(bs[i], klen))
    && (forall i, j :: 0 <= i < |bs| && 0 <= j < |bs[i]| ==> BucketOf(bs[i][j].key, |bs|) == i)
  }

  /** The entries in bucket order, each chain in key order. */
  function Flatten(bs: Buckets): Chain {
    if bs == [] then [] else Flatten(bs[..|bs| - 1]) + bs[|bs| - 1]
  }

  function Get(bs: Buckets, key: Bytes): Option<Bytes>
    requires |bs| > 0
  {
    GetChain(bs[BucketOf(key, |bs|)], key)
  }

  function Insert(bs: Buckets, key: Bytes, val: Bytes): Buckets
    requires |bs| > 0
  {
    var h := BucketOf(key, |bs|);
    bs[h := InsertChain(bs[h], key, val)]
  }

  function Empty(size: nat): Buckets {
    seq(size, _ => [])
  }

  lemma {:induction false} FlattenEmpty(size: nat)
    ensures Flatten(Empty(size)) == []
  {
    if size > 0 {
      FlattenEmpty(size - 1);
      assert Empty(size)[..size - 1] == Empty(size - 1);
    }
  }

  lemma {:induction false} FlattenReplace(bs: Buckets, h: nat, c: Chain)
    requires h < |bs|
    ensures |Flatten(bs[h := c])| == |Flatten(bs)| - |bs[h]| + |c|
  {
    var n := |bs| - 1;
    if h == n {
      assert bs[h := c][..n] == bs[..n];
    } else {
      FlattenReplace(bs[..n], h, c);
      assert bs[h := c][..n] == bs[..n][h := c];
    }
  }

  lemma InsertPlaced(bs: Buckets, key: Bytes, val: Bytes)
    requires Placed(bs, |key|)
    ensures Placed(Insert(bs, key, val), |key|)
    ensures |Flatten(Insert(bs, key, val))| == |Flatten(bs)| + if Get(bs, key).None? then 1 else 0
  {
    var h := BucketOf(key, |bs|);
    var c := InsertChain(bs[h], key, val);
    InsertChainSorted(bs[h], key, val);
    FlattenReplace(bs, h, c);
    forall j | 0 <= j < |c| ensures BucketOf(c[j].key, |bs|) == h {
      InsertChainMembers(bs[h], key, val, c[j]);
    }
  }

  lemma InsertGet(bs: Buckets, key: Bytes, val: Bytes, k: Bytes)
    requires Placed(bs, |key|) && |k| == |key|
    ensures Placed(Insert(bs, key, val), |key|)
    ensures Get(Insert(bs, key, val), k) == if k == key then Some(val) else Get(bs, k)
  {
    InsertPlaced(bs, key, val);
    InsertChainGet(bs[BucketOf(key, |bs|)], key, val, k);
  }

  // ---- rehashing ----

  /** Insert the entries one after the other into an empty vector. */
  ghost function InsertAll(es: Chain, size: nat, klen: nat): (bs: Buckets)
    requires size > 0 && Keyed(es, klen)
    ensures Placed(bs, klen) && |bs| == size
  {
    if es == [] then Empty(size)
    else
      var e := es[|es| - 1];
      var bs := InsertAll(es[..|es| - 1], size, klen);
      InsertPlaced(bs, e.key, e.val);
      Insert(bs, e.key, e.val)
  }

  /** The value of the last entry with this key. */
  function FindLast(es: Chain, key: Bytes): Option<Bytes> {
    if es == [] then None
    else if es[|es| - 1].key == key then Some(es[|es| - 1].val)
    else FindLast(es[..|es| - 1], key)
  }

  predicate Distinct(es: Chain) {
    forall p, q :: 0 <= p < q < |es| ==> es[p].key != es[q].key
  }

  lemma {:induction false} InsertAllGet(es: Chain, size: nat, klen: nat, k: Bytes)
    requires size > 0 && Keyed(es, klen) && |k| == klen
    ensures Get(InsertAll(es, size, klen), k) == FindLast(es, k)
  {
    if es != [] {
      var e := es[|es| - 1];
      InsertAllGet(es[..|es| - 1], size, klen, k);
      InsertGet(InsertAll(es[..|es| - 1], size, klen), e.key, e.val, k);
    }
  }

  lemma {:induction false} FindLastNone(es: Chain, key: Bytes)
    requires forall j :: 0 <= j < |es| ==> es[j].key != key
    ensures FindLast(es, key) == None
  {
    if es != [] { FindLastNone(es[..|es| - 1], key); }
  }

  lemma {:induction false} FindLastAt(es: Chain, j: nat)
    requires j < |es| && Distinct(es)
    ensures FindLast(es, es[j].key) == Some(es[j].val)
  {
    if j < |es| - 1 { FindLastAt(es[..|es| - 1], j); }
  }

  lemma {:induction false} FindLastAppend(a: Chain, b: Chain, key: Bytes)
    ensures FindLast(a + b, key) == if FindLast(b, key).Some? then FindLast(b, key) else FindLast(a, key)
  {
    if b == [] {
      assert a + b == a;
    } else {
      assert (a + b)[..|a + b| - 1] == a + b[..|b| - 1];
      FindLastAppend(a, b[..|b| - 1], key);
    }
  }

  /** No key is moved onto an equal one: the rehash keeps the number of entries. */
  lemma {:induction false} InsertAllCount(es: Chain, size: nat, klen: nat)
    requires size > 0 && Keyed(es, klen) && Distinct(es)
    ensures |Flatten(InsertAll(es, size, klen))| == |es|
  {
    if es == [] {
      FlattenEmpty(size);
    } else {
      var front, e := es[..|es| - 1], es[|es| - 1];
      InsertAllCount(front, size, klen);
      FindLastNone(front, e.key);
      InsertAllGet(front, size, klen, e.key);
      InsertPlaced(InsertAll(front, size, klen), e.key, e.val);
    }
  }

  /** The chains of the first n buckets, laid end to end. */
  lemma {:induction false} FlattenPrefix(bs: Buckets, klen: nat, n: nat)
    requires Placed(bs, klen) && n <= |bs|
    ensures Keyed(Flatten(bs[..n]), klen) && Distinct(Flatten(bs[..n]))
    ensures forall j :: 0 <= j < |Flatten(bs[..n])| ==> BucketOf(Flatten(bs[..n])[j].key, |bs|) < n
  {
    hide Memcmp;
    if n > 0 {
      FlattenPrefix(bs, klen, n - 1);
      assert bs[..n][..n - 1] == bs[..n - 1];
      var front, last := Flatten(bs[..n - 1]), bs[n - 1];
      assert forall j :: 0 <= j < |last| ==> BucketOf(last[j].key, |bs|) == n - 1;
      assert Distinct(last) by {
        forall i, j | 0 <= i < j < |last| ensures last[i].key != last[j].key {
          assert Memcmp(last[i].key, last[j].key) < 0;
        }
      }
    }
  }

  lemma {:induction false} FlattenFind(bs: Buckets, klen: nat, n: nat, key: Bytes)
    requires Placed(bs, klen) && n <= |bs| && |key| == klen
    ensures FindLast(Flatten(bs[..n]), key) == if BucketOf(key, |bs|) < n then Get(bs, key) else None
  {
    hide Memcmp, GetChain, Sorted;
    if n > 0 {
      FlattenFind(bs, klen, n - 1, key);
      assert bs[..n][..n - 1] == bs[..n - 1];
      var c := bs[n - 1];
      FindLastAppend(Flatten(bs[..n - 1]), c, key);
      if BucketOf(key, |bs|) == n - 1 {
        ChainFind(c, key);
      } else {
        FindLastNone(c, key);
      }
    }
  }

  lemma ChainFind(c: Chain, key: Bytes)
    requires Sorted(c, |key|)
    ensures FindLast(c, key) == GetChain(c, key)
  {
    if j :| 0 <= j < |c| && c[j].key == key {
      assert Distinct(c) by {
        forall i, k | 0 <= i < k < |c| ensures c[i].key != c[k].key {
          assert Memcmp(c[i].key, c[k].key) < 0;
        }
      }
      FindLastAt(c, j);
      GetChainComplete(c, j);
    } else {
      FindLastNone(c, key);
    }
  }

  ghost function Rehash(bs: Buckets, size: nat, klen: nat): (r: Buckets)
    requires size > 0 && Placed(bs, klen)
    ensures Placed(r, klen) && |r| == size
  {
    FlattenPrefix(bs, klen, |bs|);
    assert bs[..|bs|] == bs;
    InsertAll(Flatten(bs), size, klen)
  }

  /** Rehashing preserves the map and the number of entries. */
  lemma RehashPreserves(bs: Buckets, size: nat, klen: nat)
    requires size > 0 && Placed(bs, klen)
    ensures |Flatten(Rehash(bs, size, klen))| == |Flatten(bs)|
    ensures forall k {:trigger Get(Rehash(bs, size, klen), k)} :: |k| == klen ==>
            Get(Rehash(bs, size, klen), k) == Get(bs, k)
  {
    FlattenPrefix(bs, klen, |bs|);
    assert bs[..|bs|] == bs;
    InsertAllCount(Flatten(bs), size, klen);
    forall k | |k| == klen ensures Get(Rehash(bs, size, klen), k) == Get(bs, k) {
      InsertAllGet(Flatten(bs), size, klen, k);
      FlattenFind(bs, klen, |bs|, k);
    }
  }

  // ---- one update of a table ----

  ghost function Update(bs: Buckets, key: Bytes, val: Bytes): (r: Buckets)
    requires Placed(bs, |key|)
    ensures Placed(r, |key|)
  {
    InsertPlaced(bs, key, val);
    var inserted := Insert(bs, key, val);
    if |Flatten(inserted)| > |inserted| then Rehash(inserted, |inserted| * 2 + 1, |key|) else inserted
  }

  /** The bucket count of a table with this many keys: 3, 7, 15, ... */
  function SizeFor(count: nat, from: nat := INITIAL_SIZE): (s: nat)
    requires from > 0
    ensures s >= count && s >= from
    decreases count - from
  {
    if count <= from then from else SizeFor(count, from * 2 + 1)
  }

  lemma {:induction false} SizeForNext(count: nat, from: nat)
    requires from > 0
    ensures SizeFor(0) == 3
    ensures SizeFor(count + 1, from) ==
            if count + 1 <= SizeFor(count, from) then SizeFor(count, from) else SizeFor(count, from) * 2 + 1
    decreases count - from
  {
    if count > from { SizeForNext(count, from * 2 + 1); }
  }

  /** Holding the map m, whatever the bucket count. */
  ghost predicate Holds(bs: Buckets, klen: nat, m: map<Bytes, Bytes>) {
    && Placed(bs, klen)
    && (forall k {:trigger k in m} :: k in m ==> |k| == klen)
    && (forall k {:trigger Get(bs, k)} :: |k| == klen ==> Get(bs, k) == if k in m then Some(m[k]) else None)
    && |Flatten(bs)| == |m|
  }

  /** Holding the map m in the number of buckets that m calls for: at most one key a bucket on average. */
  ghost predicate Represents(bs: Buckets, klen: nat, m: map<Bytes, Bytes>) {
    Holds(bs, klen, m) && |bs| == SizeFor(|m|)
  }

  lemma EmptyRepresents(klen: nat)
    ensures Represents(Empty(INITIAL_SIZE), klen, map[])
  {
    FlattenEmpty(INITIAL_SIZE);
  }

  lemma InsertHolds(bs: Buckets, key: Bytes, val: Bytes, m: map<Bytes, Bytes>)
    requires Holds(bs, |key|, m)
    ensures Holds(Insert(bs, key, val), |key|, m[key := val])
  {
    hide Flatten, Placed, GetChain, InsertChain;
    InsertPlaced(bs, key, val);
    var m' := m[key := val];
    assert Get(bs, key).None? <==> key !in m;
    forall k {:trigger Get(Insert(bs, key, val), k)} | |k| == |key|
      ensures Get(Insert(bs, key, val), k) == if k in m' then Some(m'[k]) else None
    {
      InsertGet(bs, key, val, k);
    }
  }

  lemma RehashHolds(bs: Buckets, size: nat, klen: nat, m: map<Bytes, Bytes>)
    requires size > 0 && Holds(bs, klen, m)
    ensures Holds(Rehash(bs, size, klen), klen, m)
  {
    RehashPreserves(bs, size, klen);
  }

  /** What every update of a table keeps. */
  lemma UpdateRepresents(bs: Buckets, key: Bytes, val: Bytes, m: map<Bytes, Bytes>)
    requires Represents(bs, |key|, m)
    ensures Represents(Update(bs, key, val), |key|, m[key := val])
    ensures |Flatten(Update(bs, key, val))| <= |Update(bs, key, val)|
  {
    hide Get, Flatten, Placed, InsertAll;
    InsertHolds(bs, key, val, m);
    SizeForNext(|m|, INITIAL_SIZE);
    var inserted := Insert(bs, key, val);
    RehashHolds(inserted, |inserted| * 2 + 1, |key|, m[key := val]);
  }
}
