/** The hash table of the builder: buckets of singly linked, sorted chains, relinked in place. */
module CdbTable {
  import opened Bytes
  import opened Options
  import opened CdbModel
  import opened Sequences

  class Node {
    var next: Node?
    const key: Bytes
    var val: Bytes

    constructor (key: Bytes, val: Bytes)
      ensures this.key == key && this.val == val && next == null
    {
      this.key, this.val, next := key, val, null;
    }
  }

  function NodeAt(nodes: seq<Node>, j: nat): Node? {
    if j < |nodes| then nodes[j] else null
  }

  ghost function NodesOf(chains: seq<seq<Node>>): set<Node> {
    set i, j | 0 <= i < |chains| && 0 <= j < |chains[i]| :: chains[i][j]
  }

  lemma ChainNodes(chains: seq<seq<Node>>, i: nat)
    requires i < |chains|
    ensures forall m :: m in chains[i] ==> m in NodesOf(chains)
  {
  }

  /** From head on, the next pointers run through exactly these nodes, which hold the entries of c. */
  ghost predicate Linked(head: Node?, nodes: seq<Node>, c: Chain)
    reads nodes
  {
    && |nodes| == |c|
    && head == NodeAt(nodes, 0)
    && (forall j {:trigger nodes[j].next} :: 0 <= j < |nodes| ==> nodes[j].next == NodeAt(nodes, j + 1))
    && (forall j :: 0 <= j < |nodes| ==> nodes[j].key == c[j].key && nodes[j].val == c[j].val)
  }

  ghost predicate LinkedAll(hv: array<Node?>, chains: seq<seq<Node>>, bs: Buckets)
    reads hv, NodesOf(chains)
  {
    && hv.Length == |chains| == |bs|
    && forall i :: 0 <= i < |chains| ==> Linked(hv[i], chains[i], bs[i])
  }

  /** Keys tell nodes apart: a node stands at one place of its chain, and in one chain only. */
  lemma NodesDistinct(hv: array<Node?>, chains: seq<seq<Node>>, bs: Buckets, klen: nat)
    requires LinkedAll(hv, chains, bs) && Placed(bs, klen)
    ensures forall i :: 0 <= i < |chains| ==> NoDuplicates(chains[i])
    ensures forall i, j :: 0 <= i < |chains| && 0 <= j < |chains[i]| ==> BucketOf(chains[i][j].key, |chains|) == i
  {
    hide Memcmp, BucketOf;
    forall i | 0 <= i < |chains| ensures NoDuplicates(chains[i]) {
      assert Sorted(bs[i], klen);
      forall j, k | 0 <= j < k < |chains[i]| ensures chains[i][j] != chains[i][k] {
        assert Memcmp(bs[i][j].key, bs[i][k].key) < 0;
      }
    }
    forall i, j | 0 <= i < |chains| && 0 <= j < |chains[i]| ensures BucketOf(chains[i][j].key, |chains|) == i {
      assert bs[i][j].key == chains[i][j].key;
    }
  }

  lemma ChainsApart(hv: array<Node?>, chains: seq<seq<Node>>, bs: Buckets, klen: nat, h: nat, n: Node)
    requires LinkedAll(hv, chains, bs) && Placed(bs, klen) && h < |chains|
    requires n !in NodesOf(chains)
    ensures NoDuplicates(chains[h]) && n !in chains[h]
    ensures forall i, m :: 0 <= i < |chains| && i != h && m in chains[i] ==> m != n && m !in chains[h]
  {
    NodesDistinct(hv, chains, bs, klen);
    forall i, m | 0 <= i < |chains| && m in chains[i] ensures m != n {
      assert m in NodesOf(chains);
    }
  }

  /** The walk along a chain that both the update and the rehash begin with. */
  method Locate(head: Node?, key: Bytes, ghost nodes: seq<Node>, ghost c: Chain)
    returns (nodeLast: Node?, node: Node?, equal: bool, ghost p: nat)
    requires Linked(head, nodes, c)
    ensures p == SlotOf(c, key)
    ensures node == NodeAt(nodes, p)
    ensures nodeLast == if p == 0 then null else nodes[p - 1]
    ensures equal <==> p < |c| && c[p].key == key
    ensures equal ==> node != null && node.key == key
    ensures |nodes| == |c|
  {
    hide Memcmp;
    node, nodeLast, equal, p := head, null, false, 0;
    while node != null
      invariant p <= |c| && node == NodeAt(nodes, p)
      invariant nodeLast == if p == 0 then null else nodes[p - 1]
      invariant forall j :: 0 <= j < p ==> Memcmp(key, c[j].key) > 0
      decreases |c| - p
    {
      var r := Memcmp(key, node.key);
      if r == 0 {
        equal := true;
        break;
      }
      if r < 0 {
        break;
      }
      nodeLast, node, p := node, node.next, p + 1;
    }
    SlotOfUnique(c, key, p);
  }

  /** Relinks the pointers so that n comes between two neighbours of one chain. */
  method Splice(hv: array<Node?>, h: nat, n: Node, nodeLast: Node?, node: Node?,
                ghost nodes: seq<Node>, ghost c: Chain, ghost p: nat)
    requires h < hv.Length && Linked(hv[h], nodes, c) && NoDuplicates(nodes) && n !in nodes
    requires p <= |c| && node == NodeAt(nodes, p) && nodeLast == if p == 0 then null else nodes[p - 1]
    modifies hv, n`next, nodes`next
    ensures Linked(hv[h], Spliced(nodes, p, n), Spliced(c, p, Entry(n.key, n.val)))
    ensures forall i :: 0 <= i < hv.Length && i != h ==> hv[i] == old(hv[i])
  {
    if nodeLast != null {
      nodeLast.next := n;
      n.next := node;
    } else {
      n.next := node;
      hv[h] := n;
    }
    ghost var spliced, d := Spliced(nodes, p, n), Spliced(c, p, Entry(n.key, n.val));
    forall j {:trigger spliced[j].next} {:trigger spliced[j].key} | 0 <= j < |spliced|
      ensures spliced[j].next == NodeAt(spliced, j + 1)
      ensures spliced[j].key == d[j].key && spliced[j].val == d[j].val
    {
      if j < p {
        assert spliced[j] == nodes[j] && d[j] == c[j];
      } else if j > p {
        assert spliced[j] == nodes[j - 1] && d[j] == c[j - 1];
      }
    }
  }

  lemma SpliceNodes(chains: seq<seq<Node>>, h: nat, p: nat, n: Node)
    requires h < |chains| && p <= |chains[h]|
    ensures NodesOf(chains[h := Spliced(chains[h], p, n)]) == NodesOf(chains) + {n}
  {
    var spliced := Spliced(chains[h], p, n);
    var chains' := chains[h := spliced];
    assert chains'[h][p] == n;
    forall m | m in NodesOf(chains) ensures m in NodesOf(chains') {
      var i, j :| 0 <= i < |chains| && 0 <= j < |chains[i]| && chains[i][j] == m;
      assert m == if i != h then chains'[i][j] else if j < p then spliced[j] else spliced[j + 1];
    }
    forall m | m in NodesOf(chains') ensures m in NodesOf(chains) + {n} {
      var i, j :| 0 <= i < |chains'| && 0 <= j < |chains'[i]| && chains'[i][j] == m;
      if i == h && j > p { assert m == chains[h][j - 1]; }
    }
  }

  lemma LinkedReplace(hv: array<Node?>, chains: seq<seq<Node>>, bs: Buckets, h: nat, nodes: seq<Node>, c: Chain)
    requires h < hv.Length == |chains| == |bs|
    requires forall i :: 0 <= i < |chains| && i != h ==> Linked(hv[i], chains[i], bs[i])
    requires Linked(hv[h], nodes, c)
    ensures LinkedAll(hv, chains[h := nodes], bs[h := c])
  {
  }

  /** Puts n in front of node in its bucket, after the walk of Locate. */
  method Attach(hv: array<Node?>, h: nat, n: Node, nodeLast: Node?, node: Node?,
                ghost chains: seq<seq<Node>>, ghost bs: Buckets, ghost klen: nat, ghost p: nat)
    returns (ghost chains': seq<seq<Node>>)
    requires LinkedAll(hv, chains, bs) && Placed(bs, klen) && n !in NodesOf(chains)
    requires h == BucketOf(n.key, |bs|) && p == SlotOf(bs[h], n.key)
    requires p < |bs[h]| ==> bs[h][p].key != n.key
    requires node == NodeAt(chains[h], p) && nodeLast == if p == 0 then null else chains[h][p - 1]
    modifies hv, n`next, chains[h]`next
    ensures NodesOf(chains') == NodesOf(chains) + {n}
    ensures LinkedAll(hv, chains', Insert(bs, n.key, n.val))
  {
    assert InsertChain(bs[h], n.key, n.val) == Spliced(bs[h], p, Entry(n.key, n.val));
    hide Memcmp, SlotOf, BucketOf, Placed, NoDuplicates, Spliced, Linked, NodesOf, InsertChain;
    ChainsApart(hv, chains, bs, klen, h, n);
    SpliceNodes(chains, h, p, n);
    Splice(hv, h, n, nodeLast, node, chains[h], bs[h], p);
    chains' := chains[h := Spliced(chains[h], p, n)];
    forall i | 0 <= i < |chains| && i != h
      ensures Linked(hv[i], chains[i], bs[i])
    {
      assert old(Linked(hv[i], chains[i], bs[i]));
      assert n !in chains[i] && forall m :: m in chains[i] ==> m !in chains[h];
    }
    LinkedReplace(hv, chains, bs, h, chains'[h], InsertChain(bs[h], n.key, n.val));
  }

  /** Overwrites the value of the node that Locate found. */
  method SetValue(hv: array<Node?>, h: nat, node: Node, val: Bytes,
                  ghost chains: seq<seq<Node>>, ghost bs: Buckets, ghost klen: nat, ghost p: nat)
    requires LinkedAll(hv, chains, bs) && Placed(bs, klen)
    requires h == BucketOf(node.key, |bs|) && p == SlotOf(bs[h], node.key)
    requires p < |bs[h]| && node == chains[h][p]
    modifies node`val
    ensures LinkedAll(hv, chains, Insert(bs, node.key, val))
  {
    hide Memcmp, SlotOf, BucketOf, Placed;
    NodesDistinct(hv, chains, bs, klen);
    node.val := val;
    forall i | 0 <= i < |chains| && i != h
      ensures Linked(hv[i], chains[i], bs[i])
    {
      assert old(Linked(hv[i], chains[i], bs[i]));
    }
  }

  /** Overwrites the value of an equal key, or links a new node in. */
  method UpdateVector(hv: array<Node?>, key: Bytes, val: Bytes, ghost chains: seq<seq<Node>>, ghost bs: Buckets)
    returns (added: bool, ghost chains': seq<seq<Node>>)
    requires LinkedAll(hv, chains, bs) && Placed(bs, |key|)
    modifies hv, NodesOf(chains)
    ensures added <==> Get(bs, key).None?
    ensures LinkedAll(hv, chains', Insert(bs, key, val))
    ensures NodesOf(chains) <= NodesOf(chains') && fresh(NodesOf(chains') - NodesOf(chains))
  {
    hide Memcmp, SlotOf, BucketOf, InsertChain, Linked;
    assert hv.Length > 0;
    var thash := ComputeBucket(key, hv.Length);
    hide Placed;
    ghost var nodes := chains[thash];
    ChainNodes(chains, thash);
    var nodeLast, node, equal, p := Locate(hv[thash], key, nodes, bs[thash]);
    if equal {
      SetValue(hv, thash, node, val, chains, bs, |key|, p);
      added, chains' := false, chains;
    } else {
      var n := new Node(key, val);
      chains' := Attach(hv, thash, n, nodeLast, node, chains, bs, |key|, p);
      added := true;
    }
  }

  /** Moves one node into the new vector; it never meets an equal key there. */
  method MoveNode(hv: array<Node?>, n1: Node, ghost chains: seq<seq<Node>>, ghost bs: Buckets, ghost klen: nat)
    returns (ghost chains': seq<seq<Node>>)
    requires LinkedAll(hv, chains, bs) && Placed(bs, klen) && n1 !in NodesOf(chains)
    requires Get(bs, n1.key) == None
    modifies hv, n1`next, NodesOf(chains)`next
    ensures LinkedAll(hv, chains', Insert(bs, n1.key, n1.val))
    ensures NodesOf(chains') == NodesOf(chains) + {n1}
  {
    hide Memcmp, SlotOf, BucketOf, Linked, InsertChain;
    n1.next := null;
    assert hv.Length > 0;
    var thash := ComputeBucket(n1.key, hv.Length);
    hide Placed;
    ChainNodes(chains, thash);
    var nodeLast, node, equal, p := Locate(hv[thash], n1.key, chains[thash], bs[thash]);
    if equal {
      assert false;
    }
    chains' := Attach(hv, thash, n1, nodeLast, node, chains, bs, klen, p);
  }

  /** Moves every node of one old chain into the new vector. */
  method MoveChain(hv: array<Node?>, head: Node?, ghost nodes: seq<Node>, ghost c: Chain,
                   ghost chains: seq<seq<Node>>, ghost moved: Chain, ghost klen: nat)
    returns (ghost chains': seq<seq<Node>>)
    requires hv.Length > 0 && Linked(head, nodes, c) && NoDuplicates(nodes)
    requires Keyed(moved + c, klen) && Distinct(moved + c)
    requires Keyed(moved, klen) && LinkedAll(hv, chains, InsertAll(moved, hv.Length, klen))
    requires forall m :: m in nodes ==> m !in NodesOf(chains)
    modifies hv, NodesOf(chains)`next, nodes`next
    ensures LinkedAll(hv, chains', InsertAll(moved + c, hv.Length, klen))
    ensures NodesOf(chains') == NodesOf(chains) + (set m | m in nodes)
  {
    hide Memcmp, Placed, Distinct, InsertAll, Insert, Keyed, LinkedAll, NodesOf, Get;
    chains' := chains;
    var n1 := head;
    ghost var p := 0;
    assert moved + c[..0] == moved && nodes[..0] == [];
    while n1 != null
      invariant p <= |c| && n1 == NodeAt(nodes, p)
      invariant forall j {:trigger nodes[j].next} :: p <= j < |nodes| ==> nodes[j].next == NodeAt(nodes, j + 1)
      invariant Keyed(moved + c[..p], klen)
      invariant LinkedAll(hv, chains', InsertAll(moved + c[..p], hv.Length, klen))
      invariant NodesOf(chains') == NodesOf(chains) + (set m | m in nodes[..p])
      decreases |c| - p
    {
      var n2 := n1.next;
      NextKeyIsNew(moved, c, p, hv.Length, klen);
      assert forall j :: p < j < |nodes| ==> nodes[j] !in NodesOf(chains') && nodes[j] != n1;
      chains' := MoveNode(hv, n1, chains', InsertAll(moved + c[..p], hv.Length, klen), klen);
      assert nodes[..p + 1] == nodes[..p] + [n1];
      p, n1 := p + 1, n2;
    }
    assert c[..p] == c && nodes[..p] == nodes;
  }

  /** The outer loop of the rehash. */
  method MoveAll(from: array<Node?>, hv: array<Node?>, ghost chains: seq<seq<Node>>, ghost bs: Buckets, ghost klen: nat)
    returns (ghost chains': seq<seq<Node>>)
    requires from != hv && hv.Length > 0 && forall i :: 0 <= i < hv.Length ==> hv[i] == null
    requires LinkedAll(from, chains, bs) && Placed(bs, klen)
    modifies hv, NodesOf(chains)`next
    ensures NodesOf(chains') == NodesOf(chains)
    ensures LinkedAll(hv, chains', Rehash(bs, hv.Length, klen))
  {
    hide Memcmp, Distinct, Insert, Placed, BucketOf, InsertAll, Flatten, NoDuplicates, Linked, NodesOf, LinkedAll,
        Keyed;
    var ohi := 0;
    chains' := NothingMoved(hv, klen);
    NodesDistinct(from, chains, bs, klen);
    EveryChainLinked(from, chains, bs);
    assert bs[..0] == [] && chains[..0] == [];
    while ohi < from.Length
      invariant 0 <= ohi <= from.Length
      invariant Keyed(Flatten(bs[..ohi]), klen)
      invariant LinkedAll(hv, chains', InsertAll(Flatten(bs[..ohi]), hv.Length, klen))
      invariant NodesOf(chains') == NodesOf(chains[..ohi])
      invariant forall i :: ohi <= i < |chains| ==> Linked(from[i], chains[i], bs[i])
    {
      PrefixStep(from, chains, bs, klen, ohi);
      chains' := MoveChain(hv, from[ohi], chains[ohi], bs[ohi], chains', Flatten(bs[..ohi]), klen);
      ohi := ohi + 1;
    }
    assert chains[..ohi] == chains && bs[..ohi] == bs;
  }

  lemma EveryChainLinked(hv: array<Node?>, chains: seq<seq<Node>>, bs: Buckets)
    requires LinkedAll(hv, chains, bs)
    ensures hv.Length == |chains| == |bs|
    ensures forall i :: 0 <= i < |chains| ==> Linked(hv[i], chains[i], bs[i])
  {
  }

  lemma NothingMoved(hv: array<Node?>, klen: nat) returns (chains: seq<seq<Node>>)
    requires hv.Length > 0 && forall i :: 0 <= i < hv.Length ==> hv[i] == null
    ensures Keyed(Flatten([]), klen) && NodesOf(chains) == NodesOf([])
    ensures LinkedAll(hv, chains, InsertAll(Flatten([]), hv.Length, klen))
  {
    chains := seq(hv.Length, _ => []);
    assert InsertAll([], hv.Length, klen) == Empty(hv.Length);
  }

  lemma PrefixStep(from: array<Node?>, chains: seq<seq<Node>>, bs: Buckets, klen: nat, ohi: nat)
    requires Placed(bs, klen) && ohi < |bs| == |chains|
    requires forall i, j :: 0 <= i < |chains| && 0 <= j < |chains[i]| ==> BucketOf(chains[i][j].key, |chains|) == i
    ensures Flatten(bs[..ohi + 1]) == Flatten(bs[..ohi]) + bs[ohi]
    ensures Keyed(Flatten(bs[..ohi + 1]), klen) && Distinct(Flatten(bs[..ohi + 1])) && Keyed(Flatten(bs[..ohi]), klen)
    ensures NodesOf(chains[..ohi + 1]) == NodesOf(chains[..ohi]) + (set m | m in chains[ohi])
    ensures NodesOf(chains[..ohi + 1]) <= NodesOf(chains)
    ensures forall i, m :: ohi <= i < |chains| && m in chains[i] ==> m !in NodesOf(chains[..ohi])
    ensures forall i, m :: ohi < i < |chains| && m in chains[i] ==> m !in chains[ohi]
  {
    hide Memcmp;
    FlattenPrefix(bs, klen, ohi);
    FlattenPrefix(bs, klen, ohi + 1);
    assert bs[..ohi + 1][..ohi] == bs[..ohi];
    var a, b := chains[..ohi + 1], chains[..ohi];
    assert forall i :: 0 <= i < ohi ==> a[i] == b[i];
    assert a[ohi] == chains[ohi];
  }

  lemma NextKeyIsNew(moved: Chain, c: Chain, p: nat, size: nat, klen: nat)
    requires p < |c| && size > 0 && Keyed(moved + c, klen) && Distinct(moved + c)
    ensures Keyed(moved + c[..p], klen) && Keyed(moved + c[..p + 1], klen)
    ensures InsertAll(moved + c[..p + 1], size, klen) ==
            Insert(InsertAll(moved + c[..p], size, klen), c[p].key, c[p].val)
    ensures Get(InsertAll(moved + c[..p], size, klen), c[p].key) == None
  {
    hide Memcmp, Placed, GetChain, BucketOf, Insert, FindLast;
    var front, next := moved + c[..p], moved + c[..p + 1];
    assert forall j :: 0 <= j < |next| ==> next[j] == (moved + c)[j];
    assert next[..|next| - 1] == front && next[|next| - 1] == c[p];
    InsertAllGet(front, size, klen, c[p].key);
    FindLastNone(front, c[p].key);
  }

  class Table {
    var hashNodeVector: array<Node?>
    var hashNodeSize: nat
    var count: nat
    const klen: nat
    ghost var chains: seq<seq<Node>>
    ghost var buckets: Buckets
    ghost var Repr: set<object>

    /** What holds also in the middle of an update, before the vector has grown. */
    ghost predicate Consistent()
      reads this, Repr
    {
      && Repr == {this, hashNodeVector} + NodesOf(chains)
      && hashNodeSize == |buckets|
      && LinkedAll(hashNodeVector, chains, buckets)
      && Placed(buckets, klen)
      && count == |Flatten(buckets)|
    }

    ghost predicate Valid()
      reads this, Repr
      ensures Valid() ==> this in Repr
    {
      Consistent() && count <= hashNodeSize
    }

    constructor (klen: nat)
      ensures Valid() && fresh(Repr)
      ensures this.klen == klen && buckets == Empty(INITIAL_SIZE)
    {
      var hv := new Node?[INITIAL_SIZE](_ => null);
      hashNodeVector, hashNodeSize := hv, INITIAL_SIZE;
      count, this.klen := 0, klen;
      chains, buckets := seq(INITIAL_SIZE, _ => []), Empty(INITIAL_SIZE);
      Repr := {this, hv};
      FlattenEmpty(INITIAL_SIZE);
    }

    /** Adds a key or overwrites its value; grows the vector when there are more keys than buckets. */
    method Update(key: Bytes, val: Bytes)
      requires Valid() && |key| == klen
      modifies Repr
      ensures Valid() && fresh(Repr - old(Repr))
      ensures buckets == CdbModel.Update(old(buckets), key, val)
    {
      hide Memcmp, BucketOf, Flatten, InsertChain, Placed, NodesOf, Rehash, GetChain, Linked;
      InsertPlaced(buckets, key, val);
      var added;
      added, chains := UpdateVector(hashNodeVector, key, val, chains, buckets);
      buckets, Repr := Insert(buckets, key, val), Repr + NodesOf(chains);
      if added {
        count := count + 1;
        if count > hashNodeSize {
          ResetHashNodeSize(hashNodeSize * 2 + 1);
        }
      }
    }

    /** Relinks all nodes into a vector of the given size. */
    method ResetHashNodeSize(size: nat)
      requires Consistent() && size >= count && size > 0
      modifies Repr
      ensures Valid() && fresh(Repr - old(Repr))
      ensures buckets == Rehash(old(buckets), size, klen)
    {
      hide Memcmp, BucketOf, Flatten, Placed, Rehash, Linked, LinkedAll, Get;
      var hv := new Node?[size](_ => null);
      ghost var chains' := MoveAll(hashNodeVector, hv, chains, buckets, klen);
      RehashPreserves(buckets, size, klen);
      hashNodeVector, hashNodeSize := hv, size;
      chains, buckets, Repr := chains', Rehash(buckets, size, klen), {this, hv} + NodesOf(chains');
    }
  }
}
