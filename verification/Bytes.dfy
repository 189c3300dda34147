/** Bytes, big-endian 32-bit integers, memory comparison and the shift-add hash. */
module Bytes {

  type byte = x: int | 0 <= x < 256

  type Bytes = seq<byte>

  const TWO_TO_THE_32: int := 0x1_0000_0000

  /** The bytes of d from position p on start with b. */
  predicate At(d: Bytes, p: int, b: Bytes) {
    0 <= p <= p + |b| <= |d| && d[p..p + |b|] == b
  }

  lemma AtWithin(d: Bytes, p: int, w: Bytes, k: int, b: Bytes)
    requires At(d, p, w) && At(w, k, b)
    ensures At(d, p + k, b)
  {
    assert forall i {:trigger b[i]} :: 0 <= i < |b| ==>
        b[i] == w[k..k + |b|][i] == d[p..p + |w|][k + i] == d[p + k + i];
  }

  /** What starts with a concatenation starts with its parts, one after the other. */
  lemma AtSplit(d: Bytes, p: int, a: Bytes, b: Bytes)
    requires At(d, p, a + b)
    ensures At(d, p, a) && At(d, p + |a|, b)
  {
    assert At(a + b, 0, a) && At(a + b, |a|, b);
    AtWithin(d, p, a + b, 0, a);
    AtWithin(d, p, a + b, |a|, b);
  }

  lemma Associative(a: Bytes, b: Bytes, c: Bytes)
    ensures (a + b) + c == a + (b + c)
  {
  }

  lemma WithNothing(a: Bytes)
    ensures a + [] == a && [] + a == a
  {
  }

  lemma Behind(c: byte, rest: Bytes)
    ensures ([c] + rest)[0] == c && ([c] + rest)[1..] == rest
  {
  }

  // ---- big-endian packing of unsigned 32-bit integers ----

  function Pack(n: nat): (r: Bytes)
    ensures |r| == 4
  {
    [n / 256 / 256 / 256 % 256, n / 256 / 256 % 256, n / 256 % 256, n % 256]
  }

  function UnpackFour(b: Bytes): (n: nat)
    requires |b| == 4
    ensures n < TWO_TO_THE_32
  {
    ((b[0] as int * 256 + b[1]) * 256 + b[2]) * 256 + b[3]
  }

  function Unpack(d: Bytes, p: nat): nat
    requires p + 4 <= |d|
  {
    UnpackFour(d[p..p + 4])
  }

  lemma RemainderIs(n: nat, q: nat, r: nat)
    requires n == q * TWO_TO_THE_32 + r && r < TWO_TO_THE_32
    ensures n % TWO_TO_THE_32 == r
  {
  }

  lemma UnpackPack(n: nat)
    ensures UnpackFour(Pack(n)) == n % TWO_TO_THE_32
  {
    var a := n / 256;
    var b := a / 256;
    var c := b / 256;
    RemainderIs(n, c / 256, UnpackFour(Pack(n)));
  }

  lemma UnpackAt(d: Bytes, p: nat, n: nat)
    requires n < TWO_TO_THE_32 && At(d, p, Pack(n))
    ensures Unpack(d, p) == n
  {
    hide Pack, UnpackFour;
    UnpackPack(n);
  }

  // ---- memcmp: the sources compare strings of equal length only ----

  function Memcmp(a: Bytes, b: Bytes): (r: int)
    ensures r == 0 <==> a == b
  {
    if a == [] then -|b|
    else if b == [] then |a|
    else if a[0] != b[0] then a[0] - b[0]
    else
      assert a == [a[0]] + a[1..] && b == [b[0]] + b[1..];
      Memcmp(a[1..], b[1..])
  }

  lemma {:induction false} MemcmpAntisymmetric(a: Bytes, b: Bytes)
    ensures Memcmp(a, b) < 0 <==> Memcmp(b, a) > 0
  {
    if a != [] && b != [] { MemcmpAntisymmetric(a[1..], b[1..]); }
  }

  lemma {:induction false} MemcmpTransitive(a: Bytes, b: Bytes, c: Bytes)
    requires Memcmp(a, b) < 0 && Memcmp(b, c) < 0
    ensures Memcmp(a, c) < 0
  {
    if a != [] && a[0] == b[0] == c[0] { MemcmpTransitive(a[1..], b[1..], c[1..]); }
  }

  lemma DifferAtOnce(a: Bytes, b: Bytes)
    requires |a| == |b| > 0 && a[0] != b[0]
    ensures forall i :: 0 < i <= |a| ==> a[..i] != b[..i]
  {
    forall i | 0 < i <= |a|
      ensures a[..i] != b[..i]
    {
      assert a[..i][0] == a[0] && b[..i][0] == b[0];
    }
  }

  /** Equally long strings are ordered by their first different byte. */
  lemma {:induction false} MemcmpMeaning(a: Bytes, b: Bytes)
    requires |a| == |b|
    ensures Memcmp(a, b) < 0 <==> exists i :: 0 <= i < |a| && a[..i] == b[..i] && a[i] < b[i]
  {
    if a == [] {
    } else if a[0] != b[0] {
      assert a[..0] == b[..0];
      DifferAtOnce(a, b);
    } else {
      MemcmpMeaning(a[1..], b[1..]);
      assert a == [a[0]] + a[1..] && b == [b[0]] + b[1..];
      if i :| 0 <= i < |a| - 1 && a[1..][..i] == b[1..][..i] && a[1..][i] < b[1..][i] {
        assert a[..i + 1] == [a[0]] + a[1..][..i] && b[..i + 1] == [b[0]] + b[1..][..i];
      }
      if i :| 0 <= i < |a| && a[..i] == b[..i] && a[i] < b[i] {
        assert a[1..][..i - 1] == a[..i][1..] && b[1..][..i - 1] == b[..i][1..];
        assert a[1..][i - 1] < b[1..][i - 1];
      }
    }
  }

  /** The bytes as one number, the first byte counting most. */
  function BigEndian(s: Bytes): nat {
    if s == [] then 0 else BigEndian(s[..|s| - 1]) * 256 + s[|s| - 1]
  }

  lemma BigEndianSnoc(s: Bytes, b: byte)
    ensures BigEndian(s + [b]) == BigEndian(s) * 256 + b
  {
    assert (s + [b])[..|s|] == s;
  }

  /** The last bytes decide only where all before them agree. */
  lemma {:induction false} LastDecides(a: Bytes, b: Bytes, n: nat)
    requires |a| == |b| == n + 1
    ensures Memcmp(a, b) < 0 <==> Memcmp(a[..n], b[..n]) < 0 || (a[..n] == b[..n] && a[n] < b[n])
    decreases n
  {
    if n > 0 && a[0] == b[0] {
      LastDecides(a[1..], b[1..], n - 1);
      assert a[1..][..n - 1] == a[..n][1..] && b[1..][..n - 1] == b[..n][1..];
      assert a[..n] == [a[0]] + a[..n][1..] && b[..n] == [b[0]] + b[..n][1..];
    } else if n > 0 {
      assert a[..n][0] == a[0] && b[..n][0] == b[0];
    }
  }

  /** Equally long strings are ordered as the numbers they write, most significant byte first. */
  lemma {:induction false} MemcmpBigEndian(a: Bytes, b: Bytes)
    requires |a| == |b|
    ensures Memcmp(a, b) < 0 <==> BigEndian(a) < BigEndian(b)
    decreases |a|
  {
    hide Memcmp;
    if a == [] {
      assert Memcmp(a, b) == 0;
    } else {
      var n := |a| - 1;
      LastDecides(a, b, n);
      MemcmpBigEndian(a[..n], b[..n]);
      MemcmpBigEndian(b[..n], a[..n]);
      MemcmpAntisymmetric(a[..n], b[..n]);
      assert Memcmp(a[..n], b[..n]) == 0 <==> a[..n] == b[..n];
    }
  }

  lemma UnpackBigEndian(b: Bytes)
    requires |b| == 4
    ensures UnpackFour(b) == BigEndian(b)
  {
    assert b[..3][..2] == b[..2] && b[..2][..1] == b[..1] && b[..1][..0] == [];
    assert BigEndian(b[..1]) == b[0];
    assert BigEndian(b[..2]) == BigEndian(b[..1]) * 256 + b[1];
    assert BigEndian(b[..3]) == BigEndian(b[..2]) * 256 + b[2];
  }

  // ---- hash ----

  function HashStep(hash: bv32, b: byte): bv32 {
    (hash + (hash << 5)) ^ (b as bv32)
  }

  function HashDjbFrom(hash: bv32, s: Bytes): bv32
    decreases |s|
  {
    if s == [] then hash else HashDjbFrom(HashStep(hash, s[0]), s[1..])
  }

  function HashDjb(s: Bytes): bv32 {
    HashDjbFrom(5381, s)
  }

  lemma {:induction false} HashDjbFromSnoc(hash: bv32, s: Bytes, b: byte)
    ensures HashDjbFrom(hash, s + [b]) == HashStep(HashDjbFrom(hash, s), b)
    decreases |s|
  {
    hide HashStep;
    if s == [] {
      assert (s + [b])[1..] == [];
    } else {
      assert (s + [b])[1..] == s[1..] + [b];
      HashDjbFromSnoc(HashStep(hash, s[0]), s[1..], b);
    }
  }

  lemma TimesThirtyThree(hash: bv32)
    ensures hash + (hash << 5) == hash * 33
  {
  }

  /** The hash of a string is 33 times that of the string without its last byte, that byte exclusive-ored in. */
  lemma HashMeaning(s: Bytes, b: byte)
    ensures HashDjb([]) == 5381
    ensures HashDjb(s + [b]) == (HashDjb(s) * 33) ^ (b as bv32)
  {
    HashDjbFromSnoc(5381, s, b);
    TimesThirtyThree(HashDjb(s));
  }

  /** The hash function of the sources: a loop over the bytes of the key. */
  method ComputeHashDjb(s: Bytes) returns (hash: bv32)
    ensures hash == HashDjb(s)
  {
    hash := 5381;
    var p := 0;
    while p < |s|
      invariant 0 <= p <= |s|
      invariant HashDjbFrom(hash, s[p..]) == HashDjb(s)
    {
      assert s[p..][1..] == s[p + 1..];
      hash := HashStep(hash, s[p]);
      p := p + 1;
    }
  }

  /** The bucket a key belongs to in a table of the given size. */
  function BucketOf(key: Bytes, size: nat): (i: nat)
    requires size > 0
    ensures i < size
  {
    HashDjb(key) as int % size
  }

  method ComputeBucket(key: Bytes, size: nat) returns (i: nat)
    requires size > 0
    ensures i == BucketOf(key, size)
  {
    var hash := ComputeHashDjb(key);
    i := hash as int % size;
  }

  lemma EmptyKeyBucket()
    ensures BucketOf([], 3) == 2
  {
  }

  // ---- rows of equal width laid end to end ----

  function Concat(rows: seq<Bytes>): Bytes {
    if rows == [] then [] else rows[0] + Concat(rows[1..])
  }

  lemma {:induction false} ConcatAppend(a: seq<Bytes>, b: seq<Bytes>)
    ensures Concat(a + b) == Concat(a) + Concat(b)
  {
    if a == [] {
      assert a + b == b;
    } else {
      assert (a + b)[0] == a[0] && (a + b)[1..] == a[1..] + b;
      calc {
        Concat(a + b);
        a[0] + Concat(a[1..] + b);
        { ConcatAppend(a[1..], b); }
        a[0] + (Concat(a[1..]) + Concat(b));
        Concat(a) + Concat(b);
      }
    }
  }

  lemma {:induction false} ConcatLength(rows: seq<Bytes>, w: nat)
    requires forall i :: 0 <= i < |rows| ==> |rows[i]| == w
    ensures |Concat(rows)| == |rows| * w
  {
    if rows != [] {
      ConcatLength(rows[1..], w);
      assert |rows| * w == w + (|rows| - 1) * w;
    }
  }

  /** Row i stands at distance i * w from the start. */
  lemma ConcatRow(rows: seq<Bytes>, w: nat, i: nat)
    requires i < |rows| && forall j :: 0 <= j < |rows| ==> |rows[j]| == w
    ensures At(Concat(rows), i * w, rows[i])
  {
    ConcatSplit(rows, w, i);
  }

  lemma ConcatSplit(rows: seq<Bytes>, w: nat, i: nat)
    requires i < |rows| && forall j :: 0 <= j < |rows| ==> |rows[j]| == w
    ensures |Concat(rows[..i])| == i * w
    ensures Concat(rows) == Concat(rows[..i]) + rows[i] + Concat(rows[i + 1..])
  {
    assert rows == rows[..i] + rows[i..] && rows[i..] == [rows[i]] + rows[i + 1..];
    ConcatAppend(rows[..i], rows[i..]);
    assert rows[i..][1..] == rows[i + 1..];
    ConcatLength(rows[..i], w);
  }

  // ---- overwriting part of a byte file, extending it at the end ----

  function Overwrite(d: Bytes, p: nat, w: Bytes): Bytes
    requires p <= |d|
  {
    d[..p] + w + (if p + |w| < |d| then d[p + |w|..] else [])
  }

  lemma OverwriteEnd(d: Bytes, w: Bytes)
    ensures Overwrite(d, |d|, w) == d + w
  {
  }

  lemma OverwriteMiddle(a: Bytes, r: Bytes, z: Bytes, k: nat, patch: Bytes)
    requires |r| == k + |patch|
    ensures Overwrite(a + r + z, |a| + k, patch) == a + (r[..k] + patch) + z
  {
    var d := a + r + z;
    assert d[..|a| + k] == a + r[..k];
    assert d[|a| + |r|..] == z;
  }

  lemma Regroup(b: Bytes, x: Bytes, r: Bytes, y: Bytes, c: Bytes)
    ensures b + (x + r + y) + c == (b + x) + r + (y + c)
  {
  }

  lemma ConcatReplace(rows: seq<Bytes>, w: nat, i: nat, row: Bytes)
    requires i < |rows| && forall j :: 0 <= j < |rows| ==> |rows[j]| == w
    requires |row| == w
    ensures |Concat(rows[..i])| == i * w
    ensures Concat(rows) == Concat(rows[..i]) + rows[i] + Concat(rows[i + 1..])
    ensures Concat(rows[i := row]) == Concat(rows[..i]) + row + Concat(rows[i + 1..])
  {
    ConcatSplit(rows, w, i);
    ConcatSplit(rows[i := row], w, i);
    assert rows[i := row][..i] == rows[..i] && rows[i := row][i + 1..] == rows[i + 1..];
  }

  lemma PatchBetween(before: Bytes, x: Bytes, r: Bytes, y: Bytes, after: Bytes, k: nat, patch: Bytes)
    requires |r| == k + |patch|
    ensures |before| + |x| + k <= |before + (x + r + y) + after|
    ensures Overwrite(before + (x + r + y) + after, |before| + |x| + k, patch)
         == before + (x + (r[..k] + patch) + y) + after
  {
    Regroup(before, x, r, y, after);
    Regroup(before, x, r[..k] + patch, y, after);
    OverwriteMiddle(before + x, r, y + after, k, patch);
  }

  /** Replacing the tail of one row of a table of rows is an overwrite in place. */
  lemma ConcatPatch(before: Bytes, rows: seq<Bytes>, after: Bytes, w: nat, i: nat, k: nat, patch: Bytes)
    requires i < |rows| && forall j :: 0 <= j < |rows| ==> |rows[j]| == w
    requires k + |patch| == w
    ensures |before| + i * w + k <= |before + Concat(rows) + after|
    ensures Overwrite(before + Concat(rows) + after, |before| + i * w + k, patch)
         == before + Concat(rows[i := rows[i][..k] + patch]) + after
  {
    hide Concat, Overwrite;
    ConcatReplace(rows, w, i, rows[i][..k] + patch);
    PatchBetween(before, Concat(rows[..i]), rows[i], Concat(rows[i + 1..]), after, k, patch);
  }
}
