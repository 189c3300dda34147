/** The builder's in-memory file: a buffer that doubles, a size and a cursor. */
module CdbFile {
  import opened Bytes

  /** Capacities are C ints: 2^30 is the largest one that doubling 1024 reaches. */
  const LIMIT: nat := 0x4000_0000

  /** The capacity after some doublings. */
  function Capacity(doublings: nat): (c: nat)
    ensures c > doublings
  {
    if doublings == 0 then 1024 else Capacity(doublings - 1) * 2
  }

  lemma {:induction false} CapacityMonotone(j: nat, k: nat)
    requires j <= k
    ensures Capacity(j) <= Capacity(k)
  {
    if j < k { CapacityMonotone(j, k - 1); }
  }

  lemma LimitIsCapacity()
    ensures Capacity(20) == LIMIT
  {
    assert Capacity(2) == 0x1000 && Capacity(4) == 0x4000 && Capacity(6) == 0x1_0000 && Capacity(8) == 0x4_0000;
    assert Capacity(10) == 0x10_0000 && Capacity(12) == 0x40_0000 && Capacity(14) == 0x100_0000;
    assert Capacity(16) == 0x400_0000 && Capacity(18) == 0x1000_0000;
  }

  /** Below the limit there is room for one more doubling, so the int never overflows. */
  lemma DoublingStaysWithin(doublings: nat)
    requires Capacity(doublings) < LIMIT
    ensures doublings < 20 && Capacity(doublings + 1) <= LIMIT
  {
    LimitIsCapacity();
    if doublings >= 20 { CapacityMonotone(20, doublings); }
    CapacityMonotone(doublings + 1, 20);
  }

  datatype Whence = SeekSet | SeekEnd

  class File {
    var data: array<byte>
    var capacity: nat
    var size: nat
    var cursor: nat
    ghost var doublings: nat

    ghost predicate Valid()
      reads this
    {
      cursor <= size < capacity <= LIMIT && capacity == Capacity(doublings) && data.Length == capacity + 10
    }

    /** The unbounded byte file that the buffer stands for. */
    ghost function Contents(): Bytes
      requires Valid()
      reads this, data
    {
      data[..size]
    }

    constructor ()
      ensures Valid() && fresh(data)
      ensures Contents() == [] && cursor == 0
    {
      capacity, size, cursor, doublings := 1024, 0, 0, 0;
      data := new byte[1024 + 10];
    }

    /** Moves the cursor, clamped into the file. */
    method Seek(offset: int, whence: Whence)
      requires Valid()
      modifies this`cursor
      ensures Valid() && Contents() == old(Contents())
      ensures var p := if whence.SeekSet? then offset else size - offset;
              cursor == if p < 0 then 0 else if p > size then size else p
    {
      var p := if whence == SeekSet then offset else size - offset;
      if p > size {
        p := size;
      }
      if p < 0 {
        p := 0;
      }
      cursor := p;
    }

    method Tell() returns (p: nat)
      ensures p == cursor
    {
      p := cursor;
    }

    /** Doubles the buffer until the given number of bytes fits behind the cursor. */
    method Grow(need: nat)
      requires Valid() && cursor + need < LIMIT
      modifies this`data, this`capacity, this`doublings
      ensures Valid() && (data == old(data) || fresh(data))
      ensures Contents() == old(Contents())
      ensures capacity - cursor > need
    {
      while capacity - cursor <= need
        invariant Valid() && (data == old(data) || fresh(data))
        invariant Contents() == old(Contents())
        decreases LIMIT - capacity
      {
        DoublingStaysWithin(doublings);
        var oldLen := capacity;
        var newData := new byte[capacity * 2 + 10];
        forall i | 0 <= i < oldLen {
          newData[i] := data[i];
        }
        assert newData[..size] == data[..size];
        capacity, data, doublings := capacity * 2, newData, doublings + 1;
      }
    }

    /** Overwrites at the cursor, growing the file where the bytes reach past its end. */
    method Write(bytes: Bytes)
      requires Valid() && cursor + |bytes| < LIMIT
      modifies this, data
      ensures Valid() && (data == old(data) || fresh(data))
      ensures Contents() == Overwrite(old(Contents()), old(cursor), bytes)
      ensures cursor == old(cursor) + |bytes|
    {
      hide Capacity;
      var need := |bytes|;
      Grow(need);
      forall i | 0 <= i < need {
        data[cursor + i] := bytes[i];
      }
      cursor := cursor + need;
      if cursor > size {
        size := cursor;
      }
    }
  }
}
