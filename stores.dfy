// The two byte stores behind every piece (struct buffer in piece_table.c):
// the read-only ORIGINAL store, filled once from the loaded file, and the
// append-only ADD store that receives every inserted string.

module Stores {

  type byte = bv8

  /** Which store a piece points into (enum buffer_type). */
  datatype BufferType = Original | Add

  /** Initial capacity of the ADD store (ADD_BUFFER_INITIAL_CAPACITY). */
  const AddInitialCapacity: nat := 1024

  /** `capacity` doubled `k` times. */
  function Doubled(capacity: nat, k: nat): nat
    decreases k
  {
    if k == 0 then capacity else Doubled(2 * capacity, k - 1)
  }

  /** The capacity the growth loop of b_append ends with: the starting
      capacity doubled until it holds `need` bytes. */
  function Grown(capacity: nat, need: nat): (r: nat)
    requires capacity > 0
    ensures r >= need && r >= capacity
    ensures capacity < need ==> r < 2 * need
    ensures capacity >= need ==> r == capacity
    ensures exists k :: r == Doubled(capacity, k)
    decreases if need > capacity then need - capacity else 0
  {
    if capacity >= need then
      assert capacity == Doubled(capacity, 0);
      capacity
    else
      var r := Grown(2 * capacity, need);
      var k: nat :| r == Doubled(2 * capacity, k);
      assert r == Doubled(capacity, k + 1);
      r
  }

  /** A byte store. A read-only store has capacity 0 and is never appended
      to; a growable store keeps `data.Length == capacity`. */
  class Buffer {
    var data: array<byte>
    var len: nat
    var capacity: nat
    ghost var Contents: seq<byte>
    ghost var Repr: set<object>

    ghost predicate Valid()
      reads this, Repr
      ensures Valid() ==> this in Repr
    {
      Repr == {this, data} &&
      len <= data.Length &&
      (capacity > 0 ==> data.Length == capacity) &&
      Contents == data[..len]
    }

    /** b_create_empty: a growable store with the given capacity. */
    constructor Empty(capacity: nat)
      requires capacity > 0
      ensures Valid() && fresh(Repr)
      ensures Contents == [] && this.capacity == capacity
    {
      data := new byte[capacity](_ => 0);
      len := 0;
      this.capacity := capacity;
      Contents := [];
      Repr := {this, data};
    }

    /** b_create_readonly: a store over existing bytes, with capacity 0. */
    constructor ReadOnly(bytes: seq<byte>)
      ensures Valid() && fresh(Repr)
      ensures Contents == bytes && capacity == 0
    {
      data := new byte[|bytes|](i requires 0 <= i < |bytes| => bytes[i]);
      len := |bytes|;
      capacity := 0;
      Contents := bytes;
      Repr := {this, data};
    }

    /** b_append: a no-op for an empty string or a read-only store;
        otherwise the capacity doubles until the new bytes fit, and the
        bytes land right after the old contents. */
    method Append(s: seq<byte>)
      requires Valid()
      modifies Repr
      ensures Valid() && fresh(Repr - old(Repr))
      ensures |s| == 0 || old(capacity) == 0 ==>
                Contents == old(Contents) && capacity == old(capacity)
      ensures |s| > 0 && old(capacity) > 0 ==>
                Contents == old(Contents) + s && capacity == Grown(old(capacity), old(len) + |s|)
    {
      if |s| == 0 || capacity == 0 {
        return;
      }
      var need := len + |s|;
      if capacity < need {
        Grow(need);
      }
      ghost var before := data[..len];
      forall i | 0 <= i < |s| {
        data[len + i] := s[i];
      }
      assert data[..len] == before;
      assert data[len..need] == s;
      assert data[..need] == data[..len] + data[len..need];
      len := need;
      Contents := Contents + s;
    }

    /** The growth step of b_append: the capacity doubles until `need`
        bytes fit, and the block is reallocated keeping the first `len`
        bytes. */
    method Grow(need: nat)
      requires Valid() && 0 < capacity < need
      modifies Repr
      ensures Valid() && fresh(Repr - old(Repr))
      ensures Contents == old(Contents) && len == old(len)
      ensures capacity == Grown(old(capacity), need) && data.Length == capacity
    {
      var c := capacity;
      while c < need
        invariant c > 0
        invariant Grown(c, need) == Grown(capacity, need)
        decreases need - c
      {
        c := c * 2;
      }
      var grown := new byte[c](_ => 0);
      forall i | 0 <= i < len {
        grown[i] := data[i];
      }
      assert grown[..len] == Contents;
      data, capacity := grown, c;
      Repr := {this, data};
    }
  }
}
