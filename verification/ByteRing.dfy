/**
 The single-producer single-consumer byte ring (include/metl/spsc_byte_ring.hpp)
 as seen with both sides on one thread: indices that wrap at the width of size_t,
 contiguous runs that stop at the seam, and the queue of bytes it refines.
 */
module ByteRing {
  import Arith

  /** Where position `p` of the endless byte stream is stored. */
  function Slot(p: nat, capacity: nat): (s: nat)
    requires capacity > 0
    ensures s < capacity
  {
    p % capacity
  }

  /** Unsigned arithmetic of a machine word. */
  function Wrap(p: nat, modulus: nat): (r: nat)
    requires modulus > 0
  {
    p % modulus
  }

  function Minus(a: nat, b: nat, modulus: nat): (r: nat)
    requires modulus > 0
  {
    (a - b) % modulus
  }

  predicate Divides(capacity: nat, modulus: nat) {
    0 < capacity < modulus && modulus % capacity == 0
  }

  lemma WrapZero(modulus: nat)
    requires modulus > 0
    ensures Wrap(0, modulus) == 0
  {
  }

  /** Positions less than a lap apart have slots of their own. */
  lemma SlotsApart(p: nat, q: nat, capacity: nat)
    requires p < q < p + capacity
    ensures Slot(p, capacity) != Slot(q, capacity)
  {
    var a, r := p / capacity, p % capacity;
    var d := q - p;
    if r + d < capacity {
      Arith.DivModUnique(q, capacity, a, r + d);
    } else {
      assert q == (a + 1) * capacity + (r + d - capacity);
      Arith.DivModUnique(q, capacity, a + 1, r + d - capacity);
    }
  }

  /** Within a run that ends before the seam, slots are consecutive. */
  lemma SlotsConsecutive(p: nat, i: nat, capacity: nat)
    requires capacity > 0 && Slot(p, capacity) + i < capacity
    ensures Slot(p + i, capacity) == Slot(p, capacity) + i
  {
    Arith.DivModUnique(p + i, capacity, p / capacity, p % capacity + i);
  }

  /** Wrapping an index at a multiple of the capacity keeps its slot. */
  lemma WrapKeepsSlot(p: nat, modulus: nat, capacity: nat)
    requires Divides(capacity, modulus)
    ensures Slot(Wrap(p, modulus), capacity) == Slot(p, capacity)
  {
    var laps, k := p / modulus, modulus / capacity;
    var r := p % modulus;
    assert p == laps * modulus + r && modulus == k * capacity;
    assert laps * modulus == (laps * k) * capacity;
    assert p == (laps * k + r / capacity) * capacity + r % capacity;
    Arith.DivModUnique(p, capacity, laps * k + r / capacity, r % capacity);
  }

  /** The wrapped difference of two indices is how far apart they are. */
  lemma WrapKeepsDistance(p: nat, q: nat, modulus: nat)
    requires p <= q < p + modulus
    ensures Minus(Wrap(q, modulus), Wrap(p, modulus), modulus) == q - p
  {
    var a, b := p / modulus, q / modulus;
    var d := q % modulus - p % modulus;
    assert d == (q - p) - (b - a) * modulus;
    Arith.DivModUnique(d, modulus, -(b - a), q - p);
  }

  /** The bytes from stream position `start` on are where they belong. */
  predicate Stored(store: seq<char>, start: nat, bytes: seq<char>) {
    0 < |store| && |bytes| <= |store| &&
    forall i :: 0 <= i < |bytes| ==> store[Slot(start + i, |store|)] == bytes[i]
  }

  /** Writing one byte of the free run disturbs no stored byte. */
  lemma StoredPut(store: seq<char>, start: nat, bytes: seq<char>, k: nat, b: char)
    requires Stored(store, start, bytes) && |bytes| + k < |store| && Slot(start + |bytes|, |store|) + k < |store|
    ensures Stored(store[Slot(start + |bytes|, |store|) + k := b], start, bytes)
  {
    hide Slot;
    SlotsConsecutive(start + |bytes|, k, |store|);
    forall i | 0 <= i < |bytes|
      ensures store[Slot(start + |bytes|, |store|) + k := b][Slot(start + i, |store|)] == bytes[i]
    {
      SlotsApart(start + i, start + |bytes| + k, |store|);
    }
  }

  /** A contiguous run after the stored bytes extends them. */
  lemma StoredAppend(store: seq<char>, start: nat, bytes: seq<char>, count: nat)
    requires Stored(store, start, bytes) && |bytes| + count <= |store| &&
             Slot(start + |bytes|, |store|) + count <= |store|
    ensures var offset := Slot(start + |bytes|, |store|); Stored(store, start, bytes + store[offset..offset + count])
  {
    hide Slot;
    var offset := Slot(start + |bytes|, |store|);
    var all := bytes + store[offset..offset + count];
    forall i | 0 <= i < |all| ensures store[Slot(start + i, |store|)] == all[i] {
      if i >= |bytes| {
        SlotsConsecutive(start + |bytes|, i - |bytes|, |store|);
        assert start + |bytes| + (i - |bytes|) == start + i;
      }
    }
  }

  lemma StoredDrop(store: seq<char>, start: nat, bytes: seq<char>, count: nat)
    requires Stored(store, start, bytes) && count <= |bytes|
    ensures Stored(store, start + count, bytes[count..])
  {
    hide Slot;
    var rest := bytes[count..];
    forall i | 0 <= i < |rest| ensures store[Slot(start + count + i, |store|)] == rest[i] {
      assert bytes[count + i] == rest[i] && start + count + i == start + (count + i);
    }
  }

  /** The first contiguous run holds the first bytes. */
  lemma StoredRun(store: seq<char>, start: nat, bytes: seq<char>, length: nat)
    requires Stored(store, start, bytes) && length <= |bytes| && Slot(start, |store|) + length <= |store|
    ensures var offset := Slot(start, |store|); store[offset..offset + length] == bytes[..length]
  {
    hide Slot;
    var run := store[Slot(start, |store|)..Slot(start, |store|) + length];
    forall i | 0 <= i < length ensures run[i] == bytes[i] {
      SlotsConsecutive(start, i, |store|);
    }
  }

  /** The next slot takes the next byte. */
  lemma StoredPush(store: seq<char>, start: nat, bytes: seq<char>, b: char)
    requires Stored(store, start, bytes) && |bytes| < |store|
    ensures Stored(store[Slot(start + |bytes|, |store|) := b], start, bytes + [b])
  {
    hide Slot;
    forall i | 0 <= i < |bytes|
      ensures store[Slot(start + |bytes|, |store|) := b][Slot(start + i, |store|)] == bytes[i]
    {
      SlotsApart(start + i, start + |bytes|, |store|);
    }
  }

  lemma WrapAdd(p: nat, n: nat, modulus: nat)
    requires modulus > 0
    ensures Wrap(Wrap(p, modulus) + n, modulus) == Wrap(p + n, modulus)
  {
    var s := p % modulus + n;
    assert p + n == (p / modulus) * modulus + s;
    assert p + n == (p / modulus + s / modulus) * modulus + s % modulus;
    Arith.DivModUnique(p + n, modulus, p / modulus + s / modulus, s % modulus);
  }

  /** Both indices as size_t sees them, for a stream position and a length. */
  lemma Indices(start: nat, length: nat, capacity: nat, modulus: nat)
    requires Divides(capacity, modulus) && length <= capacity
    ensures Minus(Wrap(start + length, modulus), Wrap(start, modulus), modulus) == length
    ensures Slot(Wrap(start, modulus), capacity) == Slot(start, capacity)
    ensures Slot(Wrap(start + length, modulus), capacity) == Slot(start + length, capacity)
  {
    hide Slot;
    WrapKeepsDistance(start, start + length, modulus);
    WrapKeepsSlot(start, modulus, capacity);
    WrapKeepsSlot(start + length, modulus, capacity);
  }

  class Ring {
    const capacity: nat
    const modulus: nat
    const storage: array<char>
    var head: nat
    var tail: nat

    // The bytes queued, and the stream position of the first.
    ghost var contents: seq<char>
    ghost var start: nat

    ghost predicate Valid()
      reads this, storage
    {
      && 2 <= capacity == storage.Length && 0 < modulus && Divides(capacity, modulus)
      && |contents| <= capacity && head == Wrap(start, modulus) && tail == Wrap(start + |contents|, modulus)
      && Stored(storage[..], start, contents)
    }

    constructor (capacity: nat, modulus: nat)
      requires 2 <= capacity && 0 < modulus && Divides(capacity, modulus)
      ensures Valid() && contents == [] && this.capacity == capacity && this.modulus == modulus && fresh(storage)
    {
      hide Slot, Wrap, Divides;
      WrapZero(modulus);
      this.capacity, this.modulus := capacity, modulus;
      storage := new char[capacity](i => '\0');
      head, tail := 0, 0;
      contents, start := [], 0;
    }

    method ReadableSize() returns (n: nat)
      requires Valid()
      ensures n == |contents|
    {
      hide Wrap, Minus, Divides;
      Indices(start, |contents|, capacity, modulus);
      n := Minus(tail, head, modulus);
    }

    method WritableSize() returns (n: nat)
      requires Valid()
      ensures n == capacity - |contents|
    {
      hide Wrap, Minus, Divides;
      Indices(start, |contents|, capacity, modulus);
      n := capacity - Minus(tail, head, modulus);
    }

    /** Where the next byte will be written. */
    ghost function Free(): (offset: nat)
      requires Valid()
      reads this, storage
      ensures offset < capacity
    {
      Slot(start + |contents|, capacity)
    }

    /** The first contiguous free run: shorter than the free space at the seam,
        empty only when the ring is full. */
    method WritableSpan() returns (offset: nat, length: nat)
      requires Valid()
      ensures offset == Free() && offset + length <= capacity
      ensures length <= capacity - |contents| && (length == 0 <==> |contents| == capacity)
      ensures length == capacity - |contents| || offset + length == capacity
    {
      hide Slot, Wrap, Minus, Divides;
      Indices(start, |contents|, capacity, modulus);
      var free := capacity - Minus(tail, head, modulus);
      offset := Slot(tail, capacity);
      var toEnd := capacity - offset;
      length := if free < toEnd then free else toEnd;
    }

    /** A transfer, or the caller, writing one byte of the writable span. */
    method Put(k: nat, b: char)
      requires Valid() && |contents| + k < capacity && Free() + k < capacity
      modifies storage
      ensures Valid() && storage[..] == old(storage[..])[Free() + k := b]
    {
      hide Slot, Stored, Wrap, Minus, Divides;
      Indices(start, |contents|, capacity, modulus);
      StoredPut(storage[..], start, contents, k, b);
      storage[Slot(tail, capacity) + k] := b;
    }

    /** Publishes the first `count` bytes of the writable span. */
    method Commit(count: nat)
      requires Valid() && |contents| + count <= capacity && Free() + count <= capacity
      modifies this`tail, this`contents
      ensures Valid() && contents == old(contents) + storage[old(Free())..old(Free()) + count]
    {
      hide Slot, Stored, Wrap, Minus, Divides;
      StoredAppend(storage[..], start, contents, count);
      WrapAdd(start + |contents|, count, modulus);
      ghost var offset := Free();
      tail := Wrap(tail + count, modulus);
      contents := contents + storage[offset..offset + count];
      assert storage[..][offset..offset + count] == storage[offset..offset + count];
    }

    /** The first contiguous readable run, empty only when the ring is. */
    method ReadableSpan() returns (offset: nat, length: nat)
      requires Valid()
      ensures offset + length <= capacity && length <= |contents| && (length == 0 <==> contents == [])
      ensures storage[offset..offset + length] == contents[..length]
      ensures length == |contents| || offset + length == capacity
    {
      hide Slot, Stored, Wrap, Minus, Divides;
      Indices(start, |contents|, capacity, modulus);
      var available := Minus(tail, head, modulus);
      offset := Slot(head, capacity);
      var toEnd := capacity - offset;
      length := if available < toEnd then available else toEnd;
      StoredRun(storage[..], start, contents, length);
      assert storage[..][offset..offset + length] == storage[offset..offset + length];
    }

    /** Bounded by what is readable, not by the seam. */
    method Consume(count: nat)
      requires Valid() && count <= |contents|
      modifies this`head, this`contents, this`start
      ensures Valid() && contents == old(contents[count..])
    {
      hide Slot, Stored, Wrap, Minus, Divides;
      WrapAdd(start, count, modulus);
      StoredDrop(storage[..], start, contents, count);
      head := Wrap(head + count, modulus);
      start, contents := start + count, contents[count..];
    }

    /** All of the source or none of it. */
    method TryWrite(source: seq<char>) returns (ok: bool)
      requires Valid()
      modifies this`tail, this`contents, storage
      ensures Valid() && ok == (|source| <= capacity - old(|contents|))
      ensures contents == if ok then old(contents) + source else old(contents)
      ensures !ok ==> storage[..] == old(storage[..])
    {
      hide Slot, Stored, Wrap, Minus, Divides;
      Indices(start, |contents|, capacity, modulus);
      if |source| > capacity - Minus(tail, head, modulus) {
        return false;
      }
      assert contents + source[..0] == contents;
      for i := 0 to |source|
        invariant unchanged(this)
        invariant Stored(storage[..], start, contents + source[..i])
      {
        ghost var bytes := contents + source[..i];
        WrapAdd(start + |contents|, i, modulus);
        WrapKeepsSlot(start + |bytes|, modulus, capacity);
        StoredPush(storage[..], start, bytes, source[i]);
        assert contents + source[..i + 1] == bytes + [source[i]];
        storage[Slot(Wrap(tail + i, modulus), capacity)] := source[i];
      }
      assert source[..|source|] == source;
      WrapAdd(start + |contents|, |source|, modulus);
      tail := Wrap(tail + |source|, modulus);
      contents := contents + source;
      return true;
    }

    /** As much as is there and fits, oldest first. */
    method Read(destination: array<char>) returns (count: nat)
      requires Valid() && destination != storage
      modifies this`head, this`contents, this`start, destination
      ensures Valid() && count == if old(|contents|) < destination.Length then old(|contents|) else destination.Length
      ensures destination[..] == old(contents[..count]) + old(destination[count..])
      ensures contents == old(contents[count..])
    {
      hide Slot, Wrap, Minus, Divides;
      Indices(start, |contents|, capacity, modulus);
      var available := Minus(tail, head, modulus);
      count := if available < destination.Length then available else destination.Length;
      ghost var store := storage[..];
      for i := 0 to count
        invariant unchanged(this) && unchanged(storage)
        invariant forall k :: 0 <= k < i ==> destination[k] == contents[k]
        invariant forall k :: i <= k < destination.Length ==> destination[k] == old(destination[k])
      {
        WrapAdd(start, i, modulus);
        WrapKeepsSlot(start + i, modulus, capacity);
        assert store[Slot(start + i, capacity)] == contents[i];
        destination[i] := storage[Slot(Wrap(head + i, modulus), capacity)];
      }
      Consume(count);
    }
  }
}
