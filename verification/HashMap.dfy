/**
 The fixed-capacity hash map with open addressing (include/metl/static_unordered_map.hpp):
 linear probing over tombstones, and the rebuild that clears them in place.
 */
module HashMap {
  import opened Common
  import Arith
  import opened ByteRing

  datatype Item = Item(key: int, value: int)

  /** A bucket. `Unplaced` is the rebuild's use of the tombstone mark on a live
      element. */
  datatype Bucket = Empty | Tombstone | Occupied(item: Item) | Unplaced(item: Item)

  predicate Live(s: Bucket) {
    s.Occupied? || s.Unplaced?
  }

  /** The bucket a probe reaches after `p` steps from `home`. */
  function Probe(home: nat, p: nat, n: nat): (i: nat)
    requires n > 0
    ensures i < n
  {
    Slot(home + p, n)
  }

  lemma ProbesApart(home: nat, p: nat, q: nat, n: nat)
    requires p < q < p + n
    ensures Probe(home, p, n) != Probe(home, q, n)
  {
    SlotsApart(home + p, home + q, n);
  }

  lemma ProbeNext(home: nat, p: nat, n: nat)
    requires n > 0
    ensures Slot(Probe(home, p, n) + 1, n) == Probe(home, p + 1, n)
  {
    WrapAdd(home + p, 1, n);
  }

  lemma ProbeStart(home: nat, n: nat)
    requires home < n
    ensures Probe(home, 0, n) == home
  {
    SlotsConsecutive(0, home, n);
    SlotsConsecutive(0, 0, n);
  }

  /** How many steps from home a bucket is. */
  function Steps(home: nat, i: nat, n: nat): (p: nat)
    requires home < n && i < n
    ensures p < n
  {
    if home <= i then i - home else i + n - home
  }

  lemma StepsReach(home: nat, i: nat, n: nat)
    requires home < n && i < n
    ensures Probe(home, Steps(home, i, n), n) == i
  {
    if home <= i {
      SlotsConsecutive(0, i, n);
      SlotsConsecutive(0, 0, n);
    } else {
      Lap(i, n);
    }
  }

  lemma StepsUnique(home: nat, p: nat, n: nat)
    requires home < n && p < n
    ensures Steps(home, Probe(home, p, n), n) == p
  {
    hide Slot;
    var i := Probe(home, p, n);
    StepsReach(home, i, n);
    var q := Steps(home, i, n);
    if q < p {
      ProbesApart(home, q, p, n);
    } else if p < q {
      ProbesApart(home, p, q, n);
    }
  }

  lemma Lap(i: nat, n: nat)
    requires i < n
    ensures Slot(i + n, n) == i
  {
    Arith.DivModUnique(i + n, n, 1, i);
  }

  // ---------------------------------------------------------------------
  // Tables
  // ---------------------------------------------------------------------

  ghost predicate Homes(home: int -> nat, n: nat) {
    forall k :: home(k) < n
  }

  /** No probe from `start` stops before step `p`. */
  predicate Unbroken(slots: seq<Bucket>, start: nat, p: nat) {
    0 < |slots| && forall q :: 0 <= q < p ==> !slots[Probe(start, q, |slots|)].Empty?
  }

  /** Every element can be reached from its home. */
  ghost predicate Chained(slots: seq<Bucket>, home: int -> nat) {
    && Homes(home, |slots|)
    && forall i :: 0 <= i < |slots| && slots[i].Occupied? ==>
         Unbroken(slots, home(slots[i].item.key), Steps(home(slots[i].item.key), i, |slots|))
  }

  predicate Settled(slots: seq<Bucket>) {
    forall i :: 0 <= i < |slots| ==> !slots[i].Unplaced?
  }

  /** `where` says where each key of `m` is, and nothing else is live. */
  predicate Holds(slots: seq<Bucket>, m: map<int, int>, where: map<int, int>) {
    && (forall k :: k in m ==> k in where && 0 <= where[k] < |slots| && Live(slots[where[k]]) &&
                               slots[where[k]].item == Item(k, m[k]))
    && (forall i :: 0 <= i < |slots| && Live(slots[i]) ==> slots[i].item.key in m && slots[i].item.key in where &&
                                                           where[slots[i].item.key] == i)
  }

  /** A probe that ran out, or met an empty bucket, without meeting the key. */
  lemma Absent(slots: seq<Bucket>, m: map<int, int>, where: map<int, int>, home: int -> nat, key: int, probe: nat)
    requires Holds(slots, m, where) && Chained(slots, home) && Settled(slots) && probe <= |slots|
    requires forall q :: 0 <= q < probe ==>
               var x := slots[Probe(home(key), q, |slots|)]; !(x.Occupied? && x.item.key == key)
    requires probe == |slots| || slots[Probe(home(key), probe, |slots|)].Empty?
    ensures key !in m
  {
    hide Probe, Steps;
    if key in m {
      StepsReach(home(key), where[key], |slots|);
    }
  }

  /** A new element goes where a probe from its home can be ended. */
  lemma Placed(slots: seq<Bucket>, m: map<int, int>, where: map<int, int>, home: int -> nat, item: Item, p: nat)
    requires Holds(slots, m, where) && Chained(slots, home) && item.key !in m && p < |slots|
    requires Unbroken(slots, home(item.key), p) && !Live(slots[Probe(home(item.key), p, |slots|)])
    ensures var i := Probe(home(item.key), p, |slots|); var after := slots[i := Occupied(item)];
            Holds(after, m[item.key := item.value], where[item.key := i]) && Chained(after, home)
  {
    hide Probe, Steps;
    var i := Probe(home(item.key), p, |slots|);
    var after := slots[i := Occupied(item)];
    StepsUnique(home(item.key), p, |slots|);
    forall j | 0 <= j < |after| && after[j].Occupied?
      ensures Unbroken(after, home(after[j].item.key), Steps(home(after[j].item.key), j, |after|))
    {
      assert j != i ==> Unbroken(slots, home(slots[j].item.key), Steps(home(slots[j].item.key), j, |slots|));
    }
  }

  /** A tombstone keeps every probe going that ran through the element. */
  lemma Buried(slots: seq<Bucket>, m: map<int, int>, where: map<int, int>, home: int -> nat, i: nat)
    requires Holds(slots, m, where) && Chained(slots, home) && i < |slots| && slots[i].Occupied?
    ensures var after := slots[i := Tombstone];
            Holds(after, m - {slots[i].item.key}, where) && Chained(after, home)
  {
    hide Probe, Steps;
    var after := slots[i := Tombstone];
    forall j | 0 <= j < |after| && after[j].Occupied?
      ensures Unbroken(after, home(after[j].item.key), Steps(home(after[j].item.key), j, |after|))
    {
      assert Unbroken(slots, home(slots[j].item.key), Steps(home(slots[j].item.key), j, |slots|));
    }
  }

  lemma Reassigned(slots: seq<Bucket>, m: map<int, int>, where: map<int, int>, home: int -> nat, i: nat, value: int)
    requires Holds(slots, m, where) && Chained(slots, home) && i < |slots| && slots[i].Occupied?
    ensures var key := slots[i].item.key; var after := slots[i := Occupied(Item(key, value))];
            Holds(after, m[key := value], where) && Chained(after, home)
  {
    hide Probe, Steps;
    var key := slots[i].item.key;
    var after := slots[i := Occupied(Item(key, value))];
    forall j | 0 <= j < |after| && after[j].Occupied?
      ensures Unbroken(after, home(after[j].item.key), Steps(home(after[j].item.key), j, |after|))
    {
      assert Unbroken(slots, home(slots[j].item.key), Steps(home(slots[j].item.key), j, |slots|));
    }
  }

  function Keys(slots: seq<Bucket>, n: nat): set<int>
    requires n <= |slots| && forall i :: 0 <= i < n ==> Live(slots[i])
  {
    if n == 0 then {} else
    assert Live(slots[n - 1]);
    Keys(slots, n - 1) + {slots[n - 1].item.key}
  }

  lemma {:induction false} KeysDistinct(slots: seq<Bucket>, m: map<int, int>, where: map<int, int>, n: nat)
    requires Holds(slots, m, where) && n <= |slots| && forall i :: 0 <= i < n ==> Live(slots[i])
    ensures |Keys(slots, n)| == n && Keys(slots, n) <= m.Keys
    ensures forall k :: k in Keys(slots, n) ==> k in where && 0 <= where[k] < n
  {
    if n > 0 {
      KeysDistinct(slots, m, where, n - 1);
      assert Live(slots[n - 1]);
    }
  }

  /** A table with no room left holds as many keys as it has buckets. */
  lemma FullCount(slots: seq<Bucket>, m: map<int, int>, where: map<int, int>)
    requires Holds(slots, m, where) && forall i :: 0 <= i < |slots| ==> Live(slots[i])
    ensures |m| >= |slots|
  {
    KeysDistinct(slots, m, where, |slots|);
    SubsetSize(Keys(slots, |slots|), m.Keys);
  }

  function Tombstones(slots: seq<Bucket>): nat {
    if slots == [] then 0 else Tombstones(slots[..|slots| - 1]) + if slots[|slots| - 1].Tombstone? then 1 else 0
  }

  lemma {:induction false} TombstonesUpdate(slots: seq<Bucket>, i: nat, x: Bucket)
    requires i < |slots|
    ensures Tombstones(slots[i := x]) + (if slots[i].Tombstone? then 1 else 0) ==
            Tombstones(slots) + if x.Tombstone? then 1 else 0
  {
    var n := |slots| - 1;
    if i == n {
      assert slots[i := x][..n] == slots[..n];
    } else {
      assert slots[i := x][..n] == slots[..n][i := x];
      TombstonesUpdate(slots[..n], i, x);
    }
  }

  lemma {:induction false} TombstonesNone(slots: seq<Bucket>)
    requires forall i :: 0 <= i < |slots| ==> !slots[i].Tombstone?
    ensures Tombstones(slots) == 0
  {
    if slots != [] {
      TombstonesNone(slots[..|slots| - 1]);
    }
  }

  // ---------------------------------------------------------------------
  // The rebuild
  // ---------------------------------------------------------------------

  /** Buckets before step `p` are all occupied. */
  predicate Packed(slots: seq<Bucket>, start: nat, p: nat) {
    0 < |slots| && forall q :: 0 <= q < p ==> slots[Probe(start, q, |slots|)].Occupied?
  }

  /** Every element placed so far is reached through occupied buckets alone. */
  ghost predicate Compact(slots: seq<Bucket>, home: int -> nat) {
    && Homes(home, |slots|)
    && (forall i :: 0 <= i < |slots| ==> !slots[i].Tombstone?)
    && forall i :: 0 <= i < |slots| && slots[i].Occupied? ==>
         Packed(slots, home(slots[i].item.key), Steps(home(slots[i].item.key), i, |slots|))
  }

  lemma CompactIsChained(slots: seq<Bucket>, home: int -> nat)
    requires Compact(slots, home)
    ensures Chained(slots, home)
  {
    hide Probe, Steps;
    forall i | 0 <= i < |slots| && slots[i].Occupied?
      ensures Unbroken(slots, home(slots[i].item.key), Steps(home(slots[i].item.key), i, |slots|))
    {
      assert Packed(slots, home(slots[i].item.key), Steps(home(slots[i].item.key), i, |slots|));
    }
  }

  /** The element in hand settles in the first bucket of its probe that is not
      occupied, whether that was empty or held an element still to be placed. */
  lemma SettledCompact(slots: seq<Bucket>, home: int -> nat, item: Item, p: nat)
    requires Compact(slots, home) && p < |slots| && Packed(slots, home(item.key), p)
    requires !slots[Probe(home(item.key), p, |slots|)].Occupied?
    ensures Compact(slots[Probe(home(item.key), p, |slots|) := Occupied(item)], home)
  {
    hide Probe, Steps;
    var i := Probe(home(item.key), p, |slots|);
    var after := slots[i := Occupied(item)];
    StepsUnique(home(item.key), p, |slots|);
    forall j | 0 <= j < |after| && after[j].Occupied?
      ensures Packed(after, home(after[j].item.key), Steps(home(after[j].item.key), j, |after|))
    {
      assert j != i ==> Packed(slots, home(slots[j].item.key), Steps(home(slots[j].item.key), j, |slots|));
    }
  }

  /** `Holds`, with one element of the map in hand rather than in a bucket. */
  predicate HoldsBut(slots: seq<Bucket>, m: map<int, int>, where: map<int, int>, item: Item) {
    && item.key in m && m[item.key] == item.value && Holds(slots, m - {item.key}, where)
  }

  lemma Taken(slots: seq<Bucket>, m: map<int, int>, where: map<int, int>, i: nat, x: Bucket)
    requires Holds(slots, m, where) && i < |slots| && Live(slots[i]) && !Live(x)
    ensures HoldsBut(slots[i := x], m, where, slots[i].item)
  {
  }

  lemma PutDown(slots: seq<Bucket>, m: map<int, int>, where: map<int, int>, item: Item, i: nat)
    requires HoldsBut(slots, m, where, item) && i < |slots| && !Live(slots[i])
    ensures Holds(slots[i := Occupied(item)], m, where[item.key := i])
  {
  }

  lemma Swapped(slots: seq<Bucket>, m: map<int, int>, where: map<int, int>, item: Item, i: nat)
    requires HoldsBut(slots, m, where, item) && i < |slots| && Live(slots[i])
    ensures HoldsBut(slots[i := Occupied(item)], m, where[item.key := i], slots[i].item)
  {
  }

  function UnplacedCount(slots: seq<Bucket>): nat {
    if slots == [] then 0 else UnplacedCount(slots[..|slots| - 1]) + if slots[|slots| - 1].Unplaced? then 1 else 0
  }

  lemma {:induction false} UnplacedUpdate(slots: seq<Bucket>, i: nat, x: Bucket)
    requires i < |slots|
    ensures UnplacedCount(slots[i := x]) + (if slots[i].Unplaced? then 1 else 0) ==
            UnplacedCount(slots) + if x.Unplaced? then 1 else 0
  {
    var n := |slots| - 1;
    if i == n {
      assert slots[i := x][..n] == slots[..n];
    } else {
      assert slots[i := x][..n] == slots[..n][i := x];
      UnplacedUpdate(slots[..n], i, x);
    }
  }

  /** With fewer elements than buckets some bucket is not occupied, so a walk from
      anywhere that met only occupied buckets has not been all round. */
  lemma WalkEnds(slots: seq<Bucket>, m: map<int, int>, where: map<int, int>, start: nat, p: nat)
    requires Holds(slots, m, where) && |m| < |slots| && start < |slots| && Packed(slots, start, p)
    ensures p < |slots|
  {
    hide Probe, Steps;
    if p >= |slots| {
      forall i | 0 <= i < |slots| ensures Live(slots[i]) {
        StepsReach(start, i, |slots|);
      }
      FullCount(slots, m, where);
    }
  }

  // ---------------------------------------------------------------------
  // The map
  // ---------------------------------------------------------------------

  class StaticMap {
    const capacity: nat
    const buckets: nat
    const home: int -> nat
    const reclaims: bool
    const slots: array<Bucket>
    var size: nat
    var tombstones: nat

    // The map this table holds, and where each key is.
    ghost var model: map<int, int>
    ghost var where: map<int, int>

    ghost predicate Valid()
      reads this, slots
    {
      && Shaped() && size == |model| <= capacity
      && tombstones == Tombstones(slots[..]) && Settled(slots[..])
      && Holds(slots[..], model, where) && Chained(slots[..], home)
    }

    ghost predicate Shaped()
      reads this
    {
      0 < buckets == slots.Length && 2 * capacity <= buckets && Homes(home, buckets)
    }

    constructor (capacity: nat, buckets: nat, home: int -> nat, reclaims: bool)
      requires 0 < buckets && 2 * capacity <= buckets && Homes(home, buckets)
      ensures Valid() && model == map[] && this.capacity == capacity && fresh(slots)
    {
      this.capacity, this.buckets, this.home, this.reclaims := capacity, buckets, home, reclaims;
      slots := new Bucket[buckets](i => Empty);
      size, tombstones := 0, 0;
      model, where := map[], map[];
      new;
      TombstonesNone(slots[..]);
    }

    /** The key's bucket, or `buckets`: no probe passes the end of its run. */
    method FindIndex(key: int) returns (i: nat)
      requires Valid()
      ensures i <= buckets && (i == buckets <==> key !in model)
      ensures i < buckets ==> slots[i].Occupied? && slots[i].item == Item(key, model[key])
    {
      hide Probe, Steps, Tombstones;
      if capacity == 0 {
        return buckets;
      }
      var start := home(key);
      for probe := 0 to buckets
        invariant forall q :: 0 <= q < probe ==>
                    var x := slots[..][Probe(start, q, buckets)]; !(x.Occupied? && x.item.key == key)
      {
        var index := Probe(start, probe, buckets);
        if slots[index].Empty? {
          Absent(slots[..], model, where, home, key, probe);
          return buckets;
        }
        if slots[index].Occupied? && slots[index].item.key == key {
          assert slots[..][index] == slots[index];
          return index;
        }
      }
      Absent(slots[..], model, where, home, key, buckets);
      return buckets;
    }

    method Find(key: int) returns (r: Option<int>)
      requires Valid()
      ensures r == if key in model then Some(model[key]) else None
    {
      hide Holds, Chained, Settled, Tombstones;
      var i := FindIndex(key);
      r := if i == buckets then None else Some(slots[i].item.value);
    }

    /** Where the key is, or may be put: the first tombstone of its probe, else the
        bucket that ended it. */
    method Locate(key: int) returns (found: bool, i: nat, ghost p: nat)
      requires Valid()
      ensures found <==> capacity > 0
      ensures found ==> i < buckets
      ensures found && key in model ==> slots[i].Occupied? && slots[i].item == Item(key, model[key])
      ensures found && key !in model ==>
                !Live(slots[i]) && p < buckets && i == Probe(home(key), p, buckets) && Unbroken(slots[..], home(key), p)
    {
      hide Probe, Steps, Tombstones;
      if capacity == 0 {
        return false, 0, 0;
      }
      var tomb := buckets;
      p := 0;
      var start := home(key);
      for probe := 0 to buckets
        invariant Unbroken(slots[..], start, probe)
        invariant forall q :: 0 <= q < probe ==>
                    var x := slots[..][Probe(start, q, buckets)]; !(x.Occupied? && x.item.key == key)
        invariant tomb == buckets ==> Packed(slots[..], start, probe)
        invariant tomb != buckets ==> p < probe && tomb == Probe(start, p, buckets) && slots[tomb].Tombstone?
      {
        var index := Probe(start, probe, buckets);
        if slots[index].Empty? {
          Absent(slots[..], model, where, home, key, probe);
          if tomb != buckets {
            return true, tomb, p;
          }
          return true, index, probe;
        }
        if slots[index].Tombstone? {
          if tomb == buckets {
            tomb, p := index, probe;
          }
          continue;
        }
        assert slots[..][index] == slots[index];
        if slots[index].item.key == key {
          return true, index, probe;
        }
      }
      Absent(slots[..], model, where, home, key, buckets);
      if tomb == buckets {
        WalkEnds(slots[..], model, where, start, buckets);
      }
      return true, tomb, p;
    }

    /** A new element in a bucket found for it. */
    method PlaceAt(i: nat, key: int, value: int, ghost p: nat)
      requires Valid() && key !in model && size < capacity && p < buckets && i == Probe(home(key), p, buckets)
      requires Unbroken(slots[..], home(key), p) && !Live(slots[i])
      modifies this, slots
      ensures Valid() && model == old(model)[key := value]
    {
      hide Probe, Steps, Tombstones;
      Placed(slots[..], model, where, home, Item(key, value), p);
      TombstonesUpdate(slots[..], i, Occupied(Item(key, value)));
      if slots[i].Tombstone? {
        tombstones := tombstones - 1;
      }
      slots[i] := Occupied(Item(key, value));
      size := size + 1;
      model, where := model[key := value], where[key := i];
    }

    /** Leaves a tombstone: clearing the bucket would break the probes through it. */
    method DestroyAt(i: nat)
      requires Valid() && i < buckets && slots[i].Occupied?
      modifies this, slots
      ensures Valid() && model == old(model) - {old(slots[i]).item.key}
    {
      hide Holds, Chained, Tombstones, Settled;
      ghost var before, after := slots[..], slots[..][i := Tombstone];
      Buried(before, model, where, home, i);
      TombstonesUpdate(before, i, Tombstone);
      SettledUpdate(before, i, Tombstone);
      KeyIn(before, model, where, i);
      Without(model, before[i].item.key);
      slots[i] := Tombstone;
      assert slots[..] == after;
      size, tombstones := size - 1, tombstones + 1;
      model := model - {before[i].item.key};
    }

    method Erase(key: int) returns (erased: bool)
      requires Valid()
      modifies this, slots
      ensures Valid() && erased == (key in old(model)) && model == old(model) - {key}
    {
      hide Holds, Chained, Tombstones, Settled;
      var i := FindIndex(key);
      if i == buckets {
        assert model - {key} == model;
        return false;
      }
      DestroyAt(i);
      return true;
    }

    /** Marks every element as still to be placed and clears the tombstones. */
    method MarkAll()
      requires Valid()
      modifies slots
      ensures Holds(slots[..], model, where) && Compact(slots[..], home)
    {
      hide Probe, Steps, Tombstones;
      ghost var before := slots[..];
      for i := 0 to buckets
        invariant forall k :: 0 <= k < i ==> slots[k] == Marked(before[k])
        invariant forall k :: i <= k < buckets ==> slots[k] == before[k]
      {
        slots[i] := Marked(slots[i]);
      }
      MarkedHolds(before, slots[..], model, where);
    }

    /** Settles the element in hand, and every one it displaces in turn. */
    method Settle(item: Item)
      requires Shaped() && |model| < buckets && HoldsBut(slots[..], model, where, item) && Compact(slots[..], home)
      modifies slots, this`where
      ensures Holds(slots[..], model, where) && Compact(slots[..], home)
      ensures forall i :: 0 <= i < buckets && !old(slots[i]).Unplaced? ==> !slots[i].Unplaced?
    {
      hide Probe, Steps, Holds, HoldsBut, Compact, UnplacedCount;
      var carry := item;
      while true
        invariant HoldsBut(slots[..], model, where, carry) && Compact(slots[..], home)
        invariant forall i :: 0 <= i < buckets && !old(slots[i]).Unplaced? ==> !slots[i].Unplaced?
        decreases UnplacedCount(slots[..])
      {
        var target, p := FirstFree(carry);
        SettledCompact(slots[..], home, carry, p);
        UnplacedUpdate(slots[..], target, Occupied(carry));
        if slots[target].Empty? {
          PutDown(slots[..], model, where, carry, target);
          slots[target] := Occupied(carry);
          where := where[carry.key := target];
          return;
        }
        NotTombstone(slots[..], home, target);
        Swapped(slots[..], model, where, carry, target);
        var displaced := slots[target].item;
        slots[target] := Occupied(carry);
        where := where[carry.key := target];
        carry := displaced;
      }
    }

    /** Walks from the element's home past occupied buckets. */
    method FirstFree(item: Item) returns (target: nat, ghost p: nat)
      requires Shaped() && |model| < buckets && HoldsBut(slots[..], model, where, item)
      ensures p < buckets && target == Probe(home(item.key), p, buckets)
      ensures Packed(slots[..], home(item.key), p) && !slots[target].Occupied?
    {
      hide Probe, Steps, Holds;
      ghost var rest := model - {item.key};
      Without(model, item.key);
      target, p := home(item.key), 0;
      ProbeStart(target, buckets);
      WalkEnds(slots[..], rest, where, home(item.key), p);
      while slots[target].Occupied?
        invariant p < buckets && target == Probe(home(item.key), p, buckets) && Packed(slots[..], home(item.key), p)
        decreases buckets - p
      {
        ProbeNext(home(item.key), p, buckets);
        target, p := Slot(target + 1, buckets), p + 1;
        WalkEnds(slots[..], rest, where, home(item.key), p);
      }
    }

    /** The rebuild: no element lost, moved out of reach or duplicated, and no
        tombstone left. */
    method RehashInPlace()
      requires Valid()
      modifies this`tombstones, this`where, slots
      ensures Valid() && tombstones == (if capacity == 0 then old(tombstones) else 0)
    {
      hide Probe, Steps, Holds, Chained, Tombstones, Compact;
      if capacity == 0 {
        return;
      }
      MarkAll();
      tombstones := 0;
      for i := 0 to buckets
        invariant Holds(slots[..], model, where) && Compact(slots[..], home) && tombstones == 0
        invariant forall k :: 0 <= k < i ==> !slots[k].Unplaced?
      {
        if !slots[i].Unplaced? {
          continue;
        }
        var carry := slots[i].item;
        Taken(slots[..], model, where, i, Empty);
        EmptiedCompact(slots[..], home, i);
        slots[i] := Empty;
        Settle(carry);
      }
      CompactIsChained(slots[..], home);
      CompactNoTombstones(slots[..], home);
    }

    /** Places a new element, after a rebuild when tombstones have piled up. */
    method ConstructAt(i: nat, key: int, value: int, ghost p: nat)
      requires Valid() && key !in model && size < capacity && p < buckets && i == Probe(home(key), p, buckets)
      requires Unbroken(slots[..], home(key), p) && !Live(slots[i])
      modifies this, slots
      ensures Valid() && model == old(model)[key := value]
    {
      hide Probe, Steps, Holds, Chained, Tombstones, Settled, Unbroken;
      if reclaims && tombstones > buckets / 8 {
        RehashInPlace();
        var _, index, step := Locate(key);
        PlaceAt(index, key, value, step);
      } else {
        PlaceAt(i, key, value, p);
      }
    }

    /** A new key, if there is room for it. */
    method TryEmplace(key: int, value: int) returns (ok: bool)
      requires Valid()
      modifies this, slots
      ensures Valid() && ok == (key !in old(model) && |old(model)| < capacity)
      ensures model == if ok then old(model)[key := value] else old(model)
    {
      hide Probe, Steps, Holds, Chained, Tombstones, Settled, Unbroken;
      var found, i, p := Locate(key);
      if !found {
        return false;
      }
      if slots[i].Occupied? {
        return false;
      }
      if size >= capacity {
        return false;
      }
      ConstructAt(i, key, value, p);
      return true;
    }

    /** An old key is assigned; a new one needs room. */
    method TryInsertOrAssign(key: int, value: int) returns (ok: bool)
      requires Valid()
      modifies this, slots
      ensures Valid() && ok == (key in old(model) || |old(model)| < capacity)
      ensures model == if ok then old(model)[key := value] else old(model)
    {
      hide Probe, Steps, Holds, Chained, Tombstones, Unbroken;
      var i := FindIndex(key);
      if i != buckets {
        Reassigned(slots[..], model, where, home, i, value);
        TombstonesUpdate(slots[..], i, Occupied(Item(key, value)));
        SameKeys(model, key, value);
        slots[i] := Occupied(Item(key, value));
        model := model[key := value];
        return true;
      }
      if size >= capacity {
        return false;
      }
      var _, at, p := Locate(key);
      ConstructAt(at, key, value, p);
      return true;
    }

    method Clear()
      requires Valid()
      modifies this, slots
      ensures Valid() && model == map[]
    {
      hide Probe, Steps, Tombstones;
      for i := 0 to buckets
        invariant forall k :: 0 <= k < i ==> slots[k] == Empty
      {
        slots[i] := Empty;
      }
      size, tombstones := 0, 0;
      model, where := map[], map[];
      TombstonesNone(slots[..]);
    }
  }

  lemma KeyIn(slots: seq<Bucket>, m: map<int, int>, where: map<int, int>, i: nat)
    requires Holds(slots, m, where) && i < |slots| && Live(slots[i])
    ensures slots[i].item.key in m
  {
  }

  lemma SettledUpdate(slots: seq<Bucket>, i: nat, x: Bucket)
    requires Settled(slots) && i < |slots| && !x.Unplaced?
    ensures Settled(slots[i := x])
  {
  }

  /** The rebuild's first phase, bucket by bucket. */
  function Marked(x: Bucket): Bucket {
    if x.Occupied? then Unplaced(x.item) else Empty
  }

  lemma MarkedHolds(before: seq<Bucket>, after: seq<Bucket>, m: map<int, int>, where: map<int, int>)
    requires |before| == |after| && Settled(before) && Holds(before, m, where)
    requires forall k :: 0 <= k < |after| ==> after[k] == Marked(before[k])
    ensures Holds(after, m, where)
  {
  }

  lemma EmptiedCompact(slots: seq<Bucket>, home: int -> nat, i: nat)
    requires Compact(slots, home) && i < |slots| && slots[i].Unplaced?
    ensures Compact(slots[i := Empty], home)
  {
    hide Probe, Steps;
    var after := slots[i := Empty];
    forall j | 0 <= j < |after| && after[j].Occupied?
      ensures Packed(after, home(after[j].item.key), Steps(home(after[j].item.key), j, |after|))
    {
      assert Packed(slots, home(slots[j].item.key), Steps(home(slots[j].item.key), j, |slots|));
    }
  }

  lemma NotTombstone(slots: seq<Bucket>, home: int -> nat, i: nat)
    requires Compact(slots, home) && i < |slots|
    ensures !slots[i].Tombstone?
  {
  }

  lemma CompactNoTombstones(slots: seq<Bucket>, home: int -> nat)
    requires Compact(slots, home)
    ensures Tombstones(slots) == 0
  {
    TombstonesNone(slots);
  }

  lemma Without(m: map<int, int>, key: int)
    requires key in m
    ensures |m - {key}| == |m| - 1
  {
    assert (m - {key}).Keys == m.Keys - {key};
    assert |m.Keys - {key}| == |m.Keys| - 1;
  }

  lemma SameKeys(m: map<int, int>, key: int, value: int)
    requires key in m
    ensures |m[key := value]| == |m|
  {
    assert m[key := value].Keys == m.Keys;
  }
}
