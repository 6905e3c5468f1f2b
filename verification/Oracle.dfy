/**
 The reference oracle of the map fuzzers (fuzz/fuzz_model.hpp): a map under test
 is driven beside an ordered reference map and compared with it after every
 operation. What a passed comparison proves about the map under test.
 */
module Oracle {
  import opened Common

  datatype Item = Item(key: int, value: int)

  // ---------------------------------------------------------------------
  // The reference map: its entries, ascending by key
  // ---------------------------------------------------------------------

  predicate Ascending(m: seq<Item>) {
    forall i, j :: 0 <= i < j < |m| ==> m[i].key < m[j].key
  }

  function Find(m: seq<Item>, key: int): (r: Option<int>)
    ensures r.Some? ==> Item(key, r.value) in m
    ensures r.None? ==> forall e :: e in m ==> e.key != key
  {
    if m == [] then None
    else if m[|m| - 1].key == key then Some(m[|m| - 1].value)
    else Find(m[..|m| - 1], key)
  }

  lemma FindEntry(m: seq<Item>, e: Item)
    requires Ascending(m) && e in m
    ensures Find(m, e.key) == Some(e.value)
  {
    var i :| 0 <= i < |m| && m[i] == e;
    var found := Item(e.key, Find(m, e.key).value);
    var j :| 0 <= j < |m| && m[j] == found;
    assert m[i].key == m[j].key;
    if i < j || j < i {
      assert false;
    }
  }

  /** `key` set to `value`, in its place. */
  function Assigned(m: seq<Item>, key: int, value: int): (r: seq<Item>)
    requires Ascending(m)
    ensures Ascending(r) && |r| == |m| + if Find(m, key).Some? then 0 else 1
    ensures forall e :: e in r <==> e == Item(key, value) || (e in m && e.key != key)
  {
    if m == [] then [Item(key, value)] else
    var n := |m| - 1;
    var last := m[n];
    assert m == m[..n] + [last];
    if last.key < key then m + [Item(key, value)]
    else if last.key == key then m[..n] + [Item(key, value)]
    else
      var front := Assigned(m[..n], key, value);
      assert forall e :: e in front ==> e.key < last.key;
      front + [last]
  }

  function Erased(m: seq<Item>, key: int): (r: seq<Item>)
    requires Ascending(m)
    ensures Ascending(r) && |r| == |m| - if Find(m, key).Some? then 1 else 0
    ensures forall e :: e in r <==> e in m && e.key != key
  {
    if m == [] then [] else
    var n := |m| - 1;
    var last := m[n];
    assert m == m[..n] + [last];
    if last.key == key then m[..n]
    else
      var front := Erased(m[..n], key);
      assert forall e :: e in front ==> e.key < last.key;
      front + [last]
  }

  // ---------------------------------------------------------------------
  // The comparison
  // ---------------------------------------------------------------------

  /** What the oracle sees of the map under test: its size, what `find` gives for
      the keys it finds, and its items in iteration order. */
  datatype Observed = Observed(size: nat, empty: bool, found: map<int, int>, items: seq<Item>)

  predicate Agrees(o: Observed, m: seq<Item>, capacity: nat, ordered: bool) {
    && o.size == |m| <= capacity && o.empty == (m == []) && |o.items| == |m|
    && (forall i :: 0 <= i < |m| ==> m[i].key in o.found && o.found[m[i].key] == m[i].value)
    && (forall i :: 0 <= i < |o.items| ==> Find(m, o.items[i].key) == Some(o.items[i].value))
    && (ordered ==> forall i :: 0 <= i < |o.items| ==> o.items[i] == m[i])
  }

  method Verify(o: Observed, m: seq<Item>, capacity: nat, ordered: bool) returns (ok: bool)
    ensures ok <==> Agrees(o, m, capacity, ordered)
  {
    hide Find;
    if o.size != |m| || o.empty != (m == []) || o.size > capacity {
      return false;
    }
    for i := 0 to |m|
      invariant forall k :: 0 <= k < i ==> m[k].key in o.found && o.found[m[k].key] == m[k].value
    {
      if m[i].key !in o.found || o.found[m[i].key] != m[i].value {
        return false;
      }
    }
    var seen, expected := 0, 0;
    for i := 0 to |o.items|
      invariant seen == i && (ordered ==> expected == i <= |m|)
      invariant forall k :: 0 <= k < i ==> Find(m, o.items[k].key) == Some(o.items[k].value)
      invariant ordered ==> forall k :: 0 <= k < i ==> o.items[k] == m[k]
    {
      var entry := Find(m, o.items[i].key);
      if entry != Some(o.items[i].value) {
        return false;
      }
      if ordered {
        if expected == |m| || o.items[i].key != m[expected].key || o.items[i].value != m[expected].value {
          return false;
        }
        expected := expected + 1;
      }
      seen := seen + 1;
    }
    return seen == |m|;
  }

  /** The ordered comparison passes only if iteration is the reference's, entry for
      entry. */
  lemma OrderedIsExact(o: Observed, m: seq<Item>, capacity: nat)
    requires Agrees(o, m, capacity, true)
    ensures o.items == m
  {
  }

  predicate DistinctKeys(items: seq<Item>) {
    forall i, j :: 0 <= i < j < |items| ==> items[i].key != items[j].key
  }

  lemma {:induction false} Occurs(items: seq<Item>, e: Item)
    requires DistinctKeys(items)
    ensures multiset(items)[e] == if e in items then 1 else 0
  {
    if items != [] {
      var n := |items| - 1;
      assert items == items[..n] + [items[n]];
      Occurs(items[..n], e);
    }
  }

  lemma {:induction false} SetSize(items: seq<Item>)
    requires DistinctKeys(items)
    ensures |set e | e in items| == |items|
  {
    if items != [] {
      var n := |items| - 1;
      SetSize(items[..n]);
      assert (set e | e in items) == (set e | e in items[..n]) + {items[n]} by {
        assert items == items[..n] + [items[n]];
      }
    }
  }

  /** The unordered comparison makes iteration a permutation of the reference's
      entries exactly when no key is iterated twice. */
  lemma UnorderedIsExactIff(o: Observed, m: seq<Item>, capacity: nat)
    requires Ascending(m) && Agrees(o, m, capacity, false)
    ensures multiset(o.items) == multiset(m) <==> DistinctKeys(o.items)
  {
    if DistinctKeys(o.items) {
      var a, b := set e | e in o.items, set e | e in m;
      assert a <= b by {
        forall e | e in a ensures e in b {
          var i :| 0 <= i < |o.items| && o.items[i] == e;
          assert Find(m, o.items[i].key) == Some(o.items[i].value);
        }
      }
      SetSize(o.items);
      SetSize(m);
      SubsetOfSameSize(a, b);
      forall e ensures multiset(o.items)[e] == multiset(m)[e] {
        Occurs(o.items, e);
        Occurs(m, e);
        assert (e in o.items <==> e in a) && (e in m <==> e in b);
      }
    }
    if multiset(o.items) == multiset(m) {
      forall i, j | 0 <= i < j < |o.items| ensures o.items[i].key != o.items[j].key {
        if o.items[i].key == o.items[j].key {
          Twice(o, m, i, j);
        }
      }
    }
  }

  /** Two items of one key are one entry seen twice, which the reference lacks. */
  lemma Twice(o: Observed, m: seq<Item>, i: nat, j: nat)
    requires Ascending(m) && i < j < |o.items| && o.items[i].key == o.items[j].key
    requires Find(m, o.items[i].key) == Some(o.items[i].value) && Find(m, o.items[j].key) == Some(o.items[j].value)
    ensures multiset(o.items) != multiset(m)
  {
    hide Find;
    Occurs(m, o.items[i]);
    TwiceIn(o.items, i, j);
  }

  lemma TwiceIn(s: seq<Item>, i: nat, j: nat)
    requires i < j < |s| && s[i] == s[j]
    ensures multiset(s)[s[i]] >= 2
  {
    var before, after := s[..j], s[j..];
    assert s == before + after;
    assert before[i] in multiset(before) && after[0] in multiset(after);
  }

  /** Without that, an item repeated in place of another passes. */
  lemma RepeatedItemPasses()
    ensures var m := [Item(1, 10), Item(2, 20)];
            var o := Observed(2, false, map[1 := 10, 2 := 20], [Item(1, 10), Item(1, 10)]);
            Ascending(m) && Agrees(o, m, 2, false) && Item(2, 20) !in o.items
  {
    var m := [Item(1, 10), Item(2, 20)];
    FindEntry(m, m[0]);
  }

  // ---------------------------------------------------------------------
  // Whole runs
  // ---------------------------------------------------------------------

  datatype Op = TryEmplace(key: int, value: int) | TryInsertOrAssign(key: int, value: int) | Erase(key: int) | Clear

  /** A bounded map's answer: a new key needs room, an old one can be assigned. */
  function Answer(m: seq<Item>, capacity: nat, op: Op): bool {
    match op
    case TryEmplace(key, _) => Find(m, key).None? && |m| < capacity
    case TryInsertOrAssign(key, _) => Find(m, key).Some? || |m| < capacity
    case Erase(key) => Find(m, key).Some?
    case Clear => true
  }

  predicate Holds(m: seq<Item>, key: int) {
    exists i :: 0 <= i < |m| && m[i].key == key
  }

  lemma FindIff(m: seq<Item>, key: int)
    ensures Find(m, key).Some? <==> Holds(m, key)
  {
    var r := Find(m, key);
    if r.Some? {
      var i :| 0 <= i < |m| && m[i] == Item(key, r.value);
    }
  }

  /** Emplacing takes a new key while there is room, assigning an old key at any time,
      and erasing a key that is there. */
  lemma AnswerMeans(m: seq<Item>, capacity: nat, op: Op)
    ensures op.TryEmplace? ==> (Answer(m, capacity, op) <==> !Holds(m, op.key) && |m| < capacity)
    ensures op.TryInsertOrAssign? ==> (Answer(m, capacity, op) <==> Holds(m, op.key) || |m| < capacity)
    ensures op.Erase? ==> (Answer(m, capacity, op) <==> Holds(m, op.key))
  {
    if !op.Clear? {
      FindIff(m, op.key);
    }
  }

  function After(m: seq<Item>, capacity: nat, op: Op): (r: seq<Item>)
    requires Ascending(m)
    ensures Ascending(r) && (|m| <= capacity ==> |r| <= capacity)
  {
    match op
    case TryEmplace(key, value) => if Answer(m, capacity, op) then Assigned(m, key, value) else m
    case TryInsertOrAssign(key, value) => if Answer(m, capacity, op) then Assigned(m, key, value) else m
    case Erase(key) => Erased(m, key)
    case Clear => []
  }

  /** What the reference holds after: a new or changed entry if it was taken, all but the
      erased one, nothing once cleared. */
  lemma AfterMeans(m: seq<Item>, capacity: nat, op: Op, e: Item)
    requires Ascending(m)
    ensures e in After(m, capacity, op) <==>
            match op
            case TryEmplace(key, value) =>
              e in m || (e == Item(key, value) && !Holds(m, key) && |m| < capacity)
            case TryInsertOrAssign(key, value) =>
              if Holds(m, key) || |m| < capacity then e == Item(key, value) || (e in m && e.key != key) else e in m
            case Erase(key) => e in m && e.key != key
            case Clear => false
  {
    AnswerMeans(m, capacity, op);
    if op.TryEmplace? && e in m && e.key == op.key {
      var i :| 0 <= i < |m| && m[i] == e;
      assert Holds(m, op.key);
    }
  }

  /** A turn of the harness: an operation with the answer the map under test gave and
      what was seen of it after, or a lookup with its answers. */
  datatype Turn = Change(op: Op, answer: bool, seen: Observed) | Lookup(key: int, found: Option<int>, contains: bool)

  class MapOracle {
    const capacity: nat
    const ordered: bool
    var model: seq<Item>

    constructor (capacity: nat, ordered: bool)
      ensures this.capacity == capacity && this.ordered == ordered && model == []
    {
      this.capacity, this.ordered, model := capacity, ordered, [];
    }

    method TryEmplace(key: int, value: int, answer: bool, seen: Observed) returns (ok: bool)
      requires Ascending(model)
      modifies this
      ensures var op := Op.TryEmplace(key, value);
              && (ok <==> answer == old(Answer(model, capacity, op)) &&
                          Agrees(seen, old(After(model, capacity, op)), capacity, ordered))
              && (ok ==> model == old(After(model, capacity, op)))
    {
      hide Find, Agrees;
      var absent := Find(model, key).None?;
      var room := |model| < capacity;
      var expected := absent && room;
      if answer != expected {
        return false;
      }
      if expected {
        model := Assigned(model, key, value);
      }
      ok := Verify(seen, model, capacity, ordered);
    }

    method TryInsertOrAssign(key: int, value: int, answer: bool, seen: Observed) returns (ok: bool)
      requires Ascending(model)
      modifies this
      ensures var op := Op.TryInsertOrAssign(key, value);
              && (ok <==> answer == old(Answer(model, capacity, op)) &&
                          Agrees(seen, old(After(model, capacity, op)), capacity, ordered))
              && (ok ==> model == old(After(model, capacity, op)))
    {
      hide Find, Agrees;
      var present := Find(model, key).Some?;
      var room := |model| < capacity;
      var expected := present || room;
      if answer != expected {
        return false;
      }
      if expected {
        model := Assigned(model, key, value);
      }
      ok := Verify(seen, model, capacity, ordered);
    }

    method Erase(key: int, answer: bool, seen: Observed) returns (ok: bool)
      requires Ascending(model)
      modifies this
      ensures var op := Op.Erase(key);
              && (ok <==> answer == old(Answer(model, capacity, op)) &&
                          Agrees(seen, old(After(model, capacity, op)), capacity, ordered))
              && (ok ==> model == old(After(model, capacity, op)))
    {
      hide Find, Agrees;
      var expected := Find(model, key).Some?;
      model := Erased(model, key);
      if answer != expected {
        return false;
      }
      ok := Verify(seen, model, capacity, ordered);
    }

    method Clear(seen: Observed) returns (ok: bool)
      modifies this
      ensures ok <==> Agrees(seen, [], capacity, ordered)
      ensures model == []
    {
      model := [];
      ok := Verify(seen, model, capacity, ordered);
    }

    /** A lookup answers as the reference does, value and all. */
    method Lookup(key: int, found: Option<int>, contains: bool) returns (ok: bool)
      ensures ok <==> found == Find(model, key) && contains == Find(model, key).Some?
    {
      var entry := Find(model, key);
      if found.Some? != entry.Some? || contains != entry.Some? {
        return false;
      }
      ok := found.Some? ==> found.value == entry.value;
    }

    /** One turn, by the method for its operation. */
    method Take(turn: Turn) returns (ok: bool)
      requires Ascending(model)
      modifies this
      ensures ok <==> Passed(turn, old(model), capacity, ordered)
      ensures ok ==> model == Next(turn, old(model), capacity)
    {
      hide Find, Agrees;
      match turn {
        case Lookup(key, found, contains) =>
          ok := Lookup(key, found, contains);
        case Change(op, answer, seen) =>
          match op {
            case TryEmplace(key, value) =>
              ok := TryEmplace(key, value, answer, seen);
            case TryInsertOrAssign(key, value) =>
              ok := TryInsertOrAssign(key, value, answer, seen);
            case Erase(key) =>
              ok := Erase(key, answer, seen);
            case Clear =>
              ok := Clear(seen);
          }
      }
    }

    /** A whole run of the harness, up to its first trap. It passes exactly when every
        turn does; then the map under test answered every turn as the reference, and
        iterated its entries: in order, or, if it never repeats a key, in some order.
        A map that behaves like the reference always passes. */
    method Replay(turns: seq<Turn>) returns (ok: bool)
      requires model == []
      modifies this
      ensures ok <==> Passes(turns, capacity, ordered)
      ensures ok ==> AnswersThroughout(turns, capacity) && IteratesThroughout(turns, capacity, ordered)
      ensures BehavesThroughout(turns, capacity, ordered) ==> ok
    {
      hide *;
      Starts(turns, capacity, ordered);
      FaithfulPasses(turns, capacity, ordered);
      for i := 0 to |turns|
        invariant model == Model(turns, capacity, i)
        invariant PassesUpTo(turns, capacity, ordered, i)
      {
        Continues(turns, capacity, ordered, i);
        var passed := Take(turns[i]);
        if !passed {
          return false;
        }
      }
      PassedAnswers(turns, capacity, ordered);
      PassedRunIsReference(turns, capacity, ordered);
      return true;
    }
  }

  function Next(turn: Turn, m: seq<Item>, capacity: nat): (r: seq<Item>)
    requires Ascending(m)
    ensures Ascending(r) && (|m| <= capacity ==> |r| <= capacity)
  {
    match turn
    case Lookup(_, _, _) => m
    case Change(op, _, _) => After(m, capacity, op)
  }

  /** The reference after the first `n` turns. */
  function Model(turns: seq<Turn>, capacity: nat, n: nat): (m: seq<Item>)
    requires n <= |turns|
    ensures Ascending(m) && |m| <= capacity
  {
    if n == 0 then [] else Next(turns[n - 1], Model(turns, capacity, n - 1), capacity)
  }

  /** The answers given are the reference's; clearing gives none. */
  predicate AnswersAs(turn: Turn, m: seq<Item>, capacity: nat) {
    match turn
    case Lookup(key, found, contains) => found == Find(m, key) && contains == Find(m, key).Some?
    case Change(op, answer, _) => op == Clear || answer == Answer(m, capacity, op)
  }

  /** What the oracle lets through on one turn. */
  predicate Passed(turn: Turn, m: seq<Item>, capacity: nat, ordered: bool)
    requires Ascending(m)
  {
    AnswersAs(turn, m, capacity) && (turn.Change? ==> Agrees(turn.seen, After(m, capacity, turn.op), capacity, ordered))
  }

  predicate PassesUpTo(turns: seq<Turn>, capacity: nat, ordered: bool, i: nat)
    requires i <= |turns|
  {
    forall n :: 0 <= n < i ==> Passed(turns[n], Model(turns, capacity, n), capacity, ordered)
  }

  predicate Passes(turns: seq<Turn>, capacity: nat, ordered: bool) {
    PassesUpTo(turns, capacity, ordered, |turns|)
  }

  lemma Starts(turns: seq<Turn>, capacity: nat, ordered: bool)
    ensures Model(turns, capacity, 0) == [] && PassesUpTo(turns, capacity, ordered, 0)
    ensures Passes(turns, capacity, ordered) <==> PassesUpTo(turns, capacity, ordered, |turns|)
  {
  }

  lemma Continues(turns: seq<Turn>, capacity: nat, ordered: bool, i: nat)
    requires i < |turns| && PassesUpTo(turns, capacity, ordered, i)
    ensures Model(turns, capacity, i + 1) == Next(turns[i], Model(turns, capacity, i), capacity)
    ensures var passed := Passed(turns[i], Model(turns, capacity, i), capacity, ordered);
            PassesUpTo(turns, capacity, ordered, i + 1) == passed && (!passed ==> !Passes(turns, capacity, ordered))
  {
    hide Passed, Next;
  }

  /** A map that holds what the reference holds, iterating in some order, or in
      ascending order when order counts. */
  predicate Faithful(o: Observed, m: seq<Item>, ordered: bool) {
    && o.size == |m| && o.empty == (m == []) && multiset(o.items) == multiset(m) && (ordered ==> o.items == m)
    && forall e :: e in m ==> e.key in o.found && o.found[e.key] == e.value
  }

  predicate BehavesAs(turn: Turn, m: seq<Item>, capacity: nat, ordered: bool)
    requires Ascending(m)
  {
    AnswersAs(turn, m, capacity) && (turn.Change? ==> Faithful(turn.seen, After(m, capacity, turn.op), ordered))
  }

  /** Iteration is the reference's entries: in order if that counts, else in some
      order unless a key is repeated. */
  predicate IteratesAs(o: Observed, m: seq<Item>, ordered: bool) {
    (ordered ==> o.items == m) && (DistinctKeys(o.items) ==> multiset(o.items) == multiset(m))
  }

  predicate AnswersThroughout(turns: seq<Turn>, capacity: nat) {
    forall n :: 0 <= n < |turns| ==> AnswersAs(turns[n], Model(turns, capacity, n), capacity)
  }

  predicate IteratesThroughout(turns: seq<Turn>, capacity: nat, ordered: bool) {
    forall n :: 0 <= n < |turns| && turns[n].Change? ==>
                  IteratesAs(turns[n].seen, Model(turns, capacity, n + 1), ordered)
  }

  predicate BehavesThroughout(turns: seq<Turn>, capacity: nat, ordered: bool) {
    forall n :: 0 <= n < |turns| ==> BehavesAs(turns[n], Model(turns, capacity, n), capacity, ordered)
  }

  /** No false alarm: a map that behaves like the reference passes whatever the run. */
  lemma FaithfulPasses(turns: seq<Turn>, capacity: nat, ordered: bool)
    ensures BehavesThroughout(turns, capacity, ordered) ==> Passes(turns, capacity, ordered)
  {
    hide AnswersAs, Agrees, Faithful;
    forall n | 0 <= n < |turns| && BehavesAs(turns[n], Model(turns, capacity, n), capacity, ordered)
      ensures Passed(turns[n], Model(turns, capacity, n), capacity, ordered)
    {
      if turns[n].Change? {
        FaithfulAgrees(turns[n].seen, After(Model(turns, capacity, n), capacity, turns[n].op), capacity, ordered);
      }
    }
  }

  lemma FaithfulAgrees(o: Observed, m: seq<Item>, capacity: nat, ordered: bool)
    requires Ascending(m) && |m| <= capacity && Faithful(o, m, ordered)
    ensures Agrees(o, m, capacity, ordered)
  {
    assert |multiset(o.items)| == |o.items| && |multiset(m)| == |m|;
    forall i | 0 <= i < |o.items| ensures Find(m, o.items[i].key) == Some(o.items[i].value) {
      assert o.items[i] in multiset(o.items);
      FindEntry(m, o.items[i]);
    }
  }

  lemma PassedAnswers(turns: seq<Turn>, capacity: nat, ordered: bool)
    requires Passes(turns, capacity, ordered)
    ensures AnswersThroughout(turns, capacity)
  {
    hide AnswersAs, Agrees;
  }

  /** In a run that passes, the map iterates the reference's entries after every turn:
      in order, or, if it repeats no key, in some order. */
  lemma PassedRunIsReference(turns: seq<Turn>, capacity: nat, ordered: bool)
    requires Passes(turns, capacity, ordered)
    ensures IteratesThroughout(turns, capacity, ordered)
  {
    hide AnswersAs, Agrees, IteratesAs;
    forall n | 0 <= n < |turns| && turns[n].Change?
      ensures IteratesAs(turns[n].seen, Model(turns, capacity, n + 1), ordered)
    {
      assert Passed(turns[n], Model(turns, capacity, n), capacity, ordered);
      AgreeingIterates(turns[n].seen, Model(turns, capacity, n + 1), capacity, ordered);
    }
  }

  lemma AgreeingIterates(o: Observed, m: seq<Item>, capacity: nat, ordered: bool)
    requires Ascending(m) && Agrees(o, m, capacity, ordered)
    ensures IteratesAs(o, m, ordered)
  {
    if ordered {
      OrderedIsExact(o, m, capacity);
    }
    UnorderedIsExactIff(o, m, capacity);
  }
}
