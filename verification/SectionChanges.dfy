/**
 The sections behind a change between two measurement records,
 `section_changes` in tools/check_size.py.
 */
module SectionChanges {

  import opened Common
  import Lexical

  /** A section as a measurement record lists it. */
  datatype Entry = Entry(name: string, class_: string, bytes: nat)

  datatype Change = Change(name: string, old_: Option<nat>, new_: Option<nat>)

  function Or0(x: Option<nat>): nat {
    if x.None? then 0 else x.value
  }

  function Delta(c: Change): int {
    Or0(c.new_) - Or0(c.old_)
  }

  function Magnitude(c: Change): nat {
    if Delta(c) < 0 then -Delta(c) else Delta(c)
  }

  /** Largest change first, equal ones by name. */
  predicate Precedes(a: Change, b: Change) {
    Magnitude(a) > Magnitude(b) || (Magnitude(a) == Magnitude(b) && Lexical.Lt(a.name, b.name))
  }

  // ---------------------------------------------------------------------
  // Sizes by name
  // ---------------------------------------------------------------------

  predicate Counts(e: Entry, classes: set<string>, name: string) {
    e.class_ in classes && e.name == name
  }

  /** Bytes of the sections of that name; two sections may share one. */
  function SizeOf(es: seq<Entry>, classes: set<string>, name: string): nat {
    if es == [] then 0 else
      var e := es[|es| - 1];
      SizeOf(es[..|es| - 1], classes, name) + if Counts(e, classes, name) then e.bytes else 0
  }

  predicate Occurs(es: seq<Entry>, classes: set<string>, name: string) {
    exists i :: 0 <= i < |es| && Counts(es[i], classes, name)
  }

  /** Bytes of all sections of the classes. */
  function ClassBytes(es: seq<Entry>, classes: set<string>): nat {
    if es == [] then 0 else
      var e := es[|es| - 1];
      ClassBytes(es[..|es| - 1], classes) + if e.class_ in classes then e.bytes else 0
  }

  function Lookup(es: seq<Entry>, classes: set<string>, name: string): Option<nat> {
    if Occurs(es, classes, name) then Some(SizeOf(es, classes, name)) else None
  }

  lemma {:induction false} AbsentIsZero(es: seq<Entry>, classes: set<string>, name: string)
    requires !Occurs(es, classes, name)
    ensures SizeOf(es, classes, name) == 0
  {
    if es != [] {
      var front := es[..|es| - 1];
      forall i | 0 <= i < |front| ensures !Counts(front[i], classes, name) {
        assert front[i] == es[i];
      }
      AbsentIsZero(front, classes, name);
    }
  }

  lemma LookupOr0(es: seq<Entry>, classes: set<string>, name: string)
    ensures Or0(Lookup(es, classes, name)) == SizeOf(es, classes, name)
  {
    if !Occurs(es, classes, name) {
      AbsentIsZero(es, classes, name);
    }
  }

  method Sizes(es: seq<Entry>, classes: set<string>) returns (total: map<string, nat>)
    ensures forall n :: n in total <==> Occurs(es, classes, n)
    ensures forall n :: n in total ==> total[n] == SizeOf(es, classes, n)
  {
    total := map[];
    for i := 0 to |es|
      invariant forall n :: n in total <==> Occurs(es[..i], classes, n)
      invariant forall n :: n in total ==> total[n] == SizeOf(es[..i], classes, n)
    {
      var e := es[i];
      ghost var before := total;
      if e.class_ in classes {
        total := total[e.name := (if e.name in total then total[e.name] else 0) + e.bytes];
      }
      forall n
        ensures Occurs(es[..i + 1], classes, n) <==> Occurs(es[..i], classes, n) || Counts(e, classes, n)
        ensures SizeOf(es[..i + 1], classes, n) ==
                SizeOf(es[..i], classes, n) + if Counts(e, classes, n) then e.bytes else 0
        ensures !Occurs(es[..i], classes, n) ==> SizeOf(es[..i], classes, n) == 0
      {
        OneMore(es, i, classes, n);
      }
    }
    assert es[..|es|] == es;
  }

  lemma OneMore(es: seq<Entry>, i: nat, classes: set<string>, n: string)
    requires i < |es|
    ensures Occurs(es[..i + 1], classes, n) <==> Occurs(es[..i], classes, n) || Counts(es[i], classes, n)
    ensures SizeOf(es[..i + 1], classes, n) ==
            SizeOf(es[..i], classes, n) + if Counts(es[i], classes, n) then es[i].bytes else 0
    ensures !Occurs(es[..i], classes, n) ==> SizeOf(es[..i], classes, n) == 0
  {
    assert es[..i + 1][..i] == es[..i] && es[..i + 1][i] == es[i];
    if Occurs(es[..i], classes, n) {
      var k :| 0 <= k < |es[..i]| && Counts(es[..i][k], classes, n);
      assert es[..i + 1][k] == es[..i][k];
    } else {
      AbsentIsZero(es[..i], classes, n);
    }
    if Occurs(es[..i + 1], classes, n) {
      var k :| 0 <= k < |es[..i + 1]| && Counts(es[..i + 1][k], classes, n);
      assert k < i ==> es[..i][k] == es[..i + 1][k];
    }
  }

  // ---------------------------------------------------------------------
  // The rows
  // ---------------------------------------------------------------------

  predicate Sorted(rows: seq<Change>) {
    forall i, j :: 0 <= i < j < |rows| ==> Precedes(rows[i], rows[j])
  }

  /** The row of `name` between two records. */
  function RowOf(before: seq<Entry>, after: seq<Entry>, classes: set<string>, name: string): Change {
    Change(name, Lookup(before, classes, name), Lookup(after, classes, name))
  }

  predicate Changed(before: seq<Entry>, after: seq<Entry>, classes: set<string>, name: string) {
    Lookup(before, classes, name) != Lookup(after, classes, name)
  }

  function Insert(rows: seq<Change>, c: Change): seq<Change> {
    if rows == [] || Precedes(c, rows[0]) then [c] + rows else [rows[0]] + Insert(rows[1..], c)
  }

  lemma {:induction false} InsertMembers(rows: seq<Change>, c: Change)
    ensures forall x :: x in Insert(rows, c) <==> x == c || x in rows
  {
    if rows == [] || Precedes(c, rows[0]) {
    } else {
      InsertMembers(rows[1..], c);
      assert rows == [rows[0]] + rows[1..];
    }
  }

  lemma PrecedesTransitive(a: Change, b: Change, c: Change)
    requires Precedes(a, b) && Precedes(b, c)
    ensures Precedes(a, c)
  {
    if Magnitude(a) == Magnitude(b) && Magnitude(b) == Magnitude(c) {
      Lexical.Transitive(a.name, b.name, c.name);
    }
  }

  lemma PrecedesTotal(a: Change, b: Change)
    requires a.name != b.name
    ensures Precedes(a, b) || Precedes(b, a)
  {
    Lexical.Total(a.name, b.name);
  }

  lemma {:induction false} InsertSorted(rows: seq<Change>, c: Change)
    requires Sorted(rows) && forall x :: x in rows ==> x.name != c.name
    ensures Sorted(Insert(rows, c))
  {
    if rows == [] {
    } else if Precedes(c, rows[0]) {
      forall j | 0 < j < |rows| ensures Precedes(c, rows[j]) {
        PrecedesTransitive(c, rows[0], rows[j]);
      }
    } else {
      assert rows[0] in rows;
      PrecedesTotal(c, rows[0]);
      InsertSorted(rows[1..], c);
      InsertMembers(rows[1..], c);
      var rest := Insert(rows[1..], c);
      forall j | 0 <= j < |rest| ensures Precedes(rows[0], rest[j]) {
        assert rest[j] in rest;
        if rest[j] != c {
          var k :| 0 <= k < |rows[1..]| && rows[1..][k] == rest[j];
          assert rows[k + 1] == rest[j];
        }
      }
    }
  }

  /** Exactly the names whose size changed, largest change first. */
  method Compare(before: seq<Entry>, after: seq<Entry>, classes: set<string>) returns (rows: seq<Change>)
    ensures Sorted(rows)
    ensures forall c :: c in rows <==>
              Changed(before, after, classes, c.name) && c == RowOf(before, after, classes, c.name)
  {
    var olds := Sizes(before, classes);
    var news := Sizes(after, classes);
    rows := [];
    var names := olds.Keys + news.Keys;
    ghost var all := names;
    while names != {}
      invariant names <= all
      invariant Sorted(rows)
      invariant forall c :: c in rows <==> c.name in all - names && Changed(before, after, classes, c.name) &&
                                           c == RowOf(before, after, classes, c.name)
      decreases names
    {
      var name :| name in names;
      var o := if name in olds then Some(olds[name]) else None;
      var n := if name in news then Some(news[name]) else None;
      if o != n {
        InsertSorted(rows, Change(name, o, n));
        InsertMembers(rows, Change(name, o, n));
        rows := Insert(rows, Change(name, o, n));
      }
      names := names - {name};
    }
    forall c: Change | Changed(before, after, classes, c.name) ensures c.name in all {
    }
  }

  // ---------------------------------------------------------------------
  // The listed changes account for the whole change
  // ---------------------------------------------------------------------

  function SumDelta(rows: seq<Change>): int {
    if rows == [] then 0 else Delta(rows[0]) + SumDelta(rows[1..])
  }

  function SumOver(names: seq<string>, es: seq<Entry>, classes: set<string>): nat {
    if names == [] then 0 else SizeOf(es, classes, names[0]) + SumOver(names[1..], es, classes)
  }

  predicate DistinctNames(names: seq<string>) {
    forall i, j :: 0 <= i < j < |names| ==> names[i] != names[j]
  }

  /** Over distinct names that cover the record, sizes by name add up to the
      class bytes. */
  lemma {:induction false} NamesAddUp(names: seq<string>, es: seq<Entry>, classes: set<string>)
    requires DistinctNames(names)
    requires forall i :: 0 <= i < |es| && es[i].class_ in classes ==> es[i].name in names
    ensures SumOver(names, es, classes) == ClassBytes(es, classes)
  {
    if es == [] {
      EmptyAddsUp(names, classes);
    } else {
      var front, e := es[..|es| - 1], es[|es| - 1];
      forall i | 0 <= i < |front| && front[i].class_ in classes ensures front[i].name in names {
        assert front[i] == es[i];
      }
      NamesAddUp(names, front, classes);
      OneEntryMore(names, es, classes);
    }
  }

  lemma {:induction false} EmptyAddsUp(names: seq<string>, classes: set<string>)
    ensures SumOver(names, [], classes) == 0
  {
    if names != [] {
      EmptyAddsUp(names[1..], classes);
    }
  }

  lemma {:induction false} OneEntryMore(names: seq<string>, es: seq<Entry>, classes: set<string>)
    requires DistinctNames(names) && es != []
    ensures var e := es[|es| - 1];
            SumOver(names, es, classes) == SumOver(names, es[..|es| - 1], classes) +
            if e.class_ in classes && e.name in names then e.bytes else 0
  {
    if names != [] {
      OneEntryMore(names[1..], es, classes);
      assert names == [names[0]] + names[1..];
    }
  }

  function NamesOf(rows: seq<Change>): (names: seq<string>)
    ensures |names| == |rows| && forall i :: 0 <= i < |rows| ==> names[i] == rows[i].name
  {
    if rows == [] then [] else [rows[0].name] + NamesOf(rows[1..])
  }

  lemma {:induction false} RowsAddUp(rows: seq<Change>, before: seq<Entry>, after: seq<Entry>, classes: set<string>)
    requires forall c :: c in rows ==> c == RowOf(before, after, classes, c.name)
    ensures SumDelta(rows) == SumOver(NamesOf(rows), after, classes) - SumOver(NamesOf(rows), before, classes)
  {
    if rows != [] {
      assert rows[0] in rows;
      RowsAddUp(rows[1..], before, after, classes);
      LookupOr0(before, classes, rows[0].name);
      LookupOr0(after, classes, rows[0].name);
      assert NamesOf(rows)[1..] == NamesOf(rows[1..]);
    }
  }

  lemma {:induction false} UnchangedAddUp(names: seq<string>,
                                          before: seq<Entry>, after: seq<Entry>, classes: set<string>)
    requires forall n :: n in names ==> !Changed(before, after, classes, n)
    ensures SumOver(names, before, classes) == SumOver(names, after, classes)
  {
    if names != [] {
      assert names[0] in names;
      UnchangedAddUp(names[1..], before, after, classes);
      LookupOr0(before, classes, names[0]);
      LookupOr0(after, classes, names[0]);
    }
  }

  lemma {:induction false} SumOverAppend(a: seq<string>, b: seq<string>, es: seq<Entry>, classes: set<string>)
    ensures SumOver(a + b, es, classes) == SumOver(a, es, classes) + SumOver(b, es, classes)
  {
    if a == [] {
      assert a + b == b;
    } else {
      SumOverAppend(a[1..], b, es, classes);
      assert (a + b)[1..] == a[1..] + b;
    }
  }

  /** The names of a record, each once, without those in `skip`. */
  lemma {:induction false} OtherNames(es: seq<Entry>, skip: seq<string>) returns (names: seq<string>)
    ensures DistinctNames(names) && forall n :: n in names ==> n !in skip
    ensures forall i :: 0 <= i < |es| ==> es[i].name in names || es[i].name in skip
  {
    names := [];
    if es != [] {
      var n := |es| - 1;
      names := OtherNames(es[..n], skip);
      forall i | 0 <= i < n ensures es[i].name in names || es[i].name in skip {
        assert es[..n][i] == es[i];
      }
      if es[n].name !in names && es[n].name !in skip {
        names := names + [es[n].name];
      }
    }
  }

  lemma SortedDistinct(rows: seq<Change>)
    requires Sorted(rows)
    requires forall a, b :: a in rows && b in rows && a.name == b.name ==> a == b
    ensures DistinctNames(NamesOf(rows))
  {
    forall i, j | 0 <= i < j < |rows| ensures rows[i].name != rows[j].name {
      assert Precedes(rows[i], rows[j]) && rows[i] in rows && rows[j] in rows;
      Lexical.Irreflexive(rows[i].name);
    }
  }

  lemma RowNamed(rows: seq<Change>, c: Change)
    requires c in rows
    ensures c.name in NamesOf(rows)
  {
    var i :| 0 <= i < |rows| && rows[i] == c;
    assert NamesOf(rows)[i] == c.name;
  }

  /** The deltas of the rows add up to the change of the class total. */
  lemma ChangesAccountForAll(before: seq<Entry>, after: seq<Entry>, classes: set<string>, rows: seq<Change>)
    requires Sorted(rows)
    requires forall c :: c in rows <==>
               Changed(before, after, classes, c.name) && c == RowOf(before, after, classes, c.name)
    ensures SumDelta(rows) == ClassBytes(after, classes) - ClassBytes(before, classes)
  {
    SortedDistinct(rows);
    var changed := NamesOf(rows);
    var rest := OtherNames(before + after, changed);
    var all := changed + rest;
    forall n | n in rest ensures !Changed(before, after, classes, n) {
      var c := RowOf(before, after, classes, n);
      if c in rows {
        RowNamed(rows, c);
      }
    }
    Covers(before, after, all);
    NamesAddUp(all, before, classes);
    NamesAddUp(all, after, classes);
    SumOverAppend(changed, rest, before, classes);
    SumOverAppend(changed, rest, after, classes);
    UnchangedAddUp(rest, before, after, classes);
    RowsAddUp(rows, before, after, classes);
  }

  lemma Covers(before: seq<Entry>, after: seq<Entry>, all: seq<string>)
    requires forall i :: 0 <= i < |before + after| ==> (before + after)[i].name in all
    ensures forall i :: 0 <= i < |before| ==> before[i].name in all
    ensures forall i :: 0 <= i < |after| ==> after[i].name in all
  {
    forall i | 0 <= i < |before| ensures before[i].name in all {
      assert (before + after)[i] == before[i];
    }
    forall i | 0 <= i < |after| ensures after[i].name in all {
      assert (before + after)[|before| + i] == after[i];
    }
  }
}
