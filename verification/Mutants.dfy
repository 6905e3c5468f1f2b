/**
 The mutants of tools/check_mutants.py and how `shard` splits them for a CI
 matrix: whole files, largest first, onto the shard that holds fewest.
 */
module Mutants {

  import Lexical

  datatype Mutant = Mutant(name: string, file: string, kills: string, before: string, after: string)

  /** Loading refuses two mutants of one name. */
  predicate DistinctNames(ms: seq<Mutant>) {
    forall i, j :: 0 <= i < j < |ms| ==> ms[i].name != ms[j].name
  }

  ghost predicate NamesIdentify(ms: set<Mutant>) {
    forall a, b :: a in ms && b in ms && a.name == b.name ==> a == b
  }

  ghost function Elements(ms: seq<Mutant>): set<Mutant> {
    set m | m in ms
  }

  // ---------------------------------------------------------------------
  // Sorting mutants
  // ---------------------------------------------------------------------

  datatype Key = ByName | ByFileAndName

  predicate Less(k: Key, a: Mutant, b: Mutant) {
    match k
    case ByName => Lexical.Lt(a.name, b.name)
    case ByFileAndName => Lexical.Lt(a.file, b.file) || (a.file == b.file && Lexical.Lt(a.name, b.name))
  }

  predicate Sorted(k: Key, ms: seq<Mutant>) {
    forall i, j :: 0 <= i < j < |ms| ==> Less(k, ms[i], ms[j])
  }

  lemma LessTransitive(k: Key, a: Mutant, b: Mutant, c: Mutant)
    requires Less(k, a, b) && Less(k, b, c)
    ensures Less(k, a, c)
  {
    if Lexical.Lt(a.name, b.name) && Lexical.Lt(b.name, c.name) {
      Lexical.Transitive(a.name, b.name, c.name);
    }
    if Lexical.Lt(a.file, b.file) && Lexical.Lt(b.file, c.file) {
      Lexical.Transitive(a.file, b.file, c.file);
    }
  }

  lemma LessTotal(k: Key, a: Mutant, b: Mutant)
    requires a.name != b.name
    ensures Less(k, a, b) || Less(k, b, a)
  {
    Lexical.Total(a.name, b.name);
    Lexical.Total(a.file, b.file);
  }

  lemma LessAsymmetric(k: Key, a: Mutant, b: Mutant)
    requires Less(k, a, b)
    ensures !Less(k, b, a) && a != b
  {
    if Lexical.Lt(a.name, b.name) {
      Lexical.Asymmetric(a.name, b.name);
    }
    if Lexical.Lt(a.file, b.file) {
      Lexical.Asymmetric(a.file, b.file);
    }
  }

  function Insert(k: Key, ms: seq<Mutant>, m: Mutant): seq<Mutant> {
    if ms == [] || Less(k, m, ms[0]) then [m] + ms else [ms[0]] + Insert(k, ms[1..], m)
  }

  lemma {:induction false} InsertMembers(k: Key, ms: seq<Mutant>, m: Mutant)
    ensures forall x :: x in Insert(k, ms, m) <==> x == m || x in ms
    ensures |Insert(k, ms, m)| == |ms| + 1
  {
    if ms == [] || Less(k, m, ms[0]) {
    } else {
      InsertMembers(k, ms[1..], m);
      assert ms == [ms[0]] + ms[1..];
    }
  }

  lemma {:induction false} InsertSorted(k: Key, ms: seq<Mutant>, m: Mutant)
    requires Sorted(k, ms) && forall x :: x in ms ==> x.name != m.name
    ensures Sorted(k, Insert(k, ms, m))
  {
    hide Less;
    if ms == [] {
    } else if Less(k, m, ms[0]) {
      forall j | 0 < j < |ms| ensures Less(k, m, ms[j]) {
        LessTransitive(k, m, ms[0], ms[j]);
      }
    } else {
      assert ms[0] in ms;
      LessTotal(k, m, ms[0]);
      InsertSorted(k, ms[1..], m);
      InsertMembers(k, ms[1..], m);
      var rest := Insert(k, ms[1..], m);
      forall j | 0 <= j < |rest| ensures Less(k, ms[0], rest[j]) {
        assert rest[j] in rest;
        if rest[j] != m {
          var i :| 0 <= i < |ms[1..]| && ms[1..][i] == rest[j];
          assert ms[i + 1] == rest[j];
        }
      }
    }
  }

  /** `sorted(ms, key=...)`. */
  method Sort(k: Key, ms: seq<Mutant>) returns (out: seq<Mutant>)
    requires DistinctNames(ms)
    ensures Sorted(k, out) && |out| == |ms|
    ensures forall x :: x in out <==> x in ms
  {
    hide Less;
    out := [];
    for i := 0 to |ms|
      invariant Sorted(k, out) && |out| == i
      invariant forall x :: x in out <==> x in ms[..i]
    {
      forall x | x in out ensures x.name != ms[i].name {
        var j :| 0 <= j < i && ms[..i][j] == x;
      }
      InsertSorted(k, out, ms[i]);
      InsertMembers(k, out, ms[i]);
      out := Insert(k, out, ms[i]);
      assert ms[..i + 1] == ms[..i] + [ms[i]];
    }
    assert ms[..|ms|] == ms;
  }

  /** There is only one sorted sequence of a given set of mutants. */
  lemma {:induction false} SortedUnique(k: Key, a: seq<Mutant>, b: seq<Mutant>)
    requires Sorted(k, a) && Sorted(k, b) && forall x :: x in a <==> x in b
    ensures a == b
  {
    hide Less;
    if a == [] {
      assert forall i :: 0 <= i < |b| ==> b[i] in b;
    } else {
      assert a[0] in a && b != [];
      assert b[0] in b;
      SameHead(k, a, b);
      assert a == [a[0]] + a[1..] && b == [b[0]] + b[1..];
      HeadOnce(k, a);
      HeadOnce(k, b);
      SortedUnique(k, a[1..], b[1..]);
    }
  }

  lemma HeadOnce(k: Key, a: seq<Mutant>)
    requires a != [] && Sorted(k, a)
    ensures forall x :: x in a[1..] <==> x in a && x != a[0]
  {
    hide Less;
    assert a == [a[0]] + a[1..];
    if a[0] in a[1..] {
      var i :| 0 <= i < |a[1..]| && a[1..][i] == a[0];
      assert Less(k, a[0], a[i + 1]);
      LessAsymmetric(k, a[0], a[i + 1]);
    }
  }

  lemma SameHead(k: Key, a: seq<Mutant>, b: seq<Mutant>)
    requires a != [] && b != [] && Sorted(k, a) && Sorted(k, b) && a[0] in b && b[0] in a
    ensures a[0] == b[0]
  {
    hide Less;
    if a[0] != b[0] {
      var i :| 0 <= i < |b| && b[i] == a[0];
      var j :| 0 <= j < |a| && a[j] == b[0];
      assert Less(k, a[0], a[j]) && Less(k, b[0], b[i]);
      LessAsymmetric(k, a[0], b[0]);
    }
  }
}
