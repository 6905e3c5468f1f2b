/** How `shard` in tools/check_mutants.py splits the mutants into shards. */
module Shards {

  import opened Mutants
  import Lexical
  import Packing

  // ---------------------------------------------------------------------
  // What a shard is
  // ---------------------------------------------------------------------

  ghost function Group(ms: set<Mutant>, file: string): set<Mutant> {
    set m | m in ms && m.file == file
  }

  ghost predicate HasFile(ms: set<Mutant>, file: string) {
    exists m :: m in ms && m.file == file
  }

  /** Files with more mutants first, equal ones by path. */
  ghost predicate FileBefore(ms: set<Mutant>, f: string, g: string) {
    |Group(ms, f)| > |Group(ms, g)| || (|Group(ms, f)| == |Group(ms, g)| && Lexical.Lt(f, g))
  }

  ghost predicate FilesSorted(ms: set<Mutant>, order: seq<string>) {
    forall i, j :: 0 <= i < j < |order| ==> FileBefore(ms, order[i], order[j])
  }

  /** The order in which the files are dealt. */
  ghost predicate FileOrder(ms: set<Mutant>, order: seq<string>) {
    FilesSorted(ms, order) && forall f :: f in order <==> HasFile(ms, f)
  }

  ghost function Sizes(ms: set<Mutant>, order: seq<string>): (p: seq<nat>)
    ensures |p| == |order| && forall i :: 0 <= i < |p| ==> p[i] == |Group(ms, order[i])|
  {
    seq(|order|, i requires 0 <= i < |order| => |Group(ms, order[i])|)
  }

  /** File `f` is dealt to shard `index`. */
  ghost predicate DealtTo(ms: set<Mutant>, order: seq<string>, total: nat, f: string, index: nat)
    requires total > 0
  {
    exists i :: 0 <= i < |order| && order[i] == f && Packing.Deal(Sizes(ms, order), total)[i] == index
  }

  /** The mutants of shard `index`. */
  ghost function ShardSet(ms: set<Mutant>, order: seq<string>, total: nat, index: nat): set<Mutant>
    requires total > 0
  {
    set m | m in ms && DealtTo(ms, order, total, m.file, index)
  }

  /** `part` is what `shard` returns for `index` of `total`. */
  ghost predicate IsShard(ms: set<Mutant>, total: nat, index: nat, part: seq<Mutant>) {
    && index < total
    && Sorted(ByFileAndName, part)
    && exists order :: FileOrder(ms, order) && Elements(part) == ShardSet(ms, order, total, index)
  }

  // ---------------------------------------------------------------------
  // The order of the files is determined by the mutants
  // ---------------------------------------------------------------------

  lemma FileBeforeTransitive(ms: set<Mutant>, f: string, g: string, h: string)
    requires FileBefore(ms, f, g) && FileBefore(ms, g, h)
    ensures FileBefore(ms, f, h)
  {
    if Lexical.Lt(f, g) && Lexical.Lt(g, h) {
      Lexical.Transitive(f, g, h);
    }
  }

  lemma FileBeforeTotal(ms: set<Mutant>, f: string, g: string)
    requires f != g
    ensures FileBefore(ms, f, g) || FileBefore(ms, g, f)
  {
    Lexical.Total(f, g);
  }

  lemma FileBeforeAsymmetric(ms: set<Mutant>, f: string, g: string)
    requires FileBefore(ms, f, g)
    ensures !FileBefore(ms, g, f) && f != g
  {
    Lexical.Irreflexive(f);
    if Lexical.Lt(f, g) {
      Lexical.Asymmetric(f, g);
    }
  }

  lemma {:induction false} FilesUnique(ms: set<Mutant>, a: seq<string>, b: seq<string>)
    requires FilesSorted(ms, a) && FilesSorted(ms, b) && forall f :: f in a <==> f in b
    ensures a == b
  {
    hide FileBefore;
    if a == [] {
      assert forall i :: 0 <= i < |b| ==> b[i] in b;
    } else {
      assert a[0] in a && b != [];
      assert b[0] in b;
      SameFirst(ms, a, b);
      FirstOnce(ms, a);
      FirstOnce(ms, b);
      FilesUnique(ms, a[1..], b[1..]);
      assert a == [a[0]] + a[1..] && b == [b[0]] + b[1..];
    }
  }

  lemma FirstOnce(ms: set<Mutant>, a: seq<string>)
    requires a != [] && FilesSorted(ms, a)
    ensures forall f :: f in a[1..] <==> f in a && f != a[0]
  {
    hide FileBefore;
    assert a == [a[0]] + a[1..];
    if a[0] in a[1..] {
      var i :| 0 <= i < |a[1..]| && a[1..][i] == a[0];
      assert FileBefore(ms, a[0], a[i + 1]);
      FileBeforeAsymmetric(ms, a[0], a[i + 1]);
    }
  }

  lemma SameFirst(ms: set<Mutant>, a: seq<string>, b: seq<string>)
    requires a != [] && b != [] && FilesSorted(ms, a) && FilesSorted(ms, b) && a[0] in b && b[0] in a
    ensures a[0] == b[0]
  {
    hide FileBefore;
    if a[0] != b[0] {
      var i :| 0 <= i < |b| && b[i] == a[0];
      var j :| 0 <= j < |a| && a[j] == b[0];
      assert FileBefore(ms, a[0], a[j]) && FileBefore(ms, b[0], b[i]);
      FileBeforeAsymmetric(ms, a[0], b[0]);
    }
  }

  /** Which shard, which position: nothing depends on the order of the input. */
  lemma ShardDetermined(ms: set<Mutant>, total: nat, index: nat, a: seq<Mutant>, b: seq<Mutant>)
    requires IsShard(ms, total, index, a) && IsShard(ms, total, index, b)
    ensures a == b
  {
    hide ShardSet, FileOrder;
    var o :| FileOrder(ms, o) && Elements(a) == ShardSet(ms, o, total, index);
    var q :| FileOrder(ms, q) && Elements(b) == ShardSet(ms, q, total, index);
    OrderUnique(ms, o, q);
    forall x ensures x in a <==> x in b {
      assert x in a <==> x in Elements(a);
      assert x in b <==> x in Elements(b);
    }
    SortedUnique(ByFileAndName, a, b);
  }

  lemma OrderUnique(ms: set<Mutant>, o: seq<string>, q: seq<string>)
    requires FileOrder(ms, o) && FileOrder(ms, q)
    ensures o == q
  {
    FilesUnique(ms, o, q);
  }

  lemma OrderDistinct(ms: set<Mutant>, order: seq<string>)
    requires FilesSorted(ms, order)
    ensures forall i, j :: 0 <= i < j < |order| ==> order[i] != order[j]
  {
    hide FileBefore;
    forall i, j | 0 <= i < j < |order| ensures order[i] != order[j] {
      assert FileBefore(ms, order[i], order[j]);
      FileBeforeAsymmetric(ms, order[i], order[j]);
    }
  }

  // ---------------------------------------------------------------------
  // Sizes of shards
  // ---------------------------------------------------------------------

  /** The mutants of the first `k` files that `t` assigns to shard `index`. */
  ghost function Assigned(ms: set<Mutant>, order: seq<string>, t: seq<nat>, index: nat, k: nat): set<Mutant>
    requires |t| == |order| && k <= |order|
  {
    if k == 0 then {} else
      Assigned(ms, order, t, index, k - 1) + if t[k - 1] == index then Group(ms, order[k - 1]) else {}
  }

  lemma {:induction false} AssignedMembers(ms: set<Mutant>, order: seq<string>, t: seq<nat>,
                                           index: nat, k: nat, m: Mutant)
    requires |t| == |order| && k <= |order|
    ensures m in Assigned(ms, order, t, index, k) <==>
            m in ms && exists i :: 0 <= i < k && order[i] == m.file && t[i] == index
  {
    if k > 0 {
      AssignedMembers(ms, order, t, index, k - 1, m);
    }
  }

  lemma {:induction false} AssignedSize(ms: set<Mutant>, order: seq<string>, t: seq<nat>, index: nat, k: nat)
    requires |t| == |order| && k <= |order|
    requires forall i, j :: 0 <= i < j < |order| ==> order[i] != order[j]
    ensures |Assigned(ms, order, t, index, k)| == Packing.Load(Sizes(ms, order)[..k], t[..k], index)
  {
    hide Group;
    if k > 0 {
      hide Packing.Load;
      AssignedSize(ms, order, t, index, k - 1);
      Packing.LoadOneMore(Sizes(ms, order), t, index, k - 1);
      if t[k - 1] == index {
        var others, group := Assigned(ms, order, t, index, k - 1), Group(ms, order[k - 1]);
        forall m | m in others ensures m !in group {
          AssignedMembers(ms, order, t, index, k - 1, m);
          GroupFile(ms, order[k - 1], m);
        }
        assert others !! group;
      }
    }
  }

  lemma GroupFile(ms: set<Mutant>, f: string, m: Mutant)
    ensures m in Group(ms, f) <==> m in ms && m.file == f
  {
  }

  lemma ShardSize(ms: set<Mutant>, order: seq<string>, total: nat, index: nat)
    requires total > 0 && FileOrder(ms, order)
    ensures var p := Sizes(ms, order);
            |ShardSet(ms, order, total, index)| == Packing.Load(p, Packing.Deal(p, total), index)
  {
    hide FileBefore, Packing.Deal;
    var p, n := Sizes(ms, order), |order|;
    var t := Packing.Deal(p, total);
    OrderDistinct(ms, order);
    AssignedSize(ms, order, t, index, n);
    forall m ensures m in ShardSet(ms, order, total, index) <==> m in Assigned(ms, order, t, index, n) {
      AssignedMembers(ms, order, t, index, n, m);
    }
    assert ShardSet(ms, order, total, index) == Assigned(ms, order, t, index, n);
    assert p[..n] == p && t[..n] == t;
  }

  lemma {:induction false} SortedLength(part: seq<Mutant>)
    requires Sorted(ByFileAndName, part)
    ensures |part| == |Elements(part)|
  {
    hide Less;
    if part != [] {
      HeadOnce(ByFileAndName, part);
      SortedLength(part[1..]);
      assert Elements(part) == {part[0]} + Elements(part[1..]);
    }
  }

  /** The length of a shard is the load its packing gives it. */
  lemma ShardLength(ms: set<Mutant>, total: nat, index: nat, part: seq<Mutant>, order: seq<string>)
    requires IsShard(ms, total, index, part) && FileOrder(ms, order)
    ensures var p := Sizes(ms, order);
            |part| == Packing.Load(p, Packing.Deal(p, total), index)
  {
    hide FileOrder, ShardSet, Sizes, Packing.Deal, Packing.Load;
    var o :| FileOrder(ms, o) && Elements(part) == ShardSet(ms, o, total, index);
    OrderUnique(ms, o, order);
    ShardSize(ms, order, total, index);
    SortedLength(part);
  }

  // ---------------------------------------------------------------------
  // Main results
  // ---------------------------------------------------------------------

  /** Every mutant is in exactly one shard, and with it all mutants of its file. */
  lemma ExactlyOnce(ms: set<Mutant>, total: nat, parts: seq<seq<Mutant>>, m: Mutant)
    requires total > 0 && |parts| == total && forall i :: 0 <= i < total ==> IsShard(ms, total, i, parts[i])
    ensures forall i :: 0 <= i < total && m in parts[i] ==> m in ms
    ensures m in ms ==> exists i :: 0 <= i < total && (forall n :: n in ms && n.file == m.file ==> n in parts[i]) &&
                                    (forall j, n :: 0 <= j < total && j != i && n in parts[j] ==> n.file != m.file)
  {
    hide Less, FileBefore, Packing.Deal;
    assert IsShard(ms, total, 0, parts[0]);
    var order :| FileOrder(ms, order) && Elements(parts[0]) == ShardSet(ms, order, total, 0);
    forall i | 0 <= i < total ensures Elements(parts[i]) == ShardSet(ms, order, total, i) {
      SameOrder(ms, total, i, parts[i], order);
    }
    forall i | 0 <= i < total && m in parts[i] ensures m in ms {
      assert m in Elements(parts[i]);
    }
    if m in ms {
      assert HasFile(ms, m.file);
      var k :| 0 <= k < |order| && order[k] == m.file;
      var t := Packing.Deal(Sizes(ms, order), total);
      var i := t[k];
      forall n | n in ms && n.file == m.file ensures n in parts[i] {
        assert DealtTo(ms, order, total, n.file, i);
        assert n in Elements(parts[i]);
      }
      forall j, n | 0 <= j < total && j != i && n in parts[j] ensures n.file != m.file {
        assert n in Elements(parts[j]);
        if n.file == m.file {
          var l :| 0 <= l < |order| && order[l] == n.file && t[l] == j;
          OrderDistinct(ms, order);
        }
      }
    }
  }

  lemma SameOrder(ms: set<Mutant>, total: nat, index: nat, part: seq<Mutant>, order: seq<string>)
    requires IsShard(ms, total, index, part) && FileOrder(ms, order)
    ensures Elements(part) == ShardSet(ms, order, total, index)
  {
    hide FileOrder, ShardSet;
    var o :| FileOrder(ms, o) && Elements(part) == ShardSet(ms, o, total, index);
    OrderUnique(ms, o, order);
  }

  /** A shard runs the mutants of one file back to back. */
  lemma FilesAdjacent(part: seq<Mutant>, i: nat, j: nat, k: nat)
    requires Sorted(ByFileAndName, part) && i <= j <= k < |part| && part[i].file == part[k].file
    ensures part[j].file == part[i].file
  {
    if i < j && j < k {
      assert Less(ByFileAndName, part[i], part[j]) && Less(ByFileAndName, part[j], part[k]);
      if part[i].file != part[j].file {
        Lexical.Asymmetric(part[i].file, part[j].file);
      }
    }
  }

  /** Two shards differ by at most the mutants of the largest file. */
  lemma ShardsBalanced(ms: set<Mutant>, total: nat, i: nat, j: nat, a: seq<Mutant>, b: seq<Mutant>, largest: nat)
    requires IsShard(ms, total, i, a) && IsShard(ms, total, j, b)
    requires forall f :: HasFile(ms, f) ==> |Group(ms, f)| <= largest
    ensures |a| <= |b| + largest
  {
    hide FilesSorted, ShardSet, Packing.Deal, Packing.Load, Less;
    var order :| FileOrder(ms, order) && Elements(a) == ShardSet(ms, order, total, i);
    ShardLength(ms, total, i, a, order);
    ShardLength(ms, total, j, b, order);
    Packing.Balanced(Sizes(ms, order), total, largest);
  }

  /** What a split into whole files puts on shard `s`. */
  ghost function Part(ms: set<Mutant>, split: map<string, nat>, s: nat): set<Mutant> {
    set m | m in ms && m.file in split && split[m.file] == s
  }

  /** No shard is more than four thirds of the largest shard of any split into
      whole files: 3 * total * size <= (4 * total - 1) * best. */
  lemma NearlyOptimal(ms: set<Mutant>, total: nat, index: nat, part: seq<Mutant>, split: map<string, nat>, best: nat)
    requires IsShard(ms, total, index, part)
    requires forall f :: HasFile(ms, f) ==> f in split && split[f] < total
    requires forall s :: 0 <= s < total ==> |Part(ms, split, s)| <= best
    ensures 3 * total * |part| <= (4 * total - 1) * best
    ensures 3 * |part| <= 4 * best
  {
    hide ShardSet, Packing.Deal, Packing.Load, Less, FileBefore;
    var order :| FileOrder(ms, order) && Elements(part) == ShardSet(ms, order, total, index);
    ShardLength(ms, total, index, part, order);
    var p := Sizes(ms, order);
    var u := seq(|order|, i requires 0 <= i < |order| => if order[i] in split then split[order[i]] else 0);
    forall i | 0 <= i < |order| ensures u[i] < total && order[i] in split {
      assert order[i] in order;
    }
    SplitWithin(ms, total, order, split, u, best);
    SizesDescend(ms, order);
    Packing.FourThirds(p, u, total, best, index);
  }

  lemma SizesDescend(ms: set<Mutant>, order: seq<string>)
    requires FilesSorted(ms, order)
    ensures Packing.LargestFirst(Sizes(ms, order))
  {
    var p := Sizes(ms, order);
    forall i, j | 0 <= i < j < |p| ensures p[i] >= p[j] {
      assert FileBefore(ms, order[i], order[j]);
    }
  }

  lemma SplitWithin(ms: set<Mutant>, total: nat, order: seq<string>, split: map<string, nat>, u: seq<nat>, best: nat)
    requires FileOrder(ms, order) && |u| == |order|
    requires forall i :: 0 <= i < |order| ==> order[i] in split && u[i] == split[order[i]] < total
    requires forall s :: 0 <= s < total ==> |Part(ms, split, s)| <= best
    ensures Packing.Within(Sizes(ms, order), u, total, best)
  {
    hide FileBefore, Packing.Load;
    var p, n := Sizes(ms, order), |order|;
    OrderDistinct(ms, order);
    forall s | 0 <= s < total ensures Packing.Load(p, u, s) <= best {
      AssignedSize(ms, order, u, s, n);
      forall m ensures m in Part(ms, split, s) <==> m in Assigned(ms, order, u, s, n) {
        AssignedMembers(ms, order, u, s, n, m);
        if m in Part(ms, split, s) {
          assert HasFile(ms, m.file);
          var i :| 0 <= i < |order| && order[i] == m.file;
          assert u[i] == s;
        }
      }
      assert Part(ms, split, s) == Assigned(ms, order, u, s, n);
      assert p[..n] == p && u[..n] == u;
    }
  }

  /** With no more shards than files, no shard is empty. */
  lemma NoEmptyShard(ms: set<Mutant>, total: nat, index: nat, part: seq<Mutant>, order: seq<string>)
    requires IsShard(ms, total, index, part) && FileOrder(ms, order) && total <= |order|
    ensures part != []
  {
    hide FilesSorted, ShardSet, Packing.Deal, Packing.Load, Less;
    ShardLength(ms, total, index, part, order);
    var p := Sizes(ms, order);
    forall i | 0 <= i < |p| ensures p[i] > 0 {
      assert order[i] in order && HasFile(ms, order[i]);
      var m :| m in ms && m.file == order[i];
      assert m in Group(ms, order[i]);
    }
    Packing.NoneEmpty(p, total, index);
  }

  /** Non-empty shards take a file each: there are never more of them than files. */
  lemma ShardsNeedFiles(ms: set<Mutant>, total: nat, parts: seq<seq<Mutant>>, order: seq<string>)
    requires total > 0 && |parts| == total && FileOrder(ms, order)
    requires forall i :: 0 <= i < total ==> IsShard(ms, total, i, parts[i]) && parts[i] != []
    ensures total <= |order|
  {
    hide FilesSorted, ShardSet, Packing.Deal, Packing.Load, Less, IsShard;
    var p := Sizes(ms, order);
    var t := Packing.Deal(p, total);
    forall s | 0 <= s < total ensures Packing.Count(t, s) >= 1 {
      ShardLength(ms, total, s, parts[s], order);
      if Packing.Count(t, s) == 0 {
        Packing.EmptyLoad(p, t, s);
      }
    }
    Packing.CountsAddUp(t, total);
    Packing.CountsAtLeastOne(t, total);
  }

  // ---------------------------------------------------------------------
  // The tool's own form
  // ---------------------------------------------------------------------

  /** The mutants grouped by file: each list is the group of its file. */
  ghost predicate Grouped(byFile: map<string, seq<Mutant>>, ms: set<Mutant>) {
    && (forall f :: f in byFile <==> HasFile(ms, f))
    && forall f :: f in byFile ==> Elements(byFile[f]) == Group(ms, f) && |byFile[f]| == |Group(ms, f)|
  }

  method GroupByFile(mutants: seq<Mutant>) returns (byFile: map<string, seq<Mutant>>)
    requires DistinctNames(mutants)
    ensures Grouped(byFile, Elements(mutants))
  {
    byFile := map[];
    for i := 0 to |mutants|
      invariant Grouped(byFile, Elements(mutants[..i]))
    {
      var m := mutants[i];
      GroupOneMore(byFile, mutants, i);
      byFile := byFile[m.file := (if m.file in byFile then byFile[m.file] else []) + [m]];
    }
    assert mutants[..|mutants|] == mutants;
  }

  lemma GroupOneMore(byFile: map<string, seq<Mutant>>, mutants: seq<Mutant>, i: nat)
    requires DistinctNames(mutants) && i < |mutants| && Grouped(byFile, Elements(mutants[..i]))
    ensures var m := mutants[i];
            Grouped(byFile[m.file := (if m.file in byFile then byFile[m.file] else []) + [m]],
                    Elements(mutants[..i + 1]))
  {
    hide Group, HasFile;
    var m, ms := mutants[i], Elements(mutants[..i]);
    assert mutants[..i + 1] == mutants[..i] + [m];
    assert Elements(mutants[..i + 1]) == ms + {m};
    assert m !in ms;
    MutantAdded(byFile, ms, m);
  }

  lemma HasFileAdded(ms: set<Mutant>, m: Mutant, f: string)
    ensures HasFile(ms + {m}, f) <==> HasFile(ms, f) || f == m.file
  {
    assert m in ms + {m};
    if HasFile(ms, f) {
      var x :| x in ms && x.file == f;
      assert x in ms + {m};
    }
  }

  lemma GroupAdded(ms: set<Mutant>, m: Mutant, f: string)
    ensures Group(ms + {m}, f) == if f == m.file then Group(ms, f) + {m} else Group(ms, f)
    ensures m !in ms ==> m !in Group(ms, f)
    ensures !HasFile(ms, f) ==> Group(ms, f) == {}
  {
  }

  lemma MutantAdded(byFile: map<string, seq<Mutant>>, ms: set<Mutant>, m: Mutant)
    requires Grouped(byFile, ms) && m !in ms
    ensures Grouped(byFile[m.file := (if m.file in byFile then byFile[m.file] else []) + [m]], ms + {m})
  {
    hide Group, HasFile, Elements;
    var list := if m.file in byFile then byFile[m.file] else [];
    GroupAdded(ms, m, m.file);
    ElementsAppend(list, m);
    forall f ensures HasFile(ms + {m}, f) <==> HasFile(ms, f) || f == m.file {
      HasFileAdded(ms, m, f);
    }
    forall f | f != m.file ensures Group(ms + {m}, f) == Group(ms, f) {
      GroupAdded(ms, m, f);
    }
    assert Elements(list) == Group(ms, m.file) && |list| == |Group(ms, m.file)| by {
      NoElements();
    }
  }

  lemma NoElements()
    ensures Elements([]) == {}
  {
  }

  lemma ElementsAppend(list: seq<Mutant>, m: Mutant)
    ensures Elements(list + [m]) == Elements(list) + {m}
  {
  }

  function InsertFile(byFile: map<string, seq<Mutant>>, order: seq<string>, f: string): seq<string>
    requires f in byFile && forall g :: g in order ==> g in byFile
  {
    if order == [] || Precedes(byFile, f, order[0]) then [f] + order
    else [order[0]] + InsertFile(byFile, order[1..], f)
  }

  predicate Precedes(byFile: map<string, seq<Mutant>>, f: string, g: string)
    requires f in byFile && g in byFile
  {
    |byFile[f]| > |byFile[g]| || (|byFile[f]| == |byFile[g]| && Lexical.Lt(f, g))
  }

  lemma PrecedesIsFileBefore(byFile: map<string, seq<Mutant>>, ms: set<Mutant>, f: string, g: string)
    requires Grouped(byFile, ms) && f in byFile && g in byFile
    ensures Precedes(byFile, f, g) <==> FileBefore(ms, f, g)
  {
  }

  lemma {:induction false} InsertFileMembers(byFile: map<string, seq<Mutant>>, order: seq<string>, f: string)
    requires f in byFile && forall g :: g in order ==> g in byFile
    ensures forall g :: g in InsertFile(byFile, order, f) <==> g == f || g in order
  {
    if order == [] || Precedes(byFile, f, order[0]) {
    } else {
      InsertFileMembers(byFile, order[1..], f);
      assert order == [order[0]] + order[1..];
    }
  }

  lemma {:induction false} InsertFileSorted(byFile: map<string, seq<Mutant>>, ms: set<Mutant>,
                                            order: seq<string>, f: string)
    requires Grouped(byFile, ms) && f in byFile && f !in order && FilesSorted(ms, order)
    requires forall g :: g in order ==> g in byFile
    ensures FilesSorted(ms, InsertFile(byFile, order, f))
  {
    hide Grouped, FileBefore, Precedes;
    if order == [] {
    } else {
      assert order[0] in order;
      PrecedesIsFileBefore(byFile, ms, f, order[0]);
      if Precedes(byFile, f, order[0]) {
        forall j | 0 < j < |order| ensures FileBefore(ms, f, order[j]) {
          FileBeforeTransitive(ms, f, order[0], order[j]);
        }
      } else {
        FileBeforeTotal(ms, f, order[0]);
        InsertFileSorted(byFile, ms, order[1..], f);
        InsertFileMembers(byFile, order[1..], f);
        var rest := InsertFile(byFile, order[1..], f);
        forall j | 0 <= j < |rest| ensures FileBefore(ms, order[0], rest[j]) {
          assert rest[j] in rest;
          if rest[j] != f {
            var i :| 0 <= i < |order[1..]| && order[1..][i] == rest[j];
            assert order[i + 1] == rest[j];
          }
        }
      }
    }
  }

  /** `sorted(by_file, key=...)`: larger files first. */
  method OrderFiles(byFile: map<string, seq<Mutant>>, ghost ms: set<Mutant>) returns (order: seq<string>)
    requires Grouped(byFile, ms)
    ensures FileOrder(ms, order)
  {
    hide FileBefore, Precedes;
    order := [];
    var todo := byFile.Keys;
    while todo != {}
      invariant todo <= byFile.Keys && FilesSorted(ms, order)
      invariant forall f :: f in order <==> f in byFile.Keys - todo
      decreases todo
    {
      var f :| f in todo;
      InsertFileSorted(byFile, ms, order, f);
      InsertFileMembers(byFile, order, f);
      order := InsertFile(byFile, order, f);
      todo := todo - {f};
    }
  }

  /** The lowest index of the least load. */
  method Target(loads: seq<nat>, ghost p: seq<nat>, ghost t: seq<nat>) returns (target: nat)
    requires |p| == |t| && loads != [] && forall s :: 0 <= s < |loads| ==> loads[s] == Packing.Load(p, t, s)
    ensures target == Packing.Lightest(p, t, |loads|)
  {
    hide Packing.Load;
    target := 0;
    for i := 1 to |loads|
      invariant target == Packing.Lightest(p, t, i)
    {
      if loads[i] < loads[target] {
        target := i;
      }
    }
  }

  /** What each shard has been dealt after the first `k` files. */
  ghost predicate DealtSoFar(ms: set<Mutant>, order: seq<string>, t: seq<nat>, k: nat, dealt: seq<seq<Mutant>>)
    requires |t| == |order| && k <= |order|
  {
    forall s :: 0 <= s < |dealt| ==> Elements(dealt[s]) == Assigned(ms, order, t, s, k) && DistinctNames(dealt[s])
  }

  method DealFiles(byFile: map<string, seq<Mutant>>, order: seq<string>, total: nat, ghost ms: set<Mutant>)
    returns (dealt: seq<seq<Mutant>>)
    requires total > 0 && Grouped(byFile, ms) && FileOrder(ms, order) && NamesIdentify(ms)
    requires forall f :: f in byFile ==> DistinctNames(byFile[f])
    ensures |dealt| == total
    ensures DealtSoFar(ms, order, Packing.Deal(Sizes(ms, order), total), |order|, dealt)
  {
    hide FileBefore, Packing.Load, Packing.Lightest;
    ghost var p := Sizes(ms, order);
    ghost var t := Packing.Deal(p, total);
    OrderDistinct(ms, order);
    var loads: seq<nat> := seq(total, _ => 0);
    dealt := seq(total, _ => []);
    EmptyLoads(total);
    for k := 0 to |order|
      invariant |loads| == total && |dealt| == total
      invariant forall s :: 0 <= s < total ==> loads[s] == Packing.Load(p[..k], t[..k], s)
      invariant DealtSoFar(ms, order, t, k, dealt)
    {
      var file := order[k];
      assert file in order;
      DealStep(p, total, k);
      var target := Target(loads, p[..k], t[..k]);
      assert target == t[k];
      FileDealt(byFile, ms, order, t, k, dealt);
      dealt := dealt[target := dealt[target] + byFile[file]];
      loads := loads[target := loads[target] + |byFile[file]|];
    }
    assert p[..|order|] == p && t[..|order|] == t;
  }

  lemma EmptyLoads(total: nat)
    ensures forall s :: 0 <= s < total ==> Packing.Load([], [], s) == 0
  {
  }

  lemma DealStep(p: seq<nat>, total: nat, k: nat)
    requires total > 0 && k < |p|
    ensures var t := Packing.Deal(p, total);
            && t[k] == Packing.Lightest(p[..k], t[..k], total)
            && forall s :: Packing.Load(p[..k + 1], t[..k + 1], s) ==
                           Packing.Load(p[..k], t[..k], s) + if t[k] == s then p[k] else 0
  {
    hide Packing.Lightest;
    var t := Packing.Deal(p, total);
    Packing.DealPrefix(p, total, k);
    Packing.DealPrefix(p, total, k + 1);
    Packing.DealLast(p[..k + 1], total);
    assert p[..k + 1][..k] == p[..k] && t[..k + 1][..k] == t[..k];
    assert t[..k + 1][k] == t[k];
  }

  lemma FileDealt(byFile: map<string, seq<Mutant>>, ms: set<Mutant>, order: seq<string>, t: seq<nat>, k: nat,
                  dealt: seq<seq<Mutant>>)
    requires Grouped(byFile, ms) && NamesIdentify(ms) && |t| == |order| && k < |order| && order[k] in byFile
    requires forall i, j :: 0 <= i < j < |order| ==> order[i] != order[j]
    requires DistinctNames(byFile[order[k]]) && t[k] < |dealt| && DealtSoFar(ms, order, t, k, dealt)
    ensures DealtSoFar(ms, order, t, k + 1, dealt[t[k] := dealt[t[k]] + byFile[order[k]]])
  {
    var target, group := t[k], byFile[order[k]];
    var after := dealt[target := dealt[target] + group];
    forall s | 0 <= s < |after|
      ensures Elements(after[s]) == Assigned(ms, order, t, s, k + 1) && DistinctNames(after[s])
    {
      if s == target {
        assert Elements(dealt[s] + group) == Elements(dealt[s]) + Elements(group);
        AppendDistinct(ms, order, t, k, dealt[s], group);
      }
    }
  }

  lemma AppendDistinct(ms: set<Mutant>, order: seq<string>, t: seq<nat>, k: nat, a: seq<Mutant>, b: seq<Mutant>)
    requires NamesIdentify(ms) && |t| == |order| && k < |order| && DistinctNames(a) && DistinctNames(b)
    requires forall i, j :: 0 <= i < j < |order| ==> order[i] != order[j]
    requires Elements(a) == Assigned(ms, order, t, t[k], k) && Elements(b) == Group(ms, order[k])
    ensures DistinctNames(a + b)
  {
    forall x, y | x in a && y in b ensures x.name != y.name {
      assert x in Elements(a) && y in Elements(b);
      AssignedMembers(ms, order, t, t[k], k, x);
    }
    forall i, j | 0 <= i < j < |a + b| ensures (a + b)[i].name != (a + b)[j].name {
      if i < |a| <= j {
        assert a[i] in a && b[j - |a|] in b;
      }
    }
  }

  lemma GroupDistinct(byFile: map<string, seq<Mutant>>, ms: set<Mutant>, f: string)
    requires Grouped(byFile, ms) && NamesIdentify(ms) && f in byFile
    ensures DistinctNames(byFile[f])
  {
    var list := byFile[f];
    forall x | x in list ensures x in ms {
      assert x in Elements(list);
    }
    NoRepeats(list);
    forall i, j | 0 <= i < j < |list| ensures list[i].name != list[j].name {
      assert list[i] in list && list[j] in list;
    }
  }

  /** A list as long as its set of elements repeats none. */
  lemma {:induction false} NoRepeats(list: seq<Mutant>)
    requires |list| <= |Elements(list)|
    ensures forall i, j :: 0 <= i < j < |list| ==> list[i] != list[j]
  {
    if list != [] {
      var rest := list[1..];
      assert Elements(list) == {list[0]} + Elements(rest);
      ElementsBound(rest);
      NoRepeats(rest);
      assert list[0] !in Elements(rest);
      forall i, j | 0 <= i < j < |list| ensures list[i] != list[j] {
        if i == 0 {
          assert list[j] == rest[j - 1];
        } else {
          assert list[i] == rest[i - 1] && list[j] == rest[j - 1];
        }
      }
    }
  }

  lemma {:induction false} ElementsBound(list: seq<Mutant>)
    ensures |Elements(list)| <= |list|
  {
    if list != [] {
      ElementsBound(list[1..]);
      assert Elements(list) == {list[0]} + Elements(list[1..]);
    }
  }

  /** `shard(mutants, index, total)`. */
  method Shard(mutants: seq<Mutant>, index: nat, total: nat) returns (part: seq<Mutant>)
    requires DistinctNames(mutants) && index < total
    ensures IsShard(Elements(mutants), total, index, part)
  {
    hide FileBefore, Less, Packing.Deal;
    var byName := Sort(ByName, mutants);
    ghost var ms := Elements(mutants);
    assert Elements(byName) == ms;
    SortedNames(byName);
    var byFile := GroupByFile(byName);
    NamesOfSeq(mutants);
    forall f | f in byFile ensures DistinctNames(byFile[f]) {
      GroupDistinct(byFile, ms, f);
    }
    var order := OrderFiles(byFile, ms);
    var dealt := DealFiles(byFile, order, total, ms);
    part := Sort(ByFileAndName, dealt[index]);
    ghost var t := Packing.Deal(Sizes(ms, order), total);
    forall m ensures m in Elements(part) <==> m in ShardSet(ms, order, total, index) {
      assert m in part <==> m in Elements(dealt[index]);
      AssignedMembers(ms, order, t, index, |order|, m);
    }
    assert Elements(part) == ShardSet(ms, order, total, index);
  }

  lemma SortedNames(ms: seq<Mutant>)
    requires Sorted(ByName, ms)
    ensures DistinctNames(ms)
  {
    forall i, j | 0 <= i < j < |ms| ensures ms[i].name != ms[j].name {
      assert Less(ByName, ms[i], ms[j]);
      Lexical.Asymmetric(ms[i].name, ms[j].name);
    }
  }

  lemma NamesOfSeq(ms: seq<Mutant>)
    requires DistinctNames(ms)
    ensures NamesIdentify(Elements(ms))
  {
    forall a, b | a in Elements(ms) && b in Elements(ms) && a.name == b.name ensures a == b {
      var i :| 0 <= i < |ms| && ms[i] == a;
      var j :| 0 <= j < |ms| && ms[j] == b;
    }
  }
}
