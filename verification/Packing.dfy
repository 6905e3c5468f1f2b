/**
 Largest-first packing (the dealing loop of `shard`, tools/check_mutants.py):
 each size goes to the shard that holds least, the lowest such shard on a tie.
 How far the fullest shard can be from the best possible split.
 */
module Packing {

  // ---------------------------------------------------------------------
  // Loads
  // ---------------------------------------------------------------------

  /** What shard `s` holds when size p[i] was dealt to shard t[i]. */
  function Load(p: seq<nat>, t: seq<nat>, s: nat): nat
    requires |p| == |t|
  {
    if p == [] then 0 else
      var n := |p| - 1;
      Load(p[..n], t[..n], s) + if t[n] == s then p[n] else 0
  }

  function Total(p: seq<nat>): nat {
    if p == [] then 0 else Total(p[..|p| - 1]) + p[|p| - 1]
  }

  /** The loads of shards 0 to m - 1 together. */
  function SumLoads(p: seq<nat>, t: seq<nat>, m: nat): nat
    requires |p| == |t|
  {
    if m == 0 then 0 else SumLoads(p, t, m - 1) + Load(p, t, m - 1)
  }

  predicate Dealt(t: seq<nat>, m: nat) {
    forall i :: 0 <= i < |t| ==> t[i] < m
  }

  /** The least loaded of shards 0 to m - 1, the lowest of several. */
  function Lightest(p: seq<nat>, t: seq<nat>, m: nat): (r: nat)
    requires |p| == |t| && m > 0
    ensures r < m && forall s :: 0 <= s < m ==> Load(p, t, r) <= Load(p, t, s)
    ensures forall s :: 0 <= s < r ==> Load(p, t, r) < Load(p, t, s)
  {
    if m == 1 then 0 else
      var j := Lightest(p, t, m - 1);
      if Load(p, t, m - 1) < Load(p, t, j) then m - 1 else j
  }

  /** Where each size goes. */
  function Deal(p: seq<nat>, m: nat): (t: seq<nat>)
    requires m > 0
    ensures |t| == |p| && Dealt(t, m)
  {
    if p == [] then [] else
      var front := p[..|p| - 1];
      Deal(front, m) + [Lightest(front, Deal(front, m), m)]
  }

  lemma DealLast(p: seq<nat>, m: nat)
    requires m > 0 && p != []
    ensures var n := |p| - 1;
            Deal(p, m)[..n] == Deal(p[..n], m) && Deal(p, m)[n] == Lightest(p[..n], Deal(p[..n], m), m)
  {
  }

  lemma {:induction false} DealPrefix(p: seq<nat>, m: nat, k: nat)
    requires m > 0 && k <= |p|
    ensures Deal(p, m)[..k] == Deal(p[..k], m)
  {
    if k < |p| {
      var n := |p| - 1;
      DealLast(p, m);
      DealPrefix(p[..n], m, k);
      assert p[..n][..k] == p[..k];
      assert Deal(p, m)[..k] == Deal(p, m)[..n][..k];
    } else {
      assert p[..k] == p;
    }
  }

  // ---------------------------------------------------------------------
  // The loads add up
  // ---------------------------------------------------------------------

  lemma {:induction false} SumLoadsStep(p: seq<nat>, t: seq<nat>, m: nat)
    requires |p| == |t| > 0
    ensures var n := |p| - 1;
            SumLoads(p, t, m) == SumLoads(p[..n], t[..n], m) + if t[n] < m then p[n] else 0
  {
    if m > 0 {
      SumLoadsStep(p, t, m - 1);
    }
  }

  lemma {:induction false} LoadsAddUp(p: seq<nat>, t: seq<nat>, m: nat)
    requires |p| == |t| && Dealt(t, m)
    ensures SumLoads(p, t, m) == Total(p)
  {
    if p == [] {
      NothingDealt(t, m);
    } else {
      SumLoadsStep(p, t, m);
      LoadsAddUp(p[..|p| - 1], t[..|p| - 1], m);
    }
  }

  lemma {:induction false} NothingDealt(t: seq<nat>, m: nat)
    requires t == []
    ensures SumLoads([], t, m) == 0
  {
    if m > 0 {
      NothingDealt(t, m - 1);
    }
  }

  lemma {:induction false} SumAtLeast(p: seq<nat>, t: seq<nat>, m: nat, x: nat)
    requires |p| == |t| && forall s :: 0 <= s < m ==> Load(p, t, s) >= x
    ensures SumLoads(p, t, m) >= m * x
  {
    if m > 0 {
      SumAtLeast(p, t, m - 1, x);
      assert m * x == (m - 1) * x + x;
    }
  }

  lemma {:induction false} SumAtMost(p: seq<nat>, t: seq<nat>, m: nat, x: nat)
    requires |p| == |t| && forall s :: 0 <= s < m ==> Load(p, t, s) <= x
    ensures SumLoads(p, t, m) <= m * x
  {
    if m > 0 {
      SumAtMost(p, t, m - 1, x);
      assert m * x == (m - 1) * x + x;
    }
  }

  lemma {:induction false} TotalPrefix(p: seq<nat>, k: nat)
    requires k <= |p|
    ensures Total(p[..k]) <= Total(p)
  {
    if k < |p| {
      TotalPrefix(p[..|p| - 1], k);
      assert p[..|p| - 1][..k] == p[..k];
    } else {
      assert p[..k] == p;
    }
  }

  lemma {:induction false} LoadPrefix(p: seq<nat>, t: seq<nat>, s: nat, k: nat)
    requires |p| == |t| && k <= |p|
    ensures Load(p[..k], t[..k], s) <= Load(p, t, s)
    ensures (forall i :: k <= i < |t| ==> t[i] != s) ==> Load(p[..k], t[..k], s) == Load(p, t, s)
  {
    if k < |p| {
      var n := |p| - 1;
      LoadPrefix(p[..n], t[..n], s, k);
      assert p[..n][..k] == p[..k] && t[..n][..k] == t[..k];
    } else {
      assert p[..k] == p && t[..k] == t;
    }
  }

  lemma LoadOneMore(p: seq<nat>, t: seq<nat>, s: nat, k: nat)
    requires |p| == |t| && k < |p|
    ensures Load(p[..k + 1], t[..k + 1], s) == Load(p[..k], t[..k], s) + if t[k] == s then p[k] else 0
  {
    assert p[..k + 1][..k] == p[..k] && t[..k + 1][..k] == t[..k];
  }

  lemma {:induction false} LoadHolds(p: seq<nat>, t: seq<nat>, i: nat)
    requires |p| == |t| && i < |p|
    ensures Load(p, t, t[i]) >= p[i]
  {
    var n := |p| - 1;
    if i < n {
      LoadHolds(p[..n], t[..n], i);
    }
  }

  // ---------------------------------------------------------------------
  // Balance
  // ---------------------------------------------------------------------

  /** Two shards never differ by more than the largest size. */
  lemma {:induction false} Balanced(p: seq<nat>, m: nat, largest: nat)
    requires m > 0 && forall i :: 0 <= i < |p| ==> p[i] <= largest
    ensures forall s, r :: 0 <= s < m && 0 <= r < m ==> Load(p, Deal(p, m), s) <= Load(p, Deal(p, m), r) + largest
  {
    if p != [] {
      var front := p[..|p| - 1];
      Balanced(front, m, largest);
      DealLast(p, m);
      forall s, r | 0 <= s < m && 0 <= r < m
        ensures Load(p, Deal(p, m), s) <= Load(p, Deal(p, m), r) + largest
      {
        assert Load(front, Deal(front, m), s) <= Load(front, Deal(front, m), r) + largest;
      }
    }
  }

  /** With positive sizes and no more shards than sizes, no shard stays empty. */
  lemma {:induction false} NoneEmpty(p: seq<nat>, m: nat, s: nat)
    requires m > 0 && s < m <= |p| && forall i :: 0 <= i < |p| ==> p[i] > 0
    ensures Load(p, Deal(p, m), s) > 0
  {
    var k := s + 1;
    FirstOnes(p[..k], m, k);
    DealPrefix(p, m, k);
    LoadPrefix(p, Deal(p, m), s, k);
  }

  /** The first sizes go to one new shard after another. */
  lemma {:induction false} FirstOnes(p: seq<nat>, m: nat, k: nat)
    requires m > 0 && |p| == k <= m && forall i :: 0 <= i < |p| ==> p[i] > 0
    ensures forall s :: 0 <= s < m ==> (Load(p, Deal(p, m), s) > 0 <==> s < k)
  {
    if k > 0 {
      var front := p[..k - 1];
      FirstOnes(front, m, k - 1);
      DealLast(p, m);
      var j := Lightest(front, Deal(front, m), m);
      assert Load(front, Deal(front, m), k - 1) == 0;
      assert j == k - 1;
    }
  }

  // ---------------------------------------------------------------------
  // Counting: how many sizes a shard was dealt
  // ---------------------------------------------------------------------

  function Count(t: seq<nat>, s: nat): nat {
    if t == [] then 0 else Count(t[..|t| - 1], s) + if t[|t| - 1] == s then 1 else 0
  }

  function SumCounts(t: seq<nat>, m: nat): nat {
    if m == 0 then 0 else SumCounts(t, m - 1) + Count(t, m - 1)
  }

  /** The shards that were dealt exactly one size. */
  function Singles(t: seq<nat>, m: nat): (r: set<nat>)
    ensures forall s: nat :: s in r <==> s < m && Count(t, s) == 1
  {
    if m == 0 then {} else Singles(t, m - 1) + if Count(t, m - 1) == 1 then {m - 1} else {}
  }

  lemma {:induction false} SumCountsStep(t: seq<nat>, m: nat)
    requires t != []
    ensures SumCounts(t, m) == SumCounts(t[..|t| - 1], m) + if t[|t| - 1] < m then 1 else 0
  {
    if m > 0 {
      SumCountsStep(t, m - 1);
    }
  }

  lemma {:induction false} CountsAddUp(t: seq<nat>, m: nat)
    requires Dealt(t, m)
    ensures SumCounts(t, m) == |t|
  {
    if t == [] {
      NothingCounted(m);
    } else {
      SumCountsStep(t, m);
      CountsAddUp(t[..|t| - 1], m);
    }
  }

  lemma {:induction false} NothingCounted(m: nat)
    ensures SumCounts([], m) == 0
  {
    if m > 0 {
      NothingCounted(m - 1);
    }
  }

  lemma {:induction false} CountsAtLeastOne(t: seq<nat>, m: nat)
    requires forall s :: 0 <= s < m ==> Count(t, s) >= 1
    ensures SumCounts(t, m) >= m
  {
    if m > 0 {
      CountsAtLeastOne(t, m - 1);
    }
  }

  /** Shards with one size save one against two apiece. */
  lemma {:induction false} CountsAgainstTwo(t: seq<nat>, m: nat)
    ensures (forall s :: 0 <= s < m ==> Count(t, s) >= 1) ==> SumCounts(t, m) + |Singles(t, m)| >= 2 * m
    ensures (forall s :: 0 <= s < m ==> Count(t, s) <= 2) ==> SumCounts(t, m) + |Singles(t, m)| <= 2 * m
  {
    if m > 0 {
      CountsAgainstTwo(t, m - 1);
      assert m - 1 !in Singles(t, m - 1);
    }
  }

  /** The index of a size dealt to shard `s`. */
  lemma {:induction false} Find(t: seq<nat>, s: nat) returns (i: nat)
    requires Count(t, s) > 0
    ensures i < |t| && t[i] == s
  {
    i := |t| - 1;
    if t[i] != s {
      i := Find(t[..i], s);
    }
  }

  /** A shard dealt two sizes holds both of them. */
  lemma {:induction false} TwoHeld(p: seq<nat>, t: seq<nat>, s: nat, least: nat)
    requires |p| == |t| && forall i :: 0 <= i < |p| ==> p[i] >= least
    ensures Load(p, t, s) >= Count(t, s) * least
  {
    if p != [] {
      var n := |p| - 1;
      TwoHeld(p[..n], t[..n], s, least);
      var c := Count(t[..n], s);
      assert (c + 1) * least == c * least + least;
    }
  }

  lemma {:induction false} CountHolds(t: seq<nat>, i: nat, j: nat)
    requires i < |t| && j < |t| && t[i] == t[j] && i != j
    ensures Count(t, t[i]) >= 2
  {
    var n := |t| - 1;
    if i < n && j < n {
      CountHolds(t[..n], i, j);
    } else if i < n {
      CountOne(t[..n], i);
    } else {
      CountOne(t[..n], j);
    }
  }

  lemma {:induction false} CountOne(t: seq<nat>, i: nat)
    requires i < |t|
    ensures Count(t, t[i]) >= 1
  {
    var n := |t| - 1;
    if i < n {
      CountOne(t[..n], i);
    }
  }

  lemma {:induction false} PairHeld(p: seq<nat>, t: seq<nat>, i: nat, j: nat)
    requires |p| == |t| && i < j < |t| && t[i] == t[j]
    ensures Load(p, t, t[i]) >= p[i] + p[j]
  {
    var n := |t| - 1;
    if j < n {
      PairHeld(p[..n], t[..n], i, j);
    } else {
      LoadHolds(p[..n], t[..n], i);
    }
  }

  lemma {:induction false} SoleLoad(p: seq<nat>, t: seq<nat>, i: nat)
    requires |p| == |t| && i < |t| && Count(t, t[i]) == 1
    ensures Load(p, t, t[i]) == p[i]
  {
    var n := |t| - 1;
    if i < n {
      CountOne(t[..n], i);
      SoleLoad(p[..n], t[..n], i);
    } else {
      EmptyLoad(p[..n], t[..n], t[i]);
    }
  }

  lemma {:induction false} EmptyLoad(p: seq<nat>, t: seq<nat>, s: nat)
    requires |p| == |t| && Count(t, s) == 0
    ensures Load(p, t, s) == 0
  {
    if p != [] {
      EmptyLoad(p[..|p| - 1], t[..|p| - 1], s);
    }
  }

  // ---------------------------------------------------------------------
  // The pigeonhole: large sizes are packed as well as they can be
  // ---------------------------------------------------------------------

  lemma {:induction false} InjectiveSize(a: set<nat>, b: set<nat>, f: map<nat, nat>)
    requires f.Keys == a && forall x :: x in a ==> f[x] in b
    requires forall x, y :: x in a && y in a && f[x] == f[y] ==> x == y
    ensures |a| <= |b|
  {
    if a != {} {
      var x :| x in a;
      var g := map y | y in a - {x} :: f[y];
      InjectiveSize(a - {x}, b - {f[x]}, g);
    }
  }

  /** Sizes above a third of `k` that some split keeps within `k`: whatever was
      dealt before the last of them, some shard still has room for it. */
  lemma SomeShardHasRoom(p: seq<nat>, t: seq<nat>, u: seq<nat>, m: nat, k: nat)
    requires |p| > 0 && |u| == |p| && |t| == |p| - 1 && Dealt(t, m) && Dealt(u, m)
    requires forall i :: 0 <= i < |p| ==> p[i] >= p[|p| - 1]
    requires 3 * p[|p| - 1] > k
    requires forall s :: 0 <= s < m ==> Load(p, u, s) <= k
    ensures exists s :: 0 <= s < m && Load(p[..|t|], t, s) + p[|p| - 1] <= k
  {
    hide Load, Count;
    var n := |t|;
    var front, last := p[..n], p[n];
    if forall s :: 0 <= s < m ==> Load(front, t, s) + last > k {
      LoadHolds(p, u, n);
      assert last <= k;
      forall s | 0 <= s < m ensures Count(t, s) >= 1 && Count(u, s) <= 2 {
        if Count(t, s) == 0 {
          EmptyLoad(front, t, s);
        }
        TwoHeld(p, u, s, last);
        if Count(u, s) >= 3 {
          MulLe(3, Count(u, s), last);
        }
      }
      CountsAddUp(t, m);
      CountsAddUp(u, m);
      CountsAgainstTwo(t, m);
      CountsAgainstTwo(u, m);
      SinglesMap(p, t, u, m, k);
    }
  }

  lemma MulLe(a: nat, b: nat, c: nat)
    requires a <= b
    ensures a * c <= b * c
  {
  }

  /** A size alone on its shard in `t` is alone on its shard in `u`. */
  lemma SinglesMap(p: seq<nat>, t: seq<nat>, u: seq<nat>, m: nat, k: nat)
    requires |p| > 0 && |u| == |p| && |t| == |p| - 1 && Dealt(t, m) && Dealt(u, m)
    requires forall i :: 0 <= i < |p| ==> p[i] >= p[|p| - 1]
    requires forall s :: 0 <= s < m ==> Load(p, u, s) <= k
    requires forall s :: 0 <= s < m ==> Load(p[..|t|], t, s) + p[|p| - 1] > k
    ensures |Singles(t, m)| <= |Singles(u, m)|
  {
    hide Count, Load, Dealt, Singles;
    var f: map<nat, nat> := map[];
    var todo := Singles(t, m);
    while todo != {}
      invariant todo <= Singles(t, m) && f.Keys == Singles(t, m) - todo
      invariant forall s :: s in f ==> Places(t, u, s, f[s]) && f[s] in Singles(u, m)
      decreases todo
    {
      var s :| s in todo;
      var i := Find(t, s);
      AloneInBoth(p, t, u, m, k, i);
      f := f[s := u[i]];
      assert Places(t, u, s, u[i]);
      todo := todo - {s};
    }
    forall x, y | x in f && y in f && f[x] == f[y] ensures x == y {
      var i: nat :| i < |t| && t[i] == x && u[i] == f[x];
      var j: nat :| j < |t| && t[j] == y && u[j] == f[y];
      if i != j {
        CountHolds(u, i, j);
      }
    }
    InjectiveSize(Singles(t, m), Singles(u, m), f);
  }

  /** Some size dealt to shard `s` by `t` is dealt to shard `r` by `u`. */
  ghost predicate Places(t: seq<nat>, u: seq<nat>, s: nat, r: nat)
    requires |t| <= |u|
  {
    exists i: nat :: i < |t| && t[i] == s && u[i] == r
  }

  lemma AloneInBoth(p: seq<nat>, t: seq<nat>, u: seq<nat>, m: nat, k: nat, i: nat)
    requires |p| > 0 && |u| == |p| && |t| == |p| - 1 && Dealt(t, m) && Dealt(u, m)
    requires forall j :: 0 <= j < |p| ==> p[j] >= p[|p| - 1]
    requires forall s :: 0 <= s < m ==> Load(p, u, s) <= k
    requires forall s :: 0 <= s < m ==> Load(p[..|t|], t, s) + p[|p| - 1] > k
    requires i < |t| && Count(t, t[i]) == 1
    ensures u[i] in Singles(u, m)
  {
    SoleLoad(p[..|t|], t, i);
    assert p[i] + p[|p| - 1] > k;
    CountOne(u, i);
    if Count(u, u[i]) != 1 {
      var j := Another(u, i);
      PairHeld(p, u, if i < j then i else j, if i < j then j else i);
    }
  }

  lemma {:induction false} Another(t: seq<nat>, i: nat) returns (j: nat)
    requires i < |t| && Count(t, t[i]) >= 2
    ensures j < |t| && j != i && t[j] == t[i]
  {
    var n := |t| - 1;
    if i == n {
      j := Find(t[..n], t[n]);
    } else if t[n] == t[i] {
      j := n;
    } else {
      j := Another(t[..n], i);
    }
  }

  // ---------------------------------------------------------------------
  // The bounds
  // ---------------------------------------------------------------------

  predicate LargestFirst(p: seq<nat>) {
    forall i, j :: 0 <= i < j < |p| ==> p[i] >= p[j]
  }

  /** Split `u` keeps every shard within `k`. */
  predicate Within(p: seq<nat>, u: seq<nat>, m: nat, k: nat) {
    |u| == |p| && Dealt(u, m) && forall s :: 0 <= s < m ==> Load(p, u, s) <= k
  }

  lemma {:induction false} LastDealt(p: seq<nat>, t: seq<nat>, s: nat) returns (i: nat)
    requires |p| == |t| && Load(p, t, s) > 0
    ensures i < |p| && t[i] == s && forall j :: i < j < |t| ==> t[j] != s
    ensures Load(p, t, s) == Load(p[..i], t[..i], s) + p[i]
  {
    var n := |p| - 1;
    if t[n] == s {
      i := n;
    } else {
      i := LastDealt(p[..n], t[..n], s);
      assert p[..n][..i] == p[..i] && t[..n][..i] == t[..i];
    }
  }

  /** When the last size of a shard was dealt, that shard held least. */
  lemma HeldLeast(p: seq<nat>, m: nat, i: nat)
    requires m > 0 && i < |p|
    ensures var (front, t) := (p[..i], Deal(p, m)[..i]);
            && t == Deal(front, m)
            && forall s :: 0 <= s < m ==> Load(front, t, Deal(p, m)[i]) <= Load(front, t, s)
  {
    DealPrefix(p, m, i);
    DealPrefix(p, m, i + 1);
    DealLast(p[..i + 1], m);
    assert p[..i + 1][..i] == p[..i];
    assert Deal(p, m)[..i + 1][i] == Deal(p, m)[i];
  }

  lemma WithinPrefix(p: seq<nat>, u: seq<nat>, m: nat, k: nat, n: nat)
    requires Within(p, u, m, k) && n <= |p|
    ensures Within(p[..n], u[..n], m, k)
  {
    forall s | 0 <= s < m ensures Load(p[..n], u[..n], s) <= k {
      LoadPrefix(p, u, s, n);
    }
  }

  /** Averaging: m * (load before the last size) is at most what was dealt before. */
  lemma AverageBound(p: seq<nat>, u: seq<nat>, m: nat, k: nat, i: nat)
    requires m > 0 && Within(p, u, m, k) && i < |p|
    ensures Times(m, Load(p[..i], Deal(p, m)[..i], Deal(p, m)[i])) + p[i] <= Times(m, k)
  {
    HeldLeast(p, m, i);
    var front, t := p[..i], Deal(p, m)[..i];
    SumAtLeast(front, t, m, Load(front, t, Deal(p, m)[i]));
    LoadsAddUp(front, t, m);
    assert Total(p[..i + 1]) == Total(front) + p[i] by {
      assert p[..i + 1][..i] == front;
    }
    TotalPrefix(p, i + 1);
    LoadsAddUp(p, u, m);
    SumAtMost(p, u, m, k);
  }

  /** A last size above a third of the best split fits into the best split. */
  lemma LargeLastFits(p: seq<nat>, u: seq<nat>, m: nat, k: nat, i: nat)
    requires m > 0 && LargestFirst(p) && Within(p, u, m, k) && i < |p| && 3 * p[i] > k
    ensures Load(p[..i], Deal(p, m)[..i], Deal(p, m)[i]) + p[i] <= k
  {
    hide Deal, Load;
    HeldLeast(p, m, i);
    var q, t, v := p[..i + 1], Deal(p, m)[..i], u[..i + 1];
    WithinPrefix(p, u, m, k, i + 1);
    assert q[..|t|] == p[..i];
    SomeShardHasRoom(q, t, v, m, k);
  }

  /** Dealing largest first is within (4m - 1) / 3m of every split into whole
      sizes, and so within four thirds of the best one. */
  lemma FourThirds(p: seq<nat>, u: seq<nat>, m: nat, k: nat, s: nat)
    requires m > 0 && LargestFirst(p) && Within(p, u, m, k) && s < m
    ensures 3 * m * Load(p, Deal(p, m), s) <= (4 * m - 1) * k
    ensures 3 * Load(p, Deal(p, m), s) <= 4 * k
  {
    hide LargestFirst, Within, Load, Deal, Times;
    var t := Deal(p, m);
    var load := Load(p, t, s);
    if load > 0 {
      var i := LastDealt(p, t, s);
      AverageBound(p, u, m, k, i);
      if 3 * p[i] > k {
        LargeLastFits(p, u, m, k, i);
      }
      BoundOnce(m, k, Load(p[..i], t[..i], s), p[i]);
      BoundTwice(m, k, load);
    } else {
      BoundOfNothing(m, k);
    }
  }

  // ---------------------------------------------------------------------
  // The arithmetic, with the products named
  // ---------------------------------------------------------------------

  function Times(a: nat, b: nat): nat { a * b }

  lemma Distributes(m: nat, x: nat, y: nat)
    ensures Times(m, x + y) == Times(m, x) + Times(m, y)
  {
  }

  lemma OneLess(m: nat, x: nat)
    requires m > 0
    ensures Times(m, x) == Times(m - 1, x) + x
  {
  }

  lemma Monotone(c: nat, a: nat, b: nat)
    requires a <= b
    ensures Times(c, a) <= Times(c, b)
  {
    MulLe(a, b, c);
  }

  lemma BoundOnce(m: nat, k: nat, before: nat, last: nat)
    requires m > 0 && Times(m, before) + last <= Times(m, k) && (3 * last > k ==> before + last <= k)
    ensures 3 * Times(m, before + last) <= 4 * Times(m, k) - k
  {
    hide Times;
    OneLess(m, k);
    if 3 * last > k {
      Monotone(m, before + last, k);
    } else {
      Distributes(m, before, last);
      OneLess(m, last);
      Monotone(m - 1, 3 * last, k);
      Distributes(m - 1, last, 2 * last);
      Distributes(m - 1, last, last);
    }
  }

  lemma BoundTwice(m: nat, k: nat, load: nat)
    requires m > 0 && 3 * Times(m, load) <= 4 * Times(m, k) - k
    ensures 3 * m * load <= (4 * m - 1) * k
    ensures 3 * load <= 4 * k
  {
    assert 3 * Times(m, load) == 3 * m * load;
    assert 4 * Times(m, k) - k == (4 * m - 1) * k;
    Cancelled(m, k, load);
  }

  lemma Cancelled(m: nat, k: nat, load: nat)
    requires m > 0 && 3 * Times(m, load) <= 4 * Times(m, k) - k
    ensures 3 * load <= 4 * k
  {
    hide Times;
    Distributes(m, load, load);
    Distributes(m, 2 * load, load);
    Distributes(m, k, k);
    Distributes(m, 2 * k, 2 * k);
    if 3 * load > 4 * k {
      Monotone(m, 4 * k + 1, 3 * load);
      Distributes(m, 4 * k, 1);
      OneLess(m, 1);
    }
  }

  lemma BoundOfNothing(m: nat, k: nat)
    requires m > 0
    ensures 3 * m * 0 <= (4 * m - 1) * k
  {
    MulLe(0, 4 * m - 1, k);
  }
}
