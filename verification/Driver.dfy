/**
 The mutation driver, `check` in tools/check_mutants.py: mutate a file, run a
 gate, restore the file, for each mutant in turn. Builds and gates are functions
 of the source tree; an exception that escapes is an outcome like any other.
 */
module Driver {

  import opened Mutants
  import Shards

  type Tree = map<string, string>

  /** What a gate says of a tree. It may also raise, as an unknown kind does. */
  datatype Verdict = Rejects | Accepts | NoVerdict | Raises

  /** The world outside the driver. */
  datatype Tools = Tools(builds: Tree -> bool, sanitizerBuilds: (string, Tree) -> bool, gate: (string, Tree) -> Verdict)

  datatype Outcome = Exit(code: nat) | Raised

  // ---------------------------------------------------------------------
  // One mutant
  // ---------------------------------------------------------------------

  /** `str.count`: occurrences that do not overlap. */
  function Occurrences(text: string, pattern: string): nat {
    if pattern == "" then |text| + 1
    else if |text| < |pattern| then 0
    else if text[..|pattern|] == pattern then 1 + Occurrences(text[|pattern|..], pattern)
    else Occurrences(text[1..], pattern)
  }

  /** `str.replace` where the pattern occurs once. */
  function Replaced(text: string, pattern: string, by_: string): string {
    if |text| < |pattern| then text
    else if text[..|pattern|] == pattern then by_ + text[|pattern|..]
    else if text == "" then text
    else [text[0]] + Replaced(text[1..], pattern, by_)
  }

  /** With its anchor occurring once, a mutant changes that occurrence and
      nothing around it. */
  lemma {:induction false} ReplacedShape(text: string, pattern: string, by_: string) returns (a: string, b: string)
    requires Occurrences(text, pattern) == 1
    ensures text == a + pattern + b && Replaced(text, pattern, by_) == a + by_ + b
  {
    if text[..|pattern|] == pattern {
      a, b := "", text[|pattern|..];
    } else {
      a, b := ReplacedShape(text[1..], pattern, by_);
      a := [text[0]] + a;
      assert text == [text[0]] + text[1..];
    }
  }

  predicate OccursAt(text: string, pattern: string, i: nat) {
    i + |pattern| <= |text| && text[i..i + |pattern|] == pattern
  }

  /** The pattern is found first at `i`, and not again past that occurrence. */
  ghost predicate Anchored(text: string, pattern: string, i: nat) {
    && OccursAt(text, pattern, i)
    && (forall j: nat :: j < i ==> !OccursAt(text, pattern, j))
    && forall j: nat :: i < j && i + |pattern| <= j ==> !OccursAt(text, pattern, j)
  }

  lemma ShiftedAt(text: string, pattern: string, k: nat, j: nat)
    requires k <= |text|
    ensures OccursAt(text, pattern, j + k) <==> OccursAt(text[k..], pattern, j)
  {
    if j + k + |pattern| <= |text| {
      assert text[k..][j..j + |pattern|] == text[j + k..j + k + |pattern|];
    }
  }

  lemma {:induction false} NoneIff(text: string, pattern: string)
    requires pattern != ""
    ensures Occurrences(text, pattern) == 0 <==> forall j: nat :: !OccursAt(text, pattern, j)
  {
    if |text| >= |pattern| {
      if text[..|pattern|] == pattern {
        assert OccursAt(text, pattern, 0);
      } else {
        NoneIff(text[1..], pattern);
        hide Occurrences, OccursAt;
        NotAtStart(text, pattern);
        NoneShifted(text, pattern, 1);
      }
    }
  }

  lemma NotAtStart(text: string, pattern: string)
    requires |pattern| <= |text| && text[..|pattern|] != pattern
    ensures !OccursAt(text, pattern, 0)
  {
  }

  lemma NoneShifted(text: string, pattern: string, k: nat)
    requires k <= |text|
    ensures (forall j: nat :: !OccursAt(text[k..], pattern, j)) <==>
            forall j: nat :: j >= k ==> !OccursAt(text, pattern, j)
  {
    hide OccursAt;
    forall j: nat ensures OccursAt(text, pattern, j + k) <==> OccursAt(text[k..], pattern, j) {
      ShiftedAt(text, pattern, k, j);
    }
    if forall j: nat :: !OccursAt(text[k..], pattern, j) {
      forall j: nat | j >= k ensures !OccursAt(text, pattern, j) {
        assert !OccursAt(text[k..], pattern, j - k);
        assert j - k + k == j;
      }
    }
  }

  /** Counted once exactly when it is anchored somewhere. */
  lemma {:induction false} OnceIff(text: string, pattern: string)
    ensures Occurrences(text, pattern) == 1 <==> exists i: nat :: Anchored(text, pattern, i)
  {
    if pattern == "" {
      if text == "" {
        assert Anchored(text, pattern, 0);
      } else {
        assert OccursAt(text, pattern, 0) && OccursAt(text, pattern, 1);
      }
    } else if |text| >= |pattern| {
      if text[..|pattern|] == pattern {
        OnceAtStart(text, pattern);
      } else {
        OnceIff(text[1..], pattern);
        AnchoredLater(text, pattern);
      }
    }
  }

  lemma OnceAtStart(text: string, pattern: string)
    requires pattern != "" && pattern <= text
    ensures Occurrences(text[|pattern|..], pattern) == 0 <==> exists i: nat :: Anchored(text, pattern, i)
  {
    assert OccursAt(text, pattern, 0);
    NoneIff(text[|pattern|..], pattern);
    hide Occurrences, OccursAt;
    NoneShifted(text, pattern, |pattern|);
    assert Anchored(text, pattern, 0) <==> Occurrences(text[|pattern|..], pattern) == 0;
  }

  lemma AnchoredLater(text: string, pattern: string)
    requires pattern != "" && |pattern| <= |text| && text[..|pattern|] != pattern
    ensures (exists i: nat :: Anchored(text[1..], pattern, i)) <==> exists i: nat :: Anchored(text, pattern, i)
  {
    hide OccursAt;
    NotAtStart(text, pattern);
    forall j: nat ensures OccursAt(text, pattern, j + 1) <==> OccursAt(text[1..], pattern, j) {
      ShiftedAt(text, pattern, 1, j);
    }
    if i: nat :| Anchored(text[1..], pattern, i) {
      forall j: nat | j != i + 1 && (j < i + 1 || i + 1 + |pattern| <= j) ensures !OccursAt(text, pattern, j) {
        if j > 0 {
          assert !OccursAt(text[1..], pattern, j - 1);
          assert j - 1 + 1 == j;
        }
      }
      assert Anchored(text, pattern, i + 1);
    }
    if i: nat :| Anchored(text, pattern, i) {
      assert i > 0 && i - 1 + 1 == i;
      forall j: nat | j < i - 1 || (i - 1 < j && i - 1 + |pattern| <= j) ensures !OccursAt(text[1..], pattern, j) {
        assert !OccursAt(text, pattern, j + 1);
      }
      assert Anchored(text[1..], pattern, i - 1);
    }
  }

  /** The replacement at the first occurrence. */
  lemma {:induction false} ReplacedAt(text: string, pattern: string, by_: string, i: nat)
    requires OccursAt(text, pattern, i) && forall j: nat :: j < i ==> !OccursAt(text, pattern, j)
    ensures Replaced(text, pattern, by_) == text[..i] + by_ + text[i + |pattern|..]
  {
    if i == 0 {
      assert text[..0] + by_ == by_;
    } else {
      assert !OccursAt(text, pattern, 0);
      ReplacedSkips(text, pattern, by_, i);
      EarlierShifted(text, pattern, i);
      ReplacedAt(text[1..], pattern, by_, i - 1);
      RejoinedAt(text, by_, i, |pattern|);
    }
  }

  lemma ReplacedSkips(text: string, pattern: string, by_: string, i: nat)
    requires i > 0 && OccursAt(text, pattern, i) && !OccursAt(text, pattern, 0)
    ensures Replaced(text, pattern, by_) == [text[0]] + Replaced(text[1..], pattern, by_)
  {
  }

  lemma EarlierShifted(text: string, pattern: string, i: nat)
    requires 0 < i <= |text| && OccursAt(text, pattern, i) && forall j: nat :: j < i ==> !OccursAt(text, pattern, j)
    ensures OccursAt(text[1..], pattern, i - 1) && forall j: nat :: j < i - 1 ==> !OccursAt(text[1..], pattern, j)
  {
    hide OccursAt;
    ShiftedAt(text, pattern, 1, i - 1);
    forall j: nat | j < i - 1 ensures !OccursAt(text[1..], pattern, j) {
      ShiftedAt(text, pattern, 1, j);
      assert !OccursAt(text, pattern, j + 1);
    }
  }

  lemma RejoinedAt(text: string, by_: string, i: nat, n: nat)
    requires 0 < i && i + n <= |text|
    ensures [text[0]] + (text[1..][..i - 1] + by_ + text[1..][i - 1 + n..]) == text[..i] + by_ + text[i + n..]
  {
    assert text[..i] == [text[0]] + text[1..][..i - 1];
    assert text[1..][i - 1 + n..] == text[i + n..];
  }

  predicate IsCtest(spec: string) {
    |spec| >= 6 && spec[..6] == "ctest:"
  }

  predicate IsSanitizer(spec: string) {
    |spec| >= 5 && spec[..5] == "tsan:"
  }

  function Target(spec: string): string
    requires IsSanitizer(spec)
  {
    spec[5..]
  }

  function Mutated(tree: Tree, m: Mutant): Tree
    requires m.file in tree
  {
    tree[m.file := Replaced(tree[m.file], m.before, m.after)]
  }

  /** `run_gate`; a ctest gate builds the tree first unless told not to. */
  function RunGate(tools: Tools, spec: string, tree: Tree, build: bool): Verdict {
    if IsCtest(spec) && build && !tools.builds(tree) then NoVerdict else tools.gate(spec, tree)
  }

  datatype Judgement = Dead | Alive | Broken | Escapes

  /** The verdict on one mutant, always taken on the tree as it was given. */
  function Judge(tools: Tools, tree: Tree, m: Mutant): Judgement {
    if m.file !in tree then Escapes
    else if Occurrences(tree[m.file], m.before) != 1 then Broken
    else match RunGate(tools, m.kills, Mutated(tree, m), true)
         case Rejects => Dead
         case Accepts => Alive
         case NoVerdict => Broken
         case Raises => Escapes
  }

  /** The tree with the anchor at `i` replaced. */
  function MutatedAt(tree: Tree, m: Mutant, i: nat): Tree
    requires m.file in tree && i + |m.before| <= |tree[m.file]|
  {
    tree[m.file := tree[m.file][..i] + m.after + tree[m.file][i + |m.before|..]]
  }

  /** The anchor is in the file once, the tree with it replaced builds if a test needs
      that, and the gate says `v` of it. */
  ghost predicate Finds(tools: Tools, tree: Tree, m: Mutant, v: Verdict) {
    exists i: nat :: FindsAt(tools, tree, m, v, i)
  }

  ghost predicate FindsAt(tools: Tools, tree: Tree, m: Mutant, v: Verdict, i: nat) {
    && m.file in tree && Anchored(tree[m.file], m.before, i)
    && ("ctest:" <= m.kills ==> tools.builds(MutatedAt(tree, m, i)))
    && tools.gate(m.kills, MutatedAt(tree, m, i)) == v
  }

  /** What the judgements mean: dead is rejected, alive is accepted. */
  lemma JudgeMeans(tools: Tools, tree: Tree, m: Mutant)
    ensures Judge(tools, tree, m) == Dead <==> Finds(tools, tree, m, Rejects)
    ensures Judge(tools, tree, m) == Alive <==> Finds(tools, tree, m, Accepts)
    ensures Judge(tools, tree, m) == Escapes <==> m.file !in tree || Finds(tools, tree, m, Raises)
  {
    hide Finds, Occurrences, Replaced;
    if m.file in tree {
      FindsIff(tools, tree, m, Rejects);
      FindsIff(tools, tree, m, Accepts);
      FindsIff(tools, tree, m, Raises);
    } else {
      NothingFound(tools, tree, m);
    }
  }

  lemma NothingFound(tools: Tools, tree: Tree, m: Mutant)
    requires m.file !in tree
    ensures forall v :: !Finds(tools, tree, m, v)
  {
  }

  lemma FindsIff(tools: Tools, tree: Tree, m: Mutant, v: Verdict)
    requires m.file in tree
    ensures Finds(tools, tree, m, v) <==>
            && Occurrences(tree[m.file], m.before) == 1
            && (IsCtest(m.kills) ==> tools.builds(Mutated(tree, m)))
            && tools.gate(m.kills, Mutated(tree, m)) == v
  {
    hide Anchored, Occurrences, Replaced;
    OnceIff(tree[m.file], m.before);
    forall i: nat | Anchored(tree[m.file], m.before, i)
      ensures i + |m.before| <= |tree[m.file]| && Mutated(tree, m) == MutatedAt(tree, m, i)
    {
      AnchorReplaced(tree[m.file], m.before, m.after, i);
    }
    if Occurrences(tree[m.file], m.before) == 1 {
      var i: nat :| Anchored(tree[m.file], m.before, i);
      assert Mutated(tree, m) == MutatedAt(tree, m, i);
      assert FindsAt(tools, tree, m, tools.gate(m.kills, Mutated(tree, m)), i) <==>
             (IsCtest(m.kills) ==> tools.builds(Mutated(tree, m)));
    }
  }

  lemma AnchorReplaced(text: string, pattern: string, by_: string, i: nat)
    requires Anchored(text, pattern, i)
    ensures i + |pattern| <= |text| && Replaced(text, pattern, by_) == text[..i] + by_ + text[i + |pattern|..]
  {
    ReplacedAt(text, pattern, by_, i);
  }

  // ---------------------------------------------------------------------
  // A whole run
  // ---------------------------------------------------------------------

  /** Everything one mutant needs for its run to be a success. */
  predicate Passes(tools: Tools, tree: Tree, m: Mutant) {
    && (IsCtest(m.kills) ==> tools.builds(tree))
    && (IsSanitizer(m.kills) ==> tools.sanitizerBuilds(Target(m.kills), tree))
    && tools.gate(m.kills, tree) == Accepts
    && Judge(tools, tree, m) == Dead
  }

  /** The run succeeds exactly when there is something to run and all of it passes. */
  predicate Succeeds(tools: Tools, tree: Tree, ms: seq<Mutant>) {
    ms != [] && forall m :: m in ms ==> Passes(tools, tree, m)
  }

  /** Said of the tools alone: every gate accepts the tree as it is and rejects it with
      its mutant's anchor replaced, and all that is needed builds. */
  ghost predicate Killed(tools: Tools, tree: Tree, m: Mutant) {
    && ("ctest:" <= m.kills ==> tools.builds(tree))
    && ("tsan:" <= m.kills ==> tools.sanitizerBuilds(m.kills[5..], tree))
    && tools.gate(m.kills, tree) == Accepts
    && Finds(tools, tree, m, Rejects)
  }

  lemma SucceedsMeans(tools: Tools, tree: Tree, ms: seq<Mutant>)
    ensures Succeeds(tools, tree, ms) <==> ms != [] && forall m :: m in ms ==> Killed(tools, tree, m)
  {
    hide Judge, Finds;
    forall m ensures Passes(tools, tree, m) <==> Killed(tools, tree, m) {
      JudgeMeans(tools, tree, m);
    }
  }

  /** The mutant's file is missing, or its gate raises on the mutated tree. */
  ghost predicate Escaping(tools: Tools, tree: Tree, m: Mutant) {
    m.file !in tree || Finds(tools, tree, m, Raises)
  }

  lemma Meanings(tools: Tools, tree: Tree, ms: seq<Mutant>)
    ensures Succeeds(tools, tree, ms) <==> ms != [] && forall m :: m in ms ==> Killed(tools, tree, m)
    ensures forall m :: m in ms ==> (Judge(tools, tree, m) == Escapes <==> Escaping(tools, tree, m))
    ensures forall m :: m in ms ==> (Judge(tools, tree, m) == Alive <==> Finds(tools, tree, m, Accepts))
    ensures forall m :: m in ms ==> (IsCtest(m.kills) <==> "ctest:" <= m.kills)
  {
    hide Judge, Finds;
    SucceedsMeans(tools, tree, ms);
    forall m ensures Judge(tools, tree, m) == Escapes <==> Escaping(tools, tree, m)
      ensures Judge(tools, tree, m) == Alive <==> Finds(tools, tree, m, Accepts)
    {
      JudgeMeans(tools, tree, m);
    }
  }

  class Driver {
    const tools: Tools
    var tree: Tree

    constructor (tools: Tools, tree: Tree)
      ensures this.tools == tools && this.tree == tree
    {
      this.tools, this.tree := tools, tree;
    }

    /** Every gate must accept the unmutated tree; one that raises ends the call, once
        the tree is built. */
    method BaselinesPass(ms: seq<Mutant>) returns (ok: bool, raised: bool)
      ensures raised <==>
              && (forall m :: m in ms && IsCtest(m.kills) ==> tools.builds(tree))
              && exists m :: m in ms && tools.gate(m.kills, tree) == Raises
      ensures !raised ==> (ok <==> forall m :: m in ms ==>
                (IsCtest(m.kills) ==> tools.builds(tree)) && tools.gate(m.kills, tree) == Accepts)
    {
      if (exists m :: m in ms && IsCtest(m.kills)) && !tools.builds(tree) {
        return false, false;
      }
      ok := true;
      for i := 0 to |ms|
        invariant ok <==> forall m :: m in ms[..i] ==> tools.gate(m.kills, tree) == Accepts
        invariant forall m :: m in ms[..i] ==> tools.gate(m.kills, tree) != Raises
      {
        var verdict := RunGate(tools, ms[i].kills, tree, false);
        assert ms[..i + 1] == ms[..i] + [ms[i]];
        if verdict == Raises {
          assert ms[i] in ms;
          return false, true;
        }
        if verdict != Accepts {
          ok := false;
        }
      }
      assert ms[..|ms|] == ms;
      raised := false;
    }

    /** Mutates, judges, and restores on every way out. */
    method TryMutant(m: Mutant) returns (j: Judgement)
      modifies this`tree
      ensures tree == old(tree) && j == Judge(tools, tree, m)
      ensures j == Dead <==> Finds(tools, tree, m, Rejects)
      ensures j == Alive <==> Finds(tools, tree, m, Accepts)
      ensures j == Escapes <==> m.file !in tree || Finds(tools, tree, m, Raises)
    {
      JudgeMeans(tools, tree, m);
      if m.file !in tree {
        return Escapes;
      }
      var original := tree[m.file];
      if Occurrences(original, m.before) != 1 {
        return Broken;
      }
      tree := tree[m.file := Replaced(original, m.before, m.after)];
      var verdict := RunGate(tools, m.kills, tree, true);
      tree := tree[m.file := original];
      assert tree == old(tree);
      match verdict
      case Rejects => return Dead;
      case Accepts => return Alive;
      case NoVerdict => return Broken;
      case Raises => return Escapes;
    }

    /** `check`: the tree is left as it was on every exit path. */
    method Check(ms: seq<Mutant>) returns (o: Outcome)
      modifies this`tree
      ensures tree == old(tree)
      ensures o == Exit(0) <==> Succeeds(tools, tree, ms)
      ensures o == Exit(0) <==> ms != [] && forall m :: m in ms ==> Killed(tools, tree, m)
      ensures o == Raised <==>
              && (forall m :: m in ms && "ctest:" <= m.kills ==> tools.builds(tree))
              && (|| (exists m :: m in ms && tools.gate(m.kills, tree) == Raises)
                  || ((forall m :: m in ms ==> tools.gate(m.kills, tree) == Accepts) &&
                      exists m :: m in ms && Escaping(tools, tree, m)))
      ensures o != Exit(0) && o != Raised ==> o == Exit(1)
      ensures (exists m :: m in ms && Finds(tools, tree, m, Accepts)) ==> o != Exit(0)
    {
      hide Judge, Finds, Killed, Escaping, RunGate;
      Meanings(tools, tree, ms);
      var ok, raised := BaselinesPass(ms);
      if raised {
        return Raised;
      }
      if !ok {
        return Exit(1);
      }
      var clean := true;
      for i := 0 to |ms|
        invariant tree == old(tree)
        invariant clean <==> forall m :: m in ms[..i] ==> Judge(tools, tree, m) == Dead
        invariant forall m :: m in ms[..i] ==> Judge(tools, tree, m) != Escapes
      {
        var j := TryMutant(ms[i]);
        assert ms[..i + 1] == ms[..i] + [ms[i]];
        assert ms[i] in ms;
        if j == Escapes {
          return Raised;
        }
        if j != Dead {
          clean := false;
        }
      }
      assert ms[..|ms|] == ms;
      var rebuilt := Rebuild(ms);
      return if ms != [] && clean && rebuilt then Exit(0) else Exit(1);
    }

    /** The build trees are rebuilt from the restored source. */
    method Rebuild(ms: seq<Mutant>) returns (ok: bool)
      ensures ok <==> forall m :: m in ms ==>
                (IsCtest(m.kills) ==> tools.builds(tree)) &&
                (IsSanitizer(m.kills) ==> tools.sanitizerBuilds(Target(m.kills), tree))
    {
      ok := !(exists m :: m in ms && IsCtest(m.kills)) || tools.builds(tree);
      for i := 0 to |ms|
        invariant ok <==> (forall m :: m in ms && IsCtest(m.kills) ==> tools.builds(tree)) &&
                          forall m :: m in ms[..i] && IsSanitizer(m.kills) ==>
                                        tools.sanitizerBuilds(Target(m.kills), tree)
      {
        assert ms[..i + 1] == ms[..i] + [ms[i]];
        if IsSanitizer(ms[i].kills) && !tools.sanitizerBuilds(Target(ms[i].kills), tree) {
          ok := false;
        }
      }
      assert ms[..|ms|] == ms;
    }
  }

  // ---------------------------------------------------------------------
  // Sharded runs against the unsharded one
  // ---------------------------------------------------------------------

  /** The shard runs all succeed if and only if the unsharded run does and there
      are no more shards than files: an empty shard is a failure of its own. */
  lemma ShardedAgrees(tools: Tools, tree: Tree, all: seq<Mutant>, total: nat,
                      parts: seq<seq<Mutant>>, order: seq<string>)
    requires DistinctNames(all) && total > 0 && |parts| == total
    requires forall i :: 0 <= i < total ==> Shards.IsShard(Elements(all), total, i, parts[i])
    requires Shards.FileOrder(Elements(all), order)
    ensures (forall i :: 0 <= i < total ==> Succeeds(tools, tree, parts[i])) <==>
            Succeeds(tools, tree, all) && total <= |order|
  {
    hide Shards.IsShard, Shards.FileOrder, Passes;
    var ms := Elements(all);
    if forall i :: 0 <= i < total ==> Succeeds(tools, tree, parts[i]) {
      forall m | m in all ensures Passes(tools, tree, m) {
        assert m in ms;
        Shards.ExactlyOnce(ms, total, parts, m);
        var i :| 0 <= i < total && forall n :: n in ms && n.file == m.file ==> n in parts[i];
        assert Succeeds(tools, tree, parts[i]);
      }
      assert Succeeds(tools, tree, parts[0]);
      Shards.ExactlyOnce(ms, total, parts, parts[0][0]);
      NoShardEmpty(ms, total, parts, order);
    }
    if Succeeds(tools, tree, all) && total <= |order| {
      forall i | 0 <= i < total ensures Succeeds(tools, tree, parts[i]) {
        Shards.NoEmptyShard(ms, total, i, parts[i], order);
        forall m | m in parts[i] ensures Passes(tools, tree, m) {
          Shards.ExactlyOnce(ms, total, parts, m);
        }
      }
    }
  }

  lemma NoShardEmpty(ms: set<Mutant>, total: nat, parts: seq<seq<Mutant>>, order: seq<string>)
    requires total > 0 && |parts| == total && Shards.FileOrder(ms, order)
    requires forall i :: 0 <= i < total ==> Shards.IsShard(ms, total, i, parts[i]) && parts[i] != []
    ensures total <= |order|
  {
    Shards.ShardsNeedFiles(ms, total, parts, order);
  }
}
