/**
 How a commit on main counts as verified (tools/check_provenance.py): which
 earlier run may stand in for a new one, main-gate's verdict over the jobs, and
 what a passing commit can rely on over the whole history.
 */
module Provenance {
  import opened Common
  import Lexical

  /** A source tree; a tree id stands for its contents. */
  type Tree = map<string, string>

  // ---------------------------------------------------------------------
  // The decision
  // ---------------------------------------------------------------------

  /** The tested-tree record a run left. A field may be missing. */
  datatype Record = Record(tree: Option<Tree>, code: Option<string>)

  datatype Run = Run(url: string, record: Option<Record>)

  datatype Reason = NoRecord(url: string) | OtherTree(url: string) | BadCode(url: string) | ChangesCode(url: string)
                  | ParentNotPassed(url: string) | NoRun

  datatype Decision = Reused(source: string) | NotReused(seen: seq<Reason>)

  predicate BuiltThis(tree: Tree, run: Run) {
    run.record.Some? && run.record.value.tree == Some(tree) && run.record.value.code == Some("true")
  }

  predicate SkippedThis(tree: Tree, run: Run) {
    run.record.Some? && run.record.value.tree == Some(tree) && run.record.value.code == Some("false")
  }

  /** A run that may stand in for a run of this commit. */
  predicate Qualifies(tree: Tree, run: Run, docsOnly: bool, parentPassed: bool) {
    BuiltThis(tree, run) || (SkippedThis(tree, run) && docsOnly && parentPassed)
  }

  /** The reason is true of the run, and enough to turn it down. */
  predicate Explains(reason: Reason, tree: Tree, run: Run, docsOnly: bool, parentPassed: bool) {
    match reason
    case NoRecord(url) => url == run.url && run.record.None?
    case OtherTree(url) => url == run.url && run.record.Some? && run.record.value.tree != Some(tree)
    case BadCode(url) => url == run.url && run.record.Some? && run.record.value.tree == Some(tree) &&
                         run.record.value.code !in {Some("true"), Some("false")}
    case ChangesCode(url) => url == run.url && SkippedThis(tree, run) && !docsOnly
    case ParentNotPassed(url) => url == run.url && SkippedThis(tree, run) && docsOnly && !parentPassed
    case NoRun => false
  }

  method Decide(tree: Tree, runs: seq<Run>, docsOnly: bool, parentPassed: bool) returns (d: Decision)
    ensures d.Reused? <==> Reusable(tree, runs, docsOnly, parentPassed)
    ensures d.Reused? ==> exists i :: 0 <= i < |runs| && runs[i].url == d.source &&
                            Qualifies(tree, runs[i], docsOnly, parentPassed) &&
                            forall k :: 0 <= k < i ==> !Qualifies(tree, runs[k], docsOnly, parentPassed)
    ensures d.NotReused? ==> if runs == [] then d.seen == [NoRun] else
                               |d.seen| == |runs| &&
                               forall i :: 0 <= i < |runs| ==>
                                 Explains(d.seen[i], tree, runs[i], docsOnly, parentPassed)
  {
    var seen: seq<Reason> := [];
    for i := 0 to |runs|
      invariant |seen| == i && forall k :: 0 <= k < i ==> Explains(seen[k], tree, runs[k], docsOnly, parentPassed)
      invariant forall k :: 0 <= k < i ==> !Qualifies(tree, runs[k], docsOnly, parentPassed)
    {
      var url, record := runs[i].url, runs[i].record;
      if record.None? {
        seen := seen + [NoRecord(url)];
        continue;
      }
      if record.value.tree != Some(tree) {
        seen := seen + [OtherTree(url)];
        continue;
      }
      if record.value.code == Some("true") {
        assert Qualifies(tree, runs[i], docsOnly, parentPassed);
        return Reused(url);
      }
      if record.value.code != Some("false") {
        seen := seen + [BadCode(url)];
        continue;
      }
      if !docsOnly {
        seen := seen + [ChangesCode(url)];
        continue;
      }
      if !parentPassed {
        seen := seen + [ParentNotPassed(url)];
        continue;
      }
      assert Qualifies(tree, runs[i], docsOnly, parentPassed);
      return Reused(url);
    }
    if runs == [] {
      seen := seen + [NoRun];
    }
    return NotReused(seen);
  }

  predicate Reusable(tree: Tree, runs: seq<Run>, docsOnly: bool, parentPassed: bool) {
    exists i :: 0 <= i < |runs| && Qualifies(tree, runs[i], docsOnly, parentPassed)
  }

  /** Neither the order of the runs nor further runs can revoke a reuse. */
  lemma ReuseIsMonotone(tree: Tree, runs: seq<Run>, more: seq<Run>, docsOnly: bool, parentPassed: bool)
    requires forall r :: r in runs ==> r in more
    ensures Reusable(tree, runs, docsOnly, parentPassed) ==> Reusable(tree, more, docsOnly, parentPassed)
  {
    if Reusable(tree, runs, docsOnly, parentPassed) {
      var i :| 0 <= i < |runs| && Qualifies(tree, runs[i], docsOnly, parentPassed);
      assert runs[i] in runs;
      var k :| 0 <= k < |more| && more[k] == runs[i];
    }
  }

  /** Asking about the parent only when some run skipped its builds gives the
      same answer as always asking. */
  lemma AskingLateIsEnough(tree: Tree, runs: seq<Run>, docsOnly: bool, parentPassed: bool)
    ensures var asked := AnySkipped(runs);
            Reusable(tree, runs, asked && docsOnly, asked && parentPassed) <==>
            Reusable(tree, runs, docsOnly, parentPassed)
  {
    if Reusable(tree, runs, docsOnly, parentPassed) {
      var i :| 0 <= i < |runs| && Qualifies(tree, runs[i], docsOnly, parentPassed);
      var asked := AnySkipped(runs);
      assert Qualifies(tree, runs[i], asked && docsOnly, asked && parentPassed);
    }
  }

  predicate Skipped(run: Run) {
    run.record.Some? && run.record.value.code == Some("false")
  }

  predicate AnySkipped(runs: seq<Run>) {
    exists i :: 0 <= i < |runs| && Skipped(runs[i])
  }

  // ---------------------------------------------------------------------
  // The merged pull request
  // ---------------------------------------------------------------------

  datatype Head = Head(sha: string, repo: Option<string>)

  datatype Pull = Pull(number: nat, merged: bool, mergeCommit: string, base: string, head: Option<Head>)

  predicate MergedAs(p: Pull, sha: string) {
    p.merged && p.mergeCommit == sha && p.base == "main"
  }

  function Selected(pulls: seq<Pull>, sha: string): seq<Pull> {
    if pulls == [] then [] else
      var n := |pulls| - 1;
      Selected(pulls[..n], sha) + if MergedAs(pulls[n], sha) then [pulls[n]] else []
  }

  function HeadRepo(p: Pull): Option<string> {
    if p.head.Some? then p.head.value.repo else None
  }

  predicate FromHere(p: Pull, repo: string) {
    HeadRepo(p) == Some(repo)
  }

  /** Where the pull requests merged as `sha` are listed. */
  function Merges(pulls: seq<Pull>, sha: string): set<nat> {
    set i: nat | i < |pulls| && pulls[i].merged && pulls[i].mergeCommit == sha && pulls[i].base == "main"
  }

  /** The pull request, or why there is none: not one alone was merged as the commit,
      or it came from another repository or a deleted one. */
  datatype Merged = Found(pull: Pull) | NotOne(count: nat) | Foreign(number: nat, repo: Option<string>)

  /** The one pull request merged as `sha`, if it is not a fork's. */
  function MergedPull(pulls: seq<Pull>, repo: string, sha: string): (r: Merged)
    ensures r.NotOne? <==> |Merges(pulls, sha)| != 1
    ensures r.NotOne? ==> r.count == |Merges(pulls, sha)|
    ensures r.Found? ==> FromHere(r.pull, repo)
    ensures forall i :: Merges(pulls, sha) == {i} ==>
              r == if FromHere(pulls[i], repo) then Found(pulls[i]) else Foreign(pulls[i].number, HeadRepo(pulls[i]))
  {
    var merged := Selected(pulls, sha);
    SelectedCount(pulls, sha);
    SelectedOnly(pulls, sha);
    if |merged| != 1 then NotOne(|merged|)
    else if !FromHere(merged[0], repo) then Foreign(merged[0].number, HeadRepo(merged[0]))
    else Found(merged[0])
  }

  lemma {:induction false} SelectedCount(pulls: seq<Pull>, sha: string)
    ensures |Selected(pulls, sha)| == |Merges(pulls, sha)|
  {
    if pulls == [] {
      assert Merges(pulls, sha) == {};
    } else {
      SelectedCount(pulls[..|pulls| - 1], sha);
      MergesMore(pulls, sha);
    }
  }

  lemma MergesMore(pulls: seq<Pull>, sha: string)
    requires pulls != []
    ensures var n := |pulls| - 1; var before := Merges(pulls[..n], sha);
            n !in before && Merges(pulls, sha) == if MergedAs(pulls[n], sha) then before + {n} else before
  {
    var n := |pulls| - 1;
    var before := Merges(pulls[..n], sha);
    assert forall i :: 0 <= i < n ==> pulls[..n][i] == pulls[i];
    assert Merges(pulls, sha) == if MergedAs(pulls[n], sha) then before + {n} else before;
  }

  lemma SelectedOnly(pulls: seq<Pull>, sha: string)
    ensures forall i :: Merges(pulls, sha) == {i} ==> Selected(pulls, sha) == [pulls[i]]
  {
    forall i | Merges(pulls, sha) == {i} ensures Selected(pulls, sha) == [pulls[i]] {
      assert i in Merges(pulls, sha);
      OneSelected(pulls, sha, i);
    }
  }

  lemma {:induction false} OneSelected(pulls: seq<Pull>, sha: string, i: nat)
    requires i < |pulls| && Merges(pulls, sha) == {i}
    ensures Selected(pulls, sha) == [pulls[i]]
  {
    hide MergedAs;
    var n := |pulls| - 1;
    MergesMore(pulls, sha);
    assert i in Merges(pulls, sha);
    if i == n {
      SelectedCount(pulls[..n], sha);
      assert Merges(pulls[..n], sha) == {};
    } else {
      assert n !in Merges(pulls, sha);
      OneSelected(pulls[..n], sha, i);
    }
  }

  // ---------------------------------------------------------------------
  // main-gate
  // ---------------------------------------------------------------------

  datatype Job = Job(result: string, reused: Option<string>)

  type Jobs = map<string, Job>

  predicate AllExpected(jobs: Jobs) {
    "subject" in jobs && "provenance" in jobs && "invariants" in jobs && "full" in jobs
  }

  predicate SaysReused(jobs: Jobs)
    requires AllExpected(jobs)
  {
    jobs["provenance"].reused == Some("true")
  }

  /** Every job but the two alternatives succeeded, and exactly the right one of
      the two ran and passed. */
  predicate GatePasses(jobs: Jobs) {
    && AllExpected(jobs)
    && (forall name :: name in jobs && name != "invariants" && name != "full" ==> jobs[name].result == "success")
    && if jobs["provenance"].reused == Some("true")
       then jobs["invariants"].result == "success" && jobs["full"].result == "skipped"
       else jobs["full"].result == "success" && jobs["invariants"].result == "skipped"
  }

  datatype Problem = Missing(names: seq<string>) | Failed(name: string)
                   | NotRun(name: string) | NotSkipped(name: string)

  const EXPECTED := ["subject", "provenance", "invariants", "full"]

  /** The names the gate does not see, in their order. */
  function Absent(names: seq<string>, jobs: Jobs): (r: seq<string>)
    ensures forall name :: name in r <==> name in names && name !in jobs
  {
    if names == [] then [] else
      (if names[0] in jobs then [] else [names[0]]) + Absent(names[1..], jobs)
  }

  predicate Ascending(names: seq<string>) {
    forall i, k :: 0 <= i < k < |names| ==> Lexical.Lt(names[i], names[k])
  }

  function Failures(names: seq<string>): seq<Problem> {
    seq(|names|, i requires 0 <= i < |names| => Failed(names[i]))
  }

  predicate Fails(jobs: Jobs, name: string) {
    name in jobs && name != "invariants" && name != "full" && jobs[name].result != "success"
  }

  /** What is wrong with the two alternatives: the one that had to run, then the other. */
  function Alternatives(jobs: Jobs): seq<Problem>
    requires AllExpected(jobs)
  {
    var reused := SaysReused(jobs);
    var ran, skipped := if reused then "invariants" else "full", if reused then "full" else "invariants";
    (if jobs[ran].result != "success" then [NotRun(ran)] else []) +
    if jobs[skipped].result != "skipped" then [NotSkipped(skipped)] else []
  }

  /** The problems, in order: the failed jobs by name, then the alternatives. */
  ghost predicate Reports(jobs: Jobs, problems: seq<Problem>)
    requires AllExpected(jobs)
  {
    exists failed :: InOrder(jobs, failed) && problems == Failures(failed) + Alternatives(jobs)
  }

  ghost predicate InOrder(jobs: Jobs, failed: seq<string>) {
    Ascending(failed) && forall name :: name in failed <==> Fails(jobs, name)
  }

  method GateVerdict(jobs: Jobs) returns (problems: seq<Problem>)
    ensures problems == [] <==> GatePasses(jobs)
    ensures !AllExpected(jobs) ==> problems == [Missing(Absent(EXPECTED, jobs))]
    ensures AllExpected(jobs) ==> Reports(jobs, problems)
  {
    hide Failures, InOrder, Absent, GatePasses;
    var missing := Absent(EXPECTED, jobs);
    ExpectedAre(jobs);
    if missing != [] {
      return [Missing(missing)];
    }
    var failed := FailedJobs(jobs);
    problems := Failures(failed);
    NoProblems(jobs, failed);
    var reused := SaysReused(jobs);
    var ran, skipped := if reused then "invariants" else "full", if reused then "full" else "invariants";
    if jobs[ran].result != "success" {
      problems := problems + [NotRun(ran)];
    }
    if jobs[skipped].result != "skipped" {
      problems := problems + [NotSkipped(skipped)];
    }
    assert problems == Failures(failed) + Alternatives(jobs);
  }

  /** The failed jobs but the two alternatives, by name. */
  method FailedJobs(jobs: Jobs) returns (failed: seq<string>)
    ensures InOrder(jobs, failed)
  {
    hide Lexical.Lt, Fails;
    var names := Ordered(jobs.Keys);
    failed := [];
    for i := 0 to |names|
      invariant Ascending(failed) && forall k :: 0 <= k < |failed| ==> Fails(jobs, failed[k]) && failed[k] in names[..i]
      invariant forall k :: 0 <= k < i && Fails(jobs, names[k]) ==> names[k] in failed
    {
      assert names[..i + 1] == names[..i] + [names[i]];
      if Fails(jobs, names[i]) {
        Precedes(names, failed, i);
        failed := failed + [names[i]];
      }
    }
    forall name | Fails(jobs, name) ensures name in failed {
      assert name in jobs by {
        FailsIn(jobs, name);
      }
      var k :| 0 <= k < |names| && names[k] == name;
    }
  }

  lemma FailsIn(jobs: Jobs, name: string)
    requires Fails(jobs, name)
    ensures name in jobs
  {
  }

  lemma Precedes(names: seq<string>, failed: seq<string>, i: nat)
    requires i < |names| && Ascending(names) && forall k :: 0 <= k < |failed| ==> failed[k] in names[..i]
    ensures forall k :: 0 <= k < |failed| ==> Lexical.Lt(failed[k], names[i])
  {
    hide Lexical.Lt;
  }

  lemma NoProblems(jobs: Jobs, failed: seq<string>)
    requires AllExpected(jobs) && InOrder(jobs, failed)
    ensures Failures(failed) + Alternatives(jobs) == [] <==> GatePasses(jobs)
  {
    var alternatives := Alternatives(jobs);
    assert Failures(failed) + alternatives == [] <==> |failed| + |alternatives| == 0;
    if failed != [] {
      assert Fails(jobs, failed[0]);
    } else {
      forall name | name in jobs && name != "invariants" && name != "full" ensures jobs[name].result == "success" {
        assert !Fails(jobs, name);
      }
    }
  }

  lemma ExpectedAre(jobs: Jobs)
    ensures Absent(EXPECTED, jobs) == [] <==> AllExpected(jobs)
    ensures !AllExpected(jobs) ==> !GatePasses(jobs)
  {
    assert "subject" in EXPECTED && "provenance" in EXPECTED && "invariants" in EXPECTED && "full" in EXPECTED;
    if Absent(EXPECTED, jobs) != [] {
      assert Absent(EXPECTED, jobs)[0] in Absent(EXPECTED, jobs);
    }
  }

  predicate IsLeast(name: string, names: set<string>) {
    name in names && forall other :: other in names && other != name ==> Lexical.Lt(name, other)
  }

  lemma {:induction false} LeastExists(names: set<string>) returns (least: string)
    requires names != {}
    ensures IsLeast(least, names)
    decreases |names|
  {
    least :| least in names;
    var rest := names - {least};
    if rest != {} {
      var other := LeastExists(rest);
      Lexical.Total(least, other);
      if Lexical.Lt(other, least) {
        least := other;
      } else {
        forall name | name in rest ensures Lexical.Lt(least, name) {
          if name != other {
            Lexical.Transitive(least, other, name);
          }
        }
      }
    }
  }

  /** The names in ascending order. */
  method Ordered(names: set<string>) returns (order: seq<string>)
    ensures Ascending(order) && forall name :: name in order <==> name in names
  {
    order := [];
    var rest := names;
    while rest != {}
      invariant rest <= names && Ascending(order) && forall name :: name in order <==> name in names - rest
      invariant forall k, name :: 0 <= k < |order| && name in rest ==> Lexical.Lt(order[k], name)
      decreases |rest|
    {
      ghost var first := LeastExists(rest);
      var least :| least in rest && IsLeast(least, rest);
      assert IsLeast(least, rest);
      order := order + [least];
      rest := rest - {least};
    }
  }

  // ---------------------------------------------------------------------
  // The history
  // ---------------------------------------------------------------------

  predicate IsDocumentation(path: string) {
    |path| >= 3 && path[|path| - 3..] == ".md"
  }

  /** A rename counts as a deletion and an addition. */
  predicate Differs(a: Tree, b: Tree, path: string) {
    (path in a) != (path in b) || (path in a && a[path] != b[path])
  }

  function ChangedPaths(a: Tree, b: Tree): set<string> {
    set path | path in a.Keys + b.Keys && Differs(a, b, path)
  }

  /** Something changed, and only documentation did. */
  predicate DocsOnly(a: Tree, b: Tree) {
    ChangedPaths(a, b) != {} && forall path :: path in ChangedPaths(a, b) ==> IsDocumentation(path)
  }

  /** The same code: no file but documentation differs. */
  predicate SameCode(a: Tree, b: Tree) {
    forall path :: path in a.Keys + b.Keys && !IsDocumentation(path) ==> !Differs(a, b, path)
  }

  datatype Commit = Commit(sha: string, tree: Tree, pulls: seq<Pull>, jobs: Jobs)

  /** Commits of main, oldest first, and the successful pull-request runs by
      the head they ran on. */
  datatype History = History(repo: string, commits: seq<Commit>, runs: map<string, seq<Run>>)

  function RunsOf(h: History, p: Pull): seq<Run>
    requires p.head.Some?
  {
    if p.head.value.sha in h.runs then h.runs[p.head.value.sha] else []
  }

  /** main.yml succeeded on commit `k`. */
  predicate Passed(h: History, k: nat)
    requires k < |h.commits|
  {
    GatePasses(h.commits[k].jobs)
  }

  /** What `investigate` answers for commit `k`. With no parent to ask about,
      the question itself fails and the answer is no. */
  predicate Investigate(h: History, k: nat)
    requires k < |h.commits|
  {
    var c := h.commits[k];
    var pull := MergedPull(c.pulls, h.repo, c.sha);
    && pull.Found?
    && var runs := RunsOf(h, pull.pull);
       if !AnySkipped(runs) then Reusable(c.tree, runs, false, false)
       else k > 0 && Reusable(c.tree, runs, DocsOnly(h.commits[k - 1].tree, c.tree), Passed(h, k - 1))
  }

  /** A run recorded this tree, and built it or said it need not be. */
  predicate Recorded(run: Run, tree: Tree, code: string) {
    run.record.Some? && run.record.value.tree == Some(tree) && run.record.value.code == Some(code)
  }

  /** Yes exactly when there is one pull request to ask about and some run on its head
      recorded this very tree: as built, or as documentation only, which counts if the
      commit changes documentation only and its parent passed. Without a parent nothing
      is answered as soon as any run skipped its builds. */
  lemma InvestigateIff(h: History, k: nat)
    requires k < |h.commits|
    ensures Investigate(h, k) <==>
            var c := h.commits[k]; var pull := MergedPull(c.pulls, h.repo, c.sha);
            && pull.Found?
            && var runs := RunsOf(h, pull.pull);
               && (k > 0 || forall i :: 0 <= i < |runs| && runs[i].record.Some? ==>
                                          runs[i].record.value.code != Some("false"))
               && exists i :: 0 <= i < |runs| &&
                    (|| Recorded(runs[i], c.tree, "true")
                     || (Recorded(runs[i], c.tree, "false") && k > 0 &&
                         DocsOnly(h.commits[k - 1].tree, c.tree) && Passed(h, k - 1)))
  {
    hide DocsOnly, GatePasses, MergedPull;
    var c := h.commits[k];
    var pull := MergedPull(c.pulls, h.repo, c.sha);
    if pull.Found? {
      var runs := RunsOf(h, pull.pull);
      if AnySkipped(runs) {
        var i :| 0 <= i < |runs| && Skipped(runs[i]);
        assert runs[i].record.Some? && runs[i].record.value.code == Some("false");
        if k > 0 {
          ReusableIff(c.tree, runs, DocsOnly(h.commits[k - 1].tree, c.tree), Passed(h, k - 1));
        }
      } else {
        forall i | 0 <= i < |runs| ensures !Skipped(runs[i]) {
        }
        ReusableIff(c.tree, runs, false, false);
      }
    }
  }

  lemma ReusableIff(tree: Tree, runs: seq<Run>, docsOnly: bool, parentPassed: bool)
    ensures Reusable(tree, runs, docsOnly, parentPassed) <==>
            exists i :: 0 <= i < |runs| &&
              (Recorded(runs[i], tree, "true") || (Recorded(runs[i], tree, "false") && docsOnly && parentPassed))
  {
    forall i | 0 <= i < |runs|
      ensures Qualifies(tree, runs[i], docsOnly, parentPassed) <==>
              (Recorded(runs[i], tree, "true") || (Recorded(runs[i], tree, "false") && docsOnly && parentPassed))
    {
    }
  }

  /** Documentation is what ends in .md; a commit is documentation only when some file
      was changed, added or deleted, and none but such files. */
  lemma DocsOnlyIff(a: Tree, b: Tree)
    ensures DocsOnly(a, b) <==>
            && a != b
            && forall path :: path in a.Keys + b.Keys && !(exists stem: string :: path == stem + ".md") ==>
                 path in a && path in b && a[path] == b[path]
  {
    forall path: string ensures IsDocumentation(path) <==> exists stem: string :: path == stem + ".md" {
      DocumentationIff(path);
    }
    if a != b {
      SameIfUnchanged(a, b);
      SameElsewhere(a, b);
    } else {
      assert ChangedPaths(a, b) == {};
    }
  }

  lemma SameIfUnchanged(a: Tree, b: Tree)
    ensures ChangedPaths(a, b) == {} ==> a == b
  {
    if ChangedPaths(a, b) == {} {
      forall path: string ensures path in a <==> path in b {
        assert path !in ChangedPaths(a, b);
      }
      forall path | path in a ensures a[path] == b[path] {
        assert path !in ChangedPaths(a, b);
      }
    }
  }

  lemma SameElsewhere(a: Tree, b: Tree)
    ensures (forall path :: path in ChangedPaths(a, b) ==> IsDocumentation(path)) <==>
            forall path :: path in a.Keys + b.Keys && !IsDocumentation(path) ==>
              path in a && path in b && a[path] == b[path]
  {
    hide IsDocumentation;
    forall path | path in a.Keys + b.Keys
      ensures path !in ChangedPaths(a, b) <==> path in a && path in b && a[path] == b[path]
    {
    }
  }

  lemma DocumentationIff(path: string)
    ensures IsDocumentation(path) <==> exists stem: string :: path == stem + ".md"
  {
    if IsDocumentation(path) {
      assert path == path[..|path| - 3] + ".md";
    }
    if stem: string :| path == stem + ".md" {
      assert path[|path| - 3..] == ".md";
    }
  }

  /** What the tool is entitled to trust: a run that recorded code=true built and
      passed the tree it recorded, the full job passes only a tree that was built
      and passed, and a successful provenance job reports what it found. */
  ghost predicate Honest(h: History, built: set<Tree>) {
    && (forall head, i :: head in h.runs && 0 <= i < |h.runs[head]| && Records(h.runs[head][i], "true") ==>
          h.runs[head][i].record.value.tree.value in built)
    && (forall k :: 0 <= k < |h.commits| && "full" in h.commits[k].jobs &&
                    h.commits[k].jobs["full"].result == "success" ==>
          h.commits[k].tree in built)
    && (forall k :: 0 <= k < |h.commits| && AllExpected(h.commits[k].jobs) &&
                    h.commits[k].jobs["provenance"].result == "success" ==>
          (SaysReused(h.commits[k].jobs) <==> Investigate(h, k)))
  }

  predicate Records(run: Run, code: string) {
    run.record.Some? && run.record.value.tree.Some? && run.record.value.code == Some(code)
  }

  /** Commit `j` was built and passed, and only documentation changed after it,
      so commit `k` has its code. */
  predicate VerifiedBy(h: History, built: set<Tree>, k: nat, j: nat)
    requires k < |h.commits|
  {
    && j <= k
    && h.commits[j].tree in built
    && (forall i :: j < i <= k ==> DocsOnly(h.commits[i - 1].tree, h.commits[i].tree))
    && SameCode(h.commits[j].tree, h.commits[k].tree)
  }

  lemma DocsOnlySameCode(a: Tree, b: Tree, c: Tree)
    requires SameCode(a, b) && DocsOnly(b, c)
    ensures SameCode(a, c)
  {
    forall path | path in a.Keys + c.Keys && !IsDocumentation(path) ensures !Differs(a, c, path) {
      assert Differs(b, c, path) ==> path in ChangedPaths(b, c);
      assert !Differs(a, b, path) by {
        assert path in a.Keys + b.Keys || (path !in a && path !in b);
      }
    }
  }

  /** A reuse rests on this very tree, or on the parent commit. */
  lemma ReuseMeans(h: History, built: set<Tree>, k: nat)
    requires Honest(h, built) && k < |h.commits| && Investigate(h, k)
    ensures h.commits[k].tree in built ||
            (k > 0 && DocsOnly(h.commits[k - 1].tree, h.commits[k].tree) && Passed(h, k - 1))
  {
    hide DocsOnly, GatePasses, MergedPull;
    var c := h.commits[k];
    var pull := MergedPull(c.pulls, h.repo, c.sha).pull;
    var runs := RunsOf(h, pull);
    var docsOnly := AnySkipped(runs) && DocsOnly(h.commits[k - 1].tree, c.tree);
    var parentPassed := AnySkipped(runs) && Passed(h, k - 1);
    var i :| 0 <= i < |runs| && Qualifies(c.tree, runs[i], docsOnly, parentPassed);
    if BuiltThis(c.tree, runs[i]) {
      assert Records(h.runs[pull.head.value.sha][i], "true");
    }
  }

  /** The chain of reuses behind a passing commit ends at a tree that was built
      and passed and holds exactly this commit's code. */
  lemma {:induction false} PassingIsVerified(h: History, built: set<Tree>, k: nat) returns (j: nat)
    requires Honest(h, built) && k < |h.commits| && Passed(h, k)
    ensures VerifiedBy(h, built, k, j)
  {
    hide DocsOnly, Investigate;
    j := k;
    if SaysReused(h.commits[k].jobs) {
      ReuseMeans(h, built, k);
      if h.commits[k].tree !in built {
        j := PassingIsVerified(h, built, k - 1);
        DocsOnlySameCode(h.commits[j].tree, h.commits[k - 1].tree, h.commits[k].tree);
      }
    }
  }
}
