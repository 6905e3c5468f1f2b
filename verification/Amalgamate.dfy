/**
 The header amalgamator (tools/amalgamate.py): splitting a header's internal
 includes into dependencies and re-exports, and the depth-first order in which
 the headers are emitted.

 A line is represented by what the tool's regular expressions and prefix tests
 make of it: an internal include, a conditional directive, a line that is not
 code (blank, comment, any other directive) or a line of the file's own code
 (which a `#define` is).
 */
module Amalgamate {
  import opened Common

  type Header = string

  datatype Line = Internal(target: Header) | CondOpen | CondClose | Quiet | Code

  type Tree = map<Header, seq<Line>>

  // ---------------------------------------------------------------------
  // Splitting a header's includes
  // ---------------------------------------------------------------------

  /** Conditional depth after `lines`; a stray `#endif` leaves it at zero. */
  function Depth(lines: seq<Line>): nat {
    if lines == [] then 0 else
      var d := Depth(lines[..|lines| - 1]);
      match lines[|lines| - 1]
      case CondOpen => d + 1
      case CondClose => if d == 0 then 0 else d - 1
      case _ => d
  }

  /** Openers minus closers. */
  function Net(lines: seq<Line>): int {
    if lines == [] then 0 else
      Net(lines[..|lines| - 1]) +
      match lines[|lines| - 1]
      case CondOpen => 1
      case CondClose => -1
      case _ => 0
  }

  /** Line `i` opens a conditional that nothing after it closes. */
  ghost predicate OpensToTheEnd(lines: seq<Line>, i: nat) {
    && i < |lines|
    && lines[i].CondOpen?
    && forall j :: i < j <= |lines| ==> Net(lines[i..j]) > 0
  }

  /** The include on line `n` sits inside a preprocessor conditional. */
  predicate Guarded(lines: seq<Line>, n: nat) {
    n < |lines| && lines[n].Internal? && Depth(lines[..n]) > 0
  }

  function Dependencies(lines: seq<Line>): seq<Header> {
    if lines == [] then [] else
      var before := lines[..|lines| - 1];
      var last := lines[|lines| - 1];
      Dependencies(before) + if last.Internal? && Code !in before then [last.target] else []
  }

  function Reexports(lines: seq<Line>): seq<Header> {
    if lines == [] then [] else
      var before := lines[..|lines| - 1];
      var last := lines[|lines| - 1];
      Reexports(before) + if last.Internal? && Code in before then [last.target] else []
  }

  /** The targets of the internal includes, in order. */
  function Targets(lines: seq<Line>): seq<Header> {
    if lines == [] then [] else
      (if lines[0].Internal? then [lines[0].target] else []) + Targets(lines[1..])
  }

  /** The first line of code, or the end. */
  function CodeStart(lines: seq<Line>): (c: nat)
    ensures c <= |lines| && (forall i :: 0 <= i < c ==> lines[i] != Code) && (c < |lines| ==> lines[c] == Code)
  {
    if lines == [] || lines[0] == Code then 0 else 1 + CodeStart(lines[1..])
  }

  lemma {:induction false} TargetsConcat(a: seq<Line>, b: seq<Line>)
    ensures Targets(a + b) == Targets(a) + Targets(b)
  {
    if a == [] {
      assert a + b == b;
    } else {
      assert (a + b)[1..] == a[1..] + b;
      TargetsConcat(a[1..], b);
    }
  }

  /** Includes before the file's own code are dependencies, those after it re-exports:
      every internal include is one or the other, once for every time it occurs. */
  lemma SplitAtCode(lines: seq<Line>)
    ensures Dependencies(lines) == Targets(lines[..CodeStart(lines)])
    ensures Reexports(lines) == Targets(lines[CodeStart(lines)..])
    ensures Dependencies(lines) + Reexports(lines) == Targets(lines)
  {
    hide Dependencies, Reexports, Targets;
    var c := CodeStart(lines);
    SplitAt(lines, c);
    assert lines == lines[..c] + lines[c..];
    TargetsConcat(lines[..c], lines[c..]);
  }

  lemma {:induction false} SplitAt(lines: seq<Line>, c: nat)
    requires c <= |lines| && (forall i :: 0 <= i < c ==> lines[i] != Code) && (c < |lines| ==> lines[c] == Code)
    ensures Dependencies(lines) == Targets(lines[..c]) && Reexports(lines) == Targets(lines[c..])
  {
    if lines != [] {
      hide Targets, Dependencies, Reexports;
      var n := |lines| - 1;
      var before, last := lines[..n], lines[n];
      LastLine(lines, c);
      OneTarget(last);
      if c <= n {
        SplitAt(before, c);
        SlicesTo(lines, c);
        TargetsConcat(before[c..], [last]);
      } else {
        SplitAt(before, n);
        assert before[..n] == before && before[n..] == [] == lines[c..] && lines[..c] == before + [last];
        TargetsConcat(before, [last]);
      }
    }
  }

  lemma SlicesTo<T>(s: seq<T>, c: nat)
    requires c < |s|
    ensures var n := |s| - 1; s[..c] == s[..n][..c] && s[c..] == s[..n][c..] + [s[n]]
  {
  }

  lemma LastLine(lines: seq<Line>, c: nat)
    requires lines != [] && c <= |lines|
    requires (forall i :: 0 <= i < c ==> lines[i] != Code) && (c < |lines| ==> lines[c] == Code)
    ensures var n := |lines| - 1; var last := lines[n];
            var target := if last.Internal? then [last.target] else [];
            && Dependencies(lines) == Dependencies(lines[..n]) + (if n <= c then target else [])
            && Reexports(lines) == Reexports(lines[..n]) + (if n <= c then [] else target)
  {
    var before := lines[..|lines| - 1];
    if c < |before| {
      assert before[c] == Code;
    }
  }

  lemma OneTarget(line: Line)
    ensures Targets([line]) == if line.Internal? then [line.target] else []
  {
    assert [line][1..] == [];
  }

  /** The first include inside a conditional, if there is one. */
  function FirstGuarded(lines: seq<Line>): (r: Option<nat>)
    ensures r.Some? ==> Guarded(lines, r.value) && forall k :: 0 <= k < r.value ==> !Guarded(lines, k)
    ensures r.None? ==> forall k :: 0 <= k < |lines| ==> !Guarded(lines, k)
  {
    FirstGuardedFrom(lines, 0)
  }

  function FirstGuardedFrom(lines: seq<Line>, n: nat): (r: Option<nat>)
    requires n <= |lines|
    requires forall k :: 0 <= k < n ==> !Guarded(lines, k)
    ensures r.Some? ==> Guarded(lines, r.value) && forall k :: 0 <= k < r.value ==> !Guarded(lines, k)
    ensures r.None? ==> forall k :: 0 <= k < |lines| ==> !Guarded(lines, k)
    decreases |lines| - n
  {
    if n == |lines| then None
    else if Guarded(lines, n) then Some(n)
    else FirstGuardedFrom(lines, n + 1)
  }

  /** The running clamped counter finds exactly the conditionals left open. */
  lemma DepthPositiveIffLeftOpen(lines: seq<Line>)
    ensures Depth(lines) > 0 <==> exists i: nat :: OpensToTheEnd(lines, i)
  {
    if Depth(lines) > 0 {
      var i := FindOpener(lines, Depth(lines));
    }
    if exists i: nat :: OpensToTheEnd(lines, i) {
      var i: nat :| OpensToTheEnd(lines, i);
      DepthAtLeastNet(lines, i);
      assert lines[i..|lines|] == lines[i..];
    }
  }

  lemma {:induction false} FindOpener(lines: seq<Line>, k: nat) returns (i: nat)
    requires 0 < k <= Depth(lines)
    ensures OpensToTheEnd(lines, i) && Net(lines[i..]) >= k
  {
    var n := |lines| - 1;
    var before := lines[..n];
    if lines[n].CondOpen? && k == 1 {
      i := n;
      assert lines[n..] == [lines[n]];
      assert Net(lines[n..][..0]) == 0;
      return;
    }
    i := FindOpener(before, match lines[n] case CondOpen => k - 1 case CondClose => k + 1 case _ => k);
    assert lines[i..][..|lines[i..]| - 1] == before[i..];
    forall j | i < j <= |lines|
      ensures Net(lines[i..j]) > 0
    {
      if j <= n {
        assert lines[i..j] == before[i..j];
      } else {
        assert lines[i..j] == lines[i..];
      }
    }
  }

  lemma {:induction false} DepthAtLeastNet(lines: seq<Line>, i: nat)
    requires i <= |lines|
    ensures Depth(lines) >= Net(lines[i..])
  {
    if i < |lines| {
      var before := lines[..|lines| - 1];
      DepthAtLeastNet(before, i);
      assert lines[i..][..|lines[i..]| - 1] == before[i..];
    }
  }

  lemma FirstIs(lines: seq<Line>, n: nat)
    requires Guarded(lines, n) && forall k :: 0 <= k < n ==> !Guarded(lines, k)
    ensures FirstGuarded(lines) == Some(n)
  {
    hide Depth;
  }

  datatype Split = Refused(line: nat) | Accepted(dependencies: seq<Header>, reexports: seq<Header>)

  /** The single pass over the lines, with its running depth and code flag. */
  method SplitIncludes(lines: seq<Line>) returns (r: Split)
    ensures r.Refused? <==> exists n: nat :: Guarded(lines, n)
    ensures r.Refused? ==> FirstGuarded(lines) == Some(r.line)
    ensures r.Accepted? ==> r.dependencies == Dependencies(lines) && r.reexports == Reexports(lines)
    ensures r.Accepted? ==> r.dependencies == Targets(lines[..CodeStart(lines)]) &&
                            r.reexports == Targets(lines[CodeStart(lines)..])
  {
    hide FirstGuarded, CodeStart, Targets;
    SplitAtCode(lines);
    var dependencies, reexports := [], [];
    var codeStarted, condDepth := false, 0;
    for n := 0 to |lines|
      invariant condDepth == Depth(lines[..n])
      invariant codeStarted <==> Code in lines[..n]
      invariant dependencies == Dependencies(lines[..n])
      invariant reexports == Reexports(lines[..n])
      invariant forall k :: 0 <= k < n ==> !Guarded(lines, k)
    {
      var line := lines[n];
      assert lines[..n + 1][..n] == lines[..n];
      if line.CondOpen? {
        condDepth := condDepth + 1;
      } else if line.CondClose? {
        condDepth := if condDepth == 0 then 0 else condDepth - 1;
      }
      if line.Internal? {
        if condDepth != 0 {
          FirstIs(lines, n);
          return Refused(n);
        }
        if codeStarted {
          reexports := reexports + [line.target];
        } else {
          dependencies := dependencies + [line.target];
        }
      } else if line.Code? {
        codeStarted := true;
      }
    }
    assert lines[..|lines|] == lines;
    return Accepted(dependencies, reexports);
  }

  // ---------------------------------------------------------------------
  // The depth-first order
  // ---------------------------------------------------------------------

  datatype Mark = OnStack | Emitted

  datatype Error = Missing(header: Header) | Conditional(header: Header, line: nat) | Cycle(path: seq<Header>)

  datatype State = State(order: seq<Header>, marks: map<Header, Mark>, trace: seq<Header>,
                         resolved: seq<(Header, Header)>)

  datatype Outcome = Done(state: State) | Failed(error: Error)

  predicate IsEmitted(s: State, h: Header) {
    h in s.marks && s.marks[h] == Emitted
  }

  /** Position of the first `h`, or the length when there is none. */
  function IndexOf(hs: seq<Header>, h: Header): (i: nat)
    ensures i <= |hs|
    ensures h in hs ==> i < |hs| && hs[i] == h
  {
    if hs == [] then 0 else if hs[0] == h then 0 else 1 + IndexOf(hs[1..], h)
  }

  function Push(s: State, h: Header): State {
    s.(marks := s.marks[h := OnStack], trace := s.trace + [h])
  }

  function Emit(s: State, h: Header): State
    requires |s.trace| > 0
  {
    s.(marks := s.marks[h := Emitted], trace := s.trace[..|s.trace| - 1], order := s.order + [h])
  }

  function Note(s: State, source: Header, target: Header): State {
    if IsEmitted(s, target) then s else s.(resolved := s.resolved + [(source, target)])
  }

  function Visit(t: Tree, s: State, rel: Header): (r: Outcome)
    ensures r.Done? ==> s.marks.Keys <= r.state.marks.Keys && r.state.trace == s.trace
    decreases t.Keys - s.marks.Keys, 0
  {
    if IsEmitted(s, rel) then Done(s)
    else if rel in s.marks then Failed(Cycle(s.trace[IndexOf(s.trace, rel)..] + [rel]))
    else if rel !in t then Failed(Missing(rel))
    else if FirstGuarded(t[rel]).Some? then Failed(Conditional(rel, FirstGuarded(t[rel]).value))
    else
      assert rel in t.Keys - s.marks.Keys;
      var deps := VisitDependencies(t, Push(s, rel), Dependencies(t[rel]));
      if deps.Failed? then deps else
        assert rel in Emit(deps.state, rel).marks.Keys;
        VisitReexports(t, Emit(deps.state, rel), rel, Reexports(t[rel]))
  }

  function VisitDependencies(t: Tree, s: State, hs: seq<Header>): (r: Outcome)
    ensures r.Done? ==> s.marks.Keys <= r.state.marks.Keys && r.state.trace == s.trace
    decreases t.Keys - s.marks.Keys, |hs|
  {
    if hs == [] then Done(s) else
      var first := Visit(t, s, hs[0]);
      if first.Failed? then first else VisitDependencies(t, first.state, hs[1..])
  }

  function VisitReexports(t: Tree, s: State, rel: Header, hs: seq<Header>): (r: Outcome)
    ensures r.Done? ==> s.marks.Keys <= r.state.marks.Keys && r.state.trace == s.trace
    decreases t.Keys - s.marks.Keys, |hs|
  {
    if hs == [] then Done(s) else
      var first := Visit(t, Note(s, rel, hs[0]), hs[0]);
      if first.Failed? then first else VisitReexports(t, first.state, rel, hs[1..])
  }

  const START := State([], map[], [], [])

  function TopologicalOrder(t: Tree, roots: seq<Header>): Outcome {
    VisitDependencies(t, START, roots)
  }

  // ---------------------------------------------------------------------
  // What the run is measured against: the include graph
  // ---------------------------------------------------------------------

  predicate DependsOn(t: Tree, a: Header, b: Header) {
    a in t && b in Dependencies(t[a])
  }

  predicate ReexportsTo(t: Tree, a: Header, b: Header) {
    a in t && b in Reexports(t[a])
  }

  predicate Edge(t: Tree, a: Header, b: Header) {
    DependsOn(t, a, b) || ReexportsTo(t, a, b)
  }

  predicate Walk(t: Tree, p: seq<Header>) {
    |p| > 0 && forall i :: 0 <= i < |p| - 1 ==> Edge(t, p[i], p[i + 1])
  }

  ghost predicate Reachable(t: Tree, roots: seq<Header>, h: Header) {
    exists p :: Walk(t, p) && p[0] in roots && p[|p| - 1] == h
  }

  /** A closed walk over dependency edges only. */
  predicate DependencyCycle(t: Tree, p: seq<Header>) {
    |p| > 1 && p[0] == p[|p| - 1] && forall i :: 0 <= i < |p| - 1 ==> DependsOn(t, p[i], p[i + 1])
  }

  /** A closed walk over both kinds of edge that uses a dependency edge. */
  predicate MixedCycle(t: Tree, p: seq<Header>) {
    Walk(t, p) && |p| > 1 && p[0] == p[|p| - 1] && DependsOn(t, p[0], p[1])
  }

  /** A dependency edge followed by re-export edges: how a header gets onto the
      stack directly above another. */
  predicate LinkVia(t: Tree, p: seq<Header>) {
    && |p| > 1
    && DependsOn(t, p[0], p[1])
    && forall i :: 1 <= i < |p| - 1 ==> ReexportsTo(t, p[i], p[i + 1])
  }

  ghost predicate Link(t: Tree, a: Header, b: Header) {
    exists p :: LinkVia(t, p) && p[0] == a && p[|p| - 1] == b
  }

  predicate Distinct<T(==)>(s: seq<T>) {
    forall i, j :: 0 <= i < j < |s| ==> s[i] != s[j]
  }

  /** Every header comes after all of its dependencies. */
  ghost predicate DependenciesFirst(t: Tree, order: seq<Header>) {
    forall i, d :: 0 <= i < |order| && DependsOn(t, order[i], d) ==> d in order[..i]
  }

  ghost predicate Chain(t: Tree, p: seq<Header>) {
    forall i :: 0 <= i < |p| - 1 ==> Link(t, p[i], p[i + 1])
  }

  /** What a rejection reports: each header reaches the next one named. */
  ghost predicate ReportedCycle(t: Tree, p: seq<Header>) {
    |p| > 1 && p[0] == p[|p| - 1] && Chain(t, p)
  }

  /** A re-export that was still outstanding when its source was emitted. */
  ghost predicate Outstanding(t: Tree, order: seq<Header>, e: (Header, Header)) {
    && ReexportsTo(t, e.0, e.1)
    && exists i :: 0 <= i < |order| && order[i] == e.0 && e.1 !in order[..i + 1]
  }

  /** Header `h` may be marked: it exists, is not refused, and was asked for. */
  ghost predicate Admitted(t: Tree, roots: seq<Header>, h: Header) {
    h in t && FirstGuarded(t[h]).None? && Reachable(t, roots, h)
  }

  /** What every step keeps. An emitted header may still have re-exports that
      have not been visited, so closure under re-exports is not part of it. */
  ghost predicate Inv(t: Tree, roots: seq<Header>, s: State) {
    && Distinct(s.trace) && Distinct(s.order)
    && (forall h :: h in s.trace <==> h in s.marks && s.marks[h] == OnStack)
    && (forall h :: h in s.order <==> IsEmitted(s, h))
    && DependenciesFirst(t, s.order)
    && Chain(t, s.trace)
    && (forall h :: h in s.marks ==> Admitted(t, roots, h))
    && (forall e :: e in s.resolved ==> Outstanding(t, s.order, e))
  }

  /** `h` may be visited now: it was asked for, and whatever is on top of the
      stack leads to it. */
  ghost predicate MayVisit(t: Tree, roots: seq<Header>, s: State, h: Header) {
    && Reachable(t, roots, h)
    && (s.trace != [] ==> Link(t, s.trace[|s.trace| - 1], h))
  }

  /** The headers emitted since `before` have all their re-exports emitted. */
  ghost predicate Settled(t: Tree, before: State, after: State) {
    forall h, x :: h in after.order && h !in before.order && ReexportsTo(t, h, x) ==> x in after.order
  }

  /** A failure is explained by the graph. */
  ghost predicate Explained(t: Tree, roots: seq<Header>, e: Error) {
    match e
    case Missing(h) => Reachable(t, roots, h) && h !in t
    case Conditional(h, n) => Reachable(t, roots, h) && h in t && FirstGuarded(t[h]) == Some(n)
    case Cycle(p) => ReportedCycle(t, p) && Reachable(t, roots, p[0])
  }

  /** What one call of `visit`, or a run of calls, achieves. */
  ghost predicate Achieves(t: Tree, roots: seq<Header>, s: State, hs: seq<Header>, r: Outcome) {
    match r
    case Failed(e) => Explained(t, roots, e)
    case Done(s') =>
      && Inv(t, roots, s')
      && s'.trace == s.trace
      && s.order <= s'.order
      && (forall h :: h in hs ==> h in s'.order)
      && Settled(t, s, s')
  }

  // ---------------------------------------------------------------------
  // Proof: walks and links
  // ---------------------------------------------------------------------

  lemma RootReachable(t: Tree, roots: seq<Header>, h: Header)
    requires h in roots
    ensures Reachable(t, roots, h)
  {
    var p := [h];
    assert Walk(t, p) && p[0] in roots && p[|p| - 1] == h;
  }

  lemma StepReachable(t: Tree, roots: seq<Header>, a: Header, b: Header)
    requires Reachable(t, roots, a) && Edge(t, a, b)
    ensures Reachable(t, roots, b)
  {
    var p :| Walk(t, p) && p[0] in roots && p[|p| - 1] == a;
    var q := p + [b];
    assert Walk(t, q) && q[0] in roots && q[|q| - 1] == b;
  }

  lemma LinkDependency(t: Tree, a: Header, b: Header)
    requires DependsOn(t, a, b)
    ensures Link(t, a, b)
  {
    var p := [a, b];
    assert LinkVia(t, p) && p[0] == a && p[|p| - 1] == b;
  }

  lemma LinkReexport(t: Tree, a: Header, b: Header, c: Header)
    requires Link(t, a, b) && ReexportsTo(t, b, c)
    ensures Link(t, a, c)
  {
    var p :| LinkVia(t, p) && p[0] == a && p[|p| - 1] == b;
    var q := p + [c];
    assert LinkVia(t, q) && q[0] == a && q[|q| - 1] == c;
  }

  // ---------------------------------------------------------------------
  // Proof: the steps keep the invariant
  // ---------------------------------------------------------------------

  lemma PushKeeps(t: Tree, roots: seq<Header>, s: State, rel: Header)
    requires Inv(t, roots, s) && MayVisit(t, roots, s, rel)
    requires rel !in s.marks && rel in t && FirstGuarded(t[rel]).None?
    ensures Inv(t, roots, Push(s, rel))
  {
    hide Link, Reachable, Dependencies, Reexports, FirstGuarded;
    var s' := Push(s, rel);
    forall h ensures h in s'.trace <==> h in s'.marks && s'.marks[h] == OnStack {
      assert h in s'.trace <==> h in s.trace || h == rel;
    }
    forall h ensures h in s'.order <==> IsEmitted(s', h) {
      assert h in s.order <==> IsEmitted(s, h);
    }
  }

  lemma EmitKeeps(t: Tree, roots: seq<Header>, s: State, rel: Header)
    requires Inv(t, roots, s) && s.trace != [] && s.trace[|s.trace| - 1] == rel
    requires forall d :: DependsOn(t, rel, d) ==> d in s.order
    ensures Inv(t, roots, Emit(s, rel))
  {
    hide Link, Reachable, Dependencies, Reexports, FirstGuarded;
    var s' := Emit(s, rel);
    var n := |s.trace| - 1;
    assert rel in s.trace && rel !in s.order;
    forall h ensures h in s'.trace <==> h in s'.marks && s'.marks[h] == OnStack {
      assert h in s.trace <==> h in s'.trace || h == rel;
      assert h in s.trace <==> h in s.marks && s.marks[h] == OnStack;
      assert rel !in s'.trace;
    }
    forall h ensures h in s'.order <==> IsEmitted(s', h) {
      assert h in s'.order <==> h in s.order || h == rel;
    }
    forall i, d | 0 <= i < |s'.order| && DependsOn(t, s'.order[i], d)
      ensures d in s'.order[..i]
    {
      if i < |s.order| {
        assert s'.order[..i] == s.order[..i];
      } else {
        assert s'.order[..i] == s.order;
      }
    }
    forall e | e in s'.resolved ensures Outstanding(t, s'.order, e) {
      OutstandingGrows(t, s.order, s'.order, e);
    }
  }

  lemma OutstandingGrows(t: Tree, order: seq<Header>, more: seq<Header>, e: (Header, Header))
    requires Outstanding(t, order, e) && order <= more
    ensures Outstanding(t, more, e)
  {
    var i :| 0 <= i < |order| && order[i] == e.0 && e.1 !in order[..i + 1];
    assert more[i] == e.0 && more[..i + 1] == order[..i + 1];
  }

  lemma NoteKeeps(t: Tree, roots: seq<Header>, s: State, rel: Header, target: Header)
    requires Inv(t, roots, s) && rel in s.order && ReexportsTo(t, rel, target)
    ensures Inv(t, roots, Note(s, rel, target))
  {
    var s' := Note(s, rel, target);
    if !IsEmitted(s, target) {
      assert target !in s.order;
      var i :| 0 <= i < |s.order| && s.order[i] == rel;
      assert target !in s.order[..i + 1];
      assert Outstanding(t, s.order, (rel, target));
      assert s'.resolved == s.resolved + [(rel, target)];
      forall h ensures h in s'.order <==> IsEmitted(s', h) {
        assert h in s.order <==> IsEmitted(s, h);
      }
    }
  }

  lemma CycleReported(t: Tree, roots: seq<Header>, s: State, rel: Header)
    requires Inv(t, roots, s) && MayVisit(t, roots, s, rel)
    requires rel in s.marks && !IsEmitted(s, rel)
    ensures Explained(t, roots, Cycle(s.trace[IndexOf(s.trace, rel)..] + [rel]))
  {
    assert rel in s.trace;
    var k := IndexOf(s.trace, rel);
    var p := s.trace[k..] + [rel];
    forall i | 0 <= i < |p| - 1 ensures Link(t, p[i], p[i + 1]) {
      assert p[i] == s.trace[k + i];
      if i < |p| - 2 {
        assert p[i + 1] == s.trace[k + i + 1];
      }
    }
  }

  lemma {:induction false} VisitAchieves(t: Tree, roots: seq<Header>, s: State, rel: Header)
    requires Inv(t, roots, s) && MayVisit(t, roots, s, rel)
    ensures Achieves(t, roots, s, [rel], Visit(t, s, rel))
    decreases t.Keys - s.marks.Keys, 0
  {
    if IsEmitted(s, rel) {
    } else if rel in s.marks {
      CycleReported(t, roots, s, rel);
    } else if rel !in t {
    } else if FirstGuarded(t[rel]).Some? {
    } else {
      hide Inv, Reachable, Link, Dependencies, Reexports, FirstGuarded, VisitDependencies, VisitReexports, Settled,
           Explained;
      assert rel in t.Keys - s.marks.Keys;
      PushKeeps(t, roots, s, rel);
      var s1 := Push(s, rel);
      DependenciesAllowed(t, roots, s, rel);
      DependenciesAchieve(t, roots, s1, Dependencies(t[rel]));
      var deps := VisitDependencies(t, s1, Dependencies(t[rel]));
      if deps.Done? {
        var s3 := Emit(deps.state, rel);
        AfterDependencies(t, roots, s, rel, deps.state);
        assert rel in s3.marks;
        ReexportsAchieve(t, roots, s3, rel, Reexports(t[rel]));
        AfterReexports(t, roots, s, rel, deps.state, VisitReexports(t, s3, rel, Reexports(t[rel])));
      }
    }
  }

  lemma DependenciesAllowed(t: Tree, roots: seq<Header>, s: State, rel: Header)
    requires MayVisit(t, roots, s, rel) && rel in t
    ensures forall d :: d in Dependencies(t[rel]) ==> MayVisit(t, roots, Push(s, rel), d)
  {
    hide Reachable, Link;
    forall d | d in Dependencies(t[rel]) ensures MayVisit(t, roots, Push(s, rel), d) {
      StepReachable(t, roots, rel, d);
      LinkDependency(t, rel, d);
    }
  }

  /** With its dependencies emitted, `rel` may be emitted and its re-exports visited. */
  lemma AfterDependencies(t: Tree, roots: seq<Header>, s: State, rel: Header, s2: State)
    requires MayVisit(t, roots, s, rel) && rel in t
    requires Achieves(t, roots, Push(s, rel), Dependencies(t[rel]), Done(s2))
    ensures s2.trace == s.trace + [rel]
    ensures var s3 := Emit(s2, rel);
            && Inv(t, roots, s3) && rel in s3.order && s3.trace == s.trace
            && forall x :: x in Reexports(t[rel]) ==> MayVisit(t, roots, s3, x) && ReexportsTo(t, rel, x)
  {
    hide Inv, Reachable, Link, Dependencies, Reexports, FirstGuarded, Settled, Explained;
    EmitKeeps(t, roots, s2, rel);
    var s3 := Emit(s2, rel);
    assert s3.trace == s.trace;
    forall x | x in Reexports(t[rel]) ensures MayVisit(t, roots, s3, x) {
      StepReachable(t, roots, rel, x);
      if s3.trace != [] {
        LinkReexport(t, s3.trace[|s3.trace| - 1], rel, x);
      }
    }
  }

  lemma AfterReexports(t: Tree, roots: seq<Header>, s: State, rel: Header, s2: State, r: Outcome)
    requires rel in t && s2.trace == s.trace + [rel]
    requires Achieves(t, roots, Push(s, rel), Dependencies(t[rel]), Done(s2))
    requires Achieves(t, roots, Emit(s2, rel), Reexports(t[rel]), r)
    ensures Achieves(t, roots, s, [rel], r)
  {
    hide Inv, Reachable, Link, Dependencies, Reexports, FirstGuarded, Settled, Explained;
    if r.Done? {
      SettledCompose(t, s, s2, Emit(s2, rel), r.state, rel);
      assert s.order <= s2.order <= Emit(s2, rel).order;
      assert rel in Emit(s2, rel).order;
    }
  }

  /** What the dependencies settled, what the re-exports settled, and `rel` itself. */
  lemma SettledCompose(t: Tree, s: State, s2: State, s3: State, s4: State, rel: Header)
    requires rel in t
    requires Settled(t, Push(s, rel), s2) && s3.order == s2.order + [rel] && s3.order <= s4.order
    requires Settled(t, s3, s4)
    requires forall x :: x in Reexports(t[rel]) ==> x in s4.order
    ensures Settled(t, s, s4)
  {
    forall h, x | h in s4.order && h !in s.order && ReexportsTo(t, h, x) ensures x in s4.order {
      if h in s3.order && h != rel {
        assert h in s2.order;
        assert x in s2.order;
        assert x in s3.order;
      }
    }
  }

  lemma {:induction false} DependenciesAchieve(t: Tree, roots: seq<Header>, s: State, hs: seq<Header>)
    requires Inv(t, roots, s) && forall h :: h in hs ==> MayVisit(t, roots, s, h)
    ensures Achieves(t, roots, s, hs, VisitDependencies(t, s, hs))
    decreases t.Keys - s.marks.Keys, |hs|
  {
    hide Inv, Link, Reachable, Dependencies, Reexports, FirstGuarded, Visit, VisitReexports, Explained;
    if hs != [] {
      VisitAchieves(t, roots, s, hs[0]);
      var first := Visit(t, s, hs[0]);
      if first.Done? {
        forall h | h in hs[1..] ensures MayVisit(t, roots, first.state, h) {
          assert h in hs;
        }
        DependenciesAchieve(t, roots, first.state, hs[1..]);
        var rest := VisitDependencies(t, first.state, hs[1..]);
        if rest.Done? {
          RunsCompose(t, s, first.state, rest.state, hs);
        }
      }
    }
  }

  lemma RunsCompose(t: Tree, s: State, s1: State, s2: State, hs: seq<Header>)
    requires hs != [] && s.order <= s1.order <= s2.order
    requires hs[0] in s1.order && forall h :: h in hs[1..] ==> h in s2.order
    requires Settled(t, s, s1) && Settled(t, s1, s2)
    ensures Settled(t, s, s2) && forall h :: h in hs ==> h in s2.order
  {
    forall h, x | h in s2.order && h !in s.order && ReexportsTo(t, h, x) ensures x in s2.order {
      if h in s1.order {
        assert x in s1.order;
      }
    }
    forall h | h in hs ensures h in s2.order {
      assert h == hs[0] || h in hs[1..];
    }
  }

  lemma {:induction false} ReexportsAchieve(t: Tree, roots: seq<Header>, s: State, rel: Header, hs: seq<Header>)
    requires Inv(t, roots, s) && forall h :: h in hs ==> MayVisit(t, roots, s, h) && ReexportsTo(t, rel, h)
    requires rel in s.order
    ensures Achieves(t, roots, s, hs, VisitReexports(t, s, rel, hs))
    decreases t.Keys - s.marks.Keys, |hs|
  {
    hide Inv, Link, Reachable, Dependencies, Reexports, FirstGuarded, Visit, VisitDependencies, Explained;
    if hs != [] {
      NoteKeeps(t, roots, s, rel, hs[0]);
      var s0 := Note(s, rel, hs[0]);
      VisitAchieves(t, roots, s0, hs[0]);
      var first := Visit(t, s0, hs[0]);
      if first.Done? {
        forall h | h in hs[1..] ensures MayVisit(t, roots, first.state, h) && ReexportsTo(t, rel, h) {
          assert h in hs;
        }
        ReexportsAchieve(t, roots, first.state, rel, hs[1..]);
        var rest := VisitReexports(t, first.state, rel, hs[1..]);
        if rest.Done? {
          RunsCompose(t, s, first.state, rest.state, hs);
        }
      }
    }
  }

  // ---------------------------------------------------------------------
  // Which re-exports are noted
  // ---------------------------------------------------------------------

  /** The first of `a`'s re-exports that was outstanding when `a` was emitted. */
  ghost predicate FirstOutstanding(t: Tree, order: seq<Header>, a: Header, k: nat) {
    && a in t && k < |Reexports(t[a])| && Outstanding(t, order, (a, Reexports(t[a])[k]))
    && forall j :: 0 <= j < k ==> !Outstanding(t, order, (a, Reexports(t[a])[j]))
  }

  ghost predicate Noted(t: Tree, s: State, a: Header) {
    forall k: nat :: FirstOutstanding(t, s.order, a, k) ==> (a, Reexports(t[a])[k]) in s.resolved
  }

  ghost predicate AllNoted(t: Tree, s: State) {
    forall a :: a in s.order ==> Noted(t, s, a)
  }

  ghost predicate Grew(s: State, u: State) {
    s.order <= u.order && Distinct(u.order) && forall e :: e in s.resolved ==> e in u.resolved
  }

  lemma OutstandingFixed(t: Tree, order: seq<Header>, more: seq<Header>, e: (Header, Header))
    requires order <= more && Distinct(more) && e.0 in order
    ensures Outstanding(t, order, e) <==> Outstanding(t, more, e)
  {
    var i :| 0 <= i < |order| && order[i] == e.0;
    assert more[i] == e.0 && more[..i + 1] == order[..i + 1];
    if k :| 0 <= k < |more| && more[k] == e.0 && e.1 !in more[..k + 1] {
      assert k == i;
    }
    if k :| 0 <= k < |order| && order[k] == e.0 && e.1 !in order[..k + 1] {
      assert more[k] == e.0;
      assert k == i;
    }
  }

  lemma NotedGrows(t: Tree, s: State, u: State, a: Header)
    requires a in s.order && Grew(s, u) && Noted(t, s, a)
    ensures Noted(t, u, a)
  {
    hide Outstanding, Reexports, Distinct;
    forall k: nat | FirstOutstanding(t, u.order, a, k) ensures (a, Reexports(t[a])[k]) in u.resolved {
      forall j | 0 <= j <= k
        ensures Outstanding(t, s.order, (a, Reexports(t[a])[j])) <==> Outstanding(t, u.order, (a, Reexports(t[a])[j]))
      {
        OutstandingFixed(t, s.order, u.order, (a, Reexports(t[a])[j]));
      }
      assert FirstOutstanding(t, s.order, a, k);
    }
  }

  lemma GrewChain(s: State, u: State, v: State)
    requires Grew(s, u) && Grew(u, v)
    ensures Grew(s, v)
  {
  }

  /** `rel` was emitted last, and none of its first `k` re-exports was outstanding. */
  ghost predicate JustEmitted(t: Tree, s: State, rel: Header, k: nat) {
    && rel in t && k <= |Reexports(t[rel])| && s.order != [] && s.order[|s.order| - 1] == rel
    && forall j :: 0 <= j < k ==> !Outstanding(t, s.order, (rel, Reexports(t[rel])[j]))
  }

  /** Reaching a re-export that is emitted changes nothing; one that is not is noted. */
  lemma ReachedNext(t: Tree, roots: seq<Header>, s: State, rel: Header, k: nat)
    requires Inv(t, roots, s) && JustEmitted(t, s, rel, k) && k < |Reexports(t[rel])|
    ensures var target := Reexports(t[rel])[k];
            if IsEmitted(s, target) then JustEmitted(t, s, rel, k + 1) else Noted(t, Note(s, rel, target), rel)
  {
    hide Reexports, Outstanding, Inv, Noted;
    var target := Reexports(t[rel])[k];
    EmittedIff(t, roots, s, target);
    if IsEmitted(s, target) {
      NotOutstanding(t, roots, s, rel, k);
    } else {
      FirstIsNoted(t, s, rel, k);
    }
  }

  lemma EmittedIff(t: Tree, roots: seq<Header>, s: State, h: Header)
    requires Inv(t, roots, s)
    ensures h in s.order <==> IsEmitted(s, h)
  {
  }

  lemma NotOutstanding(t: Tree, roots: seq<Header>, s: State, rel: Header, k: nat)
    requires Inv(t, roots, s) && JustEmitted(t, s, rel, k) && k < |Reexports(t[rel])|
    requires Reexports(t[rel])[k] in s.order
    ensures JustEmitted(t, s, rel, k + 1)
  {
    hide Reexports, Inv;
    DistinctOrder(t, roots, s);
    var target, last := Reexports(t[rel])[k], |s.order| - 1;
    assert s.order[..last + 1] == s.order;
    forall i | 0 <= i < |s.order| && s.order[i] == rel ensures target in s.order[..i + 1] {
      assert i == last;
    }
  }

  lemma FirstIsNoted(t: Tree, s: State, rel: Header, k: nat)
    requires JustEmitted(t, s, rel, k) && k < |Reexports(t[rel])| && Reexports(t[rel])[k] !in s.order
    requires !IsEmitted(s, Reexports(t[rel])[k])
    ensures Noted(t, Note(s, rel, Reexports(t[rel])[k]), rel)
  {
    hide Reexports, Outstanding;
    var target := Reexports(t[rel])[k];
    NowOutstanding(t, s, rel, target);
    var u := Note(s, rel, target);
    forall j: nat | FirstOutstanding(t, u.order, rel, j) ensures (rel, Reexports(t[rel])[j]) in u.resolved {
      assert j == k;
    }
  }

  lemma NowOutstanding(t: Tree, s: State, rel: Header, target: Header)
    requires s.order != [] && s.order[|s.order| - 1] == rel && target !in s.order && ReexportsTo(t, rel, target)
    ensures Outstanding(t, s.order, (rel, target))
  {
    assert s.order[..|s.order| - 1 + 1] == s.order;
  }

  lemma {:induction false} VisitNotes(t: Tree, roots: seq<Header>, s: State, rel: Header)
    requires Inv(t, roots, s) && MayVisit(t, roots, s, rel) && AllNoted(t, s)
    requires Visit(t, s, rel).Done?
    ensures Grew(s, Visit(t, s, rel).state) && AllNoted(t, Visit(t, s, rel).state)
    decreases t.Keys - s.marks.Keys, 0
  {
    if !IsEmitted(s, rel) {
      hide Inv, Reachable, Link, Dependencies, Reexports, FirstGuarded, VisitDependencies, VisitReexports, Settled,
           Explained, AllNoted, Noted, Outstanding, JustEmitted;
      assert rel in t.Keys - s.marks.Keys;
      var s1 := Push(s, rel);
      PushKeeps(t, roots, s, rel);
      DependenciesAllowed(t, roots, s, rel);
      SameNotes(t, s, s1);
      DependenciesNote(t, roots, s1, Dependencies(t[rel]));
      DependenciesAchieve(t, roots, s1, Dependencies(t[rel]));
      var s2 := VisitDependencies(t, s1, Dependencies(t[rel])).state;
      AfterDependencies(t, roots, s, rel, s2);
      var s3 := Emit(s2, rel);
      EmitNotes(t, roots, s2, rel);
      assert rel in s3.marks;
      AllOfThem(t, rel);
      ReexportsNote(t, roots, s3, rel, 0);
      GrewChain(s2, s3, VisitReexports(t, s3, rel, Reexports(t[rel])).state);
      GrewChain(s1, s2, VisitReexports(t, s3, rel, Reexports(t[rel])).state);
    } else {
      DistinctOrder(t, roots, s);
    }
  }

  lemma AllOfThem(t: Tree, rel: Header)
    requires rel in t
    ensures Reexports(t[rel])[0..] == Reexports(t[rel])
  {
  }

  lemma DistinctOrder(t: Tree, roots: seq<Header>, s: State)
    requires Inv(t, roots, s)
    ensures Distinct(s.order)
  {
  }

  lemma SameNotes(t: Tree, s: State, u: State)
    requires u.order == s.order && u.resolved == s.resolved && AllNoted(t, s)
    ensures AllNoted(t, u)
  {
    hide Outstanding, Reexports;
  }

  /** Emitting `rel` leaves the other headers' notes as they were. */
  lemma EmitNotes(t: Tree, roots: seq<Header>, s: State, rel: Header)
    requires |s.trace| > 0 && AllNoted(t, s) && Inv(t, roots, Emit(s, rel)) && rel in t
    requires Emit(s, rel).order == s.order + [rel]
    ensures Grew(s, Emit(s, rel)) && JustEmitted(t, Emit(s, rel), rel, 0)
    ensures forall a :: a in Emit(s, rel).order && a != rel ==> Noted(t, Emit(s, rel), a)
  {
    hide Noted, Outstanding, Reexports;
    var u := Emit(s, rel);
    DistinctOrder(t, roots, u);
    forall a | a in u.order && a != rel ensures Noted(t, u, a) {
      NotedGrows(t, s, u, a);
    }
  }

  lemma {:induction false} DependenciesNote(t: Tree, roots: seq<Header>, s: State, hs: seq<Header>)
    requires Inv(t, roots, s) && (forall h :: h in hs ==> MayVisit(t, roots, s, h)) && AllNoted(t, s)
    requires VisitDependencies(t, s, hs).Done?
    ensures Grew(s, VisitDependencies(t, s, hs).state) && AllNoted(t, VisitDependencies(t, s, hs).state)
    decreases t.Keys - s.marks.Keys, |hs|
  {
    hide Inv, Link, Reachable, Dependencies, Reexports, FirstGuarded, Visit, VisitReexports, Explained, AllNoted,
         Settled;
    DistinctOrder(t, roots, s);
    if hs != [] {
      VisitNotes(t, roots, s, hs[0]);
      VisitAchieves(t, roots, s, hs[0]);
      var u := Visit(t, s, hs[0]).state;
      forall h | h in hs[1..] ensures MayVisit(t, roots, u, h) {
        assert h in hs;
      }
      DependenciesNote(t, roots, u, hs[1..]);
      GrewChain(s, u, VisitDependencies(t, u, hs[1..]).state);
    }
  }

  lemma {:induction false} ReexportsNote(t: Tree, roots: seq<Header>, s: State, rel: Header, k: nat)
    requires Inv(t, roots, s) && rel in t && rel in s.order && k <= |Reexports(t[rel])|
    requires forall h :: h in Reexports(t[rel])[k..] ==> MayVisit(t, roots, s, h) && ReexportsTo(t, rel, h)
    requires forall a :: a in s.order && a != rel ==> Noted(t, s, a)
    requires Noted(t, s, rel) || JustEmitted(t, s, rel, k)
    requires VisitReexports(t, s, rel, Reexports(t[rel])[k..]).Done?
    ensures var u := VisitReexports(t, s, rel, Reexports(t[rel])[k..]).state; Grew(s, u) && AllNoted(t, u)
    decreases t.Keys - s.marks.Keys, |Reexports(t[rel])| - k
  {
    hide Inv, Link, Reachable, Dependencies, Reexports, FirstGuarded, Visit, VisitDependencies, Explained, Settled,
         Noted, Outstanding, JustEmitted;
    DistinctOrder(t, roots, s);
    var hs := Reexports(t[rel])[k..];
    if hs == [] {
      if !Noted(t, s, rel) {
        NothingOutstanding(t, s, rel, k);
      }
    } else {
      assert hs[1..] == Reexports(t[rel])[k + 1..] && hs[0] == Reexports(t[rel])[k] && hs[0] in hs;
      var s0 := Note(s, rel, hs[0]);
      NoteKeeps(t, roots, s, rel, hs[0]);
      if !Noted(t, s, rel) {
        ReachedNext(t, roots, s, rel, k);
      }
      var u := Visit(t, s0, hs[0]).state;
      if !Noted(t, s, rel) && IsEmitted(s, hs[0]) {
        AlreadyEmitted(t, s, hs[0]);
      } else {
        NoteNotes(t, s, rel, hs[0]);
        VisitNotes(t, roots, s0, hs[0]);
        VisitAchieves(t, roots, s0, hs[0]);
        GrewChain(s, s0, u);
        InOrder(t, u, rel);
      }
      forall h | h in hs[1..] ensures MayVisit(t, roots, u, h) && ReexportsTo(t, rel, h) {
        assert h in hs;
      }
      ReexportsNote(t, roots, u, rel, k + 1);
      GrewChain(s, u, VisitReexports(t, u, rel, hs[1..]).state);
    }
  }

  lemma NothingOutstanding(t: Tree, s: State, rel: Header, k: nat)
    requires JustEmitted(t, s, rel, k) && k == |Reexports(t[rel])|
    ensures Noted(t, s, rel)
  {
    hide Outstanding;
  }

  lemma AlreadyEmitted(t: Tree, s: State, target: Header)
    requires IsEmitted(s, target)
    ensures forall rel :: Note(s, rel, target) == s
    ensures Visit(t, s, target) == Done(s)
  {
  }

  lemma InOrder(t: Tree, u: State, rel: Header)
    requires AllNoted(t, u) && rel in u.order
    ensures Noted(t, u, rel)
  {
    hide Noted;
  }

  lemma NoteNotes(t: Tree, s: State, rel: Header, target: Header)
    requires Distinct(s.order) && rel in s.order && forall a :: a in s.order && a != rel ==> Noted(t, s, a)
    requires Noted(t, s, rel) || Noted(t, Note(s, rel, target), rel)
    ensures Grew(s, Note(s, rel, target)) && AllNoted(t, Note(s, rel, target))
  {
    hide Noted;
    var u := Note(s, rel, target);
    forall a | a in u.order ensures Noted(t, u, a) {
      if Noted(t, s, a) {
        NotedGrows(t, s, u, a);
      }
    }
  }

  /** A finished run has noted, for every header in the order, the first of its
      re-exports that was still outstanding when it was emitted. */
  lemma FirstNoted(t: Tree, roots: seq<Header>, a: Header, k: nat)
    requires TopologicalOrder(t, roots).Done?
    ensures var s := TopologicalOrder(t, roots).state;
            a in s.order && FirstOutstanding(t, s.order, a, k) ==> (a, Reexports(t[a])[k]) in s.resolved
  {
    hide VisitDependencies, Outstanding;
    forall h | h in roots ensures MayVisit(t, roots, START, h) {
      RootReachable(t, roots, h);
    }
    DependenciesNote(t, roots, START, roots);
  }

  // ---------------------------------------------------------------------
  // Main results
  // ---------------------------------------------------------------------

  /** The order is right: everything reachable, once, after what it needs. */
  ghost predicate CorrectOrder(t: Tree, roots: seq<Header>, order: seq<Header>) {
    && Distinct(order)
    && (forall h :: h in order <==> Reachable(t, roots, h))
    && DependenciesFirst(t, order)
  }

  /** Either the order is right, or the graph explains the refusal. */
  lemma OrderCorrect(t: Tree, roots: seq<Header>)
    ensures match TopologicalOrder(t, roots)
            case Done(s) =>
              && CorrectOrder(t, roots, s.order)
              && s.trace == []
              && (forall h :: Reachable(t, roots, h) ==> Admitted(t, roots, h))
              && (forall e :: e in s.resolved ==> EmittedLater(t, s.order, e))
            case Failed(e) => Explained(t, roots, e)
  {
    forall h | h in roots ensures MayVisit(t, roots, START, h) {
      RootReachable(t, roots, h);
    }
    DependenciesAchieve(t, roots, START, roots);
    var r := TopologicalOrder(t, roots);
    if r.Done? {
      ReachableInOrder(t, roots, r.state);
      NotedLater(t, roots, r.state);
    }
  }

  lemma ReachableInOrder(t: Tree, roots: seq<Header>, s: State)
    requires Inv(t, roots, s) && Settled(t, START, s) && forall h :: h in roots ==> h in s.order
    ensures forall h :: h in s.order <==> Reachable(t, roots, h)
    ensures forall h :: Reachable(t, roots, h) ==> Admitted(t, roots, h)
  {
    forall h | Reachable(t, roots, h) ensures h in s.order {
      var p :| Walk(t, p) && p[0] in roots && p[|p| - 1] == h;
      WalkStaysInside(t, roots, s, p);
    }
    forall h | h in s.order ensures Admitted(t, roots, h) {
      assert IsEmitted(s, h);
    }
  }

  lemma NotedLater(t: Tree, roots: seq<Header>, s: State)
    requires Inv(t, roots, s) && Settled(t, START, s)
    ensures forall e :: e in s.resolved ==> EmittedLater(t, s.order, e)
  {
    forall e | e in s.resolved ensures EmittedLater(t, s.order, e) {
      assert Outstanding(t, s.order, e);
      var i :| 0 <= i < |s.order| && s.order[i] == e.0 && e.1 !in s.order[..i + 1];
      assert s.order[i] in s.order;
      assert e.1 in s.order;
      var j :| 0 <= j < |s.order| && s.order[j] == e.1;
      assert j > i;
    }
  }

  /** A noted re-export is one whose target follows its source in the output. */
  predicate EmittedLater(t: Tree, order: seq<Header>, e: (Header, Header)) {
    && ReexportsTo(t, e.0, e.1)
    && exists i, j :: 0 <= i < j < |order| && order[i] == e.0 && order[j] == e.1
  }

  lemma {:induction false} WalkStaysInside(t: Tree, roots: seq<Header>, s: State, p: seq<Header>)
    requires Inv(t, roots, s) && Settled(t, START, s)
    requires Walk(t, p) && p[0] in s.order
    ensures p[|p| - 1] in s.order
    decreases |p|
  {
    if |p| > 1 {
      assert Edge(t, p[0], p[1]);
      var i :| 0 <= i < |s.order| && s.order[i] == p[0];
      if DependsOn(t, p[0], p[1]) {
        assert p[1] in s.order[..i];
      }
      var q := p[1..];
      forall k | 0 <= k < |q| - 1 ensures Edge(t, q[k], q[k + 1]) {
        assert Edge(t, p[k + 1], p[k + 2]);
      }
      WalkStaysInside(t, roots, s, q);
    }
  }

  /** A dependency cycle that the roots reach is always refused. */
  lemma DependencyCycleRefused(t: Tree, roots: seq<Header>, p: seq<Header>)
    requires DependencyCycle(t, p) && Reachable(t, roots, p[0])
    ensures TopologicalOrder(t, roots).Failed?
  {
    OrderCorrect(t, roots);
    var r := TopologicalOrder(t, roots);
    if r.Done? {
      var order := r.state.order;
      var i :| 0 <= i < |order| && order[i] == p[0];
      var k := WalkBack(t, order, p, i);
    }
  }

  /** Following dependency edges moves strictly towards the front of the order. */
  lemma {:induction false} WalkBack(t: Tree, order: seq<Header>, p: seq<Header>, i: nat) returns (k: nat)
    requires DependenciesFirst(t, order)
    requires |p| > 1 && forall j :: 0 <= j < |p| - 1 ==> DependsOn(t, p[j], p[j + 1])
    requires i < |order| && order[i] == p[0]
    ensures k < i && order[k] == p[|p| - 1]
    decreases |p|
  {
    assert DependsOn(t, p[0], p[1]);
    assert p[1] in order[..i];
    k :| 0 <= k < i && order[..i][k] == p[1];
    if |p| > 2 {
      var q := p[1..];
      forall j | 0 <= j < |q| - 1 ensures DependsOn(t, q[j], q[j + 1]) {
        assert DependsOn(t, p[j + 1], p[j + 2]);
      }
      k := WalkBack(t, order, q, k);
    }
  }

  /** A reported cycle unfolds into a real closed walk that uses a dependency edge. */
  lemma ReportedCycleIsMixed(t: Tree, c: seq<Header>) returns (p: seq<Header>)
    requires ReportedCycle(t, c)
    ensures MixedCycle(t, p) && p[0] == c[0]
  {
    p := Unfold(t, c);
  }

  lemma {:induction false} Unfold(t: Tree, c: seq<Header>) returns (p: seq<Header>)
    requires |c| > 1 && Chain(t, c)
    ensures Walk(t, p) && |p| > 1 && p[0] == c[0] && p[|p| - 1] == c[|c| - 1] && DependsOn(t, p[0], p[1])
    decreases |c|
  {
    assert Link(t, c[0], c[1]);
    var head :| LinkVia(t, head) && head[0] == c[0] && head[|head| - 1] == c[1];
    LinkIsWalk(t, head);
    if |c| == 2 {
      p := head;
    } else {
      var rest := c[1..];
      forall i | 0 <= i < |rest| - 1 ensures Link(t, rest[i], rest[i + 1]) {
        assert Link(t, c[i + 1], c[i + 2]);
      }
      var tail := Unfold(t, rest);
      WalksJoin(t, head, tail);
      p := head + tail[1..];
    }
  }

  lemma LinkIsWalk(t: Tree, p: seq<Header>)
    requires LinkVia(t, p)
    ensures Walk(t, p)
  {
    forall i | 0 <= i < |p| - 1 ensures Edge(t, p[i], p[i + 1]) {
      if i > 0 {
        assert ReexportsTo(t, p[i], p[i + 1]);
      }
    }
  }

  lemma WalksJoin(t: Tree, p: seq<Header>, q: seq<Header>)
    requires Walk(t, p) && Walk(t, q) && p[|p| - 1] == q[0]
    ensures Walk(t, p + q[1..])
  {
    var w := p + q[1..];
    forall i | 0 <= i < |w| - 1 ensures Edge(t, w[i], w[i + 1]) {
      if i < |p| - 1 {
        assert Edge(t, p[i], p[i + 1]);
      } else {
        assert Edge(t, q[i - |p| + 1], q[i - |p| + 2]);
      }
    }
  }

  /** Refusals need a cause: with every reachable header present and
      unconditional, and no reachable mixed cycle, the run succeeds. */
  lemma NoMixedCycleAccepted(t: Tree, roots: seq<Header>)
    requires forall h :: Reachable(t, roots, h) ==> Admitted(t, roots, h)
    requires forall p :: MixedCycle(t, p) ==> !Reachable(t, roots, p[0])
    ensures TopologicalOrder(t, roots).Done?
  {
    OrderCorrect(t, roots);
    var r := TopologicalOrder(t, roots);
    if r.Failed? {
      match r.error
      case Cycle(c) =>
        var p := ReportedCycleIsMixed(t, c);
      case Missing(h) =>
      case Conditional(h, n) =>
    }
  }

  /** Started at the header it begins with, a mixed cycle is always refused: the
      dependency edge puts that header on the stack before the walk comes back. */
  lemma MixedCycleRefused(t: Tree, p: seq<Header>)
    requires MixedCycle(t, p)
    ensures TopologicalOrder(t, [p[0]]).Failed?
  {
    hide FirstGuarded, Dependencies, Reexports, VisitReexports;
    if FirstGuarded(t[p[0]]).None? {
      ComesBack(t, p);
    }
    assert Visit(t, START, p[0]).Failed?;
  }

  lemma ComesBack(t: Tree, p: seq<Header>)
    requires MixedCycle(t, p) && FirstGuarded(t[p[0]]).None?
    ensures VisitDependencies(t, Push(START, p[0]), Dependencies(t[p[0]])).Failed?
  {
    hide Reachable, Link, FirstGuarded, Dependencies, Reexports, Visit, VisitDependencies, Explained, Settled;
    var a, roots := p[0], [p[0]];
    RootReachable(t, roots, a);
    PushKeeps(t, roots, START, a);
    DependenciesAllowed(t, roots, START, a);
    DependenciesAchieve(t, roots, Push(START, a), Dependencies(t[a]));
    var r := VisitDependencies(t, Push(START, a), Dependencies(t[a]));
    if r.Done? {
      TailWalk(t, p);
      SettledSince(t, Push(START, a), r.state);
      OnStackNotEmitted(t, roots, r.state, a);
      WalkStaysInside(t, roots, r.state, p[1..]);
      assert false;
    }
  }

  lemma SettledSince(t: Tree, before: State, after: State)
    requires Settled(t, before, after) && before.order == []
    ensures Settled(t, START, after)
  {
  }

  lemma OnStackNotEmitted(t: Tree, roots: seq<Header>, s: State, a: Header)
    requires Inv(t, roots, s) && a in s.trace
    ensures a !in s.order
  {
  }

  lemma TailWalk(t: Tree, p: seq<Header>)
    requires Walk(t, p) && |p| > 1
    ensures Walk(t, p[1..])
  {
    forall i | 0 <= i < |p[1..]| - 1 ensures Edge(t, p[1..][i], p[1..][i + 1]) {
      assert Edge(t, p[i + 1], p[i + 2]);
    }
  }

  /** Every header included is there, and none is refused for a conditional. */
  ghost predicate Complete(t: Tree) {
    && (forall a, b :: Edge(t, a, b) ==> b in t)
    && (forall h :: h in t ==> FirstGuarded(t[h]).None?)
  }

  lemma {:induction false} WalkPresent(t: Tree, p: seq<Header>)
    requires Complete(t) && Walk(t, p) && p[0] in t
    ensures p[|p| - 1] in t
    decreases |p|
  {
    if |p| > 1 {
      assert Edge(t, p[0], p[1]);
      TailWalk(t, p);
      WalkPresent(t, p[1..]);
    }
  }

  /** Exactly when every header of a complete tree can be amalgamated on its own:
      when no closed walk over both kinds of edge uses a dependency edge. */
  lemma RefusedIffMixedCycle(t: Tree)
    requires Complete(t)
    ensures (exists r :: r in t && TopologicalOrder(t, [r]).Failed?) <==> exists p :: MixedCycle(t, p)
  {
    if exists p :: MixedCycle(t, p) {
      var p :| MixedCycle(t, p);
      MixedCycleRefused(t, p);
    } else {
      forall r | r in t ensures TopologicalOrder(t, [r]).Done? {
        forall h | Reachable(t, [r], h) ensures Admitted(t, [r], h) {
          var p :| Walk(t, p) && p[0] in [r] && p[|p| - 1] == h;
          WalkPresent(t, p);
        }
        NoMixedCycleAccepted(t, [r]);
      }
    }
  }

  /** A walk from `b` to `a` that uses a dependency edge. */
  ghost predicate LeadsBack(t: Tree, b: Header, a: Header) {
    exists q, k :: Walk(t, q) && q[0] == b && q[|q| - 1] == a && 0 <= k < |q| - 1 && DependsOn(t, q[k], q[k + 1])
  }

  /** Where no re-export closes a cycle that uses a dependency edge, refusing is
      refusing a dependency cycle and nothing else. Loops of re-exports alone are
      accepted. */
  lemma RefusedIffDependencyCycle(t: Tree, roots: seq<Header>)
    requires forall h :: Reachable(t, roots, h) ==> Admitted(t, roots, h)
    requires forall a, b :: Reachable(t, roots, a) && ReexportsTo(t, a, b) ==> !LeadsBack(t, b, a)
    ensures TopologicalOrder(t, roots).Failed? <==>
            exists p :: DependencyCycle(t, p) && Reachable(t, roots, p[0])
  {
    hide TopologicalOrder, Reachable, LeadsBack;
    if exists p :: DependencyCycle(t, p) && Reachable(t, roots, p[0]) {
      var p :| DependencyCycle(t, p) && Reachable(t, roots, p[0]);
      DependencyCycleRefused(t, roots, p);
    } else {
      forall p | MixedCycle(t, p) ensures !Reachable(t, roots, p[0]) {
        if Reachable(t, roots, p[0]) {
          DependenciesOnly(t, roots, p);
        }
      }
      NoMixedCycleAccepted(t, roots);
    }
  }

  lemma DependenciesOnly(t: Tree, roots: seq<Header>, p: seq<Header>)
    requires MixedCycle(t, p) && Reachable(t, roots, p[0])
    requires forall a, b :: Reachable(t, roots, a) && ReexportsTo(t, a, b) ==> !LeadsBack(t, b, a)
    ensures DependencyCycle(t, p)
  {
    hide Reachable, LeadsBack;
    forall i | 0 <= i < |p| - 1 ensures DependsOn(t, p[i], p[i + 1]) {
      assert Edge(t, p[i], p[i + 1]);
      PrefixReachable(t, roots, p, i);
      if i > 0 {
        CycleLeadsBack(t, p, i);
      }
    }
  }

  lemma PrefixReachable(t: Tree, roots: seq<Header>, p: seq<Header>, i: nat)
    requires Walk(t, p) && Reachable(t, roots, p[0]) && i < |p|
    ensures Reachable(t, roots, p[i])
  {
    var w :| Walk(t, w) && w[0] in roots && w[|w| - 1] == p[0];
    WalksJoin(t, w, p[..i + 1]);
    var q := w + p[..i + 1][1..];
    assert q[0] in roots && q[|q| - 1] == p[i];
  }

  lemma CycleLeadsBack(t: Tree, p: seq<Header>, i: nat)
    requires MixedCycle(t, p) && 0 < i < |p| - 1
    ensures LeadsBack(t, p[i + 1], p[i])
  {
    var front, back := p[..i + 1], p[i + 1..];
    forall k | 0 <= k < |back| - 1 ensures Edge(t, back[k], back[k + 1]) {
      assert Edge(t, p[i + 1 + k], p[i + 1 + k + 1]);
    }
    WalksJoin(t, back, front);
    var q, k := back + front[1..], |back| - 1;
    assert q[k] == p[0] && q[k + 1] == p[1];
    assert q[0] == p[i + 1] && q[|q| - 1] == p[i] && DependsOn(t, q[k], q[k + 1]);
  }

  // Otherwise the listing order decides. These two trees hold the same edges and
  // differ only in the order in which the umbrella header lists two includes.
  const A_FIRST: Tree := map["r" := [Internal("a"), Internal("b")],
                             "a" := [Internal("b")],
                             "b" := [Code, Internal("a")]]
  const B_FIRST: Tree := map["r" := [Internal("b"), Internal("a")],
                             "a" := [Internal("b")],
                             "b" := [Code, Internal("a")]]

  lemma OneLine(x: Line)
    ensures Dependencies([x]) == if x.Internal? then [x.target] else []
    ensures Reexports([x]) == []
    ensures Depth([x]) == if x.CondOpen? then 1 else 0
    ensures FirstGuarded([x]).None?
  {
    assert [x][..0] == [];
  }

  lemma TwoLines(x: Line, y: Line)
    requires !x.CondOpen? && y.Internal?
    ensures Dependencies([x, y]) == Dependencies([x]) + if x.Code? then [] else [y.target]
    ensures Reexports([x, y]) == if x.Code? then [y.target] else []
    ensures FirstGuarded([x, y]).None?
  {
    OneLine(x);
    assert [x, y][..1] == [x];
    assert [x, y][..0] == [];
  }

  lemma ExampleShapes()
    ensures Shape(A_FIRST, "r", "a", "b", "a", "b")
    ensures Shape(B_FIRST, "r", "a", "b", "b", "a")
  {
    var r, a, b := "r", "a", "b";
    assert r[0] != a[0] && r[0] != b[0] && a[0] != b[0];
    ShapeOf(A_FIRST, r, a, b, a, b);
    ShapeOf(B_FIRST, r, a, b, b, a);
  }

  lemma ShapeOf(t: Tree, r: Header, a: Header, b: Header, first: Header, second: Header)
    requires r != a && r != b && a != b && r in t && a in t && b in t
    requires t[r] == [Internal(first), Internal(second)] && t[a] == [Internal(b)] && t[b] == [Code, Internal(a)]
    ensures Shape(t, r, a, b, first, second)
  {
    OneLine(Internal(first));
    OneLine(Internal(b));
    OneLine(Code);
    TwoLines(Internal(first), Internal(second));
    TwoLines(Code, Internal(a));
    hide Dependencies, Reexports, FirstGuarded;
  }

  /** The example's shape: `r` lists `first` then `second`, `a` depends on `b`,
      and `b` re-exports `a`. */
  predicate Shape(t: Tree, r: Header, a: Header, b: Header, first: Header, second: Header) {
    && r != a && r != b && a != b && r in t && a in t && b in t
    && Dependencies(t[r]) == [first, second] && Reexports(t[r]) == []
    && Dependencies(t[a]) == [b] && Reexports(t[a]) == []
    && Dependencies(t[b]) == [] && Reexports(t[b]) == [a]
    && FirstGuarded(t[r]).None? && FirstGuarded(t[a]).None? && FirstGuarded(t[b]).None?
  }

  lemma RefusedWhenAFirst(t: Tree, r: Header, a: Header, b: Header)
    requires Shape(t, r, a, b, a, b)
    ensures TopologicalOrder(t, [r]) == Failed(Cycle([a, a]))
  {
    hide Dependencies, Reexports, FirstGuarded;
    var s1 := Push(START, r);
    var s2 := Push(s1, a);
    var s3 := Emit(Push(s2, b), b);
    var failed := Failed(Cycle([a, a]));
    assert Visit(t, s2, b) == failed by {
      assert VisitDependencies(t, Push(s2, b), []) == Done(Push(s2, b));
      assert VisitReexports(t, s3, b, [a]) == failed by {
        var s4 := Note(s3, b, a);
        assert s4.trace == [r, a] && IndexOf([r, a], a) == 1;
        assert s4.trace[1..] + [a] == [a, a];
        assert Visit(t, s4, a) == failed;
      }
    }
    assert Visit(t, s1, a) == failed by {
      assert VisitDependencies(t, s2, [b]) == failed;
    }
    assert VisitDependencies(t, s1, [a, b]) == failed;
    assert Visit(t, START, r) == failed;
  }

  /** Visiting `b` emits it and then, through its re-export, `a`. */
  lemma BThenA(t: Tree, r: Header, a: Header, b: Header, s: State)
    requires Shape(t, r, a, b, b, a) && a !in s.marks && b !in s.marks
    ensures var s2 := Emit(Push(s, b), b);
            Visit(t, s, b) == Done(Emit(Push(Note(s2, b, a), a), a))
  {
    hide Dependencies, Reexports, FirstGuarded;
    var s2 := Emit(Push(s, b), b);
    var s3 := Note(s2, b, a);
    var s4 := Push(s3, a);
    var s5 := Emit(s4, a);
    assert Visit(t, s3, a) == Done(s5) by {
      assert Visit(t, s4, b) == Done(s4);
      assert VisitDependencies(t, s4, [b]) == VisitDependencies(t, s4, [b][1..]) == Done(s4);
    }
    assert VisitDependencies(t, Push(s, b), []) == Done(Push(s, b));
    assert VisitReexports(t, s2, b, [a]) == VisitReexports(t, s5, b, [a][1..]) == Done(s5);
  }

  lemma AcceptedWhenBFirst(t: Tree, r: Header, a: Header, b: Header)
    requires Shape(t, r, a, b, b, a)
    ensures TopologicalOrder(t, [r]).Done?
    ensures TopologicalOrder(t, [r]).state.order == [b, a, r]
  {
    hide Dependencies, Reexports, FirstGuarded;
    var s1 := Push(START, r);
    BThenA(t, r, a, b, s1);
    var s5 := Visit(t, s1, b).state;
    var s6 := Emit(s5, r);
    assert VisitDependencies(t, s1, [b, a]) == Done(s5) by {
      assert [b, a][1..] == [a];
      assert Visit(t, s5, a) == Done(s5);
      assert VisitDependencies(t, s5, [a]) == VisitDependencies(t, s5, [a][1..]) == Done(s5);
    }
    assert Visit(t, START, r) == VisitReexports(t, s6, r, []) == Done(s6);
    assert VisitDependencies(t, START, [r]) == VisitDependencies(t, s6, [r][1..]) == Done(s6);
    assert s6.order == [b, a, r];
  }

  lemma ShapeEdges(t: Tree, r: Header, a: Header, b: Header, first: Header, second: Header)
    requires Shape(t, r, a, b, first, second) && t.Keys == {r, a, b}
    ensures forall h, x :: DependsOn(t, h, x) <==> (h == r && x in {first, second}) || (h == a && x == b)
    ensures forall h, x :: ReexportsTo(t, h, x) <==> h == b && x == a
  {
    hide Dependencies, Reexports, FirstGuarded;
  }

  /** Same edges, no dependency cycle, opposite outcomes: no condition on the
      edges alone separates the refused trees from the accepted ones. */
  lemma ListingOrderDecides()
    ensures forall a, b :: DependsOn(A_FIRST, a, b) <==> DependsOn(B_FIRST, a, b)
    ensures forall a, b :: ReexportsTo(A_FIRST, a, b) <==> ReexportsTo(B_FIRST, a, b)
    ensures forall p :: !DependencyCycle(A_FIRST, p)
    ensures TopologicalOrder(A_FIRST, ["r"]) == Failed(Cycle(["a", "a"]))
    ensures TopologicalOrder(B_FIRST, ["r"]).Done?
  {
    ExampleShapes();
    assert A_FIRST.Keys == {"r", "a", "b"} && B_FIRST.Keys == {"r", "a", "b"};
    hide Shape, DependsOn, ReexportsTo, TopologicalOrder;
    ShapeEdges(A_FIRST, "r", "a", "b", "a", "b");
    ShapeEdges(B_FIRST, "r", "a", "b", "b", "a");
    RefusedWhenAFirst(A_FIRST, "r", "a", "b");
    AcceptedWhenBFirst(B_FIRST, "r", "a", "b");
    forall p ensures !DependencyCycle(A_FIRST, p) {
      if DependencyCycle(A_FIRST, p) {
        RankFalls(A_FIRST, "r", "a", "b", p);
      }
    }
  }

  function Rank(r: Header, a: Header, h: Header): nat {
    if h == r then 2 else if h == a then 1 else 0
  }

  /** Dependency edges of the example lead from `r` to `a` to `b` and stop. */
  lemma {:induction false} RankFalls(t: Tree, r: Header, a: Header, b: Header, p: seq<Header>)
    requires forall h, x :: DependsOn(t, h, x) <==> (h == r && x in {a, b}) || (h == a && x == b)
    requires r != a && r != b && a != b
    requires |p| > 1 && forall i :: 0 <= i < |p| - 1 ==> DependsOn(t, p[i], p[i + 1])
    ensures Rank(r, a, p[0]) > Rank(r, a, p[|p| - 1])
  {
    assert DependsOn(t, p[0], p[1]);
    if |p| > 2 {
      var q := p[1..];
      forall i | 0 <= i < |q| - 1 ensures DependsOn(t, q[i], q[i + 1]) {
        assert DependsOn(t, p[i + 1], p[i + 2]);
      }
      RankFalls(t, r, a, b, q);
    }
  }

  // ---------------------------------------------------------------------
  // The tool's own form: one object whose fields `visit` updates
  // ---------------------------------------------------------------------

  class Orderer {
    const tree: Tree
    var order: seq<Header>
    var marks: map<Header, Mark>
    var trace: seq<Header>
    var resolved: seq<(Header, Header)>

    ghost function View(): State
      reads this
    {
      State(order, marks, trace, resolved)
    }

    constructor (tree: Tree)
      ensures this.tree == tree && View() == START
    {
      this.tree := tree;
      order, marks, trace, resolved := [], map[], [], [];
    }

    /** One call of `visit`; the error, if any, is what it raises. */
    method VisitHeader(rel: Header) returns (error: Option<Error>)
      modifies this
      ensures match Visit(tree, old(View()), rel)
              case Done(s) => error.None? && View() == s
              case Failed(e) => error == Some(e)
      decreases tree.Keys - marks.Keys, 0
    {
      if rel in marks && marks[rel] == Emitted {
        return None;
      }
      if rel in marks {
        return Some(Cycle(trace[IndexOf(trace, rel)..] + [rel]));
      }
      if rel !in tree {
        return Some(Missing(rel));
      }
      var split := SplitIncludes(tree[rel]);
      if split.Refused? {
        return Some(Conditional(rel, split.line));
      }
      assert rel in tree.Keys - marks.Keys;
      marks := marks[rel := OnStack];
      trace := trace + [rel];
      error := VisitEach(split.dependencies);
      if error.Some? {
        return;
      }
      trace := trace[..|trace| - 1];
      marks := marks[rel := Emitted];
      order := order + [rel];
      assert View() == Emit(VisitDependencies(tree, Push(old(View()), rel), split.dependencies).state, rel);
      error := FollowReexports(rel, split.reexports);
    }

    method VisitEach(hs: seq<Header>) returns (error: Option<Error>)
      modifies this
      ensures match VisitDependencies(tree, old(View()), hs)
              case Done(s) => error.None? && View() == s
              case Failed(e) => error == Some(e)
      decreases tree.Keys - marks.Keys, |hs|
    {
      for i := 0 to |hs|
        invariant old(marks).Keys <= marks.Keys
        invariant VisitDependencies(tree, old(View()), hs) == VisitDependencies(tree, View(), hs[i..])
      {
        error := VisitHeader(hs[i]);
        assert hs[i..][1..] == hs[i + 1..];
        if error.Some? {
          return;
        }
      }
      error := None;
    }

    method FollowReexports(rel: Header, hs: seq<Header>) returns (error: Option<Error>)
      modifies this
      ensures match VisitReexports(tree, old(View()), rel, hs)
              case Done(s) => error.None? && View() == s
              case Failed(e) => error == Some(e)
      decreases tree.Keys - marks.Keys, |hs|
    {
      for i := 0 to |hs|
        invariant old(marks).Keys <= marks.Keys
        invariant VisitReexports(tree, old(View()), rel, hs) == VisitReexports(tree, View(), rel, hs[i..])
      {
        var dep := hs[i];
        ghost var s0 := Note(View(), rel, dep);
        if !(dep in marks && marks[dep] == Emitted) {
          resolved := resolved + [(rel, dep)];
        }
        assert View() == s0;
        error := VisitHeader(dep);
        assert hs[i..][1..] == hs[i + 1..];
        if error.Some? {
          return;
        }
      }
      error := None;
    }

    /** `topological_order`: visit every root from a fresh start. */
    method Run(roots: seq<Header>) returns (error: Option<Error>)
      requires View() == START
      modifies this
      ensures error.None? ==> CorrectOrder(tree, roots, order)
      ensures error.Some? ==> Explained(tree, roots, error.value)
      ensures (exists p :: DependencyCycle(tree, p) && Reachable(tree, roots, p[0])) ==> error.Some?
    {
      error := VisitEach(roots);
      OrderCorrect(tree, roots);
      forall p | DependencyCycle(tree, p) && Reachable(tree, roots, p[0]) ensures error.Some? {
        DependencyCycleRefused(tree, roots, p);
      }
    }
  }
}
