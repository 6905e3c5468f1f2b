/**
 Counting the instructions of a benchmark region in an execution trace
 (tools/check_qemu_probes.py): which traces are accepted, and what their counts
 mean.
 */
module Probes {

  /** A line that names an executed address, or any other. */
  datatype TraceLine = Trace(pc: nat) | Noise

  datatype ProbeError = EnteredTwice | EndedOutside | NoTrace | CutShort | Mismatch | ShouldBeAbsent

  datatype Result<T> = Ok(value: T) | Err(error: ProbeError)

  /** An address without the Thumb bit. */
  function Even(pc: nat): nat {
    pc - pc % 2
  }

  // ---------------------------------------------------------------------
  // The trace as events
  // ---------------------------------------------------------------------

  datatype Event = Begin | End | Other

  function Classify(pc: nat, begin: nat, end: nat): Event {
    if Even(pc) == Even(begin) then Begin else if Even(pc) == Even(end) then End else Other
  }

  /** A marker is told by its address without the lowest bit, the beginning first. */
  lemma ClassifyMeans(pc: nat, begin: nat, end: nat)
    ensures Classify(pc, begin, end) == Begin <==> pc / 2 == begin / 2
    ensures Classify(pc, begin, end) == End <==> pc / 2 != begin / 2 && pc / 2 == end / 2
  {
  }

  function Events(lines: seq<TraceLine>, begin: nat, end: nat): seq<Event> {
    if lines == [] then [] else
    var before := Events(lines[..|lines| - 1], begin, end);
    match lines[|lines| - 1]
    case Noise => before
    case Trace(pc) => before + [Classify(pc, begin, end)]
  }

  datatype Scan = Outside(counts: seq<nat>) | Inside(counts: seq<nat>, run: nat) | Broken(error: ProbeError)

  function Step(s: Scan, e: Event): Scan {
    match s
    case Broken(_) => s
    case Outside(counts) =>
      (match e case Begin => Inside(counts, 0) case End => Broken(EndedOutside) case Other => s)
    case Inside(counts, run) =>
      (match e case Begin => Broken(EnteredTwice) case End => Outside(counts + [run])
       case Other => Inside(counts, run + 1))
  }

  function Scanned(events: seq<Event>): Scan {
    if events == [] then Outside([]) else Step(Scanned(events[..|events| - 1]), events[|events| - 1])
  }

  function Counted(events: seq<Event>): Result<seq<nat>> {
    match Scanned(events)
    case Broken(error) => Err(error)
    case Outside(counts) => if events == [] then Err(NoTrace) else Ok(counts)
    case Inside(_, _) => Err(CutShort)
  }

  /** A refused trace ends the moment a region is begun inside one or ended outside one,
      and the error says which. */
  lemma FaultNamed(events: seq<Event>, i: nat)
    requires i < |events| && !Scanned(events[..i]).Broken? && Scanned(events[..i + 1]).Broken?
    ensures var e := Scanned(events[..i + 1]).error;
            && (events[i] == Begin ==> e == EnteredTwice && Scanned(events[..i]).Inside?)
            && (events[i] == End ==> e == EndedOutside && Scanned(events[..i]).Outside?)
            && events[i] != Other
  {
    assert events[..i + 1][..i] == events[..i];
  }

  method CountRegions(lines: seq<TraceLine>, begin: nat, end: nat) returns (r: Result<seq<nat>>)
    ensures r == Counted(Events(lines, begin, end))
  {
    hide Classify, Events, Scanned;
    var counts: seq<nat>, inside, run, parsed := [], false, 0, 0;
    NothingScanned(begin, end);
    assert lines[..0] == [];
    for i := 0 to |lines|
      invariant parsed == |Events(lines[..i], begin, end)|
      invariant Scanned(Events(lines[..i], begin, end)) == if inside then Inside(counts, run) else Outside(counts)
    {
      OneLineMore(lines, i, begin, end);
      if lines[i].Noise? {
        continue;
      }
      parsed := parsed + 1;
      match Classify(lines[i].pc, begin, end) {
        case Begin =>
          if inside {
            StaysBroken(lines, i + 1, begin, end);
            return Err(EnteredTwice);
          }
          inside, run := true, 0;
        case End =>
          if !inside {
            StaysBroken(lines, i + 1, begin, end);
            return Err(EndedOutside);
          }
          counts, inside := counts + [run], false;
        case Other =>
          if inside {
            run := run + 1;
          }
      }
    }
    assert lines[..|lines|] == lines;
    if parsed == 0 {
      return Err(NoTrace);
    }
    if inside {
      return Err(CutShort);
    }
    return Ok(counts);
  }

  lemma NothingScanned(begin: nat, end: nat)
    ensures Events([], begin, end) == [] && Scanned([]) == Outside([])
  {
  }

  lemma OneLineMore(lines: seq<TraceLine>, i: nat, begin: nat, end: nat)
    requires i < |lines|
    ensures var before, after := Events(lines[..i], begin, end), Events(lines[..i + 1], begin, end);
            if lines[i].Noise? then after == before
            else after == before + [Classify(lines[i].pc, begin, end)] &&
                 Scanned(after) == Step(Scanned(before), Classify(lines[i].pc, begin, end))
  {
    assert lines[..i + 1][..i] == lines[..i];
    if lines[i].Trace? {
      ScannedMore(Events(lines[..i], begin, end), Classify(lines[i].pc, begin, end));
    }
  }

  lemma {:induction false} StaysBroken(lines: seq<TraceLine>, i: nat, begin: nat, end: nat)
    requires i <= |lines| && Scanned(Events(lines[..i], begin, end)).Broken?
    ensures Scanned(Events(lines, begin, end)) == Scanned(Events(lines[..i], begin, end))
    decreases |lines|
  {
    if i == |lines| {
      assert lines[..i] == lines;
    } else {
      var most := lines[..|lines| - 1];
      assert most[..i] == lines[..i];
      StaysBroken(most, i, begin, end);
      if lines[|lines| - 1].Trace? {
        var events := Events(lines, begin, end);
        assert events[..|events| - 1] == Events(most, begin, end);
      }
    }
  }

  // ---------------------------------------------------------------------
  // The accepted traces
  // ---------------------------------------------------------------------

  function Others(n: nat): (r: seq<Event>)
    ensures |r| == n
  {
    seq(n, i => Other)
  }

  /** Regions of the given sizes, with the given gaps before, between and after. */
  function Rendered(gaps: seq<nat>, counts: seq<nat>): seq<Event>
    requires |gaps| == |counts| + 1
    decreases |counts|
  {
    var n := |counts|;
    if n == 0 then Others(gaps[0])
    else Rendered(gaps[..n], counts[..n - 1]) + [Begin] + Others(counts[n - 1]) + [End] + Others(gaps[n])
  }

  lemma ScannedMore(events: seq<Event>, e: Event)
    ensures Scanned(events + [e]) == Step(Scanned(events), e)
  {
    assert (events + [e])[..|events|] == events;
  }

  lemma {:induction false} ScannedOthers(events: seq<Event>, n: nat)
    ensures Scanned(events + Others(n)) ==
            match Scanned(events) case Inside(counts, run) => Inside(counts, run + n) case s => s
  {
    if n == 0 {
      assert events + Others(0) == events;
    } else {
      ScannedOthers(events, n - 1);
      ScannedMore(events + Others(n - 1), Other);
      assert events + Others(n) == events + Others(n - 1) + [Other];
    }
  }

  /** Alternating regions are counted, each by its length. */
  lemma {:induction false} RenderedScans(gaps: seq<nat>, counts: seq<nat>)
    requires |gaps| == |counts| + 1
    ensures Scanned(Rendered(gaps, counts)) == Outside(counts)
    decreases |counts|
  {
    hide Scanned;
    var n := |counts|;
    if n == 0 {
      ScannedOthers([], gaps[0]);
      assert [] + Others(gaps[0]) == Others(gaps[0]);
      NothingScanned(0, 0);
    } else {
      RenderedScans(gaps[..n], counts[..n - 1]);
      var before := Rendered(gaps[..n], counts[..n - 1]);
      ScannedMore(before, Begin);
      ScannedOthers(before + [Begin], counts[n - 1]);
      ScannedMore(before + [Begin] + Others(counts[n - 1]), End);
      ScannedOthers(before + [Begin] + Others(counts[n - 1]) + [End], gaps[n]);
      assert counts[..n - 1] + [counts[n - 1]] == counts;
    }
  }

  /** A scan that did not break saw alternating regions, the last perhaps open. */
  lemma {:induction false} ScannedShape(events: seq<Event>) returns (gaps: seq<nat>)
    requires !Scanned(events).Broken?
    ensures |gaps| == |Scanned(events).counts| + 1
    ensures match Scanned(events)
            case Outside(counts) => events == Rendered(gaps, counts)
            case Inside(counts, run) => events == Rendered(gaps, counts) + [Begin] + Others(run)
            case Broken(_) => true
  {
    if events == [] {
      assert Others(0) == [];
      return [0];
    }
    hide Rendered, Scanned, Others;
    var before, e := events[..|events| - 1], events[|events| - 1];
    assert events == before + [e];
    ScannedMore(before, e);
    gaps := ScannedShape(before);
    match Scanned(before) {
      case Outside(counts) =>
        if e == Other {
          LastGap(gaps, counts);
          gaps := gaps[|counts| := gaps[|counts|] + 1];
        } else {
          Opened(before);
        }
      case Inside(counts, run) =>
        if e == Other {
          Longer(Rendered(gaps, counts) + [Begin], run);
        } else {
          NewRegion(gaps, counts, run);
          gaps := gaps + [0];
        }
    }
  }

  lemma Opened(before: seq<Event>)
    ensures before + [Begin] + Others(0) == before + [Begin]
  {
  }

  lemma Longer(before: seq<Event>, run: nat)
    ensures before + Others(run) + [Other] == before + Others(run + 1)
  {
    assert Others(run + 1) == Others(run) + [Other];
  }

  lemma LastGap(gaps: seq<nat>, counts: seq<nat>)
    requires |gaps| == |counts| + 1
    ensures Rendered(gaps[|counts| := gaps[|counts|] + 1], counts) == Rendered(gaps, counts) + [Other]
  {
    var n := |counts|;
    assert gaps[n := gaps[n] + 1][..n] == gaps[..n];
    assert Others(gaps[n] + 1) == Others(gaps[n]) + [Other];
  }

  lemma NewRegion(gaps: seq<nat>, counts: seq<nat>, run: nat)
    requires |gaps| == |counts| + 1
    ensures Rendered(gaps + [0], counts + [run]) == Rendered(gaps, counts) + [Begin] + Others(run) + [End]
  {
    assert (gaps + [0])[..|counts| + 1] == gaps && (counts + [run])[..|counts|] == counts;
    assert Others(0) == [];
  }

  /** A trace is accepted, with given counts, exactly when it names at least one
      address and is alternating regions of those lengths. */
  lemma AcceptedIff(events: seq<Event>, counts: seq<nat>)
    ensures Counted(events) == Ok(counts) <==>
            events != [] && exists gaps: seq<nat> :: |gaps| == |counts| + 1 && events == Rendered(gaps, counts)
  {
    hide Scanned, Rendered;
    if Counted(events) == Ok(counts) {
      var gaps := ScannedShape(events);
    }
    forall gaps: seq<nat> | |gaps| == |counts| + 1 && events == Rendered(gaps, counts)
      ensures Scanned(events) == Outside(counts)
    {
      RenderedScans(gaps, counts);
    }
  }

  /** Lines that name no address change nothing, wherever they are. */
  lemma {:induction false} NoiseIgnored(a: seq<TraceLine>, b: seq<TraceLine>, begin: nat, end: nat)
    ensures Events(a + [Noise] + b, begin, end) == Events(a + b, begin, end)
  {
    if b == [] {
      assert (a + [Noise] + b)[..|a|] == a && a + b == a;
    } else {
      assert (a + [Noise] + b)[..|a| + |b|] == a + [Noise] + b[..|b| - 1];
      assert (a + b)[..|a| + |b| - 1] == a + b[..|b| - 1];
      NoiseIgnored(a, b[..|b| - 1], begin, end);
    }
  }

  lemma {:induction false} EventsConcat(a: seq<TraceLine>, b: seq<TraceLine>, begin: nat, end: nat)
    ensures Events(a + b, begin, end) == Events(a, begin, end) + Events(b, begin, end)
  {
    if b == [] {
      assert a + b == a;
    } else {
      assert (a + b)[..|a + b| - 1] == a + b[..|b| - 1];
      EventsConcat(a, b[..|b| - 1], begin, end);
    }
  }

  lemma {:induction false} ScannedConcat(a: seq<Event>, b: seq<Event>, counts: seq<nat>)
    requires Scanned(a) == Outside(counts)
    ensures Scanned(a + b) == match Scanned(b)
                              case Outside(more) => Outside(counts + more)
                              case Inside(more, run) => Inside(counts + more, run)
                              case Broken(error) => Broken(error)
  {
    if b == [] {
      assert a + b == a;
    } else {
      var most := b[..|b| - 1];
      ScannedConcat(a, most, counts);
      assert (a + b)[..|a + b| - 1] == a + most;
      if Scanned(most).Inside? {
        assert counts + Scanned(most).counts + [Scanned(most).run] ==
               counts + (Scanned(most).counts + [Scanned(most).run]);
      }
    }
  }

  /** Accepted traces one after the other give their counts one after the other. */
  lemma AcceptedConcat(a: seq<TraceLine>, b: seq<TraceLine>, begin: nat, end: nat)
    requires Counted(Events(a, begin, end)).Ok? && Counted(Events(b, begin, end)).Ok?
    ensures Counted(Events(a + b, begin, end)) ==
            Ok(Counted(Events(a, begin, end)).value + Counted(Events(b, begin, end)).value)
  {
    hide Events, Scanned;
    EventsConcat(a, b, begin, end);
    ScannedConcat(Events(a, begin, end), Events(b, begin, end), Counted(Events(a, begin, end)).value);
  }

  /** With one address for both ends nothing is ever counted. */
  lemma {:induction false} SameAddress(lines: seq<TraceLine>, begin: nat, end: nat)
    requires Even(begin) == Even(end)
    ensures Scanned(Events(lines, begin, end)).Broken? || Scanned(Events(lines, begin, end)).counts == []
    ensures Counted(Events(lines, begin, end)).Ok? ==> Begin !in Events(lines, begin, end)
  {
    if lines != [] {
      SameAddress(lines[..|lines| - 1], begin, end);
      var events := Events(lines, begin, end);
      if lines[|lines| - 1].Trace? {
        assert events[..|events| - 1] == Events(lines[..|lines| - 1], begin, end);
      }
    }
  }

  // ---------------------------------------------------------------------
  // Matching names
  // ---------------------------------------------------------------------

  function Zipped(names: seq<string>, counts: seq<nat>): map<string, nat>
    requires |names| == |counts|
  {
    if names == [] then map[] else
    var n := |names| - 1;
    Zipped(names[..n], counts[..n])[names[n] := counts[n]]
  }

  function MatchRegions(names: seq<string>, counts: seq<nat>, absent: set<string>): Result<map<string, nat>> {
    if |names| != |counts| then Err(Mismatch)
    else if exists name :: name in names && name in absent then Err(ShouldBeAbsent)
    else Ok(Zipped(names, counts))
  }

  predicate Distinct(names: seq<string>) {
    forall i, j :: 0 <= i < j < |names| ==> names[i] != names[j]
  }

  /** With distinct names, the i-th name has the i-th count and no other name is there. */
  lemma {:induction false} ZippedPairs(names: seq<string>, counts: seq<nat>)
    requires |names| == |counts| && Distinct(names)
    ensures forall i :: 0 <= i < |names| ==>
              names[i] in Zipped(names, counts) && Zipped(names, counts)[names[i]] == counts[i]
    ensures Zipped(names, counts).Keys == set name | name in names
  {
    if names != [] {
      var n := |names| - 1;
      ZippedPairs(names[..n], counts[..n]);
      assert names == names[..n] + [names[n]];
    }
  }

  /** A well-formed trace measures each named region by its own length. */
  lemma MeasuredByName(names: seq<string>, gaps: seq<nat>, counts: seq<nat>, absent: set<string>, i: nat)
    requires i < |names| == |counts| && |gaps| == |counts| + 1 && Distinct(names)
    requires forall name :: name in names ==> name !in absent
    ensures var counted := Counted(Rendered(gaps, counts));
            && counted.Ok?
            && var r := MatchRegions(names, counted.value, absent);
               r.Ok? && names[i] in r.value && r.value[names[i]] == counts[i]
  {
    hide Zipped;
    RenderedScans(gaps, counts);
    ZippedPairs(names, counts);
  }
}
