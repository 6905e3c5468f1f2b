/**
 A UART receive path over the byte ring (examples/uart_byte_ring.cpp): transfers
 of any size into whatever run is free, and lines assembled out of whatever run
 is readable.
 */
module Uart {
  import opened ByteRing

  const MAX_LINES := 4
  const LINE_CAPACITY := 32
  const LONGEST_TRANSFER := 5

  // ---------------------------------------------------------------------
  // Assembling lines
  // ---------------------------------------------------------------------

  /** The lines kept, the line in progress, whether any line was too long, and how
      many lines ended. */
  datatype State = State(lines: seq<string>, current: string, overflowed: bool, completed: nat)

  const EMPTY := State([], [], false, 0)

  function Step(s: State, c: char): State {
    if c == '\n' then
      s.(lines := if |s.lines| < MAX_LINES then s.lines + [s.current] else s.lines, current := [],
         completed := s.completed + 1)
    else if |s.current| < LINE_CAPACITY then s.(current := s.current + [c])
    else s.(overflowed := true)
  }

  function Feed(s: State, text: string): State {
    if text == [] then s else Step(Feed(s, text[..|text| - 1]), text[|text| - 1])
  }

  /** However the bytes are cut into runs, the outcome is that of their
      concatenation. */
  lemma {:induction false} FeedConcat(s: State, a: string, b: string)
    ensures Feed(s, a + b) == Feed(Feed(s, a), b)
  {
    if b == [] {
      assert a + b == a;
    } else {
      assert (a + b)[..|a + b| - 1] == a + b[..|b| - 1];
      FeedConcat(s, a, b[..|b| - 1]);
    }
  }

  /** The text split at newlines; the last piece is the unfinished line. */
  function Segments(text: string): (r: seq<string>)
    ensures |r| > 0
  {
    if text == [] then [[]] else
    var before, c := Segments(text[..|text| - 1]), text[|text| - 1];
    var last := |before| - 1;
    if c == '\n' then before + [[]] else before[last := before[last] + [c]]
  }

  function Join(segments: seq<string>): string
    requires |segments| > 0
  {
    if |segments| == 1 then segments[0]
    else Join(segments[..|segments| - 1]) + "\n" + segments[|segments| - 1]
  }

  /** The split is the one whose pieces hold no newline and join to the text. */
  lemma {:induction false} SegmentsSplit(text: string)
    ensures Join(Segments(text)) == text
    ensures forall i :: 0 <= i < |Segments(text)| ==> '\n' !in Segments(text)[i]
  {
    if text != [] {
      var before, c := Segments(text[..|text| - 1]), text[|text| - 1];
      SegmentsSplit(text[..|text| - 1]);
      var last := |before| - 1;
      assert text == text[..|text| - 1] + [c];
      if c == '\n' {
        assert (before + [[]])[..|before|] == before;
      } else {
        var longer := before[last] + [c];
        assert before[last := longer][..last] == before[..last];
        assert Join(before[last := longer]) == Join(before) + [c];
      }
    }
  }

  function Cut(segment: string): string {
    if |segment| <= 32 then segment else segment[..32]
  }

  /** The finished lines that are kept, each cut. */
  function Kept(segments: seq<string>): (r: seq<string>)
    requires |segments| > 0
  {
    var finished := |segments| - 1;
    seq(if finished < 4 then finished else 4, i requires 0 <= i < finished => Cut(segments[i]))
  }

  predicate AnyLong(segments: seq<string>) {
    exists i :: 0 <= i < |segments| && |segments[i]| > 32
  }

  /** What the assembler holds after any text: its first four lines and its
      unfinished one, each cut to 32 characters, whether any was cut, and how
      many ended. */
  function Outcome(text: string): State {
    var segments := Segments(text);
    var last := |segments| - 1;
    State(Kept(segments), Cut(segments[last]), AnyLong(segments), last)
  }

  lemma {:induction false} FeedIs(text: string)
    ensures Feed(EMPTY, text) == Outcome(text)
  {
    if text == [] {
      assert Segments(text) == [[]];
    } else {
      hide AnyLong, Kept, Cut;
      FeedIs(text[..|text| - 1]);
      var before, after, c := Segments(text[..|text| - 1]), Segments(text), text[|text| - 1];
      LongStep(before, after, c);
      KeptStep(before, after, c);
      CutStep(before[|before| - 1], c);
      CutNone();
    }
  }

  /** The split, one character later. */
  predicate Extends(before: seq<string>, after: seq<string>, c: char) {
    |before| > 0 &&
    after == if c == '\n' then before + [[]] else before[|before| - 1 := before[|before| - 1] + [c]]
  }

  lemma LongStep(before: seq<string>, after: seq<string>, c: char)
    requires Extends(before, after, c)
    ensures AnyLong(after) <==> AnyLong(before) || (c != '\n' && |Cut(before[|before| - 1])| == LINE_CAPACITY)
  {
    var last := |before| - 1;
    if AnyLong(before) {
      var i :| 0 <= i < |before| && |before[i]| > LINE_CAPACITY;
      assert |after[i]| > LINE_CAPACITY;
    }
    if AnyLong(after) {
      var i :| 0 <= i < |after| && |after[i]| > LINE_CAPACITY;
      if i != last {
        assert |before[i]| > LINE_CAPACITY;
      } else if |before[last]| > LINE_CAPACITY {
        assert AnyLong(before);
      }
    }
    if c != '\n' && |before[last]| >= LINE_CAPACITY {
      assert |after[last]| > LINE_CAPACITY;
    }
  }

  lemma KeptStep(before: seq<string>, after: seq<string>, c: char)
    requires Extends(before, after, c)
    ensures Kept(after) == if c == '\n' && |Kept(before)| < MAX_LINES then Kept(before) + [Cut(before[|before| - 1])]
                           else Kept(before)
  {
    hide Cut;
    forall i | 0 <= i < |before| - 1 ensures after[i] == before[i] {
    }
  }

  lemma CutStep(segment: string, c: char)
    ensures Cut(segment + [c]) == if |Cut(segment)| < LINE_CAPACITY then Cut(segment) + [c] else Cut(segment)
  {
  }

  lemma CutNone()
    ensures Cut([]) == []
  {
  }

  class LineAssembler {
    var lines: seq<string>
    var current: string
    var overflowed: bool
    ghost var completed: nat

    constructor ()
      ensures View() == EMPTY
    {
      lines, current, overflowed := [], [], false;
      completed := 0;
    }

    ghost function View(): State
      reads this
    {
      State(lines, current, overflowed, completed)
    }

    /** Scans a run up to its first newline, which it takes but does not act on. */
    method Scan(run: string) returns (taken: nat, lineEnded: bool)
      requires run != []
      modifies this`current, this`overflowed
      ensures 0 < taken <= |run| && (if lineEnded then run[taken - 1] == '\n' else taken == |run|)
      ensures var line := run[..if lineEnded then taken - 1 else taken];
              '\n' !in line && View() == Feed(old(View()), line)
    {
      hide Feed;
      taken, lineEnded := 0, false;
      FeedNone(View());
      for i := 0 to |run|
        invariant taken == i && '\n' !in run[..i] && View() == Feed(old(View()), run[..i])
      {
        taken := i + 1;
        if run[i] == '\n' {
          return taken, true;
        }
        FeedOne(old(View()), run[..i], run[i]);
        assert run[..i] + [run[i]] == run[..i + 1];
        if |current| < LINE_CAPACITY {
          current := current + [run[i]];
        } else {
          overflowed := true;
        }
      }
    }

    method EndLine()
      modifies this
      ensures View() == Step(old(View()), '\n')
    {
      if |lines| < MAX_LINES {
        lines := lines + [current];
      }
      current, completed := [], completed + 1;
    }

    /** Takes a run up to its first newline, and that newline. */
    method TakeLine(run: string) returns (taken: nat, lineEnded: bool)
      requires run != []
      modifies this
      ensures 0 < taken <= |run| && View() == Feed(old(View()), run[..taken])
      ensures completed == old(completed) + if lineEnded then 1 else 0
    {
      hide Feed;
      ghost var before := View();
      taken, lineEnded := Scan(run);
      if lineEnded {
        EndLine();
        FeedOne(before, run[..taken - 1], '\n');
        assert run[..taken - 1] + ['\n'] == run[..taken];
      }
    }

    /** Takes every byte in the ring, and counts the lines that ended. */
    method Drain(ring: Ring) returns (count: nat)
      requires ring.Valid()
      modifies this, ring`head, ring`contents, ring`start
      ensures ring.Valid() && ring.contents == []
      ensures View() == Feed(old(View()), old(ring.contents))
      ensures count == View().completed - old(View().completed)
    {
      hide Feed, Slot, Stored, Wrap, Divides;
      count := 0;
      ghost var all, before, done := ring.contents, View(), 0;
      FeedNone(before);
      while true
        invariant ring.Valid() && done <= |all| && ring.contents == all[done..]
        invariant View() == Feed(before, all[..done]) && count == completed - before.completed
        decreases |ring.contents|
      {
        var offset, length := ring.ReadableSpan();
        if length == 0 {
          assert all[..done] == all;
          return;
        }
        var run := ring.storage[offset..offset + length];
        var taken, lineEnded := TakeLine(run);
        if lineEnded {
          count := count + 1;
        }
        FedNext(before, all, done, run, taken);
        ring.Consume(taken);
        done := done + taken;
      }
    }
  }

  lemma FedNext(before: State, all: string, done: nat, run: string, taken: nat)
    requires done <= |all| && run <= all[done..] && taken <= |run|
    ensures Feed(Feed(before, all[..done]), run[..taken]) == Feed(before, all[..done + taken])
    ensures all[done..][taken..] == all[done + taken..]
  {
    hide Feed;
    assert run[..taken] == all[done..][..taken];
    assert all[..done] + run[..taken] == all[..done + taken];
    FeedConcat(before, all[..done], run[..taken]);
  }

  /** A peripheral that delivers the wire's bytes in short transfers. */
  class Peripheral {
    const wire: string
    var position: nat

    constructor (wire: string)
      ensures this.wire == wire && position == 0
    {
      this.wire, position := wire, 0;
    }

    /** Writes the next bytes of the wire into a region of the ring. */
    method ReceiveInto(ring: Ring, offset: nat, length: nat) returns (count: nat)
      requires ring.Valid() && position <= |wire| && offset == ring.Free()
      requires |ring.contents| + length <= ring.capacity && offset + length <= ring.capacity
      modifies this`position, ring.storage
      ensures ring.Valid() && position == old(position) + count <= |wire| && count <= length
      ensures (count == 0 <==> length == 0 || old(position) == |wire|) && count <= 5
      ensures count == 5 || count == length || position == |wire|
      ensures ring.storage[..] == Overwritten(old(ring.storage[..]), offset, wire[old(position)..position])
    {
      hide Slot, Stored, Wrap, Divides, Overwritten;
      ghost var before := ring.storage[..];
      OverwrittenNone(before, offset, wire[position..position]);
      var remaining := |wire| - position;
      if remaining == 0 || length == 0 {
        return 0;
      }
      count := if remaining < length then remaining else length;
      if count > LONGEST_TRANSFER {
        count := LONGEST_TRANSFER;
      }
      for i := 0 to count
        invariant ring.Valid() && position == old(position)
        invariant ring.storage[..] == Overwritten(before, offset, wire[position..position + i])
      {
        OverwrittenNext(before, offset, wire, position, i);
        ring.Put(i, wire[position + i]);
      }
      position := position + count;
    }
  }

  /** The bytes in place, and nothing else changed. */
  function Overwritten(storage: seq<char>, offset: nat, bytes: seq<char>): seq<char>
    requires offset + |bytes| <= |storage|
  {
    storage[..offset] + bytes + storage[offset + |bytes|..]
  }

  lemma OverwrittenNone(storage: seq<char>, offset: nat, bytes: seq<char>)
    requires offset <= |storage| && bytes == []
    ensures Overwritten(storage, offset, bytes) == storage
  {
  }

  lemma OverwrittenNext(storage: seq<char>, offset: nat, wire: seq<char>, from: nat, i: nat)
    requires from + i < |wire| && offset + i < |storage|
    ensures Overwritten(storage, offset, wire[from..from + i])[offset + i := wire[from + i]] ==
            Overwritten(storage, offset, wire[from..from + i + 1])
  {
  }

  /** One pass's transfer. With the ring drained there is room for some of it. */
  method Transfer(uart: Peripheral, ring: Ring)
    requires ring.Valid() && ring.contents == [] && uart.position <= |uart.wire|
    modifies uart, ring`tail, ring`contents, ring.storage
    ensures ring.Valid() && old(uart.position) <= uart.position <= |uart.wire|
    ensures ring.contents == uart.wire[old(uart.position)..uart.position]
    ensures old(uart.position) < |uart.wire| ==> ring.contents != []
  {
    hide Slot, Stored, Wrap, Divides;
    var offset, length := ring.WritableSpan();
    if length > 0 {
      var received := uart.ReceiveInto(ring, offset, length);
      if received > 0 {
        assert ring.storage[offset..offset + received] == ring.storage[..][offset..offset + received];
        ring.Commit(received);
      }
    }
  }

  /** The super-loop: for any wire and any ring it stops, every byte delivered, and
      the lines are those of the whole wire. */
  method Run(wire: string, ring: Ring) returns (assembler: LineAssembler)
    requires ring.Valid() && ring.contents == []
    modifies ring, ring.storage
    ensures fresh(assembler) && ring.contents == [] && assembler.View() == Outcome(wire)
  {
    hide Feed, Outcome, Slot, Stored, Wrap, Divides;
    assembler := new LineAssembler();
    var uart := new Peripheral(wire);
    FeedNone(EMPTY);
    while true
      invariant ring.Valid() && ring.contents == [] && fresh(assembler) && fresh(uart)
      invariant uart.wire == wire && uart.position <= |wire| && assembler.View() == Feed(EMPTY, wire[..uart.position])
      decreases |wire| - uart.position
    {
      var readable := ring.ReadableSize();
      if uart.position == |wire| && readable == 0 {
        break;
      }
      ghost var position := uart.position;
      Transfer(uart, ring);
      FeedConcat(EMPTY, wire[..position], ring.contents);
      assert wire[..position] + ring.contents == wire[..uart.position];
      var _ := assembler.Drain(ring);
    }
    assert wire[..uart.position] == wire;
    FeedIs(wire);
  }

  lemma FeedNone(s: State)
    ensures Feed(s, []) == s
  {
  }

  lemma FeedOne(s: State, text: string, c: char)
    ensures Feed(s, text + [c]) == Step(Feed(s, text), c)
  {
    assert (text + [c])[..|text|] == text;
  }
}
