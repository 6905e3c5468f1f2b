/**
 The byte ring (include/metl/spsc_byte_ring.hpp) with its producer and its consumer on
 two threads, as a machine whose steps are their accesses to shared memory. Each side
 works from the other's index as it last loaded it. Positions are kept unbounded; every
 test is on their size_t words. A step sees every earlier one.
 */
module RingThreads {
  import opened ByteRing

  datatype Setting = Setting(capacity: nat, modulus: nat)

  predicate Fitting(c: Setting) {
    2 <= c.capacity < c.modulus && Divides(c.capacity, c.modulus)
  }

  /** `stream` is every byte published; `written` and `seen` are what the producer put
      and the consumer looked at, by position in the stream. */
  datatype State = State(head: nat, tail: nat, store: seq<char>, loadedHead: nat, loadedTail: nat,
                         stream: seq<char>, written: map<nat, char>, seen: map<nat, char>)

  /** What the two sides do, any number of times and in any order: load the other's
      index, put a byte into the free run or look at a queued one, and publish. */
  datatype Action =
    | LoadHead | Put(i: nat, b: char) | Commit(count: nat)
    | LoadTail | Look(i: nat) | Release(count: nat)

  function Initial(c: Setting): State {
    State(0, 0, seq(c.capacity, i => '\0'), 0, 0, [], map[], map[])
  }

  /** `writable_size`, from the head last loaded. */
  function Writable(c: Setting, s: State): int
    requires Fitting(c)
  {
    c.capacity - Minus(Wrap(s.tail, c.modulus), Wrap(s.loadedHead, c.modulus), c.modulus)
  }

  /** `readable_size`, from the tail last loaded. */
  function Readable(c: Setting, s: State): int
    requires Fitting(c)
  {
    Minus(Wrap(s.loadedTail, c.modulus), Wrap(s.head, c.modulus), c.modulus)
  }

  function At(c: Setting, p: nat, i: nat): (j: nat)
    requires Fitting(c)
    ensures j < c.capacity
  {
    Slot(Wrap(Wrap(p, c.modulus) + i, c.modulus), c.capacity)
  }

  /** The bytes in the store from position `p` on. */
  function Run(c: Setting, store: seq<char>, p: nat, count: nat): (bytes: seq<char>)
    requires Fitting(c) && |store| == c.capacity
    ensures |bytes| == count
  {
    seq(count, i requires 0 <= i < count => store[Slot(p + i, c.capacity)])
  }

  /** One access. A count or offset that is refused stops the program instead. The
      contiguous run `commit_write` allows is within the `writable_size` allowed here,
      as `try_write` uses it. */
  function Step(c: Setting, s: State, a: Action): State
    requires Fitting(c) && |s.store| == c.capacity
  {
    match a
    case LoadHead => s.(loadedHead := s.head)
    case Put(i, b) =>
      if i < Writable(c, s)
      then s.(store := s.store[At(c, s.tail, i) := b], written := s.written[s.tail + i := b])
      else s
    case Commit(count) =>
      if count <= Writable(c, s) then s.(tail := s.tail + count, stream := s.stream + Run(c, s.store, s.tail, count))
      else s
    case LoadTail => s.(loadedTail := s.tail)
    case Look(i) =>
      if i < Readable(c, s) then s.(seen := s.seen[s.head + i := s.store[At(c, s.head, i)]]) else s
    case Release(count) => if count <= Readable(c, s) then s.(head := s.head + count) else s
  }

  function After(c: Setting, actions: seq<Action>): (s: State)
    requires Fitting(c)
    ensures |s.store| == c.capacity
  {
    if actions == [] then Initial(c) else Step(c, After(c, actions[..|actions| - 1]), actions[|actions| - 1])
  }

  // ---------------------------------------------------------------------
  // What every step keeps
  // ---------------------------------------------------------------------

  predicate Positions(c: Setting, s: State) {
    s.loadedHead <= s.head <= s.loadedTail <= s.tail <= s.loadedHead + c.capacity
  }

  /** The bytes queued are in their slots. */
  predicate Queued(c: Setting, s: State) {
    && 0 < c.capacity == |s.store| && |s.stream| == s.tail
    && forall p :: s.head <= p < s.tail ==> s.store[Slot(p, c.capacity)] == s.stream[p]
  }

  /** What was put is what is published there, or is in place to be. */
  predicate AsWritten(c: Setting, s: State) {
    && 0 < c.capacity == |s.store| && |s.stream| == s.tail
    && forall p :: p in s.written ==>
         if p < s.tail then s.stream[p] == s.written[p]
         else p < s.loadedHead + c.capacity && s.store[Slot(p, c.capacity)] == s.written[p]
  }

  predicate SeenRight(s: State) {
    forall p :: p in s.seen ==> p < |s.stream| && s.seen[p] == s.stream[p]
  }

  predicate Inv(c: Setting, s: State) {
    Positions(c, s) && Queued(c, s) && AsWritten(c, s) && SeenRight(s)
  }

  /** On positions this close together the word arithmetic means what it says. */
  lemma SizesMean(c: Setting, s: State)
    requires Fitting(c) && Positions(c, s)
    ensures Writable(c, s) == s.loadedHead + c.capacity - s.tail
    ensures Readable(c, s) == s.loadedTail - s.head
  {
    hide Wrap, Minus, Divides;
    WrapKeepsDistance(s.loadedHead, s.tail, c.modulus);
    WrapKeepsDistance(s.head, s.loadedTail, c.modulus);
  }

  lemma AtIsSlot(c: Setting, p: nat, i: nat)
    requires Fitting(c)
    ensures At(c, p, i) == Slot(p + i, c.capacity)
  {
    hide Slot, Wrap;
    WrapAdd(p, i, c.modulus);
    WrapKeepsSlot(p + i, c.modulus, c.capacity);
  }

  lemma PutKeeps(c: Setting, s: State, i: nat, b: char)
    requires Fitting(c) && Inv(c, s) && s.tail + i < s.loadedHead + c.capacity
    ensures Inv(c, s.(store := s.store[Slot(s.tail + i, c.capacity) := b], written := s.written[s.tail + i := b]))
  {
    hide Slot, Divides;
    var q := s.tail + i;
    var u := s.(store := s.store[Slot(q, c.capacity) := b], written := s.written[q := b]);
    forall p | s.head <= p < s.loadedHead + c.capacity && p != q
      ensures u.store[Slot(p, c.capacity)] == s.store[Slot(p, c.capacity)]
    {
      if p < q {
        SlotsApart(p, q, c.capacity);
      } else {
        SlotsApart(q, p, c.capacity);
      }
    }
  }

  lemma CommitKeeps(c: Setting, s: State, count: nat)
    requires Fitting(c) && Inv(c, s) && s.tail + count <= s.loadedHead + c.capacity
    ensures Inv(c, s.(tail := s.tail + count, stream := s.stream + Run(c, s.store, s.tail, count)))
  {
    hide Slot, Divides;
    var u := s.(tail := s.tail + count, stream := s.stream + Run(c, s.store, s.tail, count));
    forall p | s.tail <= p < u.tail ensures u.stream[p] == s.store[Slot(p, c.capacity)] {
      assert u.stream[p] == Run(c, s.store, s.tail, count)[p - s.tail];
      assert s.tail + (p - s.tail) == p;
    }
  }

  lemma LookKeeps(c: Setting, s: State, i: nat)
    requires Fitting(c) && Inv(c, s) && s.head + i < s.loadedTail
    ensures Inv(c, s.(seen := s.seen[s.head + i := s.store[Slot(s.head + i, c.capacity)]]))
  {
    hide Slot, Divides;
  }

  lemma IndicesKeep(c: Setting, s: State, u: State)
    requires Fitting(c) && Inv(c, s) && s.head <= u.head <= s.loadedTail <= u.loadedTail <= s.tail
    requires s.loadedHead <= u.loadedHead <= u.head
    requires u == s.(head := u.head, loadedHead := u.loadedHead, loadedTail := u.loadedTail)
    ensures Inv(c, u)
  {
    hide Slot, Divides;
  }

  lemma Unfolded(c: Setting, s: State)
    requires Inv(c, s)
    ensures |s.store| == c.capacity && |s.stream| == s.tail
    ensures forall p :: p in s.seen ==> p < s.tail && s.seen[p] == s.stream[p]
    ensures forall p :: p in s.written && p < s.tail ==> s.stream[p] == s.written[p]
  {
  }

  lemma StepKeeps(c: Setting, s: State, a: Action)
    requires Fitting(c) && Inv(c, s)
    ensures Inv(c, Step(c, s, a))
  {
    hide Slot, Wrap, Minus, Divides, Writable, Readable, At, Run, Queued, AsWritten, SeenRight;
    Unfolded(c, s);
    SizesMean(c, s);
    match a {
      case LoadHead =>
        IndicesKeep(c, s, Step(c, s, a));
      case Put(i, b) =>
        AtIsSlot(c, s.tail, i);
        if i < Writable(c, s) {
          PutKeeps(c, s, i, b);
        }
      case Commit(count) =>
        if count <= Writable(c, s) {
          CommitKeeps(c, s, count);
        }
      case LoadTail =>
        IndicesKeep(c, s, Step(c, s, a));
      case Look(i) =>
        AtIsSlot(c, s.head, i);
        if i < Readable(c, s) {
          LookKeeps(c, s, i);
        }
      case Release(count) =>
        IndicesKeep(c, s, Step(c, s, a));
    }
  }

  lemma {:induction false} EveryRun(c: Setting, actions: seq<Action>)
    requires Fitting(c)
    ensures Inv(c, After(c, actions))
  {
    hide Inv, Step;
    if actions == [] {
      InitialOk(c);
    } else {
      EveryRun(c, actions[..|actions| - 1]);
      StepKeeps(c, After(c, actions[..|actions| - 1]), actions[|actions| - 1]);
    }
  }

  lemma InitialOk(c: Setting)
    requires Fitting(c)
    ensures Inv(c, Initial(c))
  {
  }

  // ---------------------------------------------------------------------
  // Whole runs
  // ---------------------------------------------------------------------

  /** In every interleaving, each side's size is short by exactly what the other has
      published since its index was loaded: never over, and right if it has not moved. */
  lemma SizesConservative(c: Setting, actions: seq<Action>)
    requires Fitting(c)
    ensures var s := After(c, actions);
            && s.head <= s.tail <= s.head + c.capacity
            && c.capacity - (s.tail - s.head) - Writable(c, s) == s.head - s.loadedHead >= 0
            && (s.tail - s.head) - Readable(c, s) == s.tail - s.loadedTail >= 0
            && Writable(c, s) >= 0 && Readable(c, s) >= 0
  {
    hide After, Writable, Readable;
    EveryRun(c, actions);
    SizesMean(c, After(c, actions));
  }

  /** No byte the producer may write is one the consumer may look at. */
  lemma RunsApart(c: Setting, actions: seq<Action>, i: nat, k: nat)
    requires Fitting(c)
    ensures var s := After(c, actions);
            i < Writable(c, s) && k < Readable(c, s) ==> At(c, s.tail, i) != At(c, s.head, k)
  {
    hide After, Writable, Readable, At, Slot;
    EveryRun(c, actions);
    var s := After(c, actions);
    SizesMean(c, s);
    AtIsSlot(c, s.tail, i);
    AtIsSlot(c, s.head, k);
    if i < Writable(c, s) && k < Readable(c, s) {
      SlotsApart(s.head + k, s.tail + i, c.capacity);
    }
  }

  /** Whatever the consumer looks at is the byte published at that position, which is
      the one put there if any was, and what is published never changes. */
  lemma {:induction false} ReadsTheStream(c: Setting, actions: seq<Action>, more: seq<Action>)
    requires Fitting(c)
    ensures var s, u := After(c, actions), After(c, actions + more);
            && s.stream <= u.stream && s.head <= u.head && s.tail <= u.tail == |u.stream|
            && (forall p :: p in u.seen ==> p < u.tail && u.seen[p] == u.stream[p])
            && (forall p :: p in u.written && p < u.tail ==> u.stream[p] == u.written[p])
    decreases |more|
  {
    hide Step, Inv;
    EveryRun(c, actions + more);
    Unfolded(c, After(c, actions + more));
    if more == [] {
      assert actions + more == actions;
    } else {
      var n := |more| - 1;
      assert (actions + more)[..|actions + more| - 1] == actions + more[..n];
      ReadsTheStream(c, actions, more[..n]);
      OnlyGrows(c, After(c, actions + more[..n]), more[n]);
    }
  }

  lemma OnlyGrows(c: Setting, s: State, a: Action)
    requires Fitting(c) && |s.store| == c.capacity
    ensures var u := Step(c, s, a); s.stream <= u.stream && s.head <= u.head && s.tail <= u.tail
  {
    hide Writable, Readable, At, Run;
  }

  /** That any was put is the caller's business: the guard of a commit lets through a
      byte nobody wrote. */
  lemma UnwrittenPublished(c: Setting)
    requires Fitting(c)
    ensures var s := After(c, [Commit(1)]); s.tail == |s.stream| == 1 && 0 !in s.written
  {
    hide Minus, Wrap, Divides, Run;
    var actions := [Commit(1)];
    assert actions[..0] == [];
    SizesMean(c, Initial(c));
    assert After(c, actions) == Step(c, Initial(c), Commit(1));
  }
}
