/**
 The bounded multi-producer multi-consumer queue (include/metl/mpmc_queue.hpp) with
 any number of threads, as a machine whose steps are the threads' accesses to
 shared memory. Positions are kept unbounded; every test the code makes is on
 their size_t words. Memory order is taken as given: a step sees every earlier one.
 */
module Mpmc {
  import Arith
  import opened ByteRing

  /** A slot: the ticket whose turn it is, whether its element is published, and
      its storage. */
  datatype Cell = Cell(ticket: nat, published: bool, value: int)

  /** The slot's sequence number. */
  function Sequence(x: Cell): nat {
    x.ticket + if x.published then 1 else 0
  }

  /** Where a thread is. Look, Claim, ... name the access it makes next. */
  datatype Thread =
    | Idle
    | PushLoad(value: int) | PushLook(value: int, pos: nat) | PushClaim(value: int, pos: nat)
    | PushWrite(value: int, pos: nat) | PushPublish(pos: nat)
    | PopLoad | PopLook(pos: nat) | PopClaim(pos: nat) | PopTake(pos: nat) | PopRelease(pos: nat, value: int)

  /** `pushes` and `taken` record, by ticket, the values claimed for pushing and
      the values handed to poppers. */
  datatype State = State(enqueue: nat, dequeue: nat, cells: seq<Cell>, threads: seq<Thread>,
                         pushes: seq<int>, taken: map<nat, int>)

  datatype Setting = Setting(capacity: nat, modulus: nat, threads: nat)

  predicate Fitting(c: Setting) {
    2 <= c.capacity < c.modulus && Divides(c.capacity, c.modulus)
  }

  /** A thread starts an operation or goes on with it; a weak compare-exchange may
      fail for no reason. */
  datatype Action = StartPush(value: int) | StartPop | Go | GoSpurious

  datatype Move = Move(thread: nat, action: Action)

  function Initial(c: Setting): State {
    State(0, 0, seq(c.capacity, i requires 0 <= i < c.capacity => Cell(i, false, 0)),
          seq(c.threads, i => Idle), [], map[])
  }

  function At(c: Setting, pos: nat): (j: nat)
    requires Fitting(c)
    ensures j < c.capacity
  {
    Slot(Wrap(pos, c.modulus), c.capacity)
  }

  /** Where a sequence word stands relative to a ticket word: the upper half of the
      range is behind. */
  function Distance(c: Setting, sequence: nat, pos: nat): nat
    requires Fitting(c)
  {
    Minus(Wrap(sequence, c.modulus), Wrap(pos, c.modulus), c.modulus)
  }

  predicate Behind(c: Setting, distance: nat) {
    distance > (c.modulus - 1) / 2
  }

  predicate SameWord(c: Setting, p: nat, q: nat)
    requires Fitting(c)
  {
    Wrap(p, c.modulus) == Wrap(q, c.modulus)
  }

  function Advance(c: Setting, s: State, t: Thread, action: Action): (State, Thread)
    requires Fitting(c) && |s.cells| == c.capacity
  {
    match t
    case Idle => (s, match action case StartPush(v) => PushLoad(v) case StartPop => PopLoad case _ => Idle)
    case PushLoad(v) => (s, PushLook(v, s.enqueue))
    case PushLook(v, pos) =>
      var d := Distance(c, Sequence(s.cells[At(c, pos)]), pos);
      (s, if d == 0 then PushClaim(v, pos) else if Behind(c, d) then Idle else PushLoad(v))
    case PushClaim(v, pos) =>
      if action.Go? && SameWord(c, pos, s.enqueue)
      then (s.(enqueue := s.enqueue + 1, pushes := s.pushes + [v]), PushWrite(v, s.enqueue))
      else (s, PushLook(v, s.enqueue))
    case PushWrite(v, pos) =>
      var j := At(c, pos);
      (s.(cells := s.cells[j := s.cells[j].(value := v)]), PushPublish(pos))
    case PushPublish(pos) =>
      var j := At(c, pos);
      (s.(cells := s.cells[j := s.cells[j].(ticket := pos, published := true)]), Idle)
    case PopLoad => (s, PopLook(s.dequeue))
    case PopLook(pos) =>
      var d := Distance(c, Sequence(s.cells[At(c, pos)]), pos + 1);
      (s, if d == 0 then PopClaim(pos) else if Behind(c, d) then Idle else PopLoad)
    case PopClaim(pos) =>
      if action.Go? && SameWord(c, pos, s.dequeue)
      then (s.(dequeue := s.dequeue + 1), PopTake(s.dequeue))
      else (s, PopLook(s.dequeue))
    case PopTake(pos) => (s, PopRelease(pos, s.cells[At(c, pos)].value))
    case PopRelease(pos, v) =>
      var j := At(c, pos);
      (s.(cells := s.cells[j := s.cells[j].(ticket := pos + c.capacity, published := false)],
          taken := s.taken[pos := v]), Idle)
  }

  function Step(c: Setting, s: State, m: Move): State
    requires Fitting(c)
  {
    if m.thread >= |s.threads| || |s.cells| != c.capacity then s else
    var (shared, t) := Advance(c, s, s.threads[m.thread], m.action);
    shared.(threads := s.threads[m.thread := t])
  }

  function Run(c: Setting, s: State, moves: seq<Move>): State
    requires Fitting(c)
  {
    if moves == [] then s else Step(c, Run(c, s, moves[..|moves| - 1]), moves[|moves| - 1])
  }

  // ---------------------------------------------------------------------
  // What every step keeps
  // ---------------------------------------------------------------------

  /** The push, or pop, ticket a thread holds, or -1. */
  function PushTicket(t: Thread): int {
    if t.PushWrite? || t.PushPublish? then t.pos else -1
  }

  function PopTicket(t: Thread): int {
    if t.PopTake? || t.PopRelease? then t.pos else -1
  }

  predicate Counters(c: Setting, s: State) {
    && |s.cells| == c.capacity && |s.threads| == c.threads
    && |s.pushes| == s.enqueue && s.dequeue <= s.enqueue <= s.dequeue + c.capacity
  }

  /** A free or claimed slot waits for a ticket not yet popped; a published one
      holds what was pushed with its ticket until that is popped. */
  predicate CellOk(c: Setting, s: State, j: nat)
    requires 0 < c.capacity && Counters(c, s) && j < c.capacity
  {
    var x := s.cells[j];
    && Slot(x.ticket, c.capacity) == j
    && if x.published
       then x.ticket < s.enqueue <= x.ticket + c.capacity && (s.dequeue <= x.ticket ==> x.value == s.pushes[x.ticket])
       else s.dequeue <= x.ticket < s.dequeue + c.capacity
  }

  predicate HasTurn(c: Setting, s: State, ticket: nat, published: bool)
    requires 0 < c.capacity && Counters(c, s)
  {
    var x := s.cells[Slot(ticket, c.capacity)];
    x.ticket == ticket && x.published == published
  }

  function Stored(c: Setting, s: State, ticket: nat): int
    requires 0 < c.capacity && Counters(c, s)
  {
    s.cells[Slot(ticket, c.capacity)].value
  }

  predicate ThreadOk(c: Setting, s: State, t: Thread)
    requires 0 < c.capacity && Counters(c, s)
  {
    match t
    case Idle => true
    case PushLoad(_) => true
    case PopLoad => true
    case PushLook(_, pos) => pos <= s.enqueue
    case PushClaim(_, pos) => pos <= s.enqueue && (pos == s.enqueue ==> HasTurn(c, s, pos, false))
    case PushWrite(v, pos) => s.dequeue <= pos < s.enqueue && HasTurn(c, s, pos, false) && v == s.pushes[pos]
    case PushPublish(pos) =>
      s.dequeue <= pos < s.enqueue && HasTurn(c, s, pos, false) && Stored(c, s, pos) == s.pushes[pos]
    case PopLook(pos) => pos <= s.dequeue
    case PopClaim(pos) => pos <= s.dequeue && (pos == s.dequeue ==> HasTurn(c, s, pos, true))
    case PopTake(pos) =>
      pos < s.dequeue && HasTurn(c, s, pos, true) && Stored(c, s, pos) == s.pushes[pos] && pos !in s.taken
    case PopRelease(pos, v) => pos < s.dequeue && HasTurn(c, s, pos, true) && v == s.pushes[pos] && pos !in s.taken
  }

  predicate OneOwner(s: State) {
    forall i, k :: 0 <= i < |s.threads| && 0 <= k < |s.threads| && i != k ==>
      (PushTicket(s.threads[i]) >= 0 ==> PushTicket(s.threads[i]) != PushTicket(s.threads[k])) &&
      (PopTicket(s.threads[i]) >= 0 ==> PopTicket(s.threads[i]) != PopTicket(s.threads[k]))
  }

  predicate TakenOk(s: State)
    requires |s.pushes| == s.enqueue && s.dequeue <= s.enqueue
  {
    forall t :: t in s.taken ==> t < s.dequeue && s.taken[t] == s.pushes[t]
  }

  /** A slot has moved on from every ticket handed over. */
  predicate MovedOn(c: Setting, s: State)
    requires 0 < c.capacity && |s.cells| == c.capacity
  {
    forall t :: t in s.taken ==> t < s.cells[Slot(t, c.capacity)].ticket
  }

  predicate Held(threads: seq<Thread>, ticket: nat, pop: bool) {
    exists i :: 0 <= i < |threads| && (if pop then PopTicket(threads[i]) else PushTicket(threads[i])) == ticket
  }

  /** No ticket is lost: popped ones were handed over or are about to be, and
      pushed ones are in their slot or about to be. */
  predicate Accounted(c: Setting, s: State)
    requires 0 < c.capacity && Counters(c, s)
  {
    && (forall t: nat :: t < s.dequeue ==> t in s.taken || Held(s.threads, t, true))
    && (forall t: nat :: s.dequeue <= t < s.enqueue ==> HasTurn(c, s, t, true) || Held(s.threads, t, false))
  }

  predicate Inv(c: Setting, s: State) {
    && 0 < c.capacity && Counters(c, s)
    && (forall j :: 0 <= j < c.capacity ==> CellOk(c, s, j))
    && (forall i :: 0 <= i < |s.threads| ==> ThreadOk(c, s, s.threads[i]))
    && OneOwner(s) && TakenOk(s) && MovedOn(c, s) && Accounted(c, s)
  }

  /** A compare-exchange that succeeds although the counter has moved on, by a whole
      number of wraps, since the ticket was loaded. */
  predicate Stale(c: Setting, s: State, m: Move)
    requires Fitting(c)
  {
    && m.thread < |s.threads| && m.action.Go?
    && var t := s.threads[m.thread];
       || (t.PushClaim? && t.pos != s.enqueue && SameWord(c, t.pos, s.enqueue))
       || (t.PopClaim? && t.pos != s.dequeue && SameWord(c, t.pos, s.dequeue))
  }

  // ---------------------------------------------------------------------
  // Slots and words
  // ---------------------------------------------------------------------

  lemma AtIsSlot(c: Setting, pos: nat)
    requires Fitting(c)
    ensures At(c, pos) == Slot(pos, c.capacity)
  {
    WrapKeepsSlot(pos, c.modulus, c.capacity);
  }

  lemma NextLap(c: Setting, ticket: nat)
    requires 0 < c.capacity
    ensures Slot(ticket + c.capacity, c.capacity) == Slot(ticket, c.capacity)
  {
    var q, r := ticket / c.capacity, ticket % c.capacity;
    assert ticket + c.capacity == (q + 1) * c.capacity + r;
    Arith.DivModUnique(ticket + c.capacity, c.capacity, q + 1, r);
  }

  /** Two tickets of one slot, less than two laps apart, are equal or a lap apart. */
  lemma SameSlot(c: Setting, p: nat, q: nat)
    requires 0 < c.capacity && Slot(p, c.capacity) == Slot(q, c.capacity) && p <= q < p + 2 * c.capacity
    ensures q == p || q == p + c.capacity
  {
    hide Slot;
    if p < q < p + c.capacity {
      SlotsApart(p, q, c.capacity);
    } else if p + c.capacity < q {
      NextLap(c, p);
      SlotsApart(p + c.capacity, q, c.capacity);
    }
  }

  lemma NearWords(c: Setting, p: nat, q: nat)
    requires Fitting(c) && p <= q <= p + c.capacity
    ensures SameWord(c, p, q) <==> p == q
    ensures Distance(c, p, q) == 0 <==> p == q
    ensures Distance(c, q, p) == 0 <==> p == q
  {
    hide Wrap, Minus;
    WrapKeepsDistance(p, q, c.modulus);
    WrapSmall(c, p);
    WrapSmall(c, q);
    MinusZero(c, Wrap(p, c.modulus), Wrap(q, c.modulus));
    MinusZero(c, Wrap(q, c.modulus), Wrap(p, c.modulus));
  }

  lemma WrapSmall(c: Setting, p: nat)
    requires c.modulus > 0
    ensures Wrap(p, c.modulus) < c.modulus
  {
  }

  lemma MinusZero(c: Setting, a: nat, b: nat)
    requires a < c.modulus && b < c.modulus
    ensures Minus(a, b, c.modulus) == 0 <==> a == b
  {
    if a < b {
      Arith.DivModUnique(a - b, c.modulus, -1, a - b + c.modulus);
    } else {
      Arith.DivModUnique(a - b, c.modulus, 0, a - b);
    }
  }

  // ---------------------------------------------------------------------
  // One step at a time
  // ---------------------------------------------------------------------

  lemma HeldKept(threads: seq<Thread>, i: nat, t: Thread, ticket: nat, pop: bool)
    requires i < |threads| && Held(threads, ticket, pop)
    requires (if pop then PopTicket(threads[i]) else PushTicket(threads[i])) == ticket ==>
               (if pop then PopTicket(t) else PushTicket(t)) == ticket
    ensures Held(threads[i := t], ticket, pop)
  {
    var k :| 0 <= k < |threads| && (if pop then PopTicket(threads[k]) else PushTicket(threads[k])) == ticket;
    assert (if pop then PopTicket(threads[i := t][k]) else PushTicket(threads[i := t][k])) == ticket;
  }

  /** A step that touches nothing shared and keeps the thread's tickets. */
  lemma LocalKeeps(c: Setting, s: State, i: nat, t: Thread)
    requires Fitting(c) && Inv(c, s) && i < |s.threads| && ThreadOk(c, s, t)
    requires PushTicket(t) == PushTicket(s.threads[i]) && PopTicket(t) == PopTicket(s.threads[i])
    ensures Inv(c, s.(threads := s.threads[i := t]))
  {
    hide Slot, Wrap, Divides, Held, HasTurn, CellOk, ThreadOk, MovedOn;
    var u := s.(threads := s.threads[i := t]);
    MovedOnKept(c, s, u);
    forall j | 0 <= j < c.capacity ensures CellOk(c, u, j) {
      assert CellOk(c, s, j);
      CellSame(c, s, u, j);
    }
    forall k | 0 <= k < |u.threads| ensures ThreadOk(c, u, u.threads[k]) {
      ThreadSame(c, s, u, u.threads[k]);
    }
    forall ticket: nat | ticket < u.dequeue ensures ticket in u.taken || Held(u.threads, ticket, true) {
      if ticket !in s.taken {
        HeldKept(s.threads, i, t, ticket, true);
      }
    }
    forall ticket: nat | u.dequeue <= ticket < u.enqueue
      ensures HasTurn(c, u, ticket, true) || Held(u.threads, ticket, false)
    {
      TurnSame(c, s, u, ticket, true);
      if !HasTurn(c, s, ticket, true) {
        HeldKept(s.threads, i, t, ticket, false);
      }
    }
  }

  predicate SameShared(s: State, u: State) {
    s.enqueue == u.enqueue && s.dequeue == u.dequeue && s.cells == u.cells && s.pushes == u.pushes &&
    s.taken == u.taken &&
    |s.threads| == |u.threads|
  }

  lemma CellSame(c: Setting, s: State, u: State, j: nat)
    requires 0 < c.capacity && Counters(c, s) && SameShared(s, u) && j < c.capacity
    ensures Counters(c, u) && (CellOk(c, s, j) <==> CellOk(c, u, j))
  {
  }

  lemma ThreadSame(c: Setting, s: State, u: State, t: Thread)
    requires 0 < c.capacity && Counters(c, s) && SameShared(s, u)
    ensures Counters(c, u) && (ThreadOk(c, s, t) <==> ThreadOk(c, u, t))
  {
  }

  lemma TurnSame(c: Setting, s: State, u: State, ticket: nat, published: bool)
    requires 0 < c.capacity && Counters(c, s) && SameShared(s, u)
    ensures Counters(c, u) && (HasTurn(c, s, ticket, published) <==> HasTurn(c, u, ticket, published))
  {
  }

  lemma MovedOnKept(c: Setting, s: State, u: State)
    requires 0 < c.capacity && |s.cells| == |u.cells| == c.capacity && MovedOn(c, s)
    requires forall j :: 0 <= j < c.capacity ==> s.cells[j].ticket <= u.cells[j].ticket
    requires forall t :: t in u.taken ==> t in s.taken || t < u.cells[Slot(t, c.capacity)].ticket
    ensures MovedOn(c, u)
  {
    hide Slot;
  }

  /** A push claims the next ticket, whose slot is ready for it. */
  lemma PushClaimKeeps(c: Setting, s: State, i: nat, v: int)
    requires Fitting(c) && Inv(c, s) && i < |s.threads| && s.threads[i].PushClaim? && HasTurn(c, s, s.enqueue, false)
    ensures Inv(c, s.(enqueue := s.enqueue + 1, pushes := s.pushes + [v],
                      threads := s.threads[i := PushWrite(v, s.enqueue)]))
  {
    hide Slot, Wrap, Divides, Held, MovedOn, Accounted;
    var t := PushWrite(v, s.enqueue);
    var u := s.(enqueue := s.enqueue + 1, pushes := s.pushes + [v], threads := s.threads[i := t]);
    assert CellOk(c, s, Slot(s.enqueue, c.capacity));
    forall j | 0 <= j < c.capacity ensures CellOk(c, u, j) {
      assert CellOk(c, s, j);
      if s.cells[j].ticket + c.capacity == s.enqueue {
        NextLap(c, s.cells[j].ticket);
      }
    }
    forall k | 0 <= k < |u.threads| ensures ThreadOk(c, u, u.threads[k]) {
      assert k != i ==> ThreadOk(c, s, s.threads[k]);
    }
    MovedOnKept(c, s, u);
    PushClaimAccounted(c, s, u, i);
  }

  lemma PushClaimAccounted(c: Setting, s: State, u: State, i: nat)
    requires Fitting(c) && Inv(c, s) && i < |s.threads| && s.threads[i].PushClaim? && Counters(c, u)
    requires u.cells == s.cells && u.dequeue == s.dequeue && u.taken == s.taken && u.enqueue == s.enqueue + 1
    requires exists v :: u.threads == s.threads[i := PushWrite(v, s.enqueue)]
    ensures Accounted(c, u)
  {
    hide Slot, Wrap, Divides, Held, CellOk, ThreadOk;
    var t := u.threads[i];
    forall ticket: nat | ticket < u.dequeue ensures ticket in u.taken || Held(u.threads, ticket, true) {
      if ticket !in s.taken {
        HeldKept(s.threads, i, t, ticket, true);
      }
    }
    HeldBy(u.threads, i, s.enqueue, false);
    forall ticket: nat | u.dequeue <= ticket < s.enqueue
      ensures HasTurn(c, u, ticket, true) || Held(u.threads, ticket, false)
    {
      if !HasTurn(c, s, ticket, true) {
        HeldKept(s.threads, i, t, ticket, false);
      }
    }
  }

  lemma HeldBy(threads: seq<Thread>, i: nat, ticket: nat, pop: bool)
    requires i < |threads| && (if pop then PopTicket(threads[i]) else PushTicket(threads[i])) == ticket
    ensures Held(threads, ticket, pop)
  {
  }

  /** Tickets held for pushing have slots of their own. */
  lemma PushersApart(c: Setting, s: State, i: nat, k: nat)
    requires Fitting(c) && Inv(c, s) && i < |s.threads| && k < |s.threads| && i != k
    requires PushTicket(s.threads[i]) >= 0 && PushTicket(s.threads[k]) >= 0
    ensures Slot(s.threads[i].pos, c.capacity) != Slot(s.threads[k].pos, c.capacity)
  {
    hide Slot, Held;
    assert ThreadOk(c, s, s.threads[i]) && ThreadOk(c, s, s.threads[k]);
  }

  /** The holder of a push ticket constructs the element in its slot. */
  lemma WriteKeeps(c: Setting, s: State, i: nat)
    requires Fitting(c) && Inv(c, s) && i < |s.threads| && s.threads[i].PushWrite?
    ensures var t := s.threads[i]; var j := Slot(t.pos, c.capacity);
            Inv(c, s.(cells := s.cells[j := s.cells[j].(value := t.value)],
                      threads := s.threads[i := PushPublish(t.pos)]))
  {
    hide Slot, Wrap, Divides, Held, MovedOn, Accounted;
    var t := s.threads[i];
    var j := Slot(t.pos, c.capacity);
    assert ThreadOk(c, s, t);
    var u := s.(cells := s.cells[j := s.cells[j].(value := t.value)], threads := s.threads[i := PushPublish(t.pos)]);
    forall x | 0 <= x < c.capacity ensures CellOk(c, u, x) {
      assert CellOk(c, s, x);
    }
    forall k | 0 <= k < |u.threads| ensures ThreadOk(c, u, u.threads[k]) {
      if k != i {
        assert ThreadOk(c, s, s.threads[k]);
        if PushTicket(s.threads[k]) >= 0 {
          PushersApart(c, s, i, k);
        }
      }
    }
    MovedOnKept(c, s, u);
    CellsAccounted(c, s, u, i);
  }

  /** Accounting survives a step that leaves every published slot published and
      keeps the thread's tickets, or hands them over. */
  lemma CellsAccounted(c: Setting, s: State, u: State, i: nat)
    requires Fitting(c) && Inv(c, s) && Counters(c, u) && i < |s.threads|
    requires u.threads == s.threads[i := u.threads[i]] && u.enqueue == s.enqueue && u.dequeue == s.dequeue
    requires forall ticket :: ticket in s.taken ==> ticket in u.taken
    requires forall j :: 0 <= j < c.capacity && s.cells[j].published && s.dequeue <= s.cells[j].ticket ==>
               u.cells[j].ticket == s.cells[j].ticket && u.cells[j].published
    requires PushTicket(s.threads[i]) >= 0 ==>
               PushTicket(u.threads[i]) == PushTicket(s.threads[i]) || HasTurn(c, u, PushTicket(s.threads[i]), true)
    requires PopTicket(s.threads[i]) >= 0 ==>
               PopTicket(u.threads[i]) == PopTicket(s.threads[i]) || PopTicket(s.threads[i]) in u.taken
    ensures Accounted(c, u)
  {
    hide Slot, Wrap, Divides, Held, CellOk, ThreadOk;
    var t := u.threads[i];
    forall ticket: nat | ticket < u.dequeue ensures ticket in u.taken || Held(u.threads, ticket, true) {
      if ticket !in u.taken {
        HeldKept(s.threads, i, t, ticket, true);
      }
    }
    forall ticket: nat | u.dequeue <= ticket < u.enqueue
      ensures HasTurn(c, u, ticket, true) || Held(u.threads, ticket, false)
    {
      if !HasTurn(c, u, ticket, true) {
        HeldKept(s.threads, i, t, ticket, false);
      }
    }
  }

  /** Publishing hands the slot to the popper of the same ticket. */
  lemma PublishKeeps(c: Setting, s: State, i: nat)
    requires Fitting(c) && Inv(c, s) && i < |s.threads| && s.threads[i].PushPublish?
    ensures var pos := s.threads[i].pos; var j := Slot(pos, c.capacity);
            Inv(c, s.(cells := s.cells[j := s.cells[j].(ticket := pos, published := true)],
                      threads := s.threads[i := Idle]))
  {
    hide Slot, Wrap, Divides, Held, MovedOn, Accounted;
    var pos := s.threads[i].pos;
    var j := Slot(pos, c.capacity);
    assert ThreadOk(c, s, s.threads[i]);
    var u := s.(cells := s.cells[j := s.cells[j].(ticket := pos, published := true)], threads := s.threads[i := Idle]);
    forall x | 0 <= x < c.capacity ensures CellOk(c, u, x) {
      assert CellOk(c, s, x);
    }
    forall k | 0 <= k < |u.threads| ensures ThreadOk(c, u, u.threads[k]) {
      if k != i {
        assert ThreadOk(c, s, s.threads[k]);
        if PushTicket(s.threads[k]) >= 0 {
          PushersApart(c, s, i, k);
        }
      }
    }
    MovedOnKept(c, s, u);
    CellsAccounted(c, s, u, i);
  }

  /** A pop claims the oldest ticket, whose slot is published. */
  lemma PopClaimKeeps(c: Setting, s: State, i: nat)
    requires Fitting(c) && Inv(c, s) && i < |s.threads| && s.threads[i].PopClaim? && HasTurn(c, s, s.dequeue, true)
    ensures Inv(c, s.(dequeue := s.dequeue + 1, threads := s.threads[i := PopTake(s.dequeue)]))
  {
    hide Slot, Wrap, Divides, Held, MovedOn, Accounted;
    var t := PopTake(s.dequeue);
    var u := s.(dequeue := s.dequeue + 1, threads := s.threads[i := t]);
    assert CellOk(c, s, Slot(s.dequeue, c.capacity));
    forall j | 0 <= j < c.capacity ensures CellOk(c, u, j) {
      assert CellOk(c, s, j);
    }
    forall k | 0 <= k < |u.threads| ensures ThreadOk(c, u, u.threads[k]) {
      assert k != i ==> ThreadOk(c, s, s.threads[k]);
    }
    MovedOnKept(c, s, u);
    PopClaimAccounted(c, s, u, i);
  }

  lemma PopClaimAccounted(c: Setting, s: State, u: State, i: nat)
    requires Fitting(c) && Inv(c, s) && i < |s.threads| && s.threads[i].PopClaim? && Counters(c, u)
    requires u.cells == s.cells && u.enqueue == s.enqueue && u.taken == s.taken && u.dequeue == s.dequeue + 1
    requires u.threads == s.threads[i := PopTake(s.dequeue)]
    ensures Accounted(c, u)
  {
    hide Slot, Wrap, Divides, Held, CellOk, ThreadOk;
    var t := u.threads[i];
    HeldBy(u.threads, i, s.dequeue, true);
    forall ticket: nat | ticket < s.dequeue ensures ticket in u.taken || Held(u.threads, ticket, true) {
      if ticket !in s.taken {
        HeldKept(s.threads, i, t, ticket, true);
      }
    }
    forall ticket: nat | u.dequeue <= ticket < u.enqueue
      ensures HasTurn(c, u, ticket, true) || Held(u.threads, ticket, false)
    {
      if !HasTurn(c, s, ticket, true) {
        HeldKept(s.threads, i, t, ticket, false);
      }
    }
  }

  /** The popper hands over the value and its slot goes to the ticket a lap later. */
  lemma ReleaseKeeps(c: Setting, s: State, i: nat)
    requires Fitting(c) && Inv(c, s) && i < |s.threads| && s.threads[i].PopRelease?
    ensures var t := s.threads[i]; var j := Slot(t.pos, c.capacity);
            Inv(c, s.(cells := s.cells[j := s.cells[j].(ticket := t.pos + c.capacity, published := false)],
                      taken := s.taken[t.pos := t.value], threads := s.threads[i := Idle]))
  {
    hide Slot, Wrap, Divides, Held, MovedOn, Accounted, ThreadOk, CellOk;
    var t := s.threads[i];
    var j := Slot(t.pos, c.capacity);
    Unfolded(c, s, i);
    var u := s.(cells := s.cells[j := s.cells[j].(ticket := t.pos + c.capacity, published := false)],
                taken := s.taken[t.pos := t.value], threads := s.threads[i := Idle]);
    ReleaseCells(c, s, u, i);
    ReleaseThreads(c, s, u, i);
    MovedOnKept(c, s, u);
    CellsAccounted(c, s, u, i);
  }

  lemma ReleaseCells(c: Setting, s: State, u: State, i: nat)
    requires Fitting(c) && Inv(c, s) && i < |s.threads| && s.threads[i].PopRelease?
    requires var t := s.threads[i]; var j := Slot(t.pos, c.capacity);
             u == s.(cells := s.cells[j := s.cells[j].(ticket := t.pos + c.capacity, published := false)],
                     taken := s.taken[t.pos := t.value], threads := s.threads[i := Idle])
    ensures Counters(c, u) && forall x :: 0 <= x < c.capacity ==> CellOk(c, u, x)
    ensures s.cells[Slot(s.threads[i].pos, c.capacity)].ticket == s.threads[i].pos < s.dequeue
    ensures TakenOk(u)
  {
    hide Slot, Wrap, Divides, Held, MovedOn, Accounted;
    var t := s.threads[i];
    assert ThreadOk(c, s, t) && CellOk(c, s, Slot(t.pos, c.capacity));
    NextLap(c, t.pos);
    forall x | 0 <= x < c.capacity ensures CellOk(c, u, x) {
      assert CellOk(c, s, x);
    }
  }

  lemma ReleaseThreads(c: Setting, s: State, u: State, i: nat)
    requires Fitting(c) && Inv(c, s) && i < |s.threads| && s.threads[i].PopRelease? && Counters(c, u)
    requires var t := s.threads[i]; var j := Slot(t.pos, c.capacity);
             u == s.(cells := s.cells[j := s.cells[j].(ticket := t.pos + c.capacity, published := false)],
                     taken := s.taken[t.pos := t.value], threads := s.threads[i := Idle])
    ensures forall k :: 0 <= k < |u.threads| ==> ThreadOk(c, u, u.threads[k])
    ensures OneOwner(u)
  {
    hide Slot, Wrap, Divides, Held, MovedOn, Accounted, CellOk;
    var t := s.threads[i];
    assert ThreadOk(c, s, t);
    forall k | 0 <= k < |u.threads| ensures ThreadOk(c, u, u.threads[k]) {
      if k != i {
        assert ThreadOk(c, s, s.threads[k]);
        assert PopTicket(s.threads[k]) != t.pos;
      }
    }
  }

  /** The next ticket's slot shows its word only when it is ready for it. */
  lemma LookPush(c: Setting, s: State)
    requires Fitting(c) && Inv(c, s)
    ensures Distance(c, Sequence(s.cells[Slot(s.enqueue, c.capacity)]), s.enqueue) == 0 <==>
            HasTurn(c, s, s.enqueue, false)
  {
    hide Slot, Wrap, Divides, Held, Distance, ThreadOk, Accounted;
    var x := s.cells[Slot(s.enqueue, c.capacity)];
    assert CellOk(c, s, Slot(s.enqueue, c.capacity));
    if x.ticket <= s.enqueue {
      SameSlot(c, x.ticket, s.enqueue);
    } else {
      SameSlot(c, s.enqueue, x.ticket);
    }
    NearWords(c, Sequence(x), s.enqueue);
  }

  lemma LookPop(c: Setting, s: State)
    requires Fitting(c) && Inv(c, s)
    ensures Distance(c, Sequence(s.cells[Slot(s.dequeue, c.capacity)]), s.dequeue + 1) == 0 <==>
            HasTurn(c, s, s.dequeue, true)
  {
    hide Slot, Wrap, Divides, Held, Distance, ThreadOk, Accounted;
    var x := s.cells[Slot(s.dequeue, c.capacity)];
    assert CellOk(c, s, Slot(s.dequeue, c.capacity));
    if x.ticket <= s.dequeue {
      SameSlot(c, x.ticket, s.dequeue);
    } else {
      SameSlot(c, s.dequeue, x.ticket);
    }
    NearWords(c, Sequence(x), s.dequeue + 1);
  }

  /** Every step but a stale claim keeps the invariant. */
  lemma StepKeeps(c: Setting, s: State, m: Move)
    requires Fitting(c) && Inv(c, s) && !Stale(c, s, m)
    ensures Inv(c, Step(c, s, m))
  {
    hide Slot, Wrap, Divides, Inv, At, Distance, Behind, SameWord, HasTurn;
    if m.thread < |s.threads| {
      Unfolded(c, s, m.thread);
      var i, t := m.thread, s.threads[m.thread];
      match t {
        case Idle =>
          LocalKeeps(c, s, i, Advance(c, s, t, m.action).1);
        case PushLoad(v) =>
          LocalKeeps(c, s, i, PushLook(v, s.enqueue));
        case PushLook(v, pos) =>
          AtIsSlot(c, pos);
          LookPush(c, s);
          LocalKeeps(c, s, i, Advance(c, s, t, m.action).1);
        case PushClaim(v, pos) =>
          if m.action.Go? && SameWord(c, pos, s.enqueue) {
            PushClaimKeeps(c, s, i, v);
          } else {
            LocalKeeps(c, s, i, PushLook(v, s.enqueue));
          }
        case PushWrite(v, pos) =>
          AtIsSlot(c, pos);
          WriteKeeps(c, s, i);
        case PushPublish(pos) =>
          AtIsSlot(c, pos);
          PublishKeeps(c, s, i);
        case PopLoad =>
          LocalKeeps(c, s, i, PopLook(s.dequeue));
        case PopLook(pos) =>
          AtIsSlot(c, pos);
          LookPop(c, s);
          LocalKeeps(c, s, i, Advance(c, s, t, m.action).1);
        case PopClaim(pos) =>
          if m.action.Go? && SameWord(c, pos, s.dequeue) {
            PopClaimKeeps(c, s, i);
          } else {
            LocalKeeps(c, s, i, PopLook(s.dequeue));
          }
        case PopTake(pos) =>
          AtIsSlot(c, pos);
          LocalKeeps(c, s, i, PopRelease(pos, s.cells[At(c, pos)].value));
        case PopRelease(pos, v) =>
          AtIsSlot(c, pos);
          ReleaseKeeps(c, s, i);
      }
    }
  }

  lemma Unfolded(c: Setting, s: State, i: nat)
    requires Fitting(c) && Inv(c, s) && i < |s.threads|
    ensures Counters(c, s) && ThreadOk(c, s, s.threads[i])
  {
  }

  // ---------------------------------------------------------------------
  // Whole runs
  // ---------------------------------------------------------------------

  /** The state after the first `n` moves. */
  function After(c: Setting, moves: seq<Move>, n: nat): State
    requires Fitting(c) && n <= |moves|
  {
    Run(c, Initial(c), moves[..n])
  }

  predicate Fresh(c: Setting, moves: seq<Move>)
    requires Fitting(c)
  {
    forall n :: 0 <= n < |moves| ==> !Stale(c, After(c, moves, n), moves[n])
  }

  lemma AfterStep(c: Setting, moves: seq<Move>, n: nat)
    requires Fitting(c) && n < |moves|
    ensures After(c, moves, n + 1) == Step(c, After(c, moves, n), moves[n])
  {
    assert moves[..n + 1][..n] == moves[..n];
  }

  lemma InitialOk(c: Setting)
    requires Fitting(c)
    ensures Inv(c, Initial(c))
  {
    var s := Initial(c);
    forall j | 0 <= j < c.capacity ensures CellOk(c, s, j) {
      SlotsConsecutive(0, j, c.capacity);
    }
  }

  /** However many threads, however interleaved, as long as no claim is stale. */
  lemma {:induction false} EveryFreshRun(c: Setting, moves: seq<Move>, n: nat)
    requires Fitting(c) && n <= |moves| && Fresh(c, moves)
    ensures Inv(c, After(c, moves, n))
  {
    hide Inv, Step, Stale;
    if n == 0 {
      assert moves[..0] == [];
      InitialOk(c);
    } else {
      EveryFreshRun(c, moves, n - 1);
      StepKeeps(c, After(c, moves, n - 1), moves[n - 1]);
      AfterStep(c, moves, n - 1);
    }
  }

  /** First in, first out: the n-th pop claimed gets the n-th push claimed, whoever
      makes them, and no push is popped twice or before it is made. */
  lemma FirstInFirstOut(c: Setting, moves: seq<Move>)
    requires Fitting(c) && Fresh(c, moves)
    ensures var s := After(c, moves, |moves|);
            && s.dequeue <= s.enqueue == |s.pushes| && s.enqueue - s.dequeue <= c.capacity
            && forall t :: t in s.taken ==> t < s.dequeue && s.taken[t] == s.pushes[t]
  {
    hide Run;
    EveryFreshRun(c, moves, |moves|);
  }

  /** Once every thread is idle, each push was handed to exactly one pop or is in
      its slot. */
  lemma NothingLost(c: Setting, moves: seq<Move>, ticket: nat)
    requires Fitting(c) && Fresh(c, moves)
    requires forall i :: 0 <= i < |After(c, moves, |moves|).threads| ==> After(c, moves, |moves|).threads[i].Idle?
    requires ticket < After(c, moves, |moves|).enqueue
    ensures var s := After(c, moves, |moves|);
            if ticket < s.dequeue then ticket in s.taken && |s.pushes| > ticket && s.taken[ticket] == s.pushes[ticket]
            else |s.cells| == c.capacity && |s.pushes| > ticket &&
                 s.cells[Slot(ticket, c.capacity)] == Cell(ticket, true, s.pushes[ticket])
  {
    hide Run, Slot;
    EveryFreshRun(c, moves, |moves|);
    var s := After(c, moves, |moves|);
    assert !Held(s.threads, ticket, true) && !Held(s.threads, ticket, false);
    if ticket >= s.dequeue {
      assert CellOk(c, s, Slot(ticket, c.capacity));
    }
  }

  /** No two threads are ever at one slot's storage. */
  lemma StorageExclusive(c: Setting, moves: seq<Move>, i: nat, k: nat)
    requires Fitting(c) && Fresh(c, moves)
    ensures var threads := After(c, moves, |moves|).threads;
            i < |threads| && k < |threads| && i != k &&
            (threads[i].PushWrite? || threads[i].PopTake?) && (threads[k].PushWrite? || threads[k].PopTake?) ==>
              At(c, threads[i].pos) != At(c, threads[k].pos)
  {
    hide Run, Slot, Wrap, At, Accounted;
    EveryFreshRun(c, moves, |moves|);
    var s := After(c, moves, |moves|);
    if i < |s.threads| && k < |s.threads| {
      Unfolded(c, s, i);
      Unfolded(c, s, k);
      if s.threads[i].PushWrite? || s.threads[i].PopTake? {
        AtIsSlot(c, s.threads[i].pos);
      }
      if s.threads[k].PushWrite? || s.threads[k].PopTake? {
        AtIsSlot(c, s.threads[k].pos);
      }
    }
  }

  /** A stale claim needs the counter to go all the way round between a thread's
      load and its exchange, so no run of fewer moves than that has one. */
  lemma {:induction false} ShortRunsAreFresh(c: Setting, moves: seq<Move>)
    requires Fitting(c) && |moves| <= c.modulus
    ensures Fresh(c, moves)
  {
    forall n | 0 <= n < |moves| ensures !Stale(c, After(c, moves, n), moves[n]) {
      ShortPrefixes(c, moves, n);
      NotStale(c, After(c, moves, n), moves[n]);
    }
  }

  lemma {:induction false} ShortPrefixes(c: Setting, moves: seq<Move>, n: nat)
    requires Fitting(c) && n < |moves| <= c.modulus
    ensures Inv(c, After(c, moves, n)) && After(c, moves, n).enqueue <= n && After(c, moves, n).dequeue <= n
  {
    hide Inv, Step, Stale;
    if n == 0 {
      assert moves[..0] == [];
      InitialOk(c);
    } else {
      var s := After(c, moves, n - 1);
      ShortPrefixes(c, moves, n - 1);
      NotStale(c, s, moves[n - 1]);
      StepKeeps(c, s, moves[n - 1]);
      AfterStep(c, moves, n - 1);
      OneAtATime(c, s, moves[n - 1]);
    }
  }

  lemma OneAtATime(c: Setting, s: State, m: Move)
    requires Fitting(c)
    ensures Step(c, s, m).enqueue <= s.enqueue + 1 && Step(c, s, m).dequeue <= s.dequeue + 1
  {
  }

  lemma NotStale(c: Setting, s: State, m: Move)
    requires Fitting(c) && Inv(c, s) && s.enqueue < c.modulus && s.dequeue < c.modulus
    ensures !Stale(c, s, m)
  {
    if m.thread < |s.threads| {
      Unfolded(c, s, m.thread);
      var t := s.threads[m.thread];
      if t.PushClaim? || t.PopClaim? {
        WrapLow(t.pos, c.modulus);
        WrapLow(s.enqueue, c.modulus);
        WrapLow(s.dequeue, c.modulus);
      }
    }
  }

  lemma WrapLow(p: nat, modulus: nat)
    requires p < modulus
    ensures Wrap(p, modulus) == p
  {
    Arith.DivModUnique(p, modulus, 0, p);
  }

  // ---------------------------------------------------------------------
  // Giving up
  // ---------------------------------------------------------------------

  /** A push gives up exactly when its ticket is current and the ticket a lap before
      still occupies the slot, or its ticket is so old that the distance to the slot's
      sequence has wrapped into the upper half. The latter takes half the range. */
  lemma PushGivesUp(c: Setting, s: State, pos: nat)
    requires Fitting(c) && Inv(c, s) && pos <= s.enqueue
    ensures var x := s.cells[Slot(pos, c.capacity)]; var ahead := Sequence(x) - pos;
            && (Behind(c, Distance(c, Sequence(x), pos)) <==>
                || (pos == s.enqueue && x.ticket + c.capacity == s.enqueue)
                || (pos < s.enqueue && ahead % c.modulus > (c.modulus - 1) / 2))
            && (pos < s.enqueue ==> 0 <= ahead <= s.enqueue - pos + c.capacity)
  {
    hide Slot, Wrap, Minus, Divides, Held, ThreadOk, Accounted, MovedOn, Distance;
    var x := s.cells[Slot(pos, c.capacity)];
    assert CellOk(c, s, Slot(pos, c.capacity));
    if x.ticket < pos {
      SameSlot(c, x.ticket, pos);
      WrapBack(c, pos, Sequence(x));
    } else {
      if pos == s.enqueue {
        SameSlot(c, pos, x.ticket);
      }
      DistanceAhead(c, Sequence(x), pos);
    }
  }

  /** A pop gives up exactly when its ticket is current and nothing is queued or the
      producer holding that ticket has not published it, or its ticket is so old that
      the distance has wrapped into the upper half. */
  lemma PopGivesUp(c: Setting, s: State, pos: nat)
    requires Fitting(c) && Inv(c, s) && pos <= s.dequeue
    ensures var x := s.cells[Slot(pos, c.capacity)]; var ahead := Sequence(x) - (pos + 1);
            && (Behind(c, Distance(c, Sequence(x), pos + 1)) <==>
                || (pos == s.dequeue && (s.enqueue == s.dequeue || Held(s.threads, s.dequeue, false)))
                || (pos < s.dequeue && ahead % c.modulus > (c.modulus - 1) / 2))
            && (pos < s.dequeue ==> 0 <= ahead <= s.dequeue - pos + c.capacity)
  {
    hide Slot, Wrap, Minus, Divides, Held, ThreadOk, MovedOn, Distance;
    var x := s.cells[Slot(pos, c.capacity)];
    assert CellOk(c, s, Slot(pos, c.capacity));
    if x.ticket < pos {
      SameSlot(c, x.ticket, pos);
    } else if x.ticket < pos + 2 * c.capacity {
      SameSlot(c, pos, x.ticket);
    }
    if Sequence(x) < pos + 1 {
      WrapBack(c, pos + 1, Sequence(x));
    } else {
      DistanceAhead(c, Sequence(x), pos + 1);
    }
    HeldUnpublished(c, s);
  }

  lemma DistanceAhead(c: Setting, q: nat, p: nat)
    requires Fitting(c) && p <= q
    ensures Distance(c, q, p) == (q - p) % c.modulus
    ensures p == q ==> !Behind(c, Distance(c, q, p))
  {
    Arith.DivModUnique(0, c.modulus, 0, 0);
    ModOfDifference(q, p, c.modulus);
  }

  lemma ModOfDifference(q: nat, p: nat, m: nat)
    requires m > 0
    ensures (q % m - p % m) % m == (q - p) % m
  {
    var k, d := q / m - p / m, q % m - p % m;
    DifferenceSplits(q, p, m);
    WholeLaps(d, k, d / m, m);
    Arith.DivModUnique(q - p, m, k + d / m, d % m);
  }

  lemma DifferenceSplits(q: nat, p: nat, m: nat)
    requires m > 0
    ensures q - p == (q / m - p / m) * m + (q % m - p % m)
  {
  }

  lemma WholeLaps(d: int, k: int, l: int, m: nat)
    ensures k * m + l * m == (k + l) * m
  {
  }

  lemma HeldUnpublished(c: Setting, s: State)
    requires Fitting(c) && Inv(c, s)
    ensures Held(s.threads, s.dequeue, false) ==> HasTurn(c, s, s.dequeue, false) && s.dequeue < s.enqueue
  {
    if Held(s.threads, s.dequeue, false) {
      var i :| 0 <= i < |s.threads| && PushTicket(s.threads[i]) == s.dequeue;
      Unfolded(c, s, i);
    }
  }

  /** A word just behind shows as the upper half of the range. */
  lemma WrapBack(c: Setting, p: nat, q: nat)
    requires Fitting(c) && q < p <= q + c.capacity
    ensures Behind(c, Distance(c, q, p))
  {
    hide Wrap, Divides;
    TwoLaps(c);
    WrapSmall(c, p);
    WrapSmall(c, q);
    WrapKeepsDistance(q, p, c.modulus);
    Opposite(c, Wrap(p, c.modulus), Wrap(q, c.modulus));
  }

  lemma TwoLaps(c: Setting)
    requires Fitting(c)
    ensures 2 * c.capacity <= c.modulus
  {
    var q := c.modulus / c.capacity;
    assert c.modulus == q * c.capacity;
    assert q >= 2;
    assert q * c.capacity >= 2 * c.capacity;
  }

  lemma Opposite(c: Setting, a: nat, b: nat)
    requires a < c.modulus && b < c.modulus && a != b
    ensures Minus(a, b, c.modulus) + Minus(b, a, c.modulus) == c.modulus
  {
    if a < b {
      Arith.DivModUnique(a - b, c.modulus, -1, a - b + c.modulus);
      Arith.DivModUnique(b - a, c.modulus, 0, b - a);
    } else {
      Arith.DivModUnique(b - a, c.modulus, -1, b - a + c.modulus);
      Arith.DivModUnique(a - b, c.modulus, 0, a - b);
    }
  }

  /** The next push ticket's slot is ready exactly when the element a lap before it
      has been handed over, the oldest pop ticket's when it is pushed and no producer
      still holds it. */
  lemma ReadyIff(c: Setting, s: State)
    requires Fitting(c) && Inv(c, s)
    ensures HasTurn(c, s, s.enqueue, false) <==> s.enqueue < c.capacity || s.enqueue - c.capacity in s.taken
    ensures HasTurn(c, s, s.dequeue, true) <==> s.dequeue < s.enqueue && !Held(s.threads, s.dequeue, false)
  {
    hide Slot, Wrap, Divides, Held, ThreadOk;
    PushReady(c, s);
    var x := s.cells[Slot(s.dequeue, c.capacity)];
    assert CellOk(c, s, Slot(s.dequeue, c.capacity));
    HeldUnpublished(c, s);
  }

  lemma PushReady(c: Setting, s: State)
    requires Fitting(c) && Inv(c, s)
    ensures HasTurn(c, s, s.enqueue, false) <==> s.enqueue < c.capacity || s.enqueue - c.capacity in s.taken
    ensures !HasTurn(c, s, s.enqueue, false) ==> HasTicket(c, s, s.enqueue - c.capacity)
  {
    hide Slot, Wrap, Divides, Held, ThreadOk;
    var x := s.cells[Slot(s.enqueue, c.capacity)];
    assert CellOk(c, s, Slot(s.enqueue, c.capacity));
    if x.ticket < s.enqueue {
      SameSlot(c, x.ticket, s.enqueue);
    } else {
      SameSlot(c, s.enqueue, x.ticket);
    }
    if s.enqueue >= c.capacity {
      NextLap(c, s.enqueue - c.capacity);
      if s.enqueue - c.capacity !in s.taken {
        LapBefore(c, s, s.enqueue - c.capacity);
      }
    }
  }

  /** The slot is still at the ticket. */
  predicate HasTicket(c: Setting, s: State, ticket: int)
    requires 0 < c.capacity && |s.cells| == c.capacity
  {
    ticket >= 0 && s.cells[Slot(ticket, c.capacity)].ticket == ticket
  }

  /** A ticket a lap behind the counter that is not handed over: its element waits to
      be popped, a popper is moving it out, or its producer has not published it. */
  lemma LapBefore(c: Setting, s: State, ticket: nat)
    requires Fitting(c) && Inv(c, s) && ticket + c.capacity == s.enqueue && ticket !in s.taken
    ensures HasTicket(c, s, ticket)
    ensures || (s.dequeue <= ticket && HasTurn(c, s, ticket, true) && Stored(c, s, ticket) == s.pushes[ticket])
            || Held(s.threads, ticket, true) || Held(s.threads, ticket, false)
  {
    hide Slot, Wrap, Divides, MovedOn;
    var pop := ticket < s.dequeue;
    if pop || !HasTurn(c, s, ticket, true) {
      assert Held(s.threads, ticket, pop);
      var i :| 0 <= i < |s.threads| && (if pop then PopTicket(s.threads[i]) else PushTicket(s.threads[i])) == ticket;
      Unfolded(c, s, i);
    } else {
      assert CellOk(c, s, Slot(ticket, c.capacity));
    }
  }

  // ---------------------------------------------------------------------
  // Progress
  // ---------------------------------------------------------------------

  /** How many more moves a thread can make before it advances a counter or finishes,
      as long as the counters stay where they are. */
  function Rank(enqueue: nat, dequeue: nat, t: Thread): (n: nat)
    ensures n <= 4
  {
    match t
    case Idle => 0
    case PushLoad(_) => 3
    case PushLook(_, pos) => if pos == enqueue then 2 else 4
    case PushClaim(_, pos) => if pos == enqueue then 1 else 3
    case PushWrite(_, _) => 2
    case PushPublish(_) => 1
    case PopLoad => 3
    case PopLook(pos) => if pos == dequeue then 2 else 4
    case PopClaim(pos) => if pos == dequeue then 1 else 3
    case PopTake(_) => 2
    case PopRelease(_, _) => 1
  }

  function Ranks(enqueue: nat, dequeue: nat, threads: seq<Thread>): (n: nat)
    ensures n <= 4 * |threads|
  {
    if threads == [] then 0 else
      var k := |threads| - 1;
      Ranks(enqueue, dequeue, threads[..k]) + Rank(enqueue, dequeue, threads[k])
  }

  lemma {:induction false} RanksUpdate(enqueue: nat, dequeue: nat, threads: seq<Thread>, i: nat, t: Thread)
    requires i < |threads|
    ensures Ranks(enqueue, dequeue, threads[i := t]) + Rank(enqueue, dequeue, threads[i]) ==
            Ranks(enqueue, dequeue, threads) + Rank(enqueue, dequeue, t)
  {
    hide Rank;
    var k := |threads| - 1;
    if i == k {
      assert threads[i := t][..k] == threads[..k];
    } else {
      assert threads[i := t][..k] == threads[..k][i := t];
      RanksUpdate(enqueue, dequeue, threads[..k], i, t);
    }
  }

  /** A step that advances a counter or finishes the operation of the thread that moves. */
  predicate Progress(s: State, u: State, i: nat) {
    s.enqueue < u.enqueue || s.dequeue < u.dequeue || (i < |u.threads| && u.threads[i] == Idle)
  }

  lemma CurrentLook(c: Setting, s: State)
    requires Fitting(c) && Inv(c, s)
    ensures var d := Distance(c, Sequence(s.cells[Slot(s.enqueue, c.capacity)]), s.enqueue); d == 0 || Behind(c, d)
    ensures var d := Distance(c, Sequence(s.cells[Slot(s.dequeue, c.capacity)]), s.dequeue + 1); d == 0 || Behind(c, d)
  {
    hide Slot, Wrap, Divides, Held, Distance, Behind, Inv;
    Unpacked(c, s);
    LookPush(c, s);
    LookPop(c, s);
    PushGivesUp(c, s, s.enqueue);
    PopGivesUp(c, s, s.dequeue);
    PushReady(c, s);
    ReadyIff(c, s);
    if !HasTurn(c, s, s.enqueue, false) {
      NextLap(c, s.enqueue - c.capacity);
    }
  }

  lemma Unpacked(c: Setting, s: State)
    requires Inv(c, s)
    ensures 0 < c.capacity && Counters(c, s)
  {
  }

  /** Without progress a move uses up some of its thread's rank, and leaves the rest of
      the queue as it was. */
  lemma MoveUses(c: Setting, s: State, i: nat)
    requires Fitting(c) && Inv(c, s) && i < |s.threads| && s.threads[i] != Idle
    ensures var u := Step(c, s, Move(i, Go));
            Progress(s, u, i) ||
            (&& u.enqueue == s.enqueue && u.dequeue == s.dequeue && i < |u.threads|
             && u.threads == s.threads[i := u.threads[i]] && !Stale(c, s, Move(i, Go))
             && Rank(u.enqueue, u.dequeue, u.threads[i]) < Rank(s.enqueue, s.dequeue, s.threads[i]))
  {
    hide Slot, Wrap, Divides, Inv, At, Distance, Behind, SameWord, HasTurn;
    Unpacked(c, s);
    CurrentLook(c, s);
    AtIsSlot(c, s.enqueue);
    AtIsSlot(c, s.dequeue);
    SameDistance(c, s.enqueue);
    SameDistance(c, s.dequeue);
  }

  /** Every move is a thread going on with its operation, no compare-exchange failing
      for no reason. */
  predicate Busy(c: Setting, s: State, moves: seq<Move>)
    requires Fitting(c)
  {
    forall n :: 0 <= n < |moves| ==> Working(Run(c, s, moves[..n]), moves[n])
  }

  predicate Working(s: State, m: Move) {
    m.action == Go && m.thread < |s.threads| && s.threads[m.thread] != Idle
  }

  predicate ProgressAt(c: Setting, s: State, moves: seq<Move>, n: nat)
    requires Fitting(c) && n < |moves|
  {
    Progress(Run(c, s, moves[..n]), Run(c, s, moves[..n + 1]), moves[n].thread)
  }

  /** Lock-free: wherever a run has led, among any 4 N + 1 moves of N threads with work
      to do, whichever threads they are, one advances a counter or finishes an operation. */
  lemma LockFree(c: Setting, before: seq<Move>, moves: seq<Move>)
    requires Fitting(c) && Fresh(c, before) && |moves| > 4 * c.threads
    requires Busy(c, Run(c, Initial(c), before), moves)
    ensures exists n :: 0 <= n < |moves| && ProgressAt(c, Run(c, Initial(c), before), moves, n)
  {
    hide Fresh, Inv, ProgressAt, Run, Working;
    var s := Run(c, Initial(c), before);
    EveryFreshRun(c, before, |before|);
    assert before[..|before|] == before;
    if forall n :: 0 <= n < |moves| ==> !ProgressAt(c, s, moves, n) {
      RanksUsedUp(c, s, moves, |moves|);
      Unpacked(c, s);
    }
  }

  lemma {:induction false} RanksUsedUp(c: Setting, s: State, moves: seq<Move>, n: nat)
    requires Fitting(c) && Inv(c, s) && Busy(c, s, moves) && n <= |moves|
    requires forall k :: 0 <= k < n ==> !ProgressAt(c, s, moves, k)
    ensures var u := Run(c, s, moves[..n]);
            Inv(c, u) && Ranks(u.enqueue, u.dequeue, u.threads) + n <= Ranks(s.enqueue, s.dequeue, s.threads)
  {
    hide Inv, Step, Rank, Ranks, Stale, Progress;
    if n > 0 {
      RanksUsedUp(c, s, moves, n - 1);
      var u, m := Run(c, s, moves[..n - 1]), moves[n - 1];
      assert moves[..n][..n - 1] == moves[..n - 1];
      var v := Run(c, s, moves[..n]);
      assert v == Step(c, u, Move(m.thread, Go));
      assert !ProgressAt(c, s, moves, n - 1);
      MoveUses(c, u, m.thread);
      StepKeeps(c, u, m);
      RanksUpdate(u.enqueue, u.dequeue, u.threads, m.thread, v.threads[m.thread]);
    }
  }

  // ---------------------------------------------------------------------
  // A thread held up
  // ---------------------------------------------------------------------

  /** Thread 0 is held up; meanwhile the queue, used by thread 1 alone, has moved on to
      tickets `k` to `k + n`, all zeros. */
  predicate Meanwhile(c: Setting, s: State, held: Thread, k: nat, n: nat) {
    && 2 <= c.capacity && Counters(c, s) && n <= c.capacity && s.dequeue == k && s.enqueue == k + n
    && 2 <= |s.threads| && s.threads[0] == held && (forall i :: 1 <= i < |s.threads| ==> s.threads[i] == Idle)
    && (forall t: nat :: t < s.enqueue ==> s.pushes[t] == 0) && (forall t :: t in s.taken ==> t < k)
    && (forall t: nat :: k <= t < k + n ==> HasTurn(c, s, t, true) && Stored(c, s, t) == 0)
    && (forall t: nat :: k + n <= t < k + c.capacity ==> HasTurn(c, s, t, false))
  }

  const PUSH := [Move(1, StartPush(0)), Move(1, Go), Move(1, Go), Move(1, Go), Move(1, Go), Move(1, Go)]
  const POP := [Move(1, StartPop), Move(1, Go), Move(1, Go), Move(1, Go), Move(1, Go), Move(1, Go)]

  lemma {:induction false} RunConcat(c: Setting, s: State, a: seq<Move>, b: seq<Move>)
    requires Fitting(c)
    ensures Run(c, s, a + b) == Run(c, Run(c, s, a), b)
  {
    hide Step;
    if b == [] {
      assert a + b == a;
    } else {
      assert (a + b)[..|a + b| - 1] == a + b[..|b| - 1];
      RunConcat(c, s, a, b[..|b| - 1]);
    }
  }

  lemma RunSix(c: Setting, s: State, m: seq<Move>)
    requires Fitting(c) && |m| == 6
    ensures Run(c, s, m) == Step(c, Step(c, Step(c, Step(c, Step(c, Step(c, s, m[0]), m[1]), m[2]), m[3]), m[4]), m[5])
  {
    hide Step;
    assert m[..5][..4] == m[..4];
    assert m[..4][..3] == m[..3];
    assert m[..3][..2] == m[..2];
    assert m[..2][..1] == m[..1];
    assert m[..1][..0] == [];
    assert Run(c, s, m[..1]) == Step(c, s, m[0]);
    assert Run(c, s, m[..2]) == Step(c, Run(c, s, m[..1]), m[1]);
    assert Run(c, s, m[..3]) == Step(c, Run(c, s, m[..2]), m[2]);
    assert Run(c, s, m[..4]) == Step(c, Run(c, s, m[..3]), m[3]);
    assert Run(c, s, m[..5]) == Step(c, Run(c, s, m[..4]), m[4]);
  }

  lemma SameDistance(c: Setting, p: nat)
    requires Fitting(c)
    ensures Distance(c, p, p) == 0 && SameWord(c, p, p)
  {
    NearWords(c, p, p);
  }

  /** An undisturbed push. */
  lemma WholePush(c: Setting, s: State)
    requires Fitting(c) && Counters(c, s) && 2 <= |s.threads| && s.threads[1] == Idle && HasTurn(c, s, s.enqueue, false)
    ensures Run(c, s, PUSH) == s.(enqueue := s.enqueue + 1, pushes := s.pushes + [0],
                                  cells := s.cells[Slot(s.enqueue, c.capacity) := Cell(s.enqueue, true, 0)])
  {
    hide Run, Slot, Wrap, Divides, At, Distance, Behind, SameWord;
    RunSix(c, s, PUSH);
    AtIsSlot(c, s.enqueue);
    SameDistance(c, s.enqueue);
    var e, j := s.enqueue, Slot(s.enqueue, c.capacity);
    var s1 := Step(c, s, PUSH[0]);
    assert s1 == s.(threads := s.threads[1 := PushLoad(0)]);
    var s2 := Step(c, s1, PUSH[1]);
    assert s2 == s.(threads := s.threads[1 := PushLook(0, e)]);
    var s3 := Step(c, s2, PUSH[2]);
    assert s3 == s.(threads := s.threads[1 := PushClaim(0, e)]);
    var s4 := Step(c, s3, PUSH[3]);
    assert s4 == s.(enqueue := e + 1, pushes := s.pushes + [0], threads := s.threads[1 := PushWrite(0, e)]);
    var s5 := Step(c, s4, PUSH[4]);
    assert s5 == s4.(cells := s.cells[j := Cell(e, false, 0)], threads := s.threads[1 := PushPublish(e)]);
    var s6 := Step(c, s5, PUSH[5]);
    assert s6.cells == s.cells[j := Cell(e, true, 0)];
    assert s6.threads == s.threads;
  }

  /** An undisturbed pop. */
  lemma WholePop(c: Setting, s: State)
    requires Fitting(c) && Counters(c, s) && 2 <= |s.threads| && s.threads[1] == Idle && HasTurn(c, s, s.dequeue, true)
    ensures var d := s.dequeue; var v := Stored(c, s, d);
            Run(c, s, POP) == s.(dequeue := d + 1, taken := s.taken[d := v],
                                 cells := s.cells[Slot(d, c.capacity) := Cell(d + c.capacity, false, v)])
  {
    hide Run, Slot, Wrap, Divides, Step;
    RunSix(c, s, POP);
    HalfPop(c, s);
    TakeOut(c, s.(threads := s.threads[1 := PopClaim(s.dequeue)]));
    assert s.threads[1 := PopClaim(s.dequeue)][1 := Idle] == s.threads;
  }

  lemma HalfPop(c: Setting, s: State)
    requires Fitting(c) && Counters(c, s) && 2 <= |s.threads| && s.threads[1] == Idle && HasTurn(c, s, s.dequeue, true)
    ensures Step(c, Step(c, Step(c, s, POP[0]), POP[1]), POP[2]) ==
            s.(threads := s.threads[1 := PopClaim(s.dequeue)])
  {
    hide Slot, Wrap, Divides, At, Distance, Behind, SameWord;
    AtIsSlot(c, s.dequeue);
    SameDistance(c, s.dequeue + 1);
    var s1 := Step(c, s, POP[0]);
    assert s1 == s.(threads := s.threads[1 := PopLoad]);
    var s2 := Step(c, s1, POP[1]);
    assert s2 == s.(threads := s.threads[1 := PopLook(s.dequeue)]);
    assert Step(c, s2, POP[2]) == s.(threads := s.threads[1 := PopClaim(s.dequeue)]);
  }

  lemma TakeOut(c: Setting, s: State)
    requires Fitting(c) && Counters(c, s) && 2 <= |s.threads| && s.threads[1] == PopClaim(s.dequeue)
    requires HasTurn(c, s, s.dequeue, true)
    ensures var d := s.dequeue; var v := Stored(c, s, d);
            Step(c, Step(c, Step(c, s, POP[3]), POP[4]), POP[5]) ==
            s.(dequeue := d + 1, taken := s.taken[d := v], threads := s.threads[1 := Idle],
               cells := s.cells[Slot(d, c.capacity) := Cell(d + c.capacity, false, v)])
  {
    hide Slot, Wrap, Divides, At, Distance, Behind, SameWord;
    AtIsSlot(c, s.dequeue);
    SameDistance(c, s.dequeue);
    var d, v := s.dequeue, Stored(c, s, s.dequeue);
    var s4 := Step(c, s, POP[3]);
    assert s4 == s.(dequeue := d + 1, threads := s.threads[1 := PopTake(d)]);
    var s5 := Step(c, s4, POP[4]);
    assert s5 == s4.(threads := s.threads[1 := PopRelease(d, v)]);
  }

  lemma MeanwhilePush(c: Setting, s: State, held: Thread, k: nat, n: nat)
    requires Fitting(c) && Meanwhile(c, s, held, k, n) && n < c.capacity
    ensures Meanwhile(c, Run(c, s, PUSH), held, k, n + 1)
  {
    hide Run, Slot, Wrap, Divides;
    WholePush(c, s);
    var u := Run(c, s, PUSH);
    forall t: nat | k <= t < k + c.capacity && t != k + n ensures Slot(t, c.capacity) != Slot(k + n, c.capacity) {
      if t < k + n {
        SlotsApart(t, k + n, c.capacity);
      } else {
        SlotsApart(k + n, t, c.capacity);
      }
    }
    forall t: nat | k <= t < k + n + 1 ensures HasTurn(c, u, t, true) && Stored(c, u, t) == 0 {
      assert t < k + n ==> HasTurn(c, s, t, true);
    }
    forall t: nat | k + n + 1 <= t < k + c.capacity ensures HasTurn(c, u, t, false) {
      assert HasTurn(c, s, t, false);
    }
  }

  lemma MeanwhilePop(c: Setting, s: State, held: Thread, k: nat)
    requires Fitting(c) && Meanwhile(c, s, held, k, 1)
    ensures Meanwhile(c, Run(c, s, POP), held, k + 1, 0)
  {
    hide Run, Slot, Wrap, Divides;
    WholePop(c, s);
    var u := Run(c, s, POP);
    NextLap(c, k);
    forall t: nat | k + 1 <= t < k + 1 + c.capacity ensures HasTurn(c, u, t, false) {
      if t < k + c.capacity {
        SlotsApart(k, t, c.capacity);
        assert HasTurn(c, s, t, false);
      }
    }
  }

  /** Pushing and popping `n` times, or pushing `n` times. */
  function Rounds(n: nat): seq<Move> {
    if n == 0 then [] else Rounds(n - 1) + PUSH + POP
  }

  function Pushes(n: nat): seq<Move> {
    if n == 0 then [] else Pushes(n - 1) + PUSH
  }

  lemma {:induction false} MeanwhileRounds(c: Setting, s: State, held: Thread, n: nat)
    requires Fitting(c) && Meanwhile(c, s, held, 0, 0)
    ensures Meanwhile(c, Run(c, s, Rounds(n)), held, n, 0)
  {
    hide Meanwhile, Step;
    if n > 0 {
      MeanwhileRounds(c, s, held, n - 1);
      RunConcat(c, s, Rounds(n - 1) + PUSH, POP);
      RunConcat(c, s, Rounds(n - 1), PUSH);
      MeanwhilePush(c, Run(c, s, Rounds(n - 1)), held, n - 1, 0);
      MeanwhilePop(c, Run(c, s, Rounds(n - 1) + PUSH), held, n - 1);
    }
  }

  lemma {:induction false} MeanwhilePushes(c: Setting, s: State, held: Thread, k: nat, n: nat)
    requires Fitting(c) && Meanwhile(c, s, held, k, 0) && n <= c.capacity
    ensures Meanwhile(c, Run(c, s, Pushes(n)), held, k, n)
  {
    hide Meanwhile, Step;
    if n > 0 {
      MeanwhilePushes(c, s, held, k, n - 1);
      RunConcat(c, s, Pushes(n - 1), PUSH);
      MeanwhilePush(c, Run(c, s, Pushes(n - 1)), held, k, n - 1);
    }
  }

  lemma InitialMeanwhile(c: Setting, held: Thread)
    requires Fitting(c) && c.threads >= 2
    ensures Meanwhile(c, Initial(c).(threads := Initial(c).threads[0 := held]), held, 0, 0)
  {
    hide Wrap, Divides;
    var s := Initial(c).(threads := Initial(c).threads[0 := held]);
    forall t: nat | t < c.capacity ensures HasTurn(c, s, t, false) {
      SlotsConsecutive(0, t, c.capacity);
    }
  }

  /** Thread 0 starts and loads its ticket. */
  lemma Loaded(c: Setting, action: Action, held: Thread)
    requires Fitting(c) && c.threads >= 2
    requires || (action == StartPush(1) && held == PushLook(1, 0))
             || (action == StartPop && held == PopLook(0))
    ensures Run(c, Initial(c), [Move(0, action), Move(0, Go)]) == Initial(c).(threads := Initial(c).threads[0 := held])
  {
    hide Wrap, Divides, Slot, At;
    var s, moves := Initial(c), [Move(0, action), Move(0, Go)];
    assert moves[..1][..0] == [];
    var s1 := Step(c, s, moves[0]);
    assert s1 == s.(threads := s.threads[0 := if action.StartPop? then PopLoad else PushLoad(1)]);
    assert Run(c, s, moves[..1]) == s1;
    assert Step(c, s1, moves[1]) == s.(threads := s.threads[0 := held]);
  }

  /** Thread 0 loads ticket 0, sees its slot ready, and is then held up. */
  const LOADED := [Move(0, StartPush(1)), Move(0, Go)]
  const LOADED_POP := [Move(0, StartPop), Move(0, Go)]
  const HELD_UP := LOADED + [Move(0, Go)]

  lemma HeldUp(c: Setting)
    requires Fitting(c) && c.threads >= 2
    ensures Meanwhile(c, Run(c, Initial(c), HELD_UP), PushClaim(1, 0), 0, 0)
  {
    hide Wrap, Divides, Behind, Meanwhile;
    Loaded(c, StartPush(1), PushLook(1, 0));
    InitialMeanwhile(c, PushClaim(1, 0));
    AtIsSlot(c, 0);
    SlotsConsecutive(0, 0, c.capacity);
    SameDistance(c, 0);
    assert HELD_UP[..2] == LOADED;
    var s := Initial(c);
    var s2 := Run(c, s, LOADED);
    assert Step(c, s2, Move(0, Go)) == s.(threads := s.threads[0 := PushClaim(1, 0)]);
  }

  /** A ticket loaded a lap short of once round the counter ago shows its slot as far
      behind. */
  lemma FarBehind(c: Setting, p: nat)
    requires Fitting(c)
    ensures Behind(c, Distance(c, p + c.modulus - c.capacity, p)) && Distance(c, p + c.modulus - c.capacity, p) != 0
  {
    hide Distance, Divides;
    var d := c.modulus - c.capacity;
    TwoLaps(c);
    DistanceAhead(c, p + d, p);
    Arith.DivModUnique(d, c.modulus, 0, d);
  }

  lemma LapShort(c: Setting)
    requires Fitting(c)
    ensures Slot(c.modulus - c.capacity, c.capacity) == Slot(0, c.capacity)
  {
    var q := c.modulus / c.capacity;
    assert c.modulus == q * c.capacity;
    assert c.modulus - c.capacity == (q - 1) * c.capacity;
    Arith.DivModUnique(c.modulus - c.capacity, c.capacity, q - 1, 0);
    Arith.DivModUnique(0, c.capacity, 0, 0);
  }

  /** For every capacity and word size: a push held up after loading its ticket, while
      the others go all but a lap round the counter, is refused by an empty queue. */
  lemma StalePushRefused(c: Setting) returns (moves: seq<Move>)
    requires Fitting(c) && c.threads >= 2
    ensures var s := Run(c, Initial(c), moves); var u := Step(c, s, Move(0, Go));
            && |s.threads| == |u.threads| >= 2 && s.threads[0].PushLook? && u.threads[0] == Idle
            && s.enqueue == s.dequeue && u == s.(threads := u.threads)
            && forall i :: 1 <= i < |u.threads| ==> u.threads[i] == Idle
  {
    hide Run, Meanwhile, Step, Slot, Wrap, Divides;
    var k, held := c.modulus - c.capacity, PushLook(1, 0);
    Loaded(c, StartPush(1), held);
    InitialMeanwhile(c, held);
    RunConcat(c, Initial(c), LOADED, Rounds(k));
    MeanwhileRounds(c, Run(c, Initial(c), LOADED), held, k);
    moves := LOADED + Rounds(k);
    LookRefused(c, Run(c, Initial(c), moves), k);
  }

  lemma LookRefused(c: Setting, s: State, k: nat)
    requires Fitting(c) && k == c.modulus - c.capacity && Meanwhile(c, s, PushLook(1, 0), k, 0)
    ensures |s.threads| >= 2 && s.threads[0] == PushLook(1, 0) && s.enqueue == s.dequeue
    ensures forall i :: 1 <= i < |s.threads| ==> s.threads[i] == Idle
    ensures Step(c, s, Move(0, Go)) == s.(threads := s.threads[0 := Idle])
  {
    hide Slot, Wrap, Divides, Behind, Distance, At;
    AtIsSlot(c, 0);
    LapShort(c);
    assert HasTurn(c, s, k, false);
    FarBehind(c, 0);
  }

  /** And a pop held up in the same way is refused by a full queue. */
  lemma StalePopRefused(c: Setting) returns (moves: seq<Move>)
    requires Fitting(c) && c.threads >= 2
    ensures var s := Run(c, Initial(c), moves); var u := Step(c, s, Move(0, Go));
            && |s.threads| == |u.threads| >= 2 && s.threads[0].PopLook? && u.threads[0] == Idle
            && |s.cells| == c.capacity && s.enqueue == s.dequeue + c.capacity && u == s.(threads := u.threads)
            && (forall i :: 1 <= i < |u.threads| ==> u.threads[i] == Idle)
            && forall j :: 0 <= j < c.capacity ==> s.cells[j].published
  {
    hide Run, Meanwhile, Step, Slot, Wrap, Divides;
    var k, held := c.modulus - c.capacity, PopLook(0);
    Loaded(c, StartPop, held);
    InitialMeanwhile(c, held);
    var a, b := LOADED_POP, LOADED_POP + Rounds(k);
    RunConcat(c, Initial(c), a, Rounds(k));
    MeanwhileRounds(c, Run(c, Initial(c), a), held, k);
    RunConcat(c, Initial(c), b, Pushes(c.capacity));
    MeanwhilePushes(c, Run(c, Initial(c), b), held, k, c.capacity);
    moves := b + Pushes(c.capacity);
    PopLookRefused(c, Run(c, Initial(c), moves), k);
  }

  lemma PopLookRefused(c: Setting, s: State, k: nat)
    requires Fitting(c) && k == c.modulus - c.capacity && Meanwhile(c, s, PopLook(0), k, c.capacity)
    ensures |s.threads| >= 2 && s.threads[0] == PopLook(0) && s.enqueue == s.dequeue + c.capacity
    ensures |s.cells| == c.capacity && forall i :: 1 <= i < |s.threads| ==> s.threads[i] == Idle
    ensures Step(c, s, Move(0, Go)) == s.(threads := s.threads[0 := Idle])
    ensures forall j :: 0 <= j < c.capacity ==> s.cells[j].published
  {
    hide Slot, Wrap, Divides, Behind, Distance, At;
    AtIsSlot(c, 0);
    LapShort(c);
    assert HasTurn(c, s, k, true);
    FarBehind(c, 1);
    forall j | 0 <= j < c.capacity ensures s.cells[j].published {
      SlotFrom(c, j);
      assert HasTurn(c, s, k + j, true);
    }
  }

  lemma SlotFrom(c: Setting, j: nat)
    requires Fitting(c) && j < c.capacity
    ensures Slot(c.modulus - c.capacity + j, c.capacity) == j
  {
    var q := c.modulus / c.capacity;
    assert c.modulus == q * c.capacity;
    assert c.modulus - c.capacity + j == (q - 1) * c.capacity + j;
    Arith.DivModUnique(c.modulus - c.capacity + j, c.capacity, q - 1, j);
  }

  /** A claim, stale or not, keeps the invariant exactly when the element a lap before
      has been handed over; for a pop, when its element is published. */
  lemma ClaimSafeIff(c: Setting, s: State, i: nat)
    requires Fitting(c) && Inv(c, s) && i < |s.threads|
    ensures s.threads[i].PushClaim? && SameWord(c, s.threads[i].pos, s.enqueue) ==>
              (Inv(c, Step(c, s, Move(i, Go))) <==> s.enqueue < c.capacity || s.enqueue - c.capacity in s.taken)
    ensures s.threads[i].PopClaim? && SameWord(c, s.threads[i].pos, s.dequeue) ==>
              (Inv(c, Step(c, s, Move(i, Go))) <==> s.dequeue < s.enqueue && !Held(s.threads, s.dequeue, false))
  {
    hide Slot, Wrap, Divides, SameWord, Accounted, CellOk, MovedOn, Held;
    var t, u := s.threads[i], Step(c, s, Move(i, Go));
    ReadyIff(c, s);
    if t.PushClaim? && SameWord(c, t.pos, s.enqueue) {
      if HasTurn(c, s, s.enqueue, false) {
        PushClaimKeeps(c, s, i, t.value);
      }
      assert u.threads[i] == PushWrite(t.value, s.enqueue);
    }
    if t.PopClaim? && SameWord(c, t.pos, s.dequeue) {
      if HasTurn(c, s, s.dequeue, true) {
        PopClaimKeeps(c, s, i);
      }
      assert u.threads[i] == PopTake(s.dequeue);
    }
  }

  /** The move makes a claim. */
  predicate Claims(c: Setting, s: State, m: Move)
    requires Fitting(c)
  {
    && m.thread < |s.threads| && m.action.Go?
    && var t := s.threads[m.thread];
       (t.PushClaim? && SameWord(c, t.pos, s.enqueue)) || (t.PopClaim? && SameWord(c, t.pos, s.dequeue))
  }

  /** A claim is made in time: a push after the element a lap before has been handed
      over, a pop after its element is published. */
  predicate InTime(c: Setting, s: State, m: Move)
    requires Fitting(c)
  {
    Claims(c, s, m) ==>
      if s.threads[m.thread].PushClaim? then s.enqueue < c.capacity || s.enqueue - c.capacity in s.taken
      else s.dequeue < s.enqueue && !Held(s.threads, s.dequeue, false)
  }

  /** A whole run is safe at every moment exactly when every claim in it is made in
      time, stale or not. */
  lemma RunSafeIff(c: Setting, moves: seq<Move>)
    requires Fitting(c)
    ensures (forall n :: 0 <= n <= |moves| ==> Inv(c, After(c, moves, n))) <==>
            forall n :: 0 <= n < |moves| ==> InTime(c, After(c, moves, n), moves[n])
  {
    hide Inv, InTime, After;
    if forall n :: 0 <= n < |moves| ==> InTime(c, After(c, moves, n), moves[n]) {
      forall n | 0 <= n <= |moves| ensures Inv(c, After(c, moves, n)) {
        InTimeSafe(c, moves, n);
      }
    }
    if forall n :: 0 <= n <= |moves| ==> Inv(c, After(c, moves, n)) {
      forall n | 0 <= n < |moves| ensures InTime(c, After(c, moves, n), moves[n]) {
        AfterStep(c, moves, n);
        assert Inv(c, After(c, moves, n)) && Inv(c, After(c, moves, n + 1));
        SafeStepIff(c, After(c, moves, n), moves[n]);
      }
    }
  }

  lemma {:induction false} InTimeSafe(c: Setting, moves: seq<Move>, n: nat)
    requires Fitting(c) && n <= |moves|
    requires forall k :: 0 <= k < |moves| ==> InTime(c, After(c, moves, k), moves[k])
    ensures Inv(c, After(c, moves, n))
  {
    hide Inv, InTime, Step;
    if n == 0 {
      InitialOk(c);
    } else {
      InTimeSafe(c, moves, n - 1);
      AfterStep(c, moves, n - 1);
      SafeStepIff(c, After(c, moves, n - 1), moves[n - 1]);
    }
  }

  lemma SafeStepIff(c: Setting, s: State, m: Move)
    requires Fitting(c) && Inv(c, s)
    ensures Inv(c, Step(c, s, m)) <==> InTime(c, s, m)
  {
    hide Inv, SameWord, Step, Held;
    if Claims(c, s, m) {
      assert m == Move(m.thread, Go);
      ClaimSafeIff(c, s, m.thread);
    } else {
      StepKeeps(c, s, m);
    }
  }

  /** What a push that claims an unready slot does: it overwrites the storage of the
      ticket a lap before, never handed over, whose element waits to be popped or whose
      popper or producer is still at that storage. */
  lemma UnreadyPushOverwrites(c: Setting, s: State, i: nat)
    requires Fitting(c) && Inv(c, s) && i < |s.threads|
    requires s.threads[i].PushClaim? && SameWord(c, s.threads[i].pos, s.enqueue)
    requires s.enqueue >= c.capacity && s.enqueue - c.capacity !in s.taken
    ensures var ticket := s.enqueue - c.capacity; var j := Slot(ticket, c.capacity);
            var u := Run(c, s, [Move(i, Go), Move(i, Go)]);
            && s.cells[j].ticket == ticket && |u.cells| == c.capacity && ticket !in u.taken
            && u.cells[j] == s.cells[j].(value := s.threads[i].value)
            && (|| (s.dequeue <= ticket && s.cells[j].published && s.cells[j].value == s.pushes[ticket])
                || Held(s.threads, ticket, true) || Held(s.threads, ticket, false))
  {
    hide Slot, Wrap, Divides, SameWord, Inv, Held, At;
    TwoSteps(c, s, i);
    LapBefore(c, s, s.enqueue - c.capacity);
    NextLap(c, s.enqueue - c.capacity);
    AtIsSlot(c, s.enqueue);
    Unfolded(c, s, i);
  }

  /** What a pop that claims an unready slot does: it takes what is in the storage of a
      ticket never pushed, or one whose producer has not published it. */
  lemma UnreadyPopTakes(c: Setting, s: State, i: nat)
    requires Fitting(c) && Inv(c, s) && i < |s.threads|
    requires s.threads[i].PopClaim? && SameWord(c, s.threads[i].pos, s.dequeue)
    requires s.dequeue == s.enqueue || Held(s.threads, s.dequeue, false)
    ensures var j := Slot(s.dequeue, c.capacity); var u := Run(c, s, [Move(i, Go), Move(i, Go)]);
            && i < |u.threads| && u.threads[i] == PopRelease(s.dequeue, s.cells[j].value)
            && (s.dequeue == |s.pushes| || (s.cells[j].ticket == s.dequeue && !s.cells[j].published))
  {
    hide Slot, Wrap, Divides, SameWord, Inv, At;
    TwoSteps(c, s, i);
    HeldUnpublished(c, s);
    AtIsSlot(c, s.dequeue);
    Unfolded(c, s, i);
  }

  lemma TwoSteps(c: Setting, s: State, i: nat)
    requires Fitting(c)
    ensures var go := Move(i, Go); Run(c, s, [go, go]) == Step(c, Step(c, s, go), go)
  {
    hide Step;
    var go := Move(i, Go);
    assert [go, go][..1] == [go] && [go][..0] == [];
    assert Run(c, s, [go]) == Step(c, Run(c, s, []), go);
  }

  /** For every capacity and word size: a thread held up between looking at its
      slot and claiming its ticket, while the others go exactly once round the
      counter, then overwrites an element nobody has popped. */
  lemma StaleClaimOverwrites(c: Setting) returns (moves: seq<Move>)
    requires Fitting(c) && c.threads >= 2
    ensures var s := Run(c, Initial(c), moves); var t := c.modulus - c.capacity;
            && |s.cells| == c.capacity && s.dequeue == t < |s.pushes| && t !in s.taken && s.pushes[t] == 0
            && s.cells[Slot(t, c.capacity)] == Cell(t, true, 1)
  {
    hide Run, Meanwhile, Step, Slot, Wrap, Divides;
    var k := c.modulus - c.capacity;
    var a, b := HELD_UP, HELD_UP + Rounds(k);
    HeldUp(c);
    RunConcat(c, Initial(c), a, Rounds(k));
    MeanwhileRounds(c, Run(c, Initial(c), a), PushClaim(1, 0), k);
    RunConcat(c, Initial(c), b, Pushes(c.capacity));
    MeanwhilePushes(c, Run(c, Initial(c), b), PushClaim(1, 0), k, c.capacity);
    var full := Run(c, Initial(c), b + Pushes(c.capacity));
    moves := b + Pushes(c.capacity) + [Move(0, Go), Move(0, Go)];
    RunConcat(c, Initial(c), b + Pushes(c.capacity), [Move(0, Go), Move(0, Go)]);
    LetGo(c, full);
  }

  lemma LetGo(c: Setting, s: State)
    requires Fitting(c) && Meanwhile(c, s, PushClaim(1, 0), c.modulus - c.capacity, c.capacity)
    ensures var t := c.modulus - c.capacity; var j := Slot(t, c.capacity);
            var u := Run(c, s, [Move(0, Go), Move(0, Go)]);
            && |s.cells| == c.capacity && |s.pushes| == c.modulus && u.dequeue == t && t !in u.taken
            && |u.pushes| > t && u.pushes[t] == 0 && u.cells == s.cells[j := Cell(t, true, 1)]
  {
    hide Slot, Wrap, Divides, At, SameWord, Behind, Distance;
    var m := c.modulus;
    var t := m - c.capacity;
    var moves := [Move(0, Go), Move(0, Go)];
    assert moves[..1][..0] == [];
    OnceRound(c);
    AtIsSlot(c, m);
    NextLap(c, t);
    assert HasTurn(c, s, t, true);
    var s1 := Step(c, s, moves[0]);
    assert Run(c, s, moves[..1]) == s1;
    assert s1 == s.(enqueue := m + 1, pushes := s.pushes + [1], threads := s.threads[0 := PushWrite(1, m)]);
  }

  lemma OnceRound(c: Setting)
    requires Fitting(c)
    ensures SameWord(c, 0, c.modulus)
  {
    Arith.DivModUnique(c.modulus, c.modulus, 1, 0);
    Arith.DivModUnique(0, c.modulus, 0, 0);
  }
}
