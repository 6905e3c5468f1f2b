/**
 The timer service in the source's own form: timer objects updated in place and
 a list of the armed ones, proved to do what the queue model says.
 */
module TimerService {

  import T = Timers

  const LOG_CAPACITY: nat := 32

  class Timer {
    const address: nat  // tells one timer object from another
    const id: char
    const period: nat   // 0: one-shot
    var deadline: nat
    var fired: nat

    constructor (address: nat, id: char, period: nat)
      requires period < T.WRAP
      ensures this.address == address && this.id == id && this.period == period
      ensures deadline == 0 && fired == 0
    {
      this.address, this.id, this.period := address, id, period;
      deadline, fired := 0, 0;
    }
  }

  ghost predicate Matches(t: Timer, e: T.Entry)
    reads t
  {
    e.timer == t.address && e.period == t.period && e.deadline == t.deadline
  }

  ghost predicate Agrees(s: seq<Timer>, es: seq<T.Entry>)
    reads s
  {
    |s| == |es| && forall i :: 0 <= i < |s| ==> Matches(s[i], es[i])
  }

  lemma AgreesCut(s: seq<Timer>, es: seq<T.Entry>, i: nat)
    requires Agrees(s, es) && i < |s|
    ensures Agrees(s[..i] + s[i + 1..], es[..i] + es[i + 1..])
    ensures forall u :: u in s[..i] + s[i + 1..] ==> u in s
  {
    var rest, others := s[..i] + s[i + 1..], es[..i] + es[i + 1..];
    forall j | 0 <= j < |rest| ensures Matches(rest[j], others[j]) {
      var k := if j < i then j else j + 1;
      assert Matches(s[k], es[k]);
    }
  }

  lemma AgreesInsert(s: seq<Timer>, es: seq<T.Entry>, i: nat, t: Timer, e: T.Entry)
    requires Agrees(s, es) && i <= |s| && Matches(t, e)
    ensures Agrees(s[..i] + [t] + s[i..], es[..i] + [e] + es[i..])
    ensures t in s[..i] + [t] + s[i..] && forall u :: u in s[..i] + [t] + s[i..] ==> u == t || u in s
  {
    var longer, others := s[..i] + [t] + s[i..], es[..i] + [e] + es[i..];
    assert longer[i] == t;
    forall j | 0 <= j < |longer| ensures Matches(longer[j], others[j]) {
      if j != i {
        var k := if j < i then j else j - 1;
        assert Matches(s[k], es[k]);
      }
    }
  }

  function Record(log: seq<char>, id: char): seq<char> {
    if |log| < LOG_CAPACITY then log + [id] else log
  }

  function Ids(ts: seq<Timer>): (r: seq<char>)
    ensures |r| == |ts|
  {
    seq(|ts|, i requires 0 <= i < |ts| => ts[i].id)
  }

  /** The dispatch log keeps the first 32 identifiers. */
  function Kept(log: seq<char>): seq<char> {
    if |log| <= 32 then log else log[..32]
  }

  lemma RecordKeeps(log: seq<char>, ids: seq<char>, id: char)
    requires |log| <= LOG_CAPACITY
    ensures Record(Kept(log + ids), id) == Kept(log + (ids + [id]))
  {
    assert log + (ids + [id]) == log + ids + [id];
  }

  lemma IdsMore(ts: seq<Timer>, t: Timer)
    ensures Ids(ts + [t]) == Ids(ts) + [t.id]
  {
  }

  /** These timers, in this order, are the ones the entries stand for. */
  ghost predicate StandFor(ts: seq<Timer>, es: seq<T.Entry>, among: seq<Timer>) {
    |ts| == |es| && forall i :: 0 <= i < |ts| ==> ts[i] in among && ts[i].address == es[i].timer
  }

  lemma {:induction false} PlacedAt(s: seq<T.Entry>, e: T.Entry, pos: nat)
    requires pos <= |s| && forall i :: 0 <= i < pos ==> s[i].deadline <= e.deadline
    requires pos < |s| ==> s[pos].deadline > e.deadline
    ensures T.Place(s, e) == s[..pos] + [e] + s[pos..]
  {
    if pos > 0 {
      PlacedAt(s[1..], e, pos - 1);
      assert s == [s[0]] + s[1..];
    }
  }

  class Service {
    var armed: seq<Timer>
    var log: seq<char>
    ghost var queue: T.Queue

    /** Sorted by deadline, ties in arming order, no timer twice. */
    ghost predicate Valid()
      reads this, armed
    {
      T.Valid(queue) && Agrees(armed, queue.armed) && |log| <= LOG_CAPACITY
    }

    /** Different timers have different addresses. */
    ghost predicate Unaliased(t: Timer)
      reads this, armed
    {
      forall u :: u in armed ==> u.address == t.address ==> u == t
    }

    constructor ()
      ensures Valid() && armed == [] && log == []
    {
      armed, log, queue := [], [], T.Queue([], 0);
    }

    /** Where `t` is linked, or the length of the list. */
    method Find(t: Timer) returns (i: nat)
      ensures i <= |armed| && t !in armed[..i]
      ensures i < |armed| ==> armed[i] == t
    {
      i := 0;
      while i < |armed| && armed[i] != t
        invariant 0 <= i <= |armed|
        invariant t !in armed[..i]
      {
        i := i + 1;
      }
    }

    /** Unlinks `t`; says whether it was armed. */
    method Cancel(t: Timer) returns (was: bool)
      requires Valid() && Unaliased(t)
      modifies this`armed, this`queue
      ensures Valid() && queue == T.Cancel(old(queue), t.address)
      ensures was == T.IsArmed(old(queue), t.address)
      ensures t !in armed && forall u :: u in armed ==> u in old(armed)
    {
      T.CancelKeeps(queue, t.address);
      was := Unlink(t);
      NotLinked(t);
    }

    method Unlink(t: Timer) returns (was: bool)
      requires Agrees(armed, queue.armed) && Unaliased(t)
      modifies this`armed, this`queue
      ensures Agrees(armed, queue.armed) && queue == T.Cancel(old(queue), t.address)
      ensures was == T.IsArmed(old(queue), t.address)
      ensures forall u :: u in armed ==> u in old(armed)
    {
      var i := Find(t);
      FoundIsFirst(t, i);
      queue := T.Cancel(queue, t.address);
      if i == |armed| {
        return false;
      }
      AgreesCut(armed, old(queue).armed, i);
      armed := armed[..i] + armed[i + 1..];
      return true;
    }

    lemma FoundIsFirst(t: Timer, i: nat)
      requires Agrees(armed, queue.armed) && Unaliased(t)
      requires i <= |armed| && t !in armed[..i] && (i < |armed| ==> armed[i] == t)
      ensures T.Without(queue.armed, t.address) ==
              if i < |armed| then queue.armed[..i] + queue.armed[i + 1..] else queue.armed
      ensures T.IsArmed(queue, t.address) <==> i < |armed|
    {
      forall j | 0 <= j < i ensures queue.armed[j].timer != t.address {
        assert Matches(armed[j], queue.armed[j]) && armed[j] in armed[..i];
      }
      if i < |armed| {
        assert Matches(armed[i], queue.armed[i]) && queue.armed[i] in queue.armed;
      }
      T.WithoutAt(queue.armed, t.address, i);
    }

    lemma NotLinked(t: Timer)
      requires Agrees(armed, queue.armed) && forall x :: x in queue.armed ==> x.timer != t.address
      ensures t !in armed
    {
      forall i | 0 <= i < |armed| ensures armed[i] != t {
        assert Matches(armed[i], queue.armed[i]);
        assert queue.armed[i] in queue.armed;
      }
    }

    /** The position before which a timer due at `at` is linked. */
    method Position(at: nat) returns (pos: nat)
      ensures pos <= |armed| && forall i :: 0 <= i < pos ==> armed[i].deadline <= at
      ensures pos < |armed| ==> armed[pos].deadline > at
    {
      pos := 0;
      while pos < |armed| && armed[pos].deadline <= at
        invariant 0 <= pos <= |armed|
        invariant forall i :: 0 <= i < pos ==> armed[i].deadline <= at
      {
        pos := pos + 1;
      }
    }

    method Link(t: Timer, at: nat)
      requires t !in armed && Agrees(armed, queue.armed)
      modifies this`armed, this`queue, t`deadline
      ensures Agrees(armed, queue.armed)
      ensures queue == T.Queue(T.Place(old(queue).armed, T.Entry(t.address, t.period, at, old(queue).next)),
                               old(queue).next + 1)
      ensures t in armed && forall u :: u in armed ==> u == t || u in old(armed)
    {
      t.deadline := at;
      var pos := Position(at);
      ghost var e := T.Entry(t.address, t.period, at, queue.next);
      PlacedAt(queue.armed, e, pos);
      assert Agrees(armed, queue.armed);
      AgreesInsert(armed, queue.armed, pos, t, e);
      armed := armed[..pos] + [t] + armed[pos..];
      queue := T.Queue(T.Place(queue.armed, e), queue.next + 1);
    }

    /** Arms `t` for `at`, cancelling a pending deadline first. */
    method Arm(t: Timer, at: nat)
      requires Valid() && Unaliased(t) && t.period < T.WRAP && at < T.WRAP
      modifies this`armed, this`queue, t`deadline
      ensures Valid() && queue == T.Arm(old(queue), t.address, t.period, at)
      ensures t in armed && forall u :: u in armed ==> u == t || u in old(armed)
    {
      T.ArmKeeps(queue, t.address, t.period, at);
      var _ := Cancel(t);
      Link(t, at);
    }

    /** The earliest deadline, or none when nothing is armed. */
    method NextDeadline() returns (found: bool, at: nat)
      requires Valid()
      ensures found <==> armed != []
      ensures found ==> T.Due(queue, at) && forall e :: e in queue.armed ==> at <= e.deadline
    {
      if armed == [] {
        return false, 0;
      }
      assert Matches(armed[0], queue.armed[0]);
      forall e | e in queue.armed ensures armed[0].deadline <= e.deadline {
        var i :| 0 <= i < |queue.armed| && queue.armed[i] == e;
        assert i > 0 ==> T.Before(queue.armed[0], queue.armed[i]);
      }
      return true, armed[0].deadline;
    }

    method PopFront() returns (t: Timer)
      requires Agrees(armed, queue.armed) && T.DistinctTimers(queue.armed) && armed != []
      modifies this`armed, this`queue
      ensures t == old(armed)[0] && Matches(t, old(queue).armed[0])
      ensures armed == old(armed)[1..] && t !in armed
      ensures queue == old(queue).(armed := old(queue).armed[1..]) && Agrees(armed, queue.armed)
    {
      t := armed[0];
      forall k | 0 < k < |armed| ensures armed[k] != t {
        assert queue.armed[0].timer != queue.armed[k].timer;
        assert Matches(armed[k], queue.armed[k]) && Matches(t, queue.armed[0]);
      }
      armed := armed[1..];
      queue := queue.(armed := queue.armed[1..]);
    }

    /** One turn of the dispatch loop, for a list drawn from `due`. */
    method DispatchFront(ghost due: seq<Timer>)
      requires Agrees(armed, queue.armed) && T.DistinctTimers(queue.armed) && armed != []
      requires Addressed(due) && forall u :: u in armed ==> u in due
      modifies this`armed, this`queue, this`log, due
      ensures Agrees(armed, queue.armed) && queue == T.Step(old(queue))
      ensures forall u :: u in armed ==> u in due
      ensures forall u :: u in due ==>
                u.fired == old(u.fired) + if u.address == old(queue).armed[0].timer then 1 else 0
      ensures log == Record(old(log), old(armed)[0].id)
    {
      assert armed[0] in armed;
      var t := PopFront();
      t.fired := t.fired + 1;
      log := Record(log, t.id);
      if t.period != 0 {
        Link(t, (t.deadline + t.period) % T.WRAP);
      }
    }

    /** The same turn, with what it adds to the log and to the timers dispatched. */
    method Turn(ghost due: seq<Timer>, ghost before: seq<char>, ghost done: seq<T.Entry>, ghost ts: seq<Timer>)
      returns (ghost more: seq<Timer>)
      requires Valid() && armed != [] && Addressed(due) && forall u :: u in armed ==> u in due
      requires |before| <= LOG_CAPACITY && StandFor(ts, done, due) && log == Kept(before + Ids(ts))
      modifies this`armed, this`queue, this`log, due
      ensures Valid() && queue == T.Step(old(queue))
      ensures forall u :: u in armed ==> u in due
      ensures forall u :: u in due ==>
                u.fired == old(u.fired) + if u.address == old(queue).armed[0].timer then 1 else 0
      ensures StandFor(more, done + [old(queue).armed[0]], due) && log == Kept(before + Ids(more))
    {
      hide Ids, Kept, T.Step;
      assert Matches(armed[0], queue.armed[0]) && armed[0] in armed;
      T.StepKeeps(queue);
      RecordKeeps(before, Ids(ts), armed[0].id);
      IdsMore(ts, armed[0]);
      more := ts + [armed[0]];
      DispatchFront(due);
      KeptFits(before + Ids(more));
    }

    /** Expires every timer due at `now`. It returns exactly when every armed timer
        can get past `now`, which is what it asks of its caller. */
    method RunDue(now: nat) returns (ran: nat, ghost dispatched: seq<Timer>)
      requires Valid() && T.Returns(queue, now)
      modifies this`armed, this`queue, this`log, armed
      ensures T.AllSettle(old(queue).armed, now)
      ensures Valid() && queue == T.RunDue(old(queue), now).0
      ensures ran == |T.RunDue(old(queue), now).1| == T.Total(old(queue).armed, now)
      ensures forall u :: u in old(armed) ==>
                u.fired == old(u.fired) + T.Count(T.RunDue(old(queue), now).1, u.address)
      ensures StandFor(dispatched, T.RunDue(old(queue), now).1, old(armed))
      ensures log == Kept(old(log) + Ids(dispatched))
    {
      hide T.Escapes, T.Settles, T.Total, T.RunDue, T.Step, Ids, Kept, StandFor;
      T.ReturnsIffAllSettle(queue, now);
      T.RunDueServes(queue, now);
      ghost var due := armed;
      AddressesDiffer();
      ran, dispatched := 0, [];
      NothingLogged(log, due);
      ghost var run := T.RunDue(queue, now);
      ghost var done: seq<T.Entry> := [];
      while armed != [] && armed[0].deadline <= now
        invariant Valid() && T.AllSettle(queue.armed, now)
        invariant forall u :: u in armed ==> u in due
        invariant T.RunDue(queue, now).0 == run.0 && done + T.RunDue(queue, now).1 == run.1
        invariant ran == |done|
        invariant forall u :: u in due ==> u.fired == old(u.fired) + T.Count(done, u.address)
        invariant StandFor(dispatched, done, due) && log == Kept(old(log) + Ids(dispatched))
        decreases T.Total(queue.armed, now)
      {
        assert Matches(armed[0], queue.armed[0]);
        T.StepTotal(queue, now);
        ghost var e := queue.armed[0];
        RunUnfolds(queue, now, done);
        CountsAppend(done, e);
        dispatched := Turn(due, old(log), done, dispatched);
        done, ran := done + [e], ran + 1;
      }
      assert armed != [] ==> Matches(armed[0], queue.armed[0]);
      RunOver(queue, now, done);
    }

    lemma AddressesDiffer()
      requires Valid()
      ensures Addressed(armed)
    {
      forall i, j | 0 <= i < j < |armed| ensures armed[i].address != armed[j].address {
        assert Matches(armed[i], queue.armed[i]) && Matches(armed[j], queue.armed[j]);
      }
    }
  }

  lemma RunOver(q: T.Queue, now: nat, done: seq<T.Entry>)
    requires T.Valid(q) && T.AllSettle(q.armed, now) && !T.Due(q, now)
    ensures T.RunDue(q, now).0 == q && done + T.RunDue(q, now).1 == done
  {
  }

  lemma NothingLogged(log: seq<char>, due: seq<Timer>)
    requires |log| <= LOG_CAPACITY
    ensures Kept(log + Ids([])) == log && StandFor([], [], due)
  {
    assert log + Ids([]) == log;
  }

  lemma KeptFits(log: seq<char>)
    ensures |Kept(log)| <= LOG_CAPACITY
  {
  }

  /** No two of these timers share an address. */
  ghost predicate Addressed(s: seq<Timer>) {
    forall u, v :: u in s && v in s && u.address == v.address ==> u == v
  }

  lemma RunUnfolds(q: T.Queue, now: nat, done: seq<T.Entry>)
    requires T.Valid(q) && T.AllSettle(q.armed, now) && T.Due(q, now)
    ensures T.Valid(T.Step(q)) && T.AllSettle(T.Step(q).armed, now)
    ensures T.RunDue(T.Step(q), now).0 == T.RunDue(q, now).0
    ensures (done + [q.armed[0]]) + T.RunDue(T.Step(q), now).1 == done + T.RunDue(q, now).1
  {
    T.StepTotal(q, now);
    T.StepKeeps(q);
  }

  lemma CountsAppend(log: seq<T.Entry>, e: T.Entry)
    ensures forall a :: T.Count(log + [e], a) == T.Count(log, a) + if e.timer == a then 1 else 0
  {
    forall a ensures T.Count(log + [e], a) == T.Count(log, a) + if e.timer == a then 1 else 0 {
      CountAppend(log, e, a);
    }
  }

  lemma {:induction false} CountAppend(log: seq<T.Entry>, e: T.Entry, a: nat)
    ensures T.Count(log + [e], a) == T.Count(log, a) + if e.timer == a then 1 else 0
  {
    if log == [] {
      assert ([] + [e])[1..] == [];
    } else {
      CountAppend(log[1..], e, a);
      assert (log + [e])[1..] == log[1..] + [e];
    }
  }
}
