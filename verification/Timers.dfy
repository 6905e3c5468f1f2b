/**
 The software timer service (examples/armed_timers.cpp): timers kept in a list
 sorted by deadline, cancelled and re-armed in place, and expired by a loop that
 re-inserts a periodic timer while it drains the list.

 Ticks are 32-bit, so a re-armed deadline wraps around. `stamp` numbers the
 calls of `arm` and only serves to say what "in the order they were armed" means.
 */
module Timers {

  import Arith
  import Orbit
  import W = Words

  const WRAP: nat := 0x1_0000_0000

  /** Which timer: stands for the address of the timer object. */
  type Id = nat

  /** An armed timer as the list sees it. */
  datatype Entry = Entry(timer: Id, period: nat, deadline: nat, stamp: nat)

  datatype Queue = Queue(armed: seq<Entry>, next: nat)

  // ---------------------------------------------------------------------
  // Arming, cancelling, one dispatch
  // ---------------------------------------------------------------------

  /** Links `e` before the first entry with a later deadline. */
  function Place(armed: seq<Entry>, e: Entry): seq<Entry> {
    if armed == [] || armed[0].deadline > e.deadline then [e] + armed
    else [armed[0]] + Place(armed[1..], e)
  }

  function Without(armed: seq<Entry>, t: Id): seq<Entry> {
    if armed == [] then []
    else if armed[0].timer == t then armed[1..]
    else [armed[0]] + Without(armed[1..], t)
  }

  predicate IsArmed(q: Queue, t: Id) {
    exists e :: e in q.armed && e.timer == t
  }

  function Cancel(q: Queue, t: Id): Queue {
    q.(armed := Without(q.armed, t))
  }

  function Arm(q: Queue, t: Id, period: nat, at: nat): Queue {
    Queue(Place(Without(q.armed, t), Entry(t, period, at, q.next)), q.next + 1)
  }

  predicate Due(q: Queue, now: nat) {
    q.armed != [] && q.armed[0].deadline <= now
  }

  /** The entry a periodic timer is re-armed with. */
  function Rearmed(e: Entry, stamp: nat): Entry {
    Entry(e.timer, e.period, (e.deadline + e.period) % WRAP, stamp)
  }

  /** One turn of the dispatch loop: unlink the front, re-arm it if periodic. */
  function Step(q: Queue): Queue
    requires q.armed != []
  {
    var e := q.armed[0];
    if e.period == 0 then Queue(q.armed[1..], q.next)
    else Queue(Place(q.armed[1..], Rearmed(e, q.next)), q.next + 1)
  }

  // ---------------------------------------------------------------------
  // The invariant of the armed list
  // ---------------------------------------------------------------------

  /** Dispatch order: earlier deadline first, then the one armed first. */
  predicate Before(a: Entry, b: Entry) {
    a.deadline < b.deadline || (a.deadline == b.deadline && a.stamp < b.stamp)
  }

  predicate Sorted(s: seq<Entry>) {
    forall i, j :: 0 <= i < j < |s| ==> Before(s[i], s[j])
  }

  predicate DistinctTimers(s: seq<Entry>) {
    forall i, j :: 0 <= i < j < |s| ==> s[i].timer != s[j].timer
  }

  predicate Valid(q: Queue) {
    && Sorted(q.armed) && DistinctTimers(q.armed)
    && forall e :: e in q.armed ==> e.stamp < q.next && e.deadline < WRAP && e.period < WRAP
  }

  lemma {:induction false} PlaceElements(armed: seq<Entry>, e: Entry)
    ensures forall x :: x in Place(armed, e) <==> x == e || x in armed
    ensures |Place(armed, e)| == |armed| + 1
  {
    if armed == [] || armed[0].deadline > e.deadline {
    } else {
      PlaceElements(armed[1..], e);
      assert armed == [armed[0]] + armed[1..];
    }
  }

  lemma {:induction false} PlaceSorted(armed: seq<Entry>, e: Entry)
    requires Sorted(armed) && forall x :: x in armed ==> x.stamp < e.stamp
    ensures Sorted(Place(armed, e))
  {
    if armed == [] {
    } else if armed[0].deadline > e.deadline {
      forall j | 0 < j < |armed| + 1 ensures Before(e, ([e] + armed)[j]) {
        assert j > 1 ==> Before(armed[0], armed[j - 1]);
      }
    } else {
      PlaceSorted(armed[1..], e);
      PlaceElements(armed[1..], e);
      var rest := Place(armed[1..], e);
      forall j | 0 <= j < |rest| ensures Before(armed[0], rest[j]) {
        assert rest[j] in rest;
        if rest[j] != e {
          var k :| 0 <= k < |armed[1..]| && armed[1..][k] == rest[j];
          assert Before(armed[0], armed[k + 1]);
        }
      }
    }
  }

  lemma {:induction false} PlaceDistinct(armed: seq<Entry>, e: Entry)
    requires DistinctTimers(armed) && forall x :: x in armed ==> x.timer != e.timer
    ensures DistinctTimers(Place(armed, e))
  {
    if armed == [] || armed[0].deadline > e.deadline {
    } else {
      PlaceDistinct(armed[1..], e);
      PlaceElements(armed[1..], e);
      var rest := Place(armed[1..], e);
      forall j | 0 <= j < |rest| ensures armed[0].timer != rest[j].timer {
        assert rest[j] in rest;
        if rest[j] != e {
          var k :| 0 <= k < |armed[1..]| && armed[1..][k] == rest[j];
          assert armed[0].timer != armed[k + 1].timer;
        }
      }
    }
  }

  /** Cancelling unlinks the one entry of `t`, or changes nothing. */
  lemma {:induction false} WithoutShape(armed: seq<Entry>, t: Id) returns (k: nat)
    ensures k <= |armed| && forall i :: 0 <= i < k ==> armed[i].timer != t
    ensures k < |armed| ==> armed[k].timer == t && Without(armed, t) == armed[..k] + armed[k + 1..]
    ensures k == |armed| ==> Without(armed, t) == armed
  {
    if armed == [] || armed[0].timer == t {
      k := 0;
    } else {
      k := WithoutShape(armed[1..], t);
      assert armed == [armed[0]] + armed[1..];
      k := k + 1;
    }
  }

  lemma WithoutAt(armed: seq<Entry>, t: Id, i: nat)
    requires i <= |armed| && forall j :: 0 <= j < i ==> armed[j].timer != t
    requires i < |armed| ==> armed[i].timer == t
    ensures Without(armed, t) == if i < |armed| then armed[..i] + armed[i + 1..] else armed
  {
    var k := WithoutShape(armed, t);
  }

  lemma WithoutElements(armed: seq<Entry>, t: Id)
    requires DistinctTimers(armed)
    ensures forall x :: x in Without(armed, t) <==> x in armed && x.timer != t
  {
    var k := WithoutShape(armed, t);
    if k < |armed| {
      hide Without, DistinctTimers;
      forall x ensures x in armed[..k] + armed[k + 1..] <==> x in armed && x.timer != t {
        CutElement(armed, k, x);
      }
    }
  }

  lemma CutElement(armed: seq<Entry>, k: nat, x: Entry)
    requires DistinctTimers(armed) && k < |armed|
    ensures x in armed[..k] + armed[k + 1..] <==> x in armed && x.timer != armed[k].timer
  {
    var rest := armed[..k] + armed[k + 1..];
    if x in armed && x.timer != armed[k].timer {
      var i :| 0 <= i < |armed| && armed[i] == x;
      assert rest[if i < k then i else i - 1] == x;
    }
    if x in rest {
      var i :| 0 <= i < |rest| && rest[i] == x;
      var j := if i < k then i else i + 1;
      assert armed[j] == x && j != k;
    }
  }

  lemma WithoutOrdered(armed: seq<Entry>, t: Id)
    requires DistinctTimers(armed) && Sorted(armed)
    ensures DistinctTimers(Without(armed, t)) && Sorted(Without(armed, t))
  {
    var k := WithoutShape(armed, t);
    if k < |armed| {
      var rest := armed[..k] + armed[k + 1..];
      forall i, j | 0 <= i < j < |rest| ensures Before(rest[i], rest[j]) && rest[i].timer != rest[j].timer {
        var i', j' := if i < k then i else i + 1, if j < k then j else j + 1;
        assert rest[i] == armed[i'] && rest[j] == armed[j'];
        assert Before(armed[i'], armed[j']) && armed[i'].timer != armed[j'].timer;
      }
    }
  }

  /** Arming keeps the list sorted, ties in arming order, each timer at most
      once; the other timers keep their entries. */
  lemma ArmKeeps(q: Queue, t: Id, period: nat, at: nat)
    requires Valid(q) && period < WRAP && at < WRAP
    ensures Valid(Arm(q, t, period, at))
    ensures forall x :: x in Arm(q, t, period, at).armed <==>
              x == Entry(t, period, at, q.next) || (x in q.armed && x.timer != t)
  {
    var e := Entry(t, period, at, q.next);
    WithoutElements(q.armed, t);
    WithoutOrdered(q.armed, t);
    PlaceElements(Without(q.armed, t), e);
    PlaceSorted(Without(q.armed, t), e);
    PlaceDistinct(Without(q.armed, t), e);
  }

  lemma CancelKeeps(q: Queue, t: Id)
    requires Valid(q)
    ensures Valid(Cancel(q, t)) && !IsArmed(Cancel(q, t), t)
    ensures forall x :: x in Cancel(q, t).armed <==> x in q.armed && x.timer != t
  {
    WithoutElements(q.armed, t);
    WithoutOrdered(q.armed, t);
  }

  lemma StepKeeps(q: Queue)
    requires Valid(q) && q.armed != []
    ensures Valid(Step(q))
    ensures var e := q.armed[0];
            forall x :: x in Step(q).armed <==>
              x in q.armed[1..] || (e.period != 0 && x == Rearmed(e, q.next))
    ensures forall x :: x in q.armed[1..] ==> x.timer != q.armed[0].timer
  {
    var e, rest := q.armed[0], q.armed[1..];
    forall x | x in rest ensures x.timer != e.timer && x in q.armed {
      var k :| 0 <= k < |rest| && rest[k] == x;
      assert q.armed[k + 1] == x;
    }
    if e.period != 0 {
      var f := Rearmed(e, q.next);
      PlaceElements(rest, f);
      PlaceSorted(rest, f);
      PlaceDistinct(rest, f);
    }
  }

  // ---------------------------------------------------------------------
  // How often one timer fires
  // ---------------------------------------------------------------------

  /** A timer due at `d` stops being due at `now` after exactly `n` dispatches. */
  predicate Leaves(d: nat, p: nat, now: nat, n: nat)
    decreases n
  {
    if d > now then n == 0
    else if p == 0 then n == 1
    else n > 0 && Leaves((d + p) % WRAP, p, now, n - 1)
  }

  ghost predicate Settles(e: Entry, now: nat) {
    exists n: nat :: Leaves(e.deadline, e.period, now, n)
  }

  ghost predicate AllSettle(s: seq<Entry>, now: nat) {
    forall e :: e in s ==> Settles(e, now)
  }

  ghost function Turns(e: Entry, now: nat): (n: nat)
    requires Settles(e, now)
    ensures Leaves(e.deadline, e.period, now, n)
  {
    var n: nat :| Leaves(e.deadline, e.period, now, n);
    n
  }

  lemma {:induction false} LeavesOnce(d: nat, p: nat, now: nat, m: nat, n: nat)
    requires Leaves(d, p, now, m) && Leaves(d, p, now, n)
    ensures m == n
    decreases m
  {
    if d <= now && p != 0 {
      LeavesOnce((d + p) % WRAP, p, now, m - 1, n - 1);
    }
  }

  lemma TurnsRearmed(e: Entry, now: nat, stamp: nat)
    requires e.deadline <= now && e.period != 0
    ensures Settles(e, now) <==> Settles(Rearmed(e, stamp), now)
    ensures Settles(e, now) ==> Turns(e, now) == 1 + Turns(Rearmed(e, stamp), now)
  {
    var f := Rearmed(e, stamp);
    if Settles(e, now) {
      var n := Turns(e, now);
      assert Leaves(f.deadline, f.period, now, n - 1);
      LeavesOnce(f.deadline, f.period, now, n - 1, Turns(f, now));
    }
    if Settles(f, now) {
      assert Leaves(e.deadline, e.period, now, Turns(f, now) + 1);
    }
  }

  /** The deadline after `n` re-arms. */
  function DeadlineAfter(d: nat, p: nat, n: nat): nat
    decreases n
  {
    if n == 0 then d else DeadlineAfter((d + p) % WRAP, p, n - 1)
  }

  /** A periodic timer settles exactly when its wrapped deadlines get past `now`. */
  lemma SettlesIffOrbitEscapes(e: Entry, now: nat)
    requires e.period != 0
    ensures Settles(e, now) <==> exists k: nat :: DeadlineAfter(e.deadline, e.period, k) > now
    ensures Settles(e, now) ==> DeadlineAfter(e.deadline, e.period, Turns(e, now)) > now
  {
    if Settles(e, now) {
      LeavesAfter(e.deadline, e.period, now, Turns(e, now));
    }
    if exists k: nat :: DeadlineAfter(e.deadline, e.period, k) > now {
      var k: nat :| DeadlineAfter(e.deadline, e.period, k) > now;
      var n := Escaping(e.deadline, e.period, now, k);
    }
  }

  lemma {:induction false} LeavesAfter(d: nat, p: nat, now: nat, n: nat)
    requires p != 0 && Leaves(d, p, now, n)
    ensures DeadlineAfter(d, p, n) > now
    decreases n
  {
    if d <= now {
      LeavesAfter((d + p) % WRAP, p, now, n - 1);
    }
  }

  lemma {:induction false} Escaping(d: nat, p: nat, now: nat, k: nat) returns (n: nat)
    requires p != 0 && DeadlineAfter(d, p, k) > now
    ensures Leaves(d, p, now, n)
    decreases k
  {
    if d > now {
      n := 0;
    } else {
      n := Escaping((d + p) % WRAP, p, now, k - 1);
      n := n + 1;
    }
  }

  /** The deadline after `n` re-arms, as modular arithmetic. */
  lemma {:induction false} DeadlineAfterIsModular(d: nat, p: nat, n: nat)
    requires d < WRAP
    ensures DeadlineAfter(d, p, n) == (d + n * p) % WRAP
    decreases n
  {
    if n > 0 {
      DeadlineAfterIsModular((d + p) % WRAP, p, n - 1);
      ModAbsorbs(d + p, (n - 1) * p);
      assert d + n * p == (d + p) + (n - 1) * p;
    }
  }

  lemma ModAbsorbs(a: nat, b: nat)
    ensures (a % WRAP + b) % WRAP == (a + b) % WRAP
  {
    assert a == a / WRAP * WRAP + a % WRAP;
  }

  /** Whether a timer ever stops being due at `now`: the greatest deadline its
      re-arms can reach is the greatest below 2^32 that agrees with its own modulo
      the largest power of two dividing its period. */
  predicate Escapes(e: Entry, now: nat) {
    e.period == 0 || now < WRAP - Orbit.Grain(e.period) + e.deadline % Orbit.Grain(e.period)
  }

  lemma WrapIsPower()
    ensures WRAP == W.Pow2(32)
  {
    assert W.Pow2(8) == 256;
    Orbit.Pow2Adds(8, 8);
    Orbit.Pow2Adds(16, 16);
  }

  lemma SettlesIff(e: Entry, now: nat)
    requires e.deadline < WRAP && e.period < WRAP
    ensures Settles(e, now) <==> Escapes(e, now)
  {
    hide Orbit.Grain, W.Pow2, DeadlineAfter;
    WrapIsPower();
    if e.period == 0 {
      assert Leaves(e.deadline, 0, now, if e.deadline > now then 0 else 1);
    } else {
      SettlesIffOrbitEscapes(e, now);
      if Escapes(e, now) {
        var k := Orbit.Reaches(e.deadline, e.period, 32);
        DeadlineAfterIsModular(e.deadline, e.period, k);
        assert DeadlineAfter(e.deadline, e.period, k) > now;
      }
      if Settles(e, now) {
        var k := Turns(e, now);
        DeadlineAfterIsModular(e.deadline, e.period, k);
        Orbit.Stays(e.deadline, e.period, 32, k);
      }
    }
  }

  /** Settling at a time is settling at every earlier one. */
  lemma SettlesEarlier(e: Entry, a: nat, b: nat)
    requires e.deadline < WRAP && e.period < WRAP && a <= b && Settles(e, b)
    ensures Settles(e, a)
  {
    SettlesIff(e, a);
    SettlesIff(e, b);
  }

  /** The first deadline past `now` that re-arming reaches, were ticks unbounded. */
  function Landing(e: Entry, now: nat): nat
    requires e.deadline <= now && e.period != 0
  {
    e.deadline + e.period * ((now - e.deadline) / e.period) + e.period
  }

  /** With no addition wrapping: once per period up to `now`, and then armed at
      the first multiple after it, at most one period away. */
  lemma TurnsWithoutWrap(d: nat, p: nat, now: nat) returns (k: nat)
    requires d <= now && p != 0 && d + p * ((now - d) / p) + p < WRAP
    ensures k == (now - d) / p && Leaves(d, p, now, k + 1)
    ensures DeadlineAfter(d, p, k + 1) == d + p * k + p
    ensures now < d + p * k + p <= now + p
  {
    k := Arith.DivBounds(now - d, p);
    TurnsUpTo(d, p, now, k);
  }

  lemma {:induction false} TurnsUpTo(d: nat, p: nat, now: nat, k: nat)
    requires p != 0 && d + p * k + p < WRAP && d + p * k <= now < d + p * k + p
    ensures Leaves(d, p, now, k + 1)
    ensures DeadlineAfter(d, p, k + 1) == d + p * k + p
    decreases k
  {
    assert p * k >= 0;
    assert (d + p) % WRAP == d + p;
    if k == 0 {
      assert DeadlineAfter(d + p, p, 0) == d + p;
    } else {
      assert p * k == p * (k - 1) + p;
      TurnsUpTo(d + p, p, now, k - 1);
    }
  }

  /** With a wrapping addition it takes more turns than that: the wrapped deadline
      is due again. */
  lemma TurnsWithWrap(e: Entry, now: nat)
    requires e.deadline <= now < WRAP && 0 < e.period < WRAP && Settles(e, now) && Landing(e, now) >= WRAP
    ensures Turns(e, now) != (now - e.deadline) / e.period + 1
  {
    hide DeadlineAfter, Leaves;
    var d, p := e.deadline, e.period;
    var k := Arith.DivBounds(now - d, p);
    SettlesIffOrbitEscapes(e, now);
    DeadlineAfterIsModular(d, p, k + 1);
    assert (k + 1) * p == p * k + p;
    assert (d + (k + 1) * p) % WRAP == d + p * k + p - WRAP;
  }

  // ---------------------------------------------------------------------
  // The dispatch loop
  // ---------------------------------------------------------------------

  /** How many dispatches the whole list still needs. */
  ghost function Total(s: seq<Entry>, now: nat): nat
    requires AllSettle(s, now)
  {
    if s == [] then 0 else
      assert s[0] in s;
      assert AllSettle(s[1..], now);
      Turns(s[0], now) + Total(s[1..], now)
  }

  lemma {:induction false} TotalPlace(s: seq<Entry>, e: Entry, now: nat)
    requires AllSettle(s, now) && Settles(e, now)
    ensures AllSettle(Place(s, e), now)
    ensures Total(Place(s, e), now) == Total(s, now) + Turns(e, now)
  {
    PlaceElements(s, e);
    if s == [] || s[0].deadline > e.deadline {
      assert Place(s, e)[1..] == s;
    } else {
      assert s[0] in s && AllSettle(s[1..], now);
      TotalPlace(s[1..], e, now);
      assert Place(s, e)[1..] == Place(s[1..], e);
    }
  }

  /** A dispatch keeps every timer settling and uses up exactly one turn. */
  lemma StepTotal(q: Queue, now: nat)
    requires Valid(q) && Due(q, now)
    ensures AllSettle(q.armed, now) <==> AllSettle(Step(q).armed, now)
    ensures AllSettle(q.armed, now) ==> Total(Step(q).armed, now) == Total(q.armed, now) - 1
  {
    var e, rest := q.armed[0], q.armed[1..];
    StepKeeps(q);
    assert q.armed == [e] + rest;
    if e.period == 0 {
      assert Leaves(e.deadline, 0, now, 1);
      assert Settles(e, now);
    } else {
      TurnsRearmed(e, now, q.next);
      if AllSettle(q.armed, now) {
        TotalPlace(rest, Rearmed(e, q.next), now);
      }
    }
  }

  /** `run_due`: the queue it leaves and the entries it dispatched, in order. */
  ghost function RunDue(q: Queue, now: nat): (r: (Queue, seq<Entry>))
    requires Valid(q) && AllSettle(q.armed, now)
    decreases Total(q.armed, now)
  {
    if !Due(q, now) then (q, []) else
      StepTotal(q, now);
      StepKeeps(q);
      var rest := RunDue(Step(q), now);
      (rest.0, [q.armed[0]] + rest.1)
  }

  /** The loop stops after exactly `n` turns. */
  predicate StopsAfter(q: Queue, now: nat, n: nat)
    decreases n
  {
    if !Due(q, now) then n == 0 else n > 0 && StopsAfter(Step(q), now, n - 1)
  }

  ghost predicate Stops(q: Queue, now: nat) {
    exists n: nat :: StopsAfter(q, now, n)
  }

  /** Every armed timer can get past `now`. */
  predicate Returns(q: Queue, now: nat) {
    forall e :: e in q.armed ==> Escapes(e, now)
  }

  lemma ReturnsIffAllSettle(q: Queue, now: nat)
    requires Valid(q)
    ensures Returns(q, now) <==> AllSettle(q.armed, now)
  {
    hide Escapes, Settles;
    forall e | e in q.armed ensures Settles(e, now) <==> Escapes(e, now) {
      SettlesIff(e, now);
    }
  }

  /** The loop stops if and only if every armed timer can get past `now`, and then
      after as many turns as they need together. */
  lemma StopsIff(q: Queue, now: nat)
    requires Valid(q)
    ensures Stops(q, now) <==> Returns(q, now)
    ensures Returns(q, now) ==> AllSettle(q.armed, now) && StopsAfter(q, now, Total(q.armed, now))
  {
    hide Escapes, Settles;
    ReturnsIffAllSettle(q, now);
    if Stops(q, now) {
      var n: nat :| StopsAfter(q, now, n);
      StoppingSettles(q, now, n);
    }
    if AllSettle(q.armed, now) {
      SettlingStops(q, now);
      var n := Total(q.armed, now);
      assert StopsAfter(q, now, n);
    }
  }

  lemma {:induction false} StoppingSettles(q: Queue, now: nat, n: nat)
    requires Valid(q) && StopsAfter(q, now, n)
    ensures AllSettle(q.armed, now)
    decreases n
  {
    if Due(q, now) {
      StepKeeps(q);
      StoppingSettles(Step(q), now, n - 1);
      StepTotal(q, now);
    } else {
      forall e | e in q.armed ensures Settles(e, now) {
        NotDueLate(q, now, e);
        assert Leaves(e.deadline, e.period, now, 0);
      }
    }
  }

  lemma NotDueLate(q: Queue, now: nat, e: Entry)
    requires Valid(q) && !Due(q, now) && e in q.armed
    ensures e.deadline > now
  {
    var i :| 0 <= i < |q.armed| && q.armed[i] == e;
    assert i > 0 ==> Before(q.armed[0], q.armed[i]);
  }

  lemma {:induction false} SettlingStops(q: Queue, now: nat)
    requires Valid(q) && AllSettle(q.armed, now)
    ensures StopsAfter(q, now, Total(q.armed, now))
    decreases Total(q.armed, now)
  {
    if Due(q, now) {
      StepKeeps(q);
      StepTotal(q, now);
      SettlingStops(Step(q), now);
    } else {
      NothingLeft(q.armed, q, now);
    }
  }

  lemma {:induction false} NothingLeft(s: seq<Entry>, q: Queue, now: nat)
    requires Valid(q) && !Due(q, now) && AllSettle(s, now) && forall e :: e in s ==> e in q.armed
    ensures Total(s, now) == 0
  {
    if s != [] {
      assert s[0] in s && AllSettle(s[1..], now);
      NotDueLate(q, now, s[0]);
      NothingLeft(s[1..], q, now);
    }
  }

  /** On the last tick of the counter every deadline is due, so a periodic timer
      is dispatched for ever. */
  lemma NeverStopsOnTheLastTick(q: Queue, e: Entry)
    requires Valid(q) && e in q.armed && e.period != 0
    ensures !Stops(q, WRAP - 1)
  {
    StopsIff(q, WRAP - 1);
    assert !Escapes(e, WRAP - 1);
  }

  // ---------------------------------------------------------------------
  // What one `run_due` does
  // ---------------------------------------------------------------------

  function Count(log: seq<Entry>, t: Id): nat {
    if log == [] then 0 else (if log[0].timer == t then 1 else 0) + Count(log[1..], t)
  }

  /** What became of one armed timer: untouched, expired, or re-armed. */
  ghost predicate Served(e: Entry, now: nat, armed: seq<Entry>, log: seq<Entry>)
    requires Settles(e, now)
  {
    && Count(log, e.timer) == Turns(e, now)
    && (e.deadline > now ==> e in armed)
    && (e.deadline <= now && e.period == 0 ==> forall x :: x in armed ==> x.timer != e.timer)
    && (e.deadline <= now && e.period != 0 ==>
          exists x :: x in armed && x.timer == e.timer && x.period == e.period &&
                      x.deadline == DeadlineAfter(e.deadline, e.period, Turns(e, now)))
  }

  /** Each armed timer is served, no other timer is dispatched or armed, and
      nothing due is left. */
  lemma {:induction false} RunDueServes(q: Queue, now: nat)
    requires Valid(q) && AllSettle(q.armed, now)
    ensures var (q', log) := RunDue(q, now);
            && Valid(q') && !Due(q', now)
            && (forall e :: e in q.armed ==> Served(e, now, q'.armed, log))
            && (forall t :: !IsArmed(q, t) ==> !IsArmed(q', t) && Count(log, t) == 0)
            && |log| == Total(q.armed, now)
    decreases Total(q.armed, now)
  {
    if Due(q, now) {
      StepKeeps(q);
      StepTotal(q, now);
      RunDueServes(Step(q), now);
      var (q', log) := RunDue(Step(q), now);
      var f := q.armed[0];
      assert q.armed == [f] + q.armed[1..];
      forall e | e in q.armed ensures Served(e, now, q'.armed, [f] + log) {
        if e in q.armed[1..] {
          ServedLater(f, e, now, q'.armed, log);
        } else if f.period != 0 {
          assert Rearmed(f, q.next) in Step(q).armed;
          ServedPeriodic(f, now, q.next, q'.armed, log);
        } else {
          assert !IsArmed(Step(q), f.timer);
          ServedOneShot(f, now, q', log);
        }
      }
      forall t | !IsArmed(q, t) ensures !IsArmed(q', t) && Count([f] + log, t) == 0 {
        NeverArmed(q, t);
        assert ([f] + log)[1..] == log;
      }
    } else {
      NothingLeft(q.armed, q, now);
      forall e | e in q.armed ensures Served(e, now, q.armed, []) {
        NotDueLate(q, now, e);
      }
    }
  }

  lemma NeverArmed(q: Queue, t: Id)
    requires Valid(q) && q.armed != [] && !IsArmed(q, t)
    ensures !IsArmed(Step(q), t) && q.armed[0].timer != t
  {
    StepKeeps(q);
    assert q.armed[0] in q.armed;
    assert q.armed == [q.armed[0]] + q.armed[1..];
  }

  lemma ServedLater(f: Entry, e: Entry, now: nat, armed: seq<Entry>, log: seq<Entry>)
    requires Settles(e, now) && Served(e, now, armed, log) && f.timer != e.timer
    ensures Served(e, now, armed, [f] + log)
  {
    assert ([f] + log)[1..] == log;
  }

  lemma ServedPeriodic(f: Entry, now: nat, stamp: nat, armed: seq<Entry>, log: seq<Entry>)
    requires f.deadline <= now && f.period != 0 && Settles(f, now)
    requires Settles(Rearmed(f, stamp), now) && Served(Rearmed(f, stamp), now, armed, log)
    ensures Served(f, now, armed, [f] + log)
  {
    var g := Rearmed(f, stamp);
    TurnsRearmed(f, now, stamp);
    assert ([f] + log)[1..] == log;
    assert DeadlineAfter(f.deadline, f.period, Turns(f, now)) == DeadlineAfter(g.deadline, g.period, Turns(g, now));
    if g.deadline > now {
      LeavesOnce(g.deadline, g.period, now, 0, Turns(g, now));
      assert g in armed;
    }
  }

  lemma ServedOneShot(f: Entry, now: nat, q': Queue, log: seq<Entry>)
    requires f.deadline <= now && f.period == 0 && Settles(f, now)
    requires !IsArmed(q', f.timer) && Count(log, f.timer) == 0
    ensures Served(f, now, q'.armed, [f] + log)
  {
    assert ([f] + log)[1..] == log;
    LeavesOnce(f.deadline, 0, now, 1, Turns(f, now));
  }

  /** No addition made while running up to `now` wraps. */
  predicate NoWrap(q: Queue, now: nat) {
    forall e :: e in q.armed && e.deadline <= now && e.period != 0 ==> Landing(e, now) < WRAP
  }

  /** Armed again at the first multiple of the period after `now`. */
  predicate Rescheduled(e: Entry, now: nat, armed: seq<Entry>)
    requires e.deadline <= now && e.period != 0
  {
    exists x :: x in armed && x.timer == e.timer && now < x.deadline <= now + e.period && x.deadline == Landing(e, now)
  }

  /** The closed form: without wrapping the loop stops, a periodic timer due at
      `d` fires (now - d) / period + 1 times and is armed at the first multiple
      after `now`; a one-shot fires once and is disarmed. */
  lemma ClosedForm(q: Queue, now: nat)
    requires Valid(q) && NoWrap(q, now)
    ensures AllSettle(q.armed, now) && Stops(q, now)
    ensures forall e :: e in q.armed && e.deadline <= now ==>
              Turns(e, now) == if e.period == 0 then 1 else (now - e.deadline) / e.period + 1
    ensures forall e :: e in q.armed && e.deadline <= now && e.period != 0 ==>
              Rescheduled(e, now, RunDue(q, now).0.armed)
  {
    hide Landing, Escapes, Settles, Stops, Served, Rescheduled;
    forall e | e in q.armed
      ensures Settles(e, now)
      ensures e.deadline <= now ==> Turns(e, now) == if e.period == 0 then 1 else (now - e.deadline) / e.period + 1
    {
      SettlesWithoutWrap(e, now);
    }
    ReturnsIffAllSettle(q, now);
    StopsIff(q, now);
    RunDueServes(q, now);
    forall e | e in q.armed && e.deadline <= now && e.period != 0
      ensures Rescheduled(e, now, RunDue(q, now).0.armed)
    {
      assert Served(e, now, RunDue(q, now).0.armed, RunDue(q, now).1);
      ServedReschedules(e, now, RunDue(q, now).0.armed, RunDue(q, now).1);
    }
  }

  lemma ServedReschedules(e: Entry, now: nat, after: seq<Entry>, log: seq<Entry>)
    requires e.deadline <= now && e.period != 0 && Landing(e, now) < WRAP
    requires Settles(e, now) && Served(e, now, after, log)
    requires Turns(e, now) == (now - e.deadline) / e.period + 1
    ensures Rescheduled(e, now, after)
  {
    var k := TurnsWithoutWrap(e.deadline, e.period, now);
  }

  lemma SettlesWithoutWrap(e: Entry, now: nat)
    requires e.deadline <= now && e.period != 0 ==> Landing(e, now) < WRAP
    ensures Settles(e, now)
    ensures e.deadline <= now ==> Turns(e, now) == if e.period == 0 then 1 else (now - e.deadline) / e.period + 1
  {
    if e.deadline > now {
      assert Leaves(e.deadline, e.period, now, 0);
    } else {
      var n := if e.period == 0 then 1 else (now - e.deadline) / e.period + 1;
      if e.period != 0 {
        var k := TurnsWithoutWrap(e.deadline, e.period, now);
      }
      assert Leaves(e.deadline, e.period, now, n);
      LeavesOnce(e.deadline, e.period, now, n, Turns(e, now));
    }
  }

  /** The firing counts of the closed form are right exactly when nothing wraps. */
  lemma ClosedFormIff(q: Queue, now: nat)
    requires Valid(q) && now < WRAP && Returns(q, now)
    ensures AllSettle(q.armed, now)
    ensures NoWrap(q, now) <==> forall e :: e in q.armed && e.deadline <= now && e.period != 0 ==>
                                  Turns(e, now) == (now - e.deadline) / e.period + 1
  {
    hide Escapes;
    ReturnsIffAllSettle(q, now);
    forall e | e in q.armed && e.deadline <= now && e.period != 0
      ensures Landing(e, now) < WRAP <==> Turns(e, now) == (now - e.deadline) / e.period + 1
    {
      if Landing(e, now) < WRAP {
        SettlesWithoutWrap(e, now);
      } else {
        TurnsWithWrap(e, now);
      }
    }
  }

  /** Re-arming without a wrap keeps where a timer will land. */
  lemma SameLanding(e: Entry, now: nat, stamp: nat)
    requires e.deadline <= now && e.period != 0 && e.deadline + e.period < WRAP
    ensures var f := Rearmed(e, stamp);
            if f.deadline <= now then Landing(f, now) == Landing(e, now) else Landing(e, now) == e.deadline + e.period
  {
    var d, p := e.deadline, e.period;
    var k := Arith.DivBounds(now - d, p);
    if d + p <= now {
      assert now - (d + p) == (k - 1) * p + (now - d - p * k);
      Arith.DivModUnique(now - (d + p), p, k - 1, now - d - p * k);
    } else {
      Arith.DivModUnique(now - d, p, 0, now - d);
    }
  }

  /** A landing that does not wrap is at least one period on. */
  lemma LandingAhead(e: Entry, now: nat)
    requires e.deadline <= now && e.period != 0
    ensures Landing(e, now) >= e.deadline + e.period
  {
    var k := Arith.DivBounds(now - e.deadline, e.period);
    assert e.period * k >= 0;
  }

  lemma NoWrapStep(q: Queue, now: nat)
    requires Valid(q) && Due(q, now) && NoWrap(q, now)
    ensures NoWrap(Step(q), now)
  {
    StepKeeps(q);
    var f := q.armed[0];
    assert f in q.armed && q.armed == [f] + q.armed[1..];
    if f.period != 0 {
      LandingAhead(f, now);
      SameLanding(f, now, q.next);
    }
  }

  /** A due entry is dispatched as it stands. */
  lemma {:induction false} DueDispatched(q: Queue, now: nat, e: Entry)
    requires Valid(q) && AllSettle(q.armed, now) && e in q.armed && e.deadline <= now
    ensures e in RunDue(q, now).1
    decreases Total(q.armed, now)
  {
    var i :| 0 <= i < |q.armed| && q.armed[i] == e;
    assert i > 0 ==> Before(q.armed[0], q.armed[i]);
    if i > 0 {
      StepKeeps(q);
      StepTotal(q, now);
      assert q.armed[1..][i - 1] == e;
      DueDispatched(Step(q), now, e);
    }
  }

  /** Dispatches happen in order of deadline, ties in the order of arming. */
  lemma {:induction false} DispatchOrder(q: Queue, now: nat)
    requires Valid(q) && NoWrap(q, now) && AllSettle(q.armed, now)
    ensures Sorted(RunDue(q, now).1)
    ensures forall x :: x in RunDue(q, now).1 ==> x.deadline <= now && (x == q.armed[0] || Before(q.armed[0], x))
    decreases Total(q.armed, now)
  {
    if Due(q, now) {
      StepKeeps(q);
      StepTotal(q, now);
      NoWrapStep(q, now);
      var f, q1 := q.armed[0], Step(q);
      DispatchOrder(q1, now);
      var log := RunDue(q1, now).1;
      forall x | x in log ensures Before(f, x) {
        assert q1.armed != [];
        assert q1.armed[0] in q1.armed;
        FrontBefore(q, q1.armed[0], now);
      }
    }
  }

  lemma FrontBefore(q: Queue, x: Entry, now: nat)
    requires Valid(q) && NoWrap(q, now) && Due(q, now) && x in Step(q).armed
    ensures Before(q.armed[0], x)
  {
    StepKeeps(q);
    var f := q.armed[0];
    assert f in q.armed;
    if x in q.armed[1..] {
      var k :| 0 <= k < |q.armed[1..]| && q.armed[1..][k] == x;
      assert Before(q.armed[0], q.armed[k + 1]);
    } else {
      LandingAhead(f, now);
    }
  }

  /** In a sorted log the front's re-arm did not wrap: a wrapped deadline is due
      again, after a later one. */
  lemma FrontDidNotWrap(q: Queue, now: nat)
    requires Valid(q) && now < WRAP && AllSettle(q.armed, now) && Due(q, now) && q.armed[0].period != 0
    requires Sorted(RunDue(q, now).1)
    ensures q.armed[0].deadline + q.armed[0].period < WRAP
  {
    hide Settles, Total, Sorted;
    StepKeeps(q);
    StepTotal(q, now);
    var f, g := q.armed[0], Rearmed(q.armed[0], q.next);
    assert f in q.armed;
    if g.deadline <= now {
      DueDispatched(Step(q), now, g);
      assert RunDue(q, now).1 == [f] + RunDue(Step(q), now).1;
      FirstInLog(f, RunDue(Step(q), now).1, g);
    }
  }

  lemma FirstInLog(f: Entry, rest: seq<Entry>, g: Entry)
    requires Sorted([f] + rest) && g in rest
    ensures Before(f, g)
  {
    var i :| 0 <= i < |rest| && rest[i] == g;
    assert Before(([f] + rest)[0], ([f] + rest)[i + 1]);
  }

  /** And only then are they. */
  lemma {:induction false} OrderMeansNoWrap(q: Queue, now: nat)
    requires Valid(q) && now < WRAP && AllSettle(q.armed, now) && Sorted(RunDue(q, now).1)
    ensures NoWrap(q, now)
    decreases Total(q.armed, now)
  {
    hide Settles, Landing;
    if Due(q, now) {
      StepKeeps(q);
      StepTotal(q, now);
      var f := q.armed[0];
      assert RunDue(q, now).1 == [f] + RunDue(Step(q), now).1;
      SortedTail(f, RunDue(Step(q), now).1);
      OrderMeansNoWrap(Step(q), now);
      assert q.armed == [f] + q.armed[1..];
      if f.period != 0 {
        FrontDidNotWrap(q, now);
        SameLanding(f, now, q.next);
      }
    } else {
      forall e | e in q.armed ensures e.deadline > now {
        NotDueLate(q, now, e);
      }
    }
  }

  lemma SortedTail(f: Entry, log: seq<Entry>)
    requires Sorted([f] + log)
    ensures Sorted(log)
  {
    forall i, j | 0 <= i < j < |log| ensures Before(log[i], log[j]) {
      assert Before(([f] + log)[i + 1], ([f] + log)[j + 1]);
    }
  }

  lemma DispatchOrderIff(q: Queue, now: nat)
    requires Valid(q) && now < WRAP && Returns(q, now)
    ensures AllSettle(q.armed, now)
    ensures Sorted(RunDue(q, now).1) <==> NoWrap(q, now)
  {
    hide Escapes, Sorted;
    ReturnsIffAllSettle(q, now);
    if NoWrap(q, now) {
      DispatchOrder(q, now);
    }
    if Sorted(RunDue(q, now).1) {
      OrderMeansNoWrap(q, now);
    }
  }

  /** One timer of odd period, due at a tick from which its re-arming wraps. */
  function Wrapping(period: nat, now: nat): Queue {
    Queue([Entry(0, period, now, 0)], 1)
  }

  /** Whatever the odd period, `run_due` on any tick but the last from which re-arming
      wraps returns, out of order and after more than the one turn due. */
  lemma WrapBreaksOrder(period: nat, now: nat)
    requires period % 2 == 1 && period < WRAP && now < WRAP - 1 && now + period >= WRAP
    ensures var q := Wrapping(period, now);
            && Valid(q) && Returns(q, now) && AllSettle(q.armed, now)
            && !Sorted(RunDue(q, now).1) && Turns(q.armed[0], now) != 1
  {
    hide Escapes, Sorted, RunDue, Turns, Settles, Orbit.Grain;
    var q := Wrapping(period, now);
    OddEscapes(q.armed[0], now);
    OneSorted(q.armed);
    assert (now - now) / period == 0;
    DispatchOrderIff(q, now);
    ClosedFormIff(q, now);
    assert q.armed[0] in q.armed && Landing(q.armed[0], now) >= WRAP;
    TurnsWithWrap(q.armed[0], now);
  }

  lemma OddEscapes(e: Entry, now: nat)
    requires e.period % 2 == 1 && now < WRAP - 1
    ensures Escapes(e, now)
  {
    assert Orbit.Grain(e.period) == 1;
  }

  lemma OneSorted(armed: seq<Entry>)
    requires |armed| == 1
    ensures Sorted(armed) && DistinctTimers(armed)
  {
  }

  /** Such as a timer of period 5 due on the last tick but two. */
  lemma OutOfOrder()
    ensures exists q, now: nat :: Valid(q) && now < WRAP && Returns(q, now) && AllSettle(q.armed, now) &&
                                  !Sorted(RunDue(q, now).1)
  {
    WrapBreaksOrder(5, WRAP - 3);
  }

  /** Running to `a` and then on to `b` is running to `b`. */
  lemma RunDueSplits(q: Queue, a: nat, b: nat)
    requires Valid(q) && a <= b && AllSettle(q.armed, b)
    ensures AllSettle(q.armed, a)
    ensures var (q', log) := RunDue(q, a);
            && Valid(q') && AllSettle(q'.armed, b)
            && RunDue(q', b).0 == RunDue(q, b).0
            && log + RunDue(q', b).1 == RunDue(q, b).1
  {
    hide Settles;
    forall e | e in q.armed ensures Settles(e, a) {
      SettlesEarlier(e, a, b);
    }
    Splits(q, a, b);
  }

  lemma {:induction false} Splits(q: Queue, a: nat, b: nat)
    requires Valid(q) && a <= b && AllSettle(q.armed, a) && AllSettle(q.armed, b)
    ensures var (q', log) := RunDue(q, a);
            && Valid(q') && AllSettle(q'.armed, b)
            && RunDue(q', b).0 == RunDue(q, b).0
            && log + RunDue(q', b).1 == RunDue(q, b).1
    decreases Total(q.armed, a)
  {
    if Due(q, a) {
      StepKeeps(q);
      StepTotal(q, a);
      StepTotal(q, b);
      var q1 := Step(q);
      Splits(q1, a, b);
      var (q', log) := RunDue(q1, a);
      assert RunDue(q, a) == (q', [q.armed[0]] + log);
      assert RunDue(q, b) == (RunDue(q1, b).0, [q.armed[0]] + RunDue(q1, b).1);
      assert ([q.armed[0]] + log) + RunDue(q', b).1 == [q.armed[0]] + (log + RunDue(q', b).1);
    } else {
      assert RunDue(q, a) == (q, []);
    }
  }

  // ---------------------------------------------------------------------
  // Whole runs
  // ---------------------------------------------------------------------

  /** What a program does with the service. A run of `run_due` is its turns, so
      this covers calls in progress and calls that never return. */
  datatype Op = DoArm(timer: Id, period: nat, at: nat) | DoCancel(timer: Id) | DoDispatch(now: nat)

  predicate OpFits(op: Op) {
    op.DoArm? ==> op.period < WRAP && op.at < WRAP
  }

  function Apply(q: Queue, op: Op): Queue {
    match op
    case DoArm(t, p, at) => Arm(q, t, p, at)
    case DoCancel(t) => Cancel(q, t)
    case DoDispatch(now) => if Due(q, now) then Step(q) else q
  }

  function Exec(ops: seq<Op>): Queue {
    if ops == [] then Queue([], 0) else Apply(Exec(ops[..|ops| - 1]), ops[|ops| - 1])
  }

  /** In every state of every run the list is sorted, ties stand in arming
      order, and no timer is linked twice. */
  lemma {:induction false} EveryRunValid(ops: seq<Op>)
    requires forall op :: op in ops ==> OpFits(op)
    ensures Valid(Exec(ops))
  {
    if ops != [] {
      var before, op := ops[..|ops| - 1], ops[|ops| - 1];
      EveryRunValid(before);
      assert op in ops && OpFits(op);
      var q := Exec(before);
      match op
      case DoArm(t, p, at) => ArmKeeps(q, t, p, at);
      case DoCancel(t) => CancelKeeps(q, t);
      case DoDispatch(now) => if Due(q, now) { StepKeeps(q); }
    }
  }
}
