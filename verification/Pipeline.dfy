/**
 The sensor pipeline (examples/sensor_pipeline.cpp) over the single-producer
 single-consumer queue it runs on (include/metl/spsc_queue.hpp), as a machine
 whose steps are the two threads' accesses to shared memory. Memory order is taken
 as given: a step sees every earlier one.
 */
module Pipeline {
  import Arith
  import opened ByteRing

  // ---------------------------------------------------------------------
  // The consumer's data
  // ---------------------------------------------------------------------

  const WINDOW := 8
  const BATCH := 16

  datatype Sample = Sample(sequence: nat, raw: int)

  datatype Data = Data(expected: nat, window: seq<int>, batch: seq<int>, outOfRange: nat, sequenceErrors: nat,
                       consumed: nat, runningSum: int, flushed: nat, lastAverage: int, failed: bool)

  const NOTHING := Data(0, [], [], 0, 0, 0, 0, 0, 0, false)

  /** A 32-bit counter after `n` increments. */
  function Word32(n: nat): (r: nat) {
    n % 0x1_0000_0000
  }

  predicate InRange(raw: int) {
    -32768 <= raw <= 32767
  }

  function Sum(s: seq<int>): int {
    if s == [] then 0 else Sum(s[..|s| - 1]) + s[|s| - 1]
  }

  /** Division that truncates toward zero. */
  function Truncated(a: int, b: int): int
    requires b > 0
  {
    if a >= 0 then a / b else -(-a / b)
  }

  function PushOverwrite(window: seq<int>, x: int): seq<int> {
    (if |window| < WINDOW then window else window[|window| - WINDOW + 1..]) + [x]
  }

  /** One pass of the consumer's loop with a sample in hand. */
  function Process(d: Data, s: Sample): Data {
    var seen := d.(expected := Word32(d.expected + 1));
    if s.sequence != d.expected then seen.(sequenceErrors := d.sequenceErrors + 1)
    else if !InRange(s.raw) then seen.(outOfRange := d.outOfRange + 1)
    else
      var window := PushOverwrite(d.window, s.raw * 100);
      var average := Truncated(Sum(window), |window|);
      var kept := seen.(window := window, consumed := d.consumed + 1, lastAverage := average);
      if |d.batch| >= BATCH then kept.(failed := true) else
      var batch := d.batch + [average];
      var summed := kept.(runningSum := d.runningSum + average);
      if |batch| == BATCH then summed.(flushed := d.flushed + 1, batch := []) else summed.(batch := batch)
  }

  /** The sample the producer makes of reading `i`. */
  function Made(input: seq<int>, i: nat): Sample
    requires i < |input|
  {
    Sample(Word32(i), input[i])
  }

  /** The first `n` samples, processed in order. */
  function Processed(input: seq<int>, n: nat): Data
    requires n <= |input|
  {
    if n == 0 then NOTHING else Process(Processed(input, n - 1), Made(input, n - 1))
  }

  // ---------------------------------------------------------------------
  // What processing in order comes to
  // ---------------------------------------------------------------------

  /** The millivolt readings of the samples in range. */
  function Readings(input: seq<int>): (r: seq<int>)
    ensures |r| <= |input|
  {
    if input == [] then [] else
    var before, raw := Readings(input[..|input| - 1]), input[|input| - 1];
    if InRange(raw) then before + [raw * 100] else before
  }

  function Last(s: seq<int>, n: nat): seq<int> {
    if |s| <= n then s else s[|s| - n..]
  }

  /** The moving average after each reading. */
  function Averages(readings: seq<int>): (r: seq<int>)
    ensures |r| == |readings|
  {
    if readings == [] then [] else
    var window := Last(readings, WINDOW);
    Averages(readings[..|readings| - 1]) + [Truncated(Sum(window), |window|)]
  }

  function Batches(n: nat): (r: nat)
    ensures BATCH * r <= n < BATCH * r + BATCH
  {
    n / BATCH
  }

  /** What is past the last full batch. */
  function InHand(averages: seq<int>): (r: seq<int>)
    ensures |r| == |averages| - BATCH * Batches(|averages|)
  {
    averages[BATCH * Batches(|averages|)..]
  }

  /** No sequence error, no failed push, a flush for every sixteen readings, the
      last eight readings in the window. */
  function Summary(input: seq<int>): Data {
    var r := Readings(input);
    var a := Averages(r);
    Data(Word32(|input|), Last(r, WINDOW), InHand(a), |input| - |r|, 0,
         |r|, Sum(a), Batches(|r|), if r == [] then 0 else a[|r| - 1], false)
  }

  lemma {:induction false} ProcessedIs(input: seq<int>, n: nat)
    requires n <= |input|
    ensures Processed(input, n) == Summary(input[..n])
  {
    hide Summary, Process;
    if n == 0 {
      SummaryNone();
    } else {
      ProcessedIs(input, n - 1);
      assert input[..n] == input[..n - 1] + [input[n - 1]];
      SummaryStep(input[..n - 1], input[n - 1]);
    }
  }

  lemma SummaryNone()
    ensures Summary([]) == NOTHING
  {
    assert Readings([]) == [] && Averages([]) == [];
  }

  lemma SummaryStep(before: seq<int>, raw: int)
    ensures Summary(before + [raw]) == Process(Summary(before), Sample(Word32(|before|), raw))
  {
    hide Readings, Averages, Sum, Last, Truncated, PushOverwrite, Batches, InHand, Word32;
    WordMore(|before|);
    ReadingsMore(before, raw);
    if InRange(raw) {
      var r := Readings(before);
      AveragesMore(r, raw * 100);
      LastMore(r, raw * 100);
      var a, average := Averages(r), Averages(r + [raw * 100])[|r|];
      SumMore(a, average);
      BatchMore(a, average);
    } else {
      assert Readings(before) + [] == Readings(before);
    }
  }

  lemma WordMore(n: nat)
    ensures Word32(Word32(n) + 1) == Word32(n + 1)
  {
  }

  lemma ReadingsMore(before: seq<int>, raw: int)
    ensures Readings(before + [raw]) == Readings(before) + if InRange(raw) then [raw * 100] else []
  {
    assert (before + [raw])[..|before|] == before;
  }

  lemma LastMore(r: seq<int>, x: int)
    ensures Last(r + [x], WINDOW) == PushOverwrite(Last(r, WINDOW), x) != []
  {
  }

  lemma AveragesMore(r: seq<int>, x: int)
    ensures var window := Last(r + [x], WINDOW);
            window != [] && Averages(r + [x]) == Averages(r) + [Truncated(Sum(window), |window|)]
  {
    assert (r + [x])[..|r|] == r;
  }

  lemma SumMore(a: seq<int>, x: int)
    ensures Sum(a + [x]) == Sum(a) + x
  {
    assert (a + [x])[..|a|] == a;
  }

  /** Sixteen to a batch. */
  lemma BatchMore(a: seq<int>, x: int)
    ensures |InHand(a)| < BATCH
    ensures var full := |InHand(a)| + 1 == BATCH;
            && Batches(|a| + 1) == (if full then Batches(|a|) + 1 else Batches(|a|))
            && InHand(a + [x]) == if full then [] else InHand(a) + [x]
  {
    hide Batches;
  }

  /** `v` is `sum / n` rounded toward zero. */
  predicate TowardZero(sum: int, n: nat, v: int) {
    && (sum >= 0 ==> v >= 0 && n * v <= sum < n * v + n)
    && (sum <= 0 ==> v <= 0 && n * v - n < sum <= n * v)
  }

  lemma TruncatedMeans(sum: int, n: nat)
    requires n > 0
    ensures TowardZero(sum, n, Truncated(sum, n))
  {
    var m := if sum >= 0 then sum else -sum;
    var q := Arith.DivBounds(m, n);
    Negated(n, q);
  }

  lemma Negated(n: nat, q: int)
    ensures n * -q == -(n * q)
  {
  }

  lemma {:induction false} SumConcat(a: seq<int>, b: seq<int>)
    ensures Sum(a + b) == Sum(a) + Sum(b)
  {
    if b == [] {
      assert a + b == a;
    } else {
      assert (a + b)[..|a + b| - 1] == a + b[..|b| - 1];
      SumConcat(a, b[..|b| - 1]);
    }
  }

  /** `at` lists, in order, the samples in range. */
  ghost predicate Lists(input: seq<int>, at: seq<nat>) {
    && (forall i, j :: 0 <= i < j < |at| ==> at[i] < at[j])
    && (forall j :: 0 <= j < |at| ==> at[j] < |input| && -32768 <= input[at[j]] <= 32767)
    && forall k: nat :: k < |input| && -32768 <= input[k] <= 32767 ==> k in at
  }

  predicate Millivolts(input: seq<int>, at: seq<nat>, readings: seq<int>) {
    |at| == |readings| && forall j :: 0 <= j < |at| ==> at[j] < |input| && readings[j] == 100 * input[at[j]]
  }

  /** The readings are those in range, in order and in millivolts. */
  lemma {:induction false} ReadingsAre(input: seq<int>) returns (at: seq<nat>)
    ensures Lists(input, at) && Millivolts(input, at, Readings(input))
  {
    hide Lists, Millivolts, Readings;
    if input == [] {
      at := [];
      NoReadings(input, at);
    } else {
      var n := |input| - 1;
      at := ReadingsAre(input[..n]);
      LastReading(input);
      ListsMore(input, at);
      MillivoltsMore(input, at, Readings(input[..n]));
      if InRange(input[n]) {
        at := at + [n];
      }
    }
  }

  lemma NoReadings(input: seq<int>, at: seq<nat>)
    requires input == [] && at == []
    ensures Lists(input, at) && Millivolts(input, at, Readings(input))
  {
  }

  lemma LastReading(input: seq<int>)
    requires input != []
    ensures var n := |input| - 1;
            Readings(input) ==
            if InRange(input[n]) then Readings(input[..n]) + [input[n] * 100] else Readings(input[..n])
  {
  }

  lemma MillivoltsMore(input: seq<int>, at: seq<nat>, readings: seq<int>)
    requires input != [] && Millivolts(input[..|input| - 1], at, readings)
    ensures var n := |input| - 1;
            Millivolts(input, at, readings) && Millivolts(input, at + [n], readings + [input[n] * 100])
  {
  }

  lemma ListsMore(input: seq<int>, at: seq<nat>)
    requires input != [] && Lists(input[..|input| - 1], at)
    ensures var n := |input| - 1; Lists(input, if InRange(input[n]) then at + [n] else at)
  {
    var n := |input| - 1;
    var more := if InRange(input[n]) then at + [n] else at;
    assert forall k: nat :: k < n ==> input[..n][k] == input[k];
    forall k: nat | k < |input| && -32768 <= input[k] <= 32767 ensures k in more {
      if k == n {
        assert more[|at|] == n;
      }
    }
  }

  /** Each average is that of the last eight readings up to it, or of all there are. */
  lemma {:induction false} AveragesAre(readings: seq<int>, i: nat)
    requires i < |readings|
    ensures var window := readings[if i < 8 then 0 else i - 7..i + 1];
            TowardZero(Sum(window), |window|, Averages(readings)[i])
  {
    var n := |readings| - 1;
    if i < n {
      AveragesAre(readings[..n], i);
      var from := if i < 8 then 0 else i - 7;
      assert readings[..n][from..i + 1] == readings[from..i + 1];
    } else {
      var window := readings[if i < 8 then 0 else i - 7..i + 1];
      assert Last(readings, WINDOW) == window;
      TruncatedMeans(Sum(window), |window|);
    }
  }

  /** After any samples in order: how many were kept and refused, the last eight readings
      and their average rounded toward zero, a flush for every sixteen, and the rest in
      the batch. */
  lemma SummaryMeans(input: seq<int>) returns (at: seq<nat>)
    ensures Lists(input, at)
    ensures var d := Summary(input); var n := |at|;
            && d.consumed == n && d.outOfRange == |input| - n && d.sequenceErrors == 0 && !d.failed
            && d.expected == |input| % 0x1_0000_0000 && d.flushed == n / 16 && |d.batch| == n % 16
            && |d.window| == (if n < 8 then n else 8)
            && (forall j :: 0 <= j < |d.window| ==>
                  0 <= n - |d.window| + j && at[n - |d.window| + j] < |input| &&
                  d.window[j] == 100 * input[at[n - |d.window| + j]])
            && (n > 0 ==> TowardZero(Sum(d.window), |d.window|, d.lastAverage))
  {
    hide Readings, Averages, Sum, TowardZero;
    at := ReadingsAre(input);
    var r := Readings(input);
    if r != [] {
      AveragesAre(r, |r| - 1);
      assert r[if |r| <= 8 then 0 else |r| - 8..|r|] == Last(r, WINDOW);
    }
  }

  predicate AllInRange(input: seq<int>) {
    forall i :: 0 <= i < |input| ==> InRange(input[i])
  }

  lemma {:induction false} ReadingsAll(input: seq<int>)
    ensures |Readings(input)| == |input| <==> AllInRange(input)
  {
    if input != [] {
      var n := |input| - 1;
      ReadingsAll(input[..n]);
      assert AllInRange(input) <==> AllInRange(input[..n]) && InRange(input[n]) by {
        assert forall i :: 0 <= i < n ==> input[..n][i] == input[i];
      }
    }
  }

  /** The checks the program makes once the consumer has exited. */
  predicate EndChecks(d: Data, produced: nat) {
    d.consumed == produced && d.outOfRange == 0 && d.sequenceErrors == 0 && |d.window| == WINDOW && d.flushed != 0
  }

  /** They hold exactly for sixteen or more samples, all in range. */
  lemma EndChecksIff(input: seq<int>)
    ensures EndChecks(Summary(input), |input|) <==>
            |input| >= 16 && forall i :: 0 <= i < |input| ==> -32768 <= input[i] <= 32767
  {
    hide Readings, Averages, Sum;
    ReadingsAll(input);
  }

  // ---------------------------------------------------------------------
  // The two threads
  // ---------------------------------------------------------------------

  datatype ProducerAt = TryPush | ReloadHead | Write | PublishTail | Finish | Stopped

  datatype ConsumerAt = TryPop | ReloadTail | Take | PublishHead | LoadDone | LoadEmpty | Exited

  /** Positions are kept unbounded; every test is on their size_t words. */
  datatype State = State(
    head: nat, tail: nat, slots: seq<Sample>, done: bool,
    producer: ProducerAt, cachedHead: nat,
    consumer: ConsumerAt, cachedTail: nat, item: Sample, data: Data)

  datatype Setting = Setting(input: seq<int>, capacity: nat, modulus: nat)

  predicate Fitting(c: Setting) {
    2 <= c.capacity && c.capacity + 1 < c.modulus && Divides(c.capacity, c.modulus)
  }

  function Initial(c: Setting): State {
    var zero := Sample(0, 0);
    State(0, 0, seq(c.capacity, i => zero), false,
          if c.input == [] then Finish else TryPush, 0, TryPop, 0, zero, NOTHING)
  }

  /** The producer's word test for a full queue. */
  predicate LooksFull(c: Setting, s: State)
    requires c.modulus > 0
  {
    Minus(Wrap(s.tail + 1, c.modulus), Wrap(s.cachedHead, c.modulus), c.modulus) > c.capacity
  }

  predicate LooksEmpty(c: Setting, s: State, tail: nat)
    requires c.modulus > 0
  {
    Wrap(s.head, c.modulus) == Wrap(tail, c.modulus)
  }

  function StepProducer(c: Setting, s: State): State
    requires Fitting(c)
  {
    match s.producer
    case TryPush => s.(producer := if LooksFull(c, s) then ReloadHead else Write)
    case ReloadHead =>
      var reloaded := s.(cachedHead := s.head);
      reloaded.(producer := if LooksFull(c, reloaded) then TryPush else Write)
    case Write =>
      var at := Slot(Wrap(s.tail, c.modulus), c.capacity);
      if at < |s.slots| && s.tail < |c.input|
      then s.(slots := s.slots[at := Made(c.input, s.tail)], producer := PublishTail) else s
    case PublishTail => s.(tail := s.tail + 1, producer := if s.tail + 1 < |c.input| then TryPush else Finish)
    case Finish => s.(done := true, producer := Stopped)
    case Stopped => s
  }

  function StepConsumer(c: Setting, s: State): State
    requires Fitting(c)
  {
    match s.consumer
    case TryPop => s.(consumer := if LooksEmpty(c, s, s.cachedTail) then ReloadTail else Take)
    case ReloadTail =>
      s.(cachedTail := s.tail, consumer := if LooksEmpty(c, s, s.tail) then LoadDone else Take)
    case Take =>
      var at := Slot(Wrap(s.head, c.modulus), c.capacity);
      if at < |s.slots| then s.(item := s.slots[at], consumer := PublishHead) else s
    case PublishHead => s.(head := s.head + 1, data := Process(s.data, s.item), consumer := TryPop)
    case LoadDone => s.(consumer := if s.done then LoadEmpty else TryPop)
    case LoadEmpty => s.(consumer := if LooksEmpty(c, s, s.tail) then Exited else TryPop)
    case Exited => s
  }

  /** A schedule says, step by step, whether the producer moves. */
  function Run(c: Setting, schedule: seq<bool>): State
    requires Fitting(c)
  {
    if schedule == [] then Initial(c) else
    var s := Run(c, schedule[..|schedule| - 1]);
    if schedule[|schedule| - 1] then StepProducer(c, s) else StepConsumer(c, s)
  }

  // ---------------------------------------------------------------------
  // What every step keeps
  // ---------------------------------------------------------------------

  /** The queued samples are in their slots. */
  predicate Queued(c: Setting, s: State) {
    && 0 < c.capacity == |s.slots| && s.head <= s.tail <= |c.input|
    && forall k :: s.head <= k < s.tail ==> s.slots[Slot(k, c.capacity)] == Made(c.input, k)
  }

  predicate Positions(c: Setting, s: State) {
    s.cachedHead <= s.head <= s.cachedTail <= s.tail <= |c.input| && s.tail <= s.cachedHead + c.capacity
  }

  predicate ProducerReady(c: Setting, s: State) {
    && (s.producer.TryPush? || s.producer.ReloadHead? || s.producer.Write? || s.producer.PublishTail? ==>
          s.tail < |c.input|)
    && (s.producer.Write? || s.producer.PublishTail? ==> s.tail + 1 <= s.cachedHead + c.capacity)
    && (s.producer.PublishTail? ==>
          0 < c.capacity == |s.slots| && s.tail < |c.input| &&
          s.slots[Slot(s.tail, c.capacity)] == Made(c.input, s.tail))
    && (s.producer.Finish? || s.producer.Stopped? ==> s.tail == |c.input|)
    && (s.done <==> s.producer.Stopped?)
  }

  predicate ConsumerReady(c: Setting, s: State) {
    && (s.consumer.Take? || s.consumer.PublishHead? ==> s.head < s.cachedTail)
    && (s.consumer.PublishHead? ==> s.head < |c.input| && s.item == Made(c.input, s.head))
    && (s.consumer.LoadEmpty? || s.consumer.Exited? ==> s.done)
    && (s.consumer.Exited? ==> s.head == s.tail)
  }

  predicate Inv(c: Setting, s: State) {
    && Positions(c, s) && Queued(c, s) && ProducerReady(c, s) && ConsumerReady(c, s)
    && s.data == Processed(c.input, s.head)
  }

  /** On positions this close together the word tests mean what they say. */
  lemma TestsMean(c: Setting, s: State)
    requires Fitting(c) && Positions(c, s)
    ensures LooksFull(c, s) <==> s.tail + 1 > s.cachedHead + c.capacity
    ensures LooksEmpty(c, s, s.cachedTail) <==> s.head == s.cachedTail
    ensures LooksEmpty(c, s, s.tail) <==> s.head == s.tail
    ensures Slot(Wrap(s.tail, c.modulus), c.capacity) == Slot(s.tail, c.capacity)
    ensures Slot(Wrap(s.head, c.modulus), c.capacity) == Slot(s.head, c.capacity)
  {
    hide Slot, Wrap, Minus, Divides;
    WrapKeepsDistance(s.cachedHead, s.tail + 1, c.modulus);
    SameWord(s.head, s.cachedTail, c.modulus);
    SameWord(s.head, s.tail, c.modulus);
    WrapKeepsSlot(s.tail, c.modulus, c.capacity);
    WrapKeepsSlot(s.head, c.modulus, c.capacity);
  }

  lemma SameWord(p: nat, q: nat, modulus: nat)
    requires p <= q < p + modulus
    ensures Wrap(p, modulus) == Wrap(q, modulus) <==> p == q
  {
    WrapKeepsDistance(p, q, modulus);
  }

  lemma ProducerKeeps(c: Setting, s: State)
    requires Fitting(c) && Inv(c, s)
    ensures Inv(c, StepProducer(c, s))
  {
    hide Slot, Wrap, Minus, Divides, Processed, LooksFull, LooksEmpty;
    TestsMean(c, s);
    var t := StepProducer(c, s);
    if s.producer.ReloadHead? {
      TestsMean(c, s.(cachedHead := s.head));
    } else if s.producer.Write? {
      WriteKeeps(c, s, t);
    }
  }

  lemma WriteKeeps(c: Setting, s: State, t: State)
    requires Fitting(c) && Inv(c, s) && s.producer.Write?
    requires t == s.(slots := s.slots[Slot(s.tail, c.capacity) := Made(c.input, s.tail)], producer := PublishTail)
    ensures Queued(c, t)
  {
    hide Slot, Wrap, Minus, Divides, Processed;
    forall k | s.head <= k < s.tail ensures t.slots[Slot(k, c.capacity)] == Made(c.input, k) {
      SlotsApart(k, s.tail, c.capacity);
    }
  }

  lemma ConsumerKeeps(c: Setting, s: State)
    requires Fitting(c) && Inv(c, s)
    ensures Inv(c, StepConsumer(c, s))
  {
    hide Slot, Wrap, Minus, Divides, LooksFull, LooksEmpty, Process, Made, Processed;
    if s.consumer.PublishHead? {
      PublishHeadKeeps(c, s);
    } else {
      hide Queued, ProducerReady;
      TestsMean(c, s);
      SameQueue(c, s, StepConsumer(c, s));
    }
  }

  /** A consumer step that publishes nothing leaves the queue and the producer alone. */
  lemma SameQueue(c: Setting, s: State, t: State)
    requires t.head == s.head && t.tail == s.tail && t.slots == s.slots && t.producer == s.producer && t.done == s.done
    requires t.cachedHead == s.cachedHead && Queued(c, s) && ProducerReady(c, s)
    ensures Queued(c, t) && ProducerReady(c, t)
    ensures s.head < s.tail ==> 0 < c.capacity == |s.slots| &&
                                s.slots[Slot(s.head, c.capacity)] == Made(c.input, s.head)
  {
    hide Slot, Made;
  }

  lemma PublishHeadKeeps(c: Setting, s: State)
    requires Fitting(c) && Inv(c, s) && s.consumer.PublishHead?
    ensures Inv(c, StepConsumer(c, s))
  {
    hide Slot, Wrap, Minus, Divides, LooksFull, LooksEmpty, Process, Made;
  }

  lemma {:induction false} EveryRun(c: Setting, schedule: seq<bool>)
    requires Fitting(c)
    ensures Inv(c, Run(c, schedule))
  {
    if schedule != [] {
      hide Inv, StepProducer, StepConsumer;
      EveryRun(c, schedule[..|schedule| - 1]);
      ProducerKeeps(c, Run(c, schedule[..|schedule| - 1]));
      ConsumerKeeps(c, Run(c, schedule[..|schedule| - 1]));
    }
  }

  /** In every interleaving the consumer exits only with every sample consumed in
      order, and its data is the whole input's. */
  lemma ExitsWithEverything(c: Setting, schedule: seq<bool>)
    requires Fitting(c)
    ensures var s := Run(c, schedule); s.consumer.Exited? ==> s.head == |c.input| && s.data == Summary(c.input)
  {
    hide Run, Processed, Summary;
    EveryRun(c, schedule);
    var s := Run(c, schedule);
    ProcessedIs(c.input, s.head);
    if s.consumer.Exited? {
      assert c.input[..s.head] == c.input;
    }
  }

  /** At every moment of every interleaving what was consumed is a prefix, with no
      sequence error and no failed push. */
  lemma AlwaysInOrder(c: Setting, schedule: seq<bool>)
    requires Fitting(c)
    ensures var s := Run(c, schedule);
            && s.head <= |c.input| && s.data == Summary(c.input[..s.head])
            && s.data.sequenceErrors == 0 && !s.data.failed
  {
    hide Run, Processed;
    EveryRun(c, schedule);
    ProcessedIs(c.input, Run(c, schedule).head);
  }

  /** The threads never touch one slot at the same time. */
  lemma NoRace(c: Setting, schedule: seq<bool>)
    requires Fitting(c)
    ensures var s := Run(c, schedule);
            s.producer.Write? && s.consumer.Take? ==>
              Slot(Wrap(s.tail, c.modulus), c.capacity) != Slot(Wrap(s.head, c.modulus), c.capacity)
  {
    hide Run, Slot, Wrap, Minus, Divides, Processed, LooksFull, LooksEmpty, Queued;
    EveryRun(c, schedule);
    var s := Run(c, schedule);
    TestsMean(c, s);
    if s.producer.Write? && s.consumer.Take? {
      SlotsApart(s.head, s.tail, c.capacity);
    }
  }

  // ---------------------------------------------------------------------
  // Never stuck
  // ---------------------------------------------------------------------

  function ProducerRank(at: ProducerAt): nat {
    match at
    case TryPush => 4
    case ReloadHead => 3
    case Write => 2
    case PublishTail => 1
    case Finish => 1
    case Stopped => 0
  }

  function ConsumerRank(at: ConsumerAt, empty: bool): nat {
    match at
    case TryPop => 4
    case ReloadTail => 3
    case Take => 2
    case PublishHead => 1
    case LoadDone => if empty then 2 else 6
    case LoadEmpty => if empty then 1 else 5
    case Exited => 0
  }

  /** While something is queued, or nothing more will come, it is the consumer's
      move that helps; else the producer's. */
  predicate ProducerHelps(s: State) {
    s.head == s.tail && !s.producer.Stopped?
  }

  lemma HelpfulProducer(c: Setting, s: State)
    requires Fitting(c) && Inv(c, s) && ProducerHelps(s)
    ensures var t := StepProducer(c, s);
            && t.head == s.head && t.tail >= s.tail
            && (t.tail == s.tail ==> ProducerRank(t.producer) < ProducerRank(s.producer))
  {
    hide Slot, Wrap, Minus, Divides, Processed, LooksFull, LooksEmpty, Made;
    TestsMean(c, s);
    TestsMean(c, s.(cachedHead := s.head));
  }

  lemma HelpfulConsumer(c: Setting, s: State)
    requires Fitting(c) && Inv(c, s) && !ProducerHelps(s) && !s.consumer.Exited?
    ensures var t := StepConsumer(c, s);
            && t.tail == s.tail && t.head >= s.head && t.producer == s.producer
            && (t.head == s.head ==>
                  ConsumerRank(t.consumer, t.head == t.tail) < ConsumerRank(s.consumer, s.head == s.tail))
  {
    hide Slot, Wrap, Minus, Divides, Processed, LooksFull, LooksEmpty, Process, Made;
    TestsMean(c, s);
  }

  /** How many moves of the thread that helps are left at most. */
  function Left(c: Setting, s: State): int {
    7 * (2 * |c.input| + 1 - s.head - s.tail - if s.producer.Stopped? then 1 else 0) +
    if ProducerHelps(s) then ProducerRank(s.producer) else ConsumerRank(s.consumer, s.head == s.tail)
  }

  function StepOf(c: Setting, s: State, producer: bool): State
    requires Fitting(c)
  {
    if producer then StepProducer(c, s) else StepConsumer(c, s)
  }

  lemma LeftNotNegative(c: Setting, s: State)
    requires Inv(c, s)
    ensures Left(c, s) >= 0
  {
  }

  /** A move of the thread that helps uses one up; a move of the other adds none and
      leaves the same thread to help, unless it too used some up. */
  lemma MoveUses(c: Setting, s: State, producer: bool)
    requires Fitting(c) && Inv(c, s) && !s.consumer.Exited?
    ensures var t := StepOf(c, s, producer);
            && Inv(c, t) && Left(c, t) <= Left(c, s)
            && (producer == ProducerHelps(s) ==> Left(c, t) < Left(c, s))
            && (Left(c, t) < Left(c, s) || ProducerHelps(t) == ProducerHelps(s))
  {
    hide Inv, StepProducer, StepConsumer;
    if producer {
      ProducerKeeps(c, s);
      ProducerMoves(c, s);
      if ProducerHelps(s) {
        HelpfulProducer(c, s);
      }
    } else {
      ConsumerKeeps(c, s);
      ConsumerMoves(c, s);
      if !ProducerHelps(s) {
        HelpfulConsumer(c, s);
      }
    }
  }

  lemma ProducerMoves(c: Setting, s: State)
    requires Fitting(c)
    ensures var t := StepProducer(c, s);
            && t.head == s.head && t.consumer == s.consumer && s.tail <= t.tail <= s.tail + 1
            && (s.producer.Stopped? ==> t == s) && (t.producer.Stopped? ==> t.tail == s.tail)
  {
    hide Slot, Wrap, LooksFull, Made;
  }

  lemma ConsumerMoves(c: Setting, s: State)
    requires Fitting(c)
    ensures var t := StepConsumer(c, s);
            t.tail == s.tail && t.producer == s.producer && s.head <= t.head <= s.head + 1
  {
    hide Slot, Wrap, LooksEmpty, Process;
  }

  /** A stretch of a schedule in which both threads move. */
  predicate Round(moves: seq<bool>) {
    true in moves && false in moves
  }

  function Moves(c: Setting, s: State, moves: seq<bool>): State
    requires Fitting(c)
    decreases |moves|
  {
    if moves == [] then s else Moves(c, StepOf(c, s, moves[0]), moves[1..])
  }

  lemma {:induction false} ExitedStays(c: Setting, s: State, moves: seq<bool>)
    requires Fitting(c) && s.consumer.Exited?
    ensures Moves(c, s, moves).consumer.Exited?
    decreases |moves|
  {
    hide StepProducer;
    if moves != [] {
      ProducerMoves(c, s);
      ExitedStays(c, StepOf(c, s, moves[0]), moves[1..]);
    }
  }

  /** Unless the consumer exits, a stretch in which the thread that helps moves
      uses up one of the moves left. */
  lemma {:induction false} MovesUse(c: Setting, s: State, moves: seq<bool>)
    requires Fitting(c) && Inv(c, s)
    ensures var t := Moves(c, s, moves);
            t.consumer.Exited? ||
            (Inv(c, t) && Left(c, t) <= Left(c, s) && (ProducerHelps(s) in moves ==> Left(c, t) < Left(c, s)))
    decreases |moves|
  {
    hide Inv, StepProducer, StepConsumer, Left, ProducerHelps;
    if s.consumer.Exited? {
      ExitedStays(c, s, moves);
    } else if moves != [] {
      MoveUses(c, s, moves[0]);
      var u := StepOf(c, s, moves[0]);
      MovesUse(c, u, moves[1..]);
      assert moves == [moves[0]] + moves[1..];
    }
  }

  function Flat(rounds: seq<seq<bool>>): seq<bool> {
    if rounds == [] then [] else rounds[0] + Flat(rounds[1..])
  }

  lemma {:induction false} MovesConcat(c: Setting, s: State, a: seq<bool>, b: seq<bool>)
    requires Fitting(c)
    ensures Moves(c, s, a + b) == Moves(c, Moves(c, s, a), b)
    decreases |a|
  {
    hide StepOf;
    if a == [] {
      assert a + b == b;
    } else {
      assert (a + b)[1..] == a[1..] + b;
      MovesConcat(c, StepOf(c, s, a[0]), a[1..], b);
    }
  }

  lemma {:induction false} RoundsUse(c: Setting, s: State, rounds: seq<seq<bool>>)
    requires Fitting(c) && Inv(c, s) && forall i :: 0 <= i < |rounds| ==> Round(rounds[i])
    requires |rounds| > Left(c, s)
    ensures Moves(c, s, Flat(rounds)).consumer.Exited?
    decreases |rounds|
  {
    hide Inv, StepOf, Left, Moves;
    LeftNotNegative(c, s);
    MovesUse(c, s, rounds[0]);
    MovesConcat(c, s, rounds[0], Flat(rounds[1..]));
    var t := Moves(c, s, rounds[0]);
    if t.consumer.Exited? {
      ExitedStays(c, t, Flat(rounds[1..]));
    } else {
      assert Round(rounds[0]);
      RoundsUse(c, t, rounds[1..]);
    }
  }

  lemma {:induction false} RunIsMoves(c: Setting, schedule: seq<bool>)
    requires Fitting(c)
    ensures Run(c, schedule) == Moves(c, Initial(c), schedule)
    decreases |schedule|
  {
    hide StepProducer, StepConsumer, Initial;
    if schedule != [] {
      var n := |schedule| - 1;
      RunIsMoves(c, schedule[..n]);
      assert schedule == schedule[..n] + [schedule[n]];
      MovesConcat(c, Initial(c), schedule[..n], [schedule[n]]);
      assert [schedule[n]][1..] == [];
    }
  }

  /** However the threads are interleaved, once both have moved in 14 N + 12 rounds,
      whatever else happens in them, the consumer has exited: neither thread can keep
      the other waiting for good. */
  lemma FairRunsFinish(c: Setting, rounds: seq<seq<bool>>)
    requires Fitting(c) && forall i :: 0 <= i < |rounds| ==> Round(rounds[i])
    requires |rounds| >= 14 * |c.input| + 12
    ensures Run(c, Flat(rounds)).consumer.Exited?
  {
    hide Run, Moves, Inv;
    RunIsMoves(c, Flat(rounds));
    EveryRun(c, []);
    RunIsMoves(c, []);
    NoMoves(c);
    RoundsUse(c, Initial(c), rounds);
  }

  /** In particular, from wherever an interleaving has led, the consumer can exit. */
  lemma CanFinish(c: Setting, schedule: seq<bool>) returns (more: seq<bool>)
    requires Fitting(c)
    ensures Run(c, schedule + more).consumer.Exited?
  {
    hide Run, Moves, Inv, Left;
    EveryRun(c, schedule);
    var s := Run(c, schedule);
    LeftNotNegative(c, s);
    var rounds := seq(Left(c, s) + 1, i => [true, false]);
    RoundsUse(c, s, rounds);
    more := Flat(rounds);
    RunIsMoves(c, schedule);
    RunIsMoves(c, schedule + more);
    MovesConcat(c, Initial(c), schedule, more);
  }

  lemma NoMoves(c: Setting)
    requires Fitting(c)
    ensures Moves(c, Initial(c), []) == Initial(c) && Left(c, Initial(c)) <= 14 * |c.input| + 11
  {
  }
}
