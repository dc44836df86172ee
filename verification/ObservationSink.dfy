/** The bounded, batched sink for activation observations.

    The table is meant to hold what adding each persisted sample by itself would have produced;
    every sample is persisted, counted as lost, or still on its way, unless the writer task ends:
    what it and the queue then hold is discarded without being counted.
 */
module ObservationSink {
  import opened ByteStrings

  const I64_MAX: nat := 0x7FFF_FFFF_FFFF_FFFF
  const MAX_BATCH_SIZE: nat := 64
  const BUCKET_LIMITS: seq<nat> := [1_000, 5_000, 15_000, 30_000, 60_000, 120_000, 300_000, 900_000]

  datatype ObservationKey = ObservationKey(tenant: bytes, outcome: bytes, reason: bytes)

  datatype Observation = Observation(key: ObservationKey, elapsedMs: nat)

  datatype Columns = Columns(sampleCount: nat, sumMs: nat, buckets: seq<nat>)

  type Aggregate = a: Columns | |a.buckets| == 8 witness Columns(0, 0, [0, 0, 0, 0, 0, 0, 0, 0])

  const ZERO: Aggregate := Columns(0, 0, [0, 0, 0, 0, 0, 0, 0, 0])

  function Clamp(n: nat): (r: nat) {
    if n <= I64_MAX then n else I64_MAX
  }

  // ---- Adding samples ----

  /** One sample added without regard to word size: what the table's columns mean. */
  function AddPlain(a: Aggregate, elapsedMs: nat): (r: Aggregate)
  {
    Columns(a.sampleCount + 1, a.sumMs + Clamp(elapsedMs),
              seq(8, i requires 0 <= i < 8 => a.buckets[i] + if Clamp(elapsedMs) <= BUCKET_LIMITS[i] then 1 else 0))
  }

  /** One sample added with saturating 64-bit arithmetic. */
  function AddSample(a: Aggregate, elapsedMs: nat): (r: Aggregate)
  {
    Columns(Clamp(a.sampleCount + 1), Clamp(a.sumMs + Clamp(elapsedMs)),
              seq(8, i requires 0 <= i < 8 =>
                if Clamp(elapsedMs) <= BUCKET_LIMITS[i] then Clamp(a.buckets[i] + 1) else a.buckets[i]))
  }

  /** `Aggregate::add`, which updates its counters in place. */
  class Cell {
    var sampleCount: nat
    var sumMs: nat
    var buckets: array<nat>

    ghost predicate Valid()
      reads this
    {
      buckets.Length == 8
    }

    ghost function Value(): (a: Aggregate)
      requires Valid()
      reads this, buckets
    {
      Columns(sampleCount, sumMs, buckets[..])
    }

    constructor ()
      ensures Valid() && fresh(buckets) && Value() == ZERO
    {
      sampleCount, sumMs := 0, 0;
      buckets := new nat[8](_ => 0);
      new;
      assert buckets[..] == ZERO.buckets;
    }

    method Add(elapsedMs: nat)
      requires Valid()
      modifies this, buckets
      ensures Valid() && buckets == old(buckets) && Value() == AddSample(old(Value()), elapsedMs)
    {
      var elapsed := Clamp(elapsedMs);
      sampleCount := Clamp(sampleCount + 1);
      sumMs := Clamp(sumMs + elapsed);
      for i := 0 to 8
        invariant buckets == old(buckets) && Valid()
        invariant sampleCount == Clamp(old(sampleCount) + 1) && sumMs == Clamp(old(sumMs) + elapsed)
        invariant forall j :: 0 <= j < i ==>
                    buckets[j] == if elapsed <= BUCKET_LIMITS[j] then Clamp(old(buckets[j]) + 1) else old(buckets[j])
        invariant forall j :: i <= j < 8 ==> buckets[j] == old(buckets[j])
      {
        if elapsed <= BUCKET_LIMITS[i] {
          buckets[i] := Clamp(buckets[i] + 1);
        }
      }
      assert buckets[..] == AddSample(old(Value()), elapsedMs).buckets;
    }
  }

  function Plain(samples: seq<Observation>): (a: Aggregate)
    ensures a.sampleCount == |samples|
  {
    if samples == [] then ZERO else AddPlain(Plain(samples[..|samples| - 1]), samples[|samples| - 1].elapsedMs)
  }

  function Saturating(samples: seq<Observation>): (a: Aggregate)
  {
    if samples == [] then ZERO else AddSample(Saturating(samples[..|samples| - 1]), samples[|samples| - 1].elapsedMs)
  }

  lemma {:induction false} BucketsBounded(samples: seq<Observation>, i: nat)
    requires i < 8
    ensures Plain(samples).buckets[i] <= |samples|
  {
    if samples != [] {
      BucketsBounded(samples[..|samples| - 1], i);
    }
  }

  /** Within a batch only the sum can saturate: it is the true sum, cut off at 64 bits. */
  lemma {:induction false} SaturationIsExact(samples: seq<Observation>)
    requires |samples| <= MAX_BATCH_SIZE
    ensures Saturating(samples) == Plain(samples).(sumMs := Clamp(Plain(samples).sumMs))
  {
    if samples != [] {
      var init := samples[..|samples| - 1];
      SaturationIsExact(init);
      forall i: nat | i < 8 {
        BucketsBounded(init, i);
      }
      assert Saturating(samples).buckets == Plain(samples).buckets;
    }
  }

  /** Buckets count samples at or below rising limits, so each includes the one before. */
  lemma {:induction false} BucketsCumulative(samples: seq<Observation>, i: nat, j: nat)
    requires i <= j < 8
    ensures Plain(samples).buckets[i] <= Plain(samples).buckets[j] <= Plain(samples).sampleCount
  {
    if samples != [] {
      BucketsCumulative(samples[..|samples| - 1], i, j);
    }
  }

  /** How many of the samples took at most `limit` milliseconds. */
  function AtMost(samples: seq<Observation>, limit: nat): (n: nat) {
    if samples == [] then 0
    else AtMost(samples[..|samples| - 1], limit) + if samples[|samples| - 1].elapsedMs <= limit then 1 else 0
  }

  /** All elapsed times together, each as a signed 64-bit number. */
  function Altogether(samples: seq<Observation>): (n: nat) {
    if samples == [] then 0
    else
      var last := samples[|samples| - 1].elapsedMs;
      Altogether(samples[..|samples| - 1]) + if last > 0x7FFF_FFFF_FFFF_FFFF then 0x7FFF_FFFF_FFFF_FFFF else last
  }

  /** What the columns mean: a count, a sum, and eight counts of samples up to one second, five,
      fifteen, thirty, one minute, two, five and fifteen. */
  lemma {:induction false} PlainMeans(samples: seq<Observation>)
    ensures Plain(samples).sampleCount == |samples| && Plain(samples).sumMs == Altogether(samples)
    ensures Plain(samples).buckets ==
            [AtMost(samples, 1_000), AtMost(samples, 5_000), AtMost(samples, 15_000), AtMost(samples, 30_000),
             AtMost(samples, 60_000), AtMost(samples, 120_000), AtMost(samples, 300_000), AtMost(samples, 900_000)]
  {
    if samples != [] {
      PlainMeans(samples[..|samples| - 1]);
    }
  }

  function Merge(a: Aggregate, b: Aggregate): (r: Aggregate)
  {
    Columns(a.sampleCount + b.sampleCount, a.sumMs + b.sumMs, seq(8, i requires 0 <= i < 8 => a.buckets[i] + b.buckets[i]))
  }

  lemma PlainAppend(samples: seq<Observation>, o: Observation)
    ensures Plain(samples + [o]) == AddPlain(Plain(samples), o.elapsedMs)
    ensures Saturating(samples + [o]) == AddSample(Saturating(samples), o.elapsedMs)
  {
    hide AddPlain, AddSample;
    assert (samples + [o])[..|samples|] == samples;
  }

  lemma AddAfterMerge(a: Aggregate, b: Aggregate, elapsedMs: nat)
    ensures AddPlain(Merge(a, b), elapsedMs) == Merge(a, AddPlain(b, elapsedMs))
  {
    assert AddPlain(Merge(a, b), elapsedMs).buckets == Merge(a, AddPlain(b, elapsedMs)).buckets;
  }

  /** Adding a group at once is adding its samples one at a time. */
  lemma {:induction false} MergeIsSampleBySample(a: seq<Observation>, b: seq<Observation>)
    ensures Plain(a + b) == Merge(Plain(a), Plain(b))
  {
    hide AddPlain, Merge;
    if b == [] {
      assert a + b == a;
      MergeZero(Plain(a));
    } else {
      var init, last := b[..|b| - 1], b[|b| - 1];
      MergeIsSampleBySample(a, init);
      PlainAppend(a + init, last);
      PlainAppend(init, last);
      AddAfterMerge(Plain(a), Plain(init), last.elapsedMs);
      assert a + b == (a + init) + [last] && b == init + [last];
    }
  }

  lemma MergeZero(a: Aggregate)
    ensures Merge(a, ZERO) == a
  {
    assert Merge(a, ZERO).buckets == a.buckets;
  }

  // ---- Grouping by key ----

  /** The samples with a given key, in order. */
  function Of(samples: seq<Observation>, key: ObservationKey): (r: seq<Observation>)
    ensures |r| <= |samples|
    ensures forall o :: o in r ==> o in samples && o.key == key
  {
    if samples == [] then []
    else
      var init, last := samples[..|samples| - 1], samples[|samples| - 1];
      if last.key == key then Of(init, key) + [last] else Of(init, key)
  }

  function Except(samples: seq<Observation>, key: ObservationKey): (r: seq<Observation>)
    ensures |r| <= |samples|
    ensures forall o :: o in r ==> o in samples && o.key != key
  {
    if samples == [] then []
    else
      var init, last := samples[..|samples| - 1], samples[|samples| - 1];
      if last.key == key then Except(init, key) else Except(init, key) + [last]
  }

  lemma {:induction false} OfAppend(a: seq<Observation>, b: seq<Observation>, key: ObservationKey)
    ensures Of(a + b, key) == Of(a, key) + Of(b, key)
  {
    if b == [] {
      assert a + b == a;
    } else {
      assert (a + b)[..|a + b| - 1] == a + b[..|b| - 1];
      OfAppend(a, b[..|b| - 1], key);
    }
  }

  lemma {:induction false} OfUniform(samples: seq<Observation>, key: ObservationKey, other: ObservationKey)
    requires forall o :: o in samples ==> o.key == key
    ensures Of(samples, other) == if other == key then samples else []
  {
    if samples != [] {
      var init := samples[..|samples| - 1];
      assert forall o :: o in init ==> o in samples;
      assert samples[|samples| - 1] in samples && samples == init + [samples[|samples| - 1]];
      OfUniform(init, key, other);
    }
  }

  lemma {:induction false} SplitByKey(samples: seq<Observation>, key: ObservationKey)
    ensures multiset(samples) == multiset(Of(samples, key)) + multiset(Except(samples, key))
  {
    if samples != [] {
      var init, last := samples[..|samples| - 1], samples[|samples| - 1];
      SplitByKey(init, key);
      assert samples == init + [last];
    }
  }

  /** The grouping loop of `flush_batch`: one aggregate per key, over that key's samples. */
  method GroupBatch(batch: seq<Observation>) returns (groups: map<ObservationKey, Aggregate>)
    ensures forall key :: key in groups <==> Of(batch, key) != []
    ensures forall key :: key in groups ==> groups[key] == Saturating(Of(batch, key))
  {
    hide Of, Saturating, AddSample;
    groups := map[];
    NoSamples();
    for n := 0 to |batch|
      invariant forall key :: key in groups <==> Of(batch[..n], key) != []
      invariant forall key :: key in groups ==> groups[key] == Saturating(Of(batch[..n], key))
    {
      var o := batch[n];
      assert batch[..n + 1] == batch[..n] + [o];
      forall key {
        OfAppendOne(batch[..n], o, key);
      }
      PlainAppend(Of(batch[..n], o.key), o);
      var current := if o.key in groups then groups[o.key] else ZERO;
      groups := groups[o.key := AddSample(current, o.elapsedMs)];
    }
    assert batch[..|batch|] == batch;
  }

  lemma NoSamples()
    ensures Saturating([]) == ZERO && Plain([]) == ZERO && forall key :: Of([], key) == []
  {
  }

  lemma OfAppendOne(samples: seq<Observation>, o: Observation, key: ObservationKey)
    ensures Of(samples + [o], key) == if o.key == key then Of(samples, key) + [o] else Of(samples, key)
  {
    assert (samples + [o])[..|samples|] == samples;
  }

  // ---- The sink and its writer, step by step ----

  /** An ended writer has dropped its receiver, which is what closes the channel. */
  datatype Writer = Idle | Filling(batch: seq<Observation>) | Flushing(rest: seq<Observation>) | Ended

  /** The last five fields record history: calls made, samples written, samples counted as lost,
      samples discarded when the writer ended, and the keys of which some written group had a sum
      of more than 64 bits. */
  datatype State = State(
    queue: seq<Observation>, capacity: nat, writer: Writer,
    table: map<ObservationKey, Aggregate>,
    queueFull: nat, channelClosed: nat, writeFailed: nat,
    enqueued: seq<Observation>, persisted: seq<Observation>, lost: seq<Observation>, discarded: seq<Observation>,
    overflowed: set<ObservationKey>)

  function Initial(capacity: nat): (s: State) {
    State([], if capacity == 0 then 1 else capacity, Idle, map[], 0, 0, 0, [], [], [], [], {})
  }

  datatype Action =
    | Enqueue(o: Observation)
    | WriterEnds
    | Receive
    | EndBatch
    | Write(key: ObservationKey, ok: bool)

  function EnqueueStep(s: State, o: Observation): (t: State) {
    var called := s.(enqueued := s.enqueued + [o]);
    if s.writer.Ended? then called.(channelClosed := s.channelClosed + 1, lost := s.lost + [o])
    else if |s.queue| >= s.capacity then called.(queueFull := s.queueFull + 1, lost := s.lost + [o])
    else called.(queue := s.queue + [o])
  }

  /** The writer takes the first message when idle and fills its batch while there are more. */
  function ReceiveStep(s: State): (t: State) {
    if s.queue == [] then s
    else
      match s.writer
      case Idle => s.(queue := s.queue[1..], writer := Filling([s.queue[0]]))
      case Filling(batch) =>
        if |batch| < MAX_BATCH_SIZE then s.(queue := s.queue[1..], writer := Filling(batch + [s.queue[0]])) else s
      case _ => s
  }

  /** The writer task is gone, and with it its batch and the channel's contents. */
  function EndStep(s: State): (t: State) {
    if s.writer.Ended? then s
    else s.(queue := [], writer := Ended, discarded := s.discarded + (s.queue + InWriter(s.writer)))
  }

  /** `write_aggregate`: an upsert that adds column by column. */
  function Upsert(table: map<ObservationKey, Aggregate>, key: ObservationKey, a: Aggregate): (r: map<ObservationKey, Aggregate>)
  {
    table[key := if key in table then Merge(table[key], a) else a]
  }

  predicate Overflows(group: seq<Observation>) {
    Plain(group).sumMs > I64_MAX
  }

  function WriteStep(s: State, key: ObservationKey, ok: bool): (t: State)
    requires s.writer.Flushing?
  {
    var group := Of(s.writer.rest, key);
    var rest := Except(s.writer.rest, key);
    var moved := s.(writer := if rest == [] then Idle else Flushing(rest));
    if group == [] then s
    else if ok then
      moved.(table := Upsert(s.table, key, Saturating(group)), persisted := s.persisted + group,
             overflowed := s.overflowed + if Overflows(group) then {key} else {})
    else moved.(writeFailed := s.writeFailed + Saturating(group).sampleCount, lost := s.lost + group)
  }

  function Perform(s: State, a: Action): (t: State) {
    match a
    case Enqueue(o) => EnqueueStep(s, o)
    case WriterEnds => EndStep(s)
    case Receive => ReceiveStep(s)
    case EndBatch =>
      if s.writer.Filling? && (s.queue == [] || |s.writer.batch| == MAX_BATCH_SIZE)
      then s.(writer := Flushing(s.writer.batch)) else s
    case Write(key, ok) =>
      if s.writer.Flushing? then WriteStep(s, key, ok) else s
  }

  function Run(s: State, actions: seq<Action>): (t: State)
    decreases actions
  {
    if actions == [] then s else Run(Perform(s, actions[0]), actions[1..])
  }

  function InWriter(w: Writer): (r: seq<Observation>) {
    match w
    case Idle => []
    case Filling(batch) => batch
    case Flushing(rest) => rest
    case Ended => []
  }

  // ---- What each step does ----

  /** With a live writer a call is queued exactly when there is room, and otherwise counted as such;
      without one it is counted under the closed channel. Nothing else moves. */
  lemma EnqueueIsForced(s: State, o: Observation)
    ensures var t := Perform(s, Enqueue(o));
            && t.enqueued == s.enqueued + [o] && t.writer == s.writer && t.table == s.table
            && t.writeFailed == s.writeFailed && t.persisted == s.persisted
            && t.queue == (if !s.writer.Ended? && |s.queue| < s.capacity then s.queue + [o] else s.queue)
            && t.queueFull == s.queueFull + (if !s.writer.Ended? && |s.queue| >= s.capacity then 1 else 0)
            && t.channelClosed == s.channelClosed + (if s.writer.Ended? then 1 else 0)
  {
  }

  /** A new sink is empty, idle and holds at least one sample. */
  lemma SinkStartsEmpty(capacity: nat)
    ensures var s := Initial(capacity);
            && s.queue == [] && s.writer == Idle && s.table == map[] && s.enqueued == []
            && s.queueFull == s.channelClosed == s.writeFailed == 0
            && s.capacity >= 1 && (capacity >= 1 ==> s.capacity == capacity)
  {
  }

  /** The oldest sample is taken while the batch has fewer than 64, and the batch is flushed when it has
      64 or the queue is empty. */
  lemma FillingIsForced(s: State, batch: seq<Observation>)
    requires s.writer == Filling(batch) && |batch| <= 64
    ensures s.queue != [] && |batch| < 64 ==>
              && Perform(s, Receive) == s.(queue := s.queue[1..], writer := Filling(batch + [s.queue[0]]))
              && Perform(s, EndBatch) == s
    ensures s.queue == [] || |batch| == 64 ==>
              Perform(s, EndBatch) == s.(writer := Flushing(batch)) && Perform(s, Receive) == s
  {
  }

  /** From any state with a live writer everything accepted can still be persisted, without further loss. */
  lemma {:induction false} NothingIsStuck(s: State) returns (actions: seq<Action>)
    requires Inv(s) && !s.writer.Ended?
    ensures var t := Run(s, actions);
            t.queue == [] && t.writer == Idle && t.lost == s.lost && t.enqueued == s.enqueued && |t.persisted| == |s.enqueued| - |s.lost|
    decreases |s.queue| + |InWriter(s.writer)|, |s.queue|, if s.writer.Flushing? then 0 else 1
  {
    hide TableIsPlain, Explained, Conserved, Run, Perform, Upsert, Saturating, Plain, Overflows, Of, Except;
    if s.queue == [] && s.writer.Idle? {
      actions := [];
      NothingLeft(s);
    } else {
      var a := NextMove(s);
      StepKeeps(s, a);
      MoveHelps(s, a);
      var rest := NothingIsStuck(Perform(s, a));
      actions := [a] + rest;
      assert actions[1..] == rest;
      RunFirst(s, a, rest);
    }
  }

  lemma RunFirst(s: State, a: Action, rest: seq<Action>)
    ensures Run(s, [a] + rest) == Run(Perform(s, a), rest)
  {
    hide Perform;
    assert ([a] + rest)[1..] == rest;
  }

  lemma NothingLeft(s: State)
    requires Inv(s) && s.queue == [] && s.writer.Idle?
    ensures Run(s, []) == s && |s.persisted| == |s.enqueued| - |s.lost|
  {
    hide TableIsPlain, Explained;
    assert |multiset(s.enqueued)| == |s.enqueued|;
  }

  function NextMove(s: State): (a: Action)
    requires s.queue != [] || !s.writer.Idle?
  {
    match s.writer
    case Flushing(rest) => if rest == [] then EndBatch else Write(rest[0].key, true)
    case Filling(batch) => if s.queue == [] || |batch| == MAX_BATCH_SIZE then EndBatch else Receive
    case _ => Receive
  }

  lemma MoveHelps(s: State, a: Action)
    requires Inv(s) && !s.writer.Ended? && (s.queue != [] || !s.writer.Idle?) && a == NextMove(s)
    ensures var t := Perform(s, a);
            && !t.writer.Ended? && t.lost == s.lost && t.enqueued == s.enqueued
            && var before, after := |s.queue| + |InWriter(s.writer)|, |t.queue| + |InWriter(t.writer)|;
            || after < before
            || (after == before && |t.queue| < |s.queue|)
            || (after == before && |t.queue| == |s.queue| && t.writer.Flushing? && !s.writer.Flushing?)
  {
    hide TableIsPlain, Explained, Conserved, Upsert, Saturating, Plain, Overflows;
    if s.writer.Flushing? {
      FirstGroup(s.writer.rest);
    }
  }

  lemma FirstGroup(rest: seq<Observation>)
    requires rest != []
    ensures Of(rest, rest[0].key) != [] && |Except(rest, rest[0].key)| < |rest|
  {
    hide Of, Except;
    SplitByKey(rest, rest[0].key);
    assert rest[0] in multiset(rest);
    assert |multiset(rest)| == |rest|;
    assert rest[0] !in multiset(Except(rest, rest[0].key));
  }

  // ---- The invariant ----

  ghost predicate Partition(all: multiset<Observation>, a: multiset<Observation>, b: multiset<Observation>,
                            c: multiset<Observation>, d: multiset<Observation>, e: multiset<Observation>)
  {
    all == a + b + c + d + e
  }

  /** Every enqueued sample is in exactly one place. */
  ghost predicate Conserved(s: State) {
    Partition(multiset(s.enqueued), multiset(s.persisted), multiset(s.lost), multiset(s.discarded),
              multiset(s.queue), multiset(InWriter(s.writer)))
  }

  /** What the loss counters are there for: every call is accounted for. */
  predicate Balanced(s: State) {
    |s.enqueued| == |s.persisted| + s.queueFull + s.channelClosed + s.writeFailed + |s.queue| + |InWriter(s.writer)|
  }

  /** `a` counts like `p`, and sums like it unless a sum was cut off on the way. */
  ghost predicate Agrees(a: Aggregate, p: Aggregate, overflowed: bool) {
    && a.sampleCount == p.sampleCount && a.buckets == p.buckets
    && a.sumMs <= p.sumMs && (a.sumMs == p.sumMs <==> !overflowed)
  }

  /** Each row is what adding the persisted samples of its key one at a time gives. */
  ghost predicate TableIsPlain(table: map<ObservationKey, Aggregate>, persisted: seq<Observation>, overflowed: set<ObservationKey>) {
    forall key ::
      && (key in table <==> Of(persisted, key) != [])
      && (key in table ==> Agrees(table[key], Plain(Of(persisted, key)), key in overflowed))
      && (key !in table ==> key !in overflowed)
  }

  /** A sum is cut off only on account of a sample that is not small. */
  ghost predicate Explained(persisted: seq<Observation>, overflowed: set<ObservationKey>) {
    forall key :: key in overflowed ==> exists o :: o in persisted && o.key == key && !Small(o)
  }

  ghost predicate Inv(s: State) {
    && Conserved(s)
    && |s.lost| == s.queueFull + s.channelClosed + s.writeFailed
    && |InWriter(s.writer)| <= MAX_BATCH_SIZE && |s.queue| <= s.capacity
    && (s.writer.Filling? || s.writer.Flushing? ==> InWriter(s.writer) != [])
    && (if s.writer.Ended? then s.queue == [] else s.discarded == [])
    && TableIsPlain(s.table, s.persisted, s.overflowed)
    && Explained(s.persisted, s.overflowed)
  }

  /** Sixty-four such samples cannot overflow a 64-bit sum: some four million years each. */
  predicate Small(o: Observation) {
    o.elapsedMs * MAX_BATCH_SIZE <= I64_MAX
  }

  lemma {:induction false} SmallSum(samples: seq<Observation>)
    requires forall o :: o in samples ==> Small(o)
    ensures Plain(samples).sumMs * MAX_BATCH_SIZE <= I64_MAX * |samples|
  {
    if samples != [] {
      var init, last := samples[..|samples| - 1], samples[|samples| - 1];
      assert last in samples && forall o :: o in init ==> o in samples;
      SmallSum(init);
    }
  }

  /** A batch overflows only if one of its samples is not small. */
  lemma OverflowHasCulprit(group: seq<Observation>)
    requires |group| <= MAX_BATCH_SIZE && Overflows(group)
    ensures exists o :: o in group && !Small(o)
  {
    if forall o :: o in group ==> Small(o) {
      SmallSum(group);
    }
  }

  /** A new call lands among the lost samples or in the queue. */
  lemma ConservedByCall(past: multiset<Observation>, lost: seq<Observation>, gone: multiset<Observation>,
                        queue: seq<Observation>, held: multiset<Observation>, enqueued: seq<Observation>, o: Observation)
    requires Partition(multiset(enqueued), past, multiset(lost), gone, multiset(queue), held)
    ensures Partition(multiset(enqueued + [o]), past, multiset(lost + [o]), gone, multiset(queue), held)
    ensures Partition(multiset(enqueued + [o]), past, multiset(lost), gone, multiset(queue + [o]), held)
  {
  }

  lemma EnqueueKeeps(s: State, o: Observation)
    requires Inv(s)
    ensures Inv(EnqueueStep(s, o))
  {
    hide TableIsPlain, Explained, InWriter, Partition;
    ConservedByCall(multiset(s.persisted), s.lost, multiset(s.discarded), s.queue, multiset(InWriter(s.writer)), s.enqueued, o);
  }

  /** The oldest sample moves from the queue to the writer. */
  lemma ConservedByMove(past: multiset<Observation>, queue: seq<Observation>, held: seq<Observation>)
    requires queue != []
    ensures past + multiset(queue) + multiset(held) == past + multiset(queue[1..]) + multiset(held + [queue[0]])
  {
    assert queue == [queue[0]] + queue[1..];
  }

  lemma ReceiveKeeps(s: State)
    requires Inv(s)
    ensures Inv(ReceiveStep(s))
  {
    hide TableIsPlain, Explained;
    if s.queue != [] {
      var held := InWriter(s.writer);
      ConservedByMove(multiset(s.persisted) + multiset(s.lost) + multiset(s.discarded), s.queue, held);
      assert s.writer.Idle? ==> held + [s.queue[0]] == [s.queue[0]];
    }
  }

  /** Everything on its way is discarded at once. */
  lemma ConservedByEnd(past: multiset<Observation>, gone: seq<Observation>, queue: seq<Observation>, held: seq<Observation>)
    ensures past + multiset(gone) + multiset(queue) + multiset(held) ==
            past + multiset(gone + (queue + held)) + multiset([]) + multiset([])
  {
  }

  lemma EndKeeps(s: State)
    requires Inv(s)
    ensures Inv(EndStep(s))
  {
    hide TableIsPlain, Explained;
    ConservedByEnd(multiset(s.persisted) + multiset(s.lost), s.discarded, s.queue, InWriter(s.writer));
  }

  lemma MergeAgrees(a: Aggregate, p: Aggregate, overflowed: bool, group: seq<Observation>)
    requires Agrees(a, p, overflowed) && |group| <= MAX_BATCH_SIZE
    ensures Agrees(Merge(a, Saturating(group)), Merge(p, Plain(group)), overflowed || Overflows(group))
  {
    hide Plain, Saturating;
    SaturationIsExact(group);
  }

  lemma UpsertIsPlain(table: map<ObservationKey, Aggregate>, persisted: seq<Observation>, overflowed: set<ObservationKey>,
                      key: ObservationKey, group: seq<Observation>)
    requires TableIsPlain(table, persisted, overflowed)
    requires group != [] && |group| <= MAX_BATCH_SIZE && forall o :: o in group ==> o.key == key
    ensures TableIsPlain(Upsert(table, key, Saturating(group)), persisted + group,
                         overflowed + if Overflows(group) then {key} else {})
  {
    hide Plain, Saturating, Merge, Of, Agrees, Overflows;
    var after, over := Upsert(table, key, Saturating(group)), overflowed + if Overflows(group) then {key} else {};
    forall k
      ensures k in after <==> Of(persisted + group, k) != []
      ensures k in after ==> Agrees(after[k], Plain(Of(persisted + group, k)), k in over)
      ensures k !in after ==> k !in over
    {
      OfAppend(persisted, group, k);
      OfUniform(group, key, k);
      if k == key {
        RowAgrees(table, Of(persisted, k), k in overflowed, key, group);
      } else {
        assert Of(persisted, k) + [] == Of(persisted, k);
      }
    }
  }

  lemma RowAgrees(table: map<ObservationKey, Aggregate>, before: seq<Observation>, overflowed: bool,
                  key: ObservationKey, group: seq<Observation>)
    requires |group| <= MAX_BATCH_SIZE
    requires key in table ==> Agrees(table[key], Plain(before), overflowed)
    requires key !in table ==> before == [] && !overflowed
    ensures Agrees(Upsert(table, key, Saturating(group))[key], Plain(before + group), overflowed || Overflows(group))
  {
    hide Plain, Saturating, Merge, Agrees, Overflows;
    MergeIsSampleBySample(before, group);
    if key in table {
      MergeAgrees(table[key], Plain(before), overflowed, group);
    } else {
      NoSamples();
      ZeroAgrees();
      MergeAgrees(ZERO, ZERO, false, group);
      ZeroMerge(Saturating(group));
    }
  }

  lemma ZeroAgrees()
    ensures Agrees(ZERO, ZERO, false)
  {
  }

  lemma ZeroMerge(a: Aggregate)
    ensures Merge(ZERO, a) == a
  {
    assert Merge(ZERO, a).buckets == a.buckets;
  }

  lemma ExplainedAppend(persisted: seq<Observation>, overflowed: set<ObservationKey>, key: ObservationKey, group: seq<Observation>)
    requires Explained(persisted, overflowed) && |group| <= MAX_BATCH_SIZE && forall o :: o in group ==> o.key == key
    ensures Explained(persisted + group, overflowed + if Overflows(group) then {key} else {})
  {
    hide Small, Overflows;
    if Overflows(group) {
      OverflowHasCulprit(group);
    }
    var over := overflowed + if Overflows(group) then {key} else {};
    forall k | k in over
      ensures exists o :: o in persisted + group && o.key == k && !Small(o)
    {
      if k in overflowed {
        var o :| o in persisted && o.key == k && !Small(o);
        assert o in persisted + group;
      } else {
        var o :| o in group && !Small(o);
        assert o in persisted + group;
      }
    }
  }

  lemma WriteKeeps(s: State, key: ObservationKey, ok: bool)
    requires Inv(s) && s.writer.Flushing?
    ensures Inv(WriteStep(s, key, ok))
  {
    hide TableIsPlain, Explained, Plain, Saturating, Of, Except, Small, Upsert, Overflows;
    var group := Of(s.writer.rest, key);
    if group != [] {
      SplitByKey(s.writer.rest, key);
      CountIsExact(group);
      UpsertIsPlain(s.table, s.persisted, s.overflowed, key, group);
      ExplainedAppend(s.persisted, s.overflowed, key, group);
    }
  }

  lemma CountIsExact(group: seq<Observation>)
    requires |group| <= MAX_BATCH_SIZE
    ensures Saturating(group).sampleCount == |group|
  {
    hide Plain, Saturating;
    SaturationIsExact(group);
  }

  lemma StepKeeps(s: State, a: Action)
    requires Inv(s)
    ensures Inv(Perform(s, a))
  {
    hide TableIsPlain, Explained;
    match a
    case Enqueue(o) => EnqueueKeeps(s, o);
    case WriterEnds => EndKeeps(s);
    case Receive => ReceiveKeeps(s);
    case EndBatch =>
    case Write(key, ok) => if s.writer.Flushing? { WriteKeeps(s, key, ok); }
  }

  lemma {:induction false} RunKeeps(s: State, actions: seq<Action>)
    requires Inv(s)
    ensures Inv(Run(s, actions))
    decreases actions
  {
    hide Inv, Perform;
    if actions != [] {
      StepKeeps(s, actions[0]);
      RunKeeps(Perform(s, actions[0]), actions[1..]);
    }
  }

  /** In every run each call made is persisted, counted as lost, queued, in the writer's hands, or
      was discarded when the writer ended, and nothing else. Every row has the count and the
      cumulative buckets of its persisted samples added one at a time; its sum is the true one if
      and only if no written group of that key overflowed, and so whenever the samples of that key
      are small. */
  lemma EveryRunBalances(capacity: nat, actions: seq<Action>)
    ensures var s := Run(Initial(capacity), actions);
            && Conserved(s)
            && |s.lost| == s.queueFull + s.channelClosed + s.writeFailed
            && (Balanced(s) <==> s.discarded == [])
            && TableIsPlain(s.table, s.persisted, s.overflowed)
            && Explained(s.persisted, s.overflowed)
            && forall key, i, j :: key in s.table && 0 <= i <= j < 8 ==>
                 s.table[key].buckets[i] <= s.table[key].buckets[j] <= s.table[key].sampleCount
  {
    InitialInv(capacity);
    RunKeeps(Initial(capacity), actions);
    var s := Run(Initial(capacity), actions);
    BalancedMeans(s);
    forall key, i: nat, j: nat | key in s.table && i <= j < 8
      ensures s.table[key].buckets[i] <= s.table[key].buckets[j] <= s.table[key].sampleCount
    {
      BucketsCumulative(Of(s.persisted, key), i, j);
    }
  }

  lemma BalancedMeans(s: State)
    requires Inv(s)
    ensures Balanced(s) <==> s.discarded == []
  {
    hide TableIsPlain, Explained;
    assert |multiset(s.enqueued)| == |s.enqueued|;
  }

  /** A dead writer stays dead: nothing more is persisted or discarded, and every later call is
      counted under the closed channel. */
  lemma {:induction false} NothingAfterTheEnd(s: State, actions: seq<Action>)
    requires s.writer.Ended? && s.queue == []
    ensures var t := Run(s, actions);
            && t.writer.Ended? && t.queue == [] && t.persisted == s.persisted && t.table == s.table
            && t.discarded == s.discarded && t.queueFull == s.queueFull && t.writeFailed == s.writeFailed
            && t.channelClosed - s.channelClosed == |t.enqueued| - |s.enqueued|
    decreases actions
  {
    if actions != [] {
      NothingAfterTheEnd(Perform(s, actions[0]), actions[1..]);
    }
  }

  lemma {:induction false} RunAppend(s: State, a: seq<Action>, b: seq<Action>)
    ensures Run(s, a + b) == Run(Run(s, a), b)
    decreases a
  {
    hide Perform;
    if a == [] {
      assert a + b == b;
    } else {
      assert (a + b)[1..] == a[1..] + b;
      RunAppend(Perform(s, a[0]), a[1..], b);
    }
  }

  /** As long as the writer lives, every call is accounted for. */
  lemma BalancedWhileWriting(capacity: nat, actions: seq<Action>)
    requires !Run(Initial(capacity), actions).writer.Ended?
    ensures Balanced(Run(Initial(capacity), actions))
  {
    hide Run;
    InitialInv(capacity);
    RunKeeps(Initial(capacity), actions);
    BalancedMeans(Run(Initial(capacity), actions));
  }

  /** Once the writer has ended, whatever happens afterwards, every call is accounted for if and only
      if the queue and the writer were empty at that moment. */
  lemma BalancedIffNothingHeld(capacity: nat, before: seq<Action>, after: seq<Action>)
    requires !Run(Initial(capacity), before).writer.Ended?
    ensures var s := Run(Initial(capacity), before);
            Balanced(Run(Initial(capacity), before + ([WriterEnds] + after))) <==> s.queue == [] && InWriter(s.writer) == []
  {
    hide Perform, InWriter, Balanced, Conserved, TableIsPlain, Explained;
    InitialInv(capacity);
    var s := Run(Initial(capacity), before);
    RunKeeps(Initial(capacity), before);
    assert ([WriterEnds] + after)[1..] == after;
    RunAppend(Initial(capacity), before, [WriterEnds] + after);
    var ended := Perform(s, WriterEnds);
    assert ended.discarded == s.queue + InWriter(s.writer) by {
      EndDiscards(s);
    }
    assert ended.writer.Ended? && ended.queue == [] by {
      EndDiscards(s);
    }
    NothingAfterTheEnd(ended, after);
    RunKeeps(s, [WriterEnds] + after);
    BalancedMeans(Run(s, [WriterEnds] + after));
  }

  lemma EndDiscards(s: State)
    requires Inv(s) && !s.writer.Ended?
    ensures var t := Perform(s, WriterEnds);
            t.discarded == s.queue + InWriter(s.writer) && t.writer.Ended? && t.queue == []
  {
    hide Conserved, TableIsPlain, Explained;
    assert [] + (s.queue + InWriter(s.writer)) == s.queue + InWriter(s.writer);
  }

  /** A sample is queued, the writer ends, and no counter tells. */
  lemma SilentLoss(capacity: nat, o: Observation)
    ensures var s := Run(Initial(capacity), [Enqueue(o), WriterEnds]);
            && s.enqueued == [o] && s.discarded == [o] && s.persisted == [] && s.queue == []
            && s.queueFull == s.channelClosed == s.writeFailed == 0 && !Balanced(s)
  {
    var actions := [Enqueue(o), WriterEnds];
    assert actions[1..] == [WriterEnds] && actions[1..][1..] == [];
    var s := Perform(Initial(capacity), Enqueue(o));
    assert s.queue == [o] && s.enqueued == [o];
    assert Run(s, [WriterEnds]) == Run(Perform(s, WriterEnds), []);
  }

  /** The premise is needed: two of the longest times in one batch are not summed. */
  lemma LongTimesAreCutOff(key: ObservationKey)
    ensures var o := Observation(key, I64_MAX);
            && Overflows([o, o])
            && Saturating([o, o]).sumMs == I64_MAX < Plain([o, o]).sumMs
  {
    var o := Observation(key, I64_MAX);
    PlainAppend([], o);
    PlainAppend([o], o);
    assert [] + [o] == [o] && [o] + [o] == [o, o];
  }

  lemma InitialInv(capacity: nat)
    ensures Inv(Initial(capacity))
  {
    NoSamples();
  }
}
