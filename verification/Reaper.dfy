/** Throttled activity recording and the sweep that stops sandboxes past a deadline.

    Instants and durations are whole seconds.
 */
module Reaper {
  import opened ByteStrings

  const I64_MAX: nat := 0x7FFF_FFFF_FFFF_FFFF
  const ACTIVITY_BUMP_THROTTLE_SECONDS: int := 60
  const REAP_CANDIDATE_BATCH_SIZE: nat := 100

  // ---- Deadlines ----

  datatype Sandbox = Sandbox(
    id: nat,
    createdAt: int,
    updatedAt: int,
    maxLifetime: Option<nat>,
    idleTtl: Option<nat>,
    lastActivity: Option<int>)

  datatype Trigger = MaxLifetime | IdleTtl

  datatype Deadline = Deadline(trigger: Trigger, at: int)

  /** A TTL as a signed 64-bit number of seconds. */
  function Seconds(ttl: nat): (n: nat) {
    if ttl <= I64_MAX then ttl else I64_MAX
  }

  function DeadlineFrom(anchor: int, ttl: nat): (d: int) {
    anchor + Seconds(ttl)
  }

  function Later(a: int, b: Option<int>): (r: int) {
    if b.Some? && b.value > a then b.value else a
  }

  /** The most recent of the recorded signals. */
  function ResolveLastActivity(updatedAt: int, lastCommand: Option<int>, lastActivity: Option<int>): (r: int)
    ensures r >= updatedAt && (lastCommand.Some? ==> r >= lastCommand.value) && (lastActivity.Some? ==> r >= lastActivity.value)
    ensures r == updatedAt || lastCommand == Some(r) || lastActivity == Some(r)
  {
    Later(Later(updatedAt, lastCommand), lastActivity)
  }

  function ExpiredDeadline(s: Sandbox, lastCommand: Option<int>, now: int): (r: Option<Deadline>) {
    if s.maxLifetime.Some? && DeadlineFrom(s.createdAt, s.maxLifetime.value) <= now
    then Some(Deadline(MaxLifetime, DeadlineFrom(s.createdAt, s.maxLifetime.value)))
    else if s.idleTtl.Some? then
      var at := DeadlineFrom(ResolveLastActivity(s.updatedAt, lastCommand, s.lastActivity), s.idleTtl.value);
      if at <= now then Some(Deadline(IdleTtl, at)) else None
    else None
  }

  /** `ttl` seconds have passed since `anchor`; a TTL of more than 63 bits counts as the longest one
      that fits. */
  predicate Elapsed(anchor: int, ttl: nat, now: int) {
    now - anchor >= ttl || now - anchor >= 0x7FFF_FFFF_FFFF_FFFF
  }

  /** A sandbox is due exactly when it has outlived its maximum or been idle by every signal. */
  lemma DueMeans(s: Sandbox, lastCommand: Option<int>, now: int)
    ensures ExpiredDeadline(s, lastCommand, now).Some? <==>
            || (s.maxLifetime.Some? && Elapsed(s.createdAt, s.maxLifetime.value, now))
            || (&& s.idleTtl.Some? && Elapsed(s.updatedAt, s.idleTtl.value, now)
                && (lastCommand.Some? ==> Elapsed(lastCommand.value, s.idleTtl.value, now))
                && (s.lastActivity.Some? ==> Elapsed(s.lastActivity.value, s.idleTtl.value, now)))
    ensures ExpiredDeadline(s, lastCommand, now).Some? ==>
              (ExpiredDeadline(s, lastCommand, now).value.trigger == MaxLifetime <==>
               s.maxLifetime.Some? && Elapsed(s.createdAt, s.maxLifetime.value, now))
  {
    var last := ResolveLastActivity(s.updatedAt, lastCommand, s.lastActivity);
    assert last == s.updatedAt || lastCommand == Some(last) || s.lastActivity == Some(last);
  }

  // ---- Recording activity ----

  function BumpRow(recorded: Option<int>, now: int): (r: Option<int>) {
    if recorded.None? || recorded.value < now - ACTIVITY_BUMP_THROTTLE_SECONDS then Some(now) else recorded
  }

  class ActivityColumn {
    var lastActivity: Option<int>

    constructor ()
      ensures lastActivity == None
    {
      lastActivity := None;
    }

    /** A write happens only when the last one is more than the throttle old; afterwards the column is
        no further behind than that. */
    method Bump(now: int)
      modifies this
      ensures lastActivity == BumpRow(old(lastActivity), now)
      ensures lastActivity.Some? && now - ACTIVITY_BUMP_THROTTLE_SECONDS <= lastActivity.value
      ensures lastActivity != old(lastActivity) && old(lastActivity).Some? ==>
                lastActivity.value > old(lastActivity).value + ACTIVITY_BUMP_THROTTLE_SECONDS
    {
      var boundary := now - ACTIVITY_BUMP_THROTTLE_SECONDS;
      if lastActivity.None? || lastActivity.value < boundary {
        lastActivity := Some(now);
      }
    }
  }

  /** An activity at `at`; the write that records it may fail. */
  datatype Touch = Touch(at: int, recorded: bool)

  function Recorded(column: Option<int>, touches: seq<Touch>): (r: Option<int>)
    decreases touches
  {
    if touches == [] then column
    else Recorded(if touches[0].recorded then BumpRow(column, touches[0].at) else column, touches[1..])
  }

  lemma {:induction false} RecordedNeverDecreases(column: Option<int>, touches: seq<Touch>)
    ensures column.Some? ==> Recorded(column, touches).Some? && Recorded(column, touches).value >= column.value
    decreases touches
  {
    if touches != [] {
      RecordedNeverDecreases(if touches[0].recorded then BumpRow(column, touches[0].at) else column, touches[1..]);
    }
  }

  /** Whatever the order of the clocks, the column ends up at most the throttle behind any recorded activity. */
  lemma {:induction false} RecordedKeepsUp(column: Option<int>, touches: seq<Touch>, i: nat)
    requires i < |touches| && touches[i].recorded
    ensures Recorded(column, touches).Some?
    ensures Recorded(column, touches).value >= touches[i].at - ACTIVITY_BUMP_THROTTLE_SECONDS
    decreases touches
  {
    var next := if touches[0].recorded then BumpRow(column, touches[0].at) else column;
    if i == 0 {
      RecordedNeverDecreases(next, touches[1..]);
    } else {
      assert touches[1..][i - 1] == touches[i];
      RecordedKeepsUp(next, touches[1..], i - 1);
    }
  }

  /** A sandbox is stopped for idleness only if every recorded activity is older than the idle time
      less the throttle, and the last command and state change are older than the idle time. */
  lemma IdleReapBound(s: Sandbox, touches: seq<Touch>, lastCommand: Option<int>, now: int, i: nat)
    requires s.idleTtl.Some? && s.lastActivity == Recorded(None, touches)
    requires ExpiredDeadline(s, lastCommand, now).Some? && ExpiredDeadline(s, lastCommand, now).value.trigger == IdleTtl
    ensures i < |touches| && touches[i].recorded ==> Elapsed(touches[i].at - 60, s.idleTtl.value, now)
    ensures Elapsed(s.updatedAt, s.idleTtl.value, now)
    ensures lastCommand.Some? ==> Elapsed(lastCommand.value, s.idleTtl.value, now)
  {
    if i < |touches| && touches[i].recorded {
      RecordedKeepsUp(None, touches, i);
    }
  }

  /** The slack of one throttle is real: activity at second 60 does not postpone the deadline of second 0. */
  lemma ThrottleSlackAttained(ttl: nat)
    ensures var touches := [Touch(0, true), Touch(60, true)];
            var s := Sandbox(1, 0, 0, None, Some(ttl), Recorded(None, touches));
            ttl <= 0x7FFF_FFFF_FFFF_FFFF ==> ExpiredDeadline(s, None, ttl) == Some(Deadline(IdleTtl, ttl))
  {
    var touches := [Touch(0, true), Touch(ACTIVITY_BUMP_THROTTLE_SECONDS, true)];
    assert touches[1..] == [Touch(ACTIVITY_BUMP_THROTTLE_SECONDS, true)] && touches[1..][1..] == [];
    assert Recorded(Some(0), touches[1..]) == Recorded(Some(0), []);
  }

  // ---- One sweep ----

  /** What the stop request did: stopped it, found it already leaving, or failed. */
  datatype StopResult = StoppedNow | AlreadyLeaving | StopFailed

  datatype Candidate = Candidate(sandbox: Sandbox, lastCommand: Option<int>)

  /** What the database did for one candidate: whether its row could be read, whether its egress
      rules could be loaded, and how the stop went. */
  datatype Attempt = Attempt(readable: bool, hydrated: bool, stop: StopResult)

  datatype CandidateOutcome = NotDue | Reaped(sandbox: Sandbox, deadline: Deadline) | Skipped | Failed

  /** `None` is the error that the caller propagates. */
  function AttemptReap(c: Candidate, now: int, a: Attempt): (r: Option<CandidateOutcome>) {
    match ExpiredDeadline(c.sandbox, c.lastCommand, now)
    case None => Some(NotDue)
    case Some(deadline) =>
      if !a.hydrated then None
      else
        match a.stop
        case StoppedNow => Some(Reaped(c.sandbox, deadline))
        case AlreadyLeaving => Some(Skipped)
        case StopFailed => Some(Failed)
  }

  predicate Due(c: Candidate, now: int) {
    ExpiredDeadline(c.sandbox, c.lastCommand, now).Some?
  }

  function Batch(candidates: seq<Candidate>): (r: seq<Candidate>) {
    if |candidates| <= REAP_CANDIDATE_BATCH_SIZE then candidates else candidates[..REAP_CANDIDATE_BATCH_SIZE]
  }

  /** At most the hundred oldest are looked at. */
  lemma BatchMeans(candidates: seq<Candidate>)
    ensures Batch(candidates) <= candidates && |Batch(candidates)| == if |candidates| < 100 then |candidates| else 100
  {
  }

  /** What becomes of one candidate, in terms of its deadline and of what the stop did. */
  lemma AttemptReapMeans(c: Candidate, now: int, a: Attempt)
    ensures AttemptReap(c, now, a) == Some(NotDue) <==> !Due(c, now)
    ensures AttemptReap(c, now, a).None? <==> Due(c, now) && !a.hydrated
    ensures AttemptReap(c, now, a) == Some(Skipped) <==> Due(c, now) && a.hydrated && a.stop == AlreadyLeaving
    ensures AttemptReap(c, now, a) == Some(Failed) <==> Due(c, now) && a.hydrated && a.stop == StopFailed
    ensures Due(c, now) && a.hydrated && a.stop == StoppedNow ==>
              AttemptReap(c, now, a) == Some(Reaped(c.sandbox, ExpiredDeadline(c.sandbox, c.lastCommand, now).value))
  {
  }

  /** This candidate ends the sweep with an error. */
  predicate Aborts(c: Candidate, now: int, a: Attempt) {
    !a.readable || (Due(c, now) && !a.hydrated)
  }

  /** `n` is the first candidate that ends the sweep, or the length of the batch. */
  ghost predicate ReachesTo(rows: seq<Candidate>, now: int, attempts: seq<Attempt>, n: nat)
    requires |attempts| == |rows|
  {
    && n <= |rows|
    && (forall i :: 0 <= i < n ==> !Aborts(rows[i], now, attempts[i]))
    && (n < |rows| ==> Aborts(rows[n], now, attempts[n]))
  }

  /** `stops` are, in order, the places before `n` at which a due sandbox was stopped. */
  ghost predicate StopsBefore(rows: seq<Candidate>, now: int, attempts: seq<Attempt>, n: nat, stops: seq<nat>)
    requires |attempts| == |rows| && n <= |rows|
  {
    && (forall k :: 0 <= k < |stops| ==> stops[k] < n)
    && (forall k, l :: 0 <= k < l < |stops| ==> stops[k] < stops[l])
    && (forall i :: 0 <= i < n ==> (i in stops <==> Due(rows[i], now) && attempts[i].stop == StoppedNow))
  }

  /** The sweep succeeds exactly when no candidate of the batch ends it. It stops exactly the due
      sandboxes before the first that does, in order, and reports them only if it succeeds. When
      every stop succeeds, those are the sandboxes `StoppedBy` speaks of.

      `stopped` is what has happened to the database. */
  method Sweep(candidates: seq<Candidate>, now: int, attempts: seq<Attempt>)
    returns (r: Option<seq<CandidateOutcome>>, stopped: seq<nat>, ghost n: nat, ghost stops: seq<nat>)
    requires |attempts| == |Batch(candidates)|
    ensures var rows := Batch(candidates);
            && ReachesTo(rows, now, attempts, n) && StopsBefore(rows, now, attempts, n, stops)
            && |stopped| == |stops|
            && (forall k :: 0 <= k < |stops| ==> stopped[k] == rows[stops[k]].sandbox.id)
            && (r.Some? <==> forall i :: 0 <= i < |rows| ==> !Aborts(rows[i], now, attempts[i]))
            && (r.Some? ==> |r.value| == |stops|)
            && (r.Some? ==> forall k :: 0 <= k < |stops| ==>
                  Some(r.value[k]) == AttemptReap(rows[stops[k]], now, attempts[stops[k]]))
    ensures r.Some? && (forall i :: 0 <= i < |attempts| ==> attempts[i].stop == StoppedNow) ==>
              (set id | id in stopped) == StoppedBy(Tick(candidates, now))
  {
    hide ExpiredDeadline;
    var rows := Batch(candidates);
    var reaped: seq<CandidateOutcome> := [];
    stopped, stops := [], [];
    for i := 0 to |rows|
      invariant forall j :: 0 <= j < i ==> !Aborts(rows[j], now, attempts[j])
      invariant StopsBefore(rows, now, attempts, i, stops)
      invariant |reaped| == |stopped| == |stops|
      invariant forall k :: 0 <= k < |stops| ==> stopped[k] == rows[stops[k]].sandbox.id
      invariant forall k :: 0 <= k < |stops| ==> Some(reaped[k]) == AttemptReap(rows[stops[k]], now, attempts[stops[k]])
    {
      if !attempts[i].readable {
        return None, stopped, i, stops;
      }
      var outcome := AttemptReap(rows[i], now, attempts[i]);
      if outcome.None? {
        return None, stopped, i, stops;
      }
      if outcome.value.Reaped? {
        reaped, stopped, stops := reaped + [outcome.value], stopped + [rows[i].sandbox.id], stops + [i];
      }
    }
    n := |rows|;
    if forall i :: 0 <= i < |attempts| ==> attempts[i].stop == StoppedNow {
      StoppedAll(candidates, now, attempts, stopped, stops);
    }
    return Some(reaped), stopped, n, stops;
  }

  lemma StoppedAll(candidates: seq<Candidate>, now: int, attempts: seq<Attempt>, stopped: seq<nat>, stops: seq<nat>)
    requires |attempts| == |Batch(candidates)| && forall i :: 0 <= i < |attempts| ==> attempts[i].stop == StoppedNow
    requires var rows := Batch(candidates);
             && StopsBefore(rows, now, attempts, |rows|, stops) && |stopped| == |stops|
             && forall k :: 0 <= k < |stops| ==> stopped[k] == rows[stops[k]].sandbox.id
    ensures (set id | id in stopped) == StoppedBy(Tick(candidates, now))
  {
    hide Due, Batch;
    var rows := Batch(candidates);
    forall id | id in stopped ensures id in StoppedBy(Tick(candidates, now)) {
      var k :| 0 <= k < |stopped| && stopped[k] == id;
      assert stops[k] in stops && rows[stops[k]] in rows;
    }
    forall id | id in StoppedBy(Tick(candidates, now)) ensures id in stopped {
      var c :| c in rows && Due(c, now) && c.sandbox.id == id;
      var i :| 0 <= i < |rows| && rows[i] == c;
      assert i in stops;
      var k :| 0 <= k < |stops| && stops[k] == i;
      assert stopped[k] == id;
    }
  }

  lemma {:induction false} FitBelow(stops: seq<nat>, n: nat)
    requires forall k :: 0 <= k < |stops| ==> stops[k] < n
    requires forall k, l :: 0 <= k < l < |stops| ==> stops[k] < stops[l]
    ensures |stops| <= n
    decreases |stops|
  {
    if stops != [] {
      FitBelow(stops[..|stops| - 1], stops[|stops| - 1]);
    }
  }

  /** Three due sandboxes: the first is stopped, the second one's egress rules cannot be loaded, and
      the sweep ends with an error that hides the first stop and never tries the third. */
  method OneFailureEndsTheSweep() returns (r: Option<seq<CandidateOutcome>>, stopped: seq<nat>)
    ensures r.None? && stopped == [1]
  {
    var due := Sandbox(1, 0, 0, Some(0), None, None);
    var rows := [Candidate(due, None), Candidate(due.(id := 2), None), Candidate(due.(id := 3), None)];
    var good := Attempt(true, true, StoppedNow);
    ghost var n, stops;
    r, stopped, n, stops := Sweep(rows, 0, [good, good.(hydrated := false), good]);
    assert Aborts(rows[1], 0, good.(hydrated := false)) && !Aborts(rows[0], 0, good);
    assert n == 1 && 0 in stops;
    FitBelow(stops, n);
  }

  // ---- Progress over many sweeps ----

  /** A sweep whose stops all succeed, seen as the candidates it found, oldest first. */
  datatype Tick = Tick(candidates: seq<Candidate>, now: int)

  ghost predicate Listed(t: Tick, id: nat) {
    exists i :: 0 <= i < |t.candidates| && t.candidates[i].sandbox.id == id
  }

  ghost predicate DistinctIds(t: Tick) {
    forall i, j :: 0 <= i < j < |t.candidates| ==> t.candidates[i].sandbox.id != t.candidates[j].sandbox.id
  }

  ghost function Position(t: Tick, id: nat): (i: nat)
    requires Listed(t, id)
    ensures i < |t.candidates| && t.candidates[i].sandbox.id == id
  {
    var i :| 0 <= i < |t.candidates| && t.candidates[i].sandbox.id == id;
    i
  }

  ghost function Ids(candidates: seq<Candidate>): (r: set<nat>) {
    set c | c in candidates :: c.sandbox.id
  }

  /** The sandboxes listed before `id`. */
  ghost function Ahead(t: Tick, id: nat): (r: set<nat>)
    requires Listed(t, id)
  {
    Ids(t.candidates[..Position(t, id)])
  }

  ghost function StoppedBy(t: Tick): (r: set<nat>) {
    set c | c in Batch(t.candidates) && Due(c, t.now) :: c.sandbox.id
  }

  ghost function NotDueAhead(t: Tick, id: nat): (r: set<nat>)
    requires Listed(t, id)
  {
    set c | c in t.candidates[..Position(t, id)] && !Due(c, t.now) :: c.sandbox.id
  }

  /** `id` is listed, due, and has at most `k` sandboxes ahead of it that are not due. */
  ghost predicate Waiting(t: Tick, id: nat, k: nat) {
    && DistinctIds(t) && Listed(t, id)
    && Due(t.candidates[Position(t, id)], t.now)
    && |NotDueAhead(t, id)| <= k
  }

  /** Nothing joins ahead of `id`, and what was stopped does not come back. */
  ghost predicate Shrinks(t: Tick, u: Tick, id: nat) {
    Listed(t, id) && Listed(u, id) && Ahead(u, id) <= Ahead(t, id) - StoppedBy(t)
  }

  /** `max(1, ceil((d + 1) / (100 - k)))`. */
  function Rounds(d: nat, k: nat): (n: nat)
    requires k < 100
    ensures n >= 1 && (n - 1) * (100 - k) < d + 1 <= n * (100 - k)
    decreases d
  {
    if d + 1 <= REAP_CANDIDATE_BATCH_SIZE - k then 1 else 1 + Rounds(d - (REAP_CANDIDATE_BATCH_SIZE - k), k)
  }

  lemma {:induction false} IdsCount(candidates: seq<Candidate>)
    requires forall i, j :: 0 <= i < j < |candidates| ==> candidates[i].sandbox.id != candidates[j].sandbox.id
    ensures |Ids(candidates)| == |candidates|
  {
    if candidates == [] {
      assert Ids(candidates) == {};
    } else {
      var init, c := candidates[..|candidates| - 1], candidates[|candidates| - 1];
      IdsCount(init);
      assert candidates == init + [c];
      assert Ids(candidates) == Ids(init) + {c.sandbox.id};
      assert c.sandbox.id !in Ids(init);
    }
  }

  /** In front of the hundredth place the sandbox is in the batch and is stopped. */
  lemma StoppedWhenInBatch(t: Tick, id: nat, k: nat)
    requires Waiting(t, id, k) && Position(t, id) < REAP_CANDIDATE_BATCH_SIZE
    ensures id in StoppedBy(t)
  {
    hide Due, NotDueAhead, DistinctIds;
    var c := t.candidates[Position(t, id)];
    assert Batch(t.candidates)[Position(t, id)] == c;
    assert c in Batch(t.candidates);
  }

  /** Behind it, the batch removes at least `100 - k` of those ahead. */
  lemma AheadShrinks(t: Tick, u: Tick, id: nat, k: nat)
    requires Waiting(t, id, k) && Shrinks(t, u, id) && k < REAP_CANDIDATE_BATCH_SIZE
    requires Position(t, id) >= REAP_CANDIDATE_BATCH_SIZE
    ensures |Ahead(u, id)| <= |Ahead(t, id)| - (REAP_CANDIDATE_BATCH_SIZE - k)
  {
    hide Due;
    var p := Position(t, id);
    var batch, ahead := t.candidates[..REAP_CANDIDATE_BATCH_SIZE], t.candidates[..p];
    assert batch == ahead[..REAP_CANDIDATE_BATCH_SIZE];
    IdsCount(batch);
    var removed := Ids(batch) - NotDueAhead(t, id);
    forall x | x in removed ensures x in StoppedBy(t) && x in Ahead(t, id) {
      var c :| c in batch && c.sandbox.id == x;
      assert c in ahead;
    }
    SetSizes(Ids(batch), NotDueAhead(t, id));
    SubsetSize(Ahead(u, id), Ahead(t, id) - removed);
    SubsetSize(removed, Ahead(t, id));
  }

  lemma SetSizes(a: set<nat>, b: set<nat>)
    ensures |a - b| >= |a| - |b|
  {
    assert a == (a - b) + (a * b);
    SubsetSize(a * b, b);
  }

  lemma {:induction false} SubsetSize(a: set<nat>, b: set<nat>)
    requires a <= b
    ensures |a| <= |b| && |b - a| == |b| - |a|
    decreases a
  {
    if a == {} {
      assert b - a == b;
    } else {
      var x :| x in a;
      SubsetSize(a - {x}, b - {x});
      assert b - a == (b - {x}) - (a - {x});
    }
  }

  ghost predicate NotStoppedBefore(ticks: seq<Tick>, id: nat, i: nat)
    requires i <= |ticks|
  {
    forall j :: 0 <= j < i ==> id !in StoppedBy(ticks[j])
  }

  /** Until it is stopped, `id` keeps waiting and those ahead of it only become fewer. */
  ghost predicate KeepsWaiting(ticks: seq<Tick>, id: nat, k: nat) {
    && (forall i :: 0 <= i < |ticks| && NotStoppedBefore(ticks, id, i) ==> Waiting(ticks[i], id, k))
    && (forall i :: 0 < i < |ticks| && NotStoppedBefore(ticks, id, i) ==> Shrinks(ticks[i - 1], ticks[i], id))
  }

  lemma KeepsWaitingLater(ticks: seq<Tick>, id: nat, k: nat)
    requires |ticks| > 0 && KeepsWaiting(ticks, id, k) && id !in StoppedBy(ticks[0])
    ensures KeepsWaiting(ticks[1..], id, k)
  {
    hide Waiting, Shrinks, StoppedBy;
    var rest := ticks[1..];
    forall i | 0 <= i < |rest| && NotStoppedBefore(rest, id, i)
      ensures Waiting(rest[i], id, k) && (i > 0 ==> Shrinks(rest[i - 1], rest[i], id))
    {
      assert NotStoppedBefore(ticks, id, i + 1) by {
        forall j | 0 <= j < i + 1 ensures id !in StoppedBy(ticks[j]) {
          assert j > 0 ==> ticks[j] == rest[j - 1];
        }
      }
      assert rest[i] == ticks[i + 1] && (i > 0 ==> rest[i - 1] == ticks[i]);
    }
  }

  lemma {:induction false} ProgressByAhead(ticks: seq<Tick>, id: nat, d: nat, k: nat) returns (when: nat)
    requires k < REAP_CANDIDATE_BATCH_SIZE && |ticks| >= Rounds(d, k) && KeepsWaiting(ticks, id, k)
    requires Listed(ticks[0], id) && |Ahead(ticks[0], id)| <= d + k
    ensures when < Rounds(d, k) && id in StoppedBy(ticks[when])
    decreases d
  {
    hide Due, StoppedBy;
    var t := ticks[0];
    assert NotStoppedBefore(ticks, id, 0);
    AheadCount(t, id, k);
    if Position(t, id) < REAP_CANDIDATE_BATCH_SIZE {
      StoppedWhenInBatch(t, id, k);
      return 0;
    }
    if id in StoppedBy(t) {
      return 0;
    }
    assert NotStoppedBefore(ticks, id, 1);
    AheadShrinks(t, ticks[1], id, k);
    KeepsWaitingLater(ticks, id, k);
    var later := ProgressByAhead(ticks[1..], id, d - (REAP_CANDIDATE_BATCH_SIZE - k), k);
    return later + 1;
  }

  ghost function DueAhead(t: Tick, id: nat): (r: set<nat>)
    requires Listed(t, id)
  {
    set c | c in t.candidates[..Position(t, id)] && Due(c, t.now) :: c.sandbox.id
  }

  /** If at most `k` of the sandboxes ahead are ever not due, a sandbox with `d` due ones ahead is
      stopped by one of the next `ceil((d + 1) / (100 - k))` sweeps. */
  lemma ReapProgress(ticks: seq<Tick>, id: nat, k: nat) returns (when: nat)
    requires k < 100 && |ticks| > 0 && KeepsWaiting(ticks, id, k)
    requires Listed(ticks[0], id) && |ticks| >= Rounds(|DueAhead(ticks[0], id)|, k)
    ensures when < Rounds(|DueAhead(ticks[0], id)|, k) && id in StoppedBy(ticks[when])
  {
    hide Due, StoppedBy;
    var t := ticks[0];
    assert NotStoppedBefore(ticks, id, 0);
    assert Ahead(t, id) == DueAhead(t, id) + NotDueAhead(t, id);
    UnionSize(DueAhead(t, id), NotDueAhead(t, id));
    when := ProgressByAhead(ticks, id, |DueAhead(t, id)|, k);
  }

  lemma UnionSize(a: set<nat>, b: set<nat>)
    ensures |a + b| <= |a| + |b|
  {
    assert a + b == a + (b - a);
    SubsetSize(b - a, b);
  }

  lemma AheadCount(t: Tick, id: nat, k: nat)
    requires Waiting(t, id, k)
    ensures |Ahead(t, id)| == Position(t, id)
  {
    hide Due;
    IdsCount(t.candidates[..Position(t, id)]);
  }
}
