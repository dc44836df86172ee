/** Fixed-window request and mutation limits per tenant, and the sweeper of expired counters.

    Instants and windows are counted in ticks of the clock, which is finer than a second.
 */
module TenantLimits {
  import opened ByteStrings

  datatype Kind = RequestKind | MutationKind

  datatype Slot = Slot(tenant: bytes, kind: Kind)

  datatype Counter = Counter(used: nat, started: int, expires: int)

  /** `put_tenant_limit_policy` refuses a zero in any of the three. */
  datatype Policy = Policy(requestLimit: nat, mutationLimit: nat, windowSeconds: nat)

  /** The clock counts nanoseconds. */
  const TICKS_PER_SECOND: nat := 1_000_000_000

  function Window(seconds: nat): (ticks: nat) {
    seconds * TICKS_PER_SECOND
  }

  /** The upsert of `consume` on one row: the row afterwards and whether the call was admitted. */
  function ConsumeRow(row: Option<Counter>, limit: nat, window: nat, now: int): (r: (Counter, bool)) {
    match row
    case None => (Counter(1, now, now + window), true)
    case Some(c) =>
      if c.expires <= now then (Counter(1, now, now + window), true)
      else if c.used < limit then (c.(used := c.used + 1), true)
      else (c, false)
  }

  function Lookup(rows: map<Slot, Counter>, slot: Slot): (r: Option<Counter>) {
    if slot in rows then Some(rows[slot]) else None
  }

  datatype Verdict = Allowed | RequestLimited | MutationLimited

  class Counters {
    var rows: map<Slot, Counter>

    constructor ()
      ensures rows == map[]
    {
      rows := map[];
    }

    /** A refused call changes nothing; an admitted one changes its own row only. */
    method Consume(slot: Slot, limit: nat, window: nat, now: int) returns (admitted: bool)
      modifies this
      ensures admitted == ConsumeRow(old(Lookup(rows, slot)), limit, window, now).1
      ensures rows == if admitted then old(rows)[slot := ConsumeRow(old(Lookup(rows, slot)), limit, window, now).0]
                      else old(rows)
    {
      if slot !in rows || rows[slot].expires <= now {
        rows := rows[slot := Counter(1, now, now + window)];
        return true;
      }
      if rows[slot].used < limit {
        rows := rows[slot := rows[slot].(used := rows[slot].used + 1)];
        return true;
      }
      return false;
    }

    /** `enforce_tenant_limits`: every call counts as a request, a mutating one then also as a mutation. */
    method Enforce(tenant: bytes, policy: Option<Policy>, mutating: bool, now: int) returns (v: Verdict)
      modifies this
      ensures policy.None? ==> v == Allowed && rows == old(rows)
      ensures policy.Some? ==>
                var request := ConsumeRow(old(Lookup(rows, Slot(tenant, RequestKind))), policy.value.requestLimit, Window(policy.value.windowSeconds), now);
                var mutation := ConsumeRow(old(Lookup(rows, Slot(tenant, MutationKind))), policy.value.mutationLimit, Window(policy.value.windowSeconds), now);
                && v == (if !request.1 then RequestLimited else if mutating && !mutation.1 then MutationLimited else Allowed)
                && Lookup(rows, Slot(tenant, RequestKind)) == (if request.1 then Some(request.0) else old(Lookup(rows, Slot(tenant, RequestKind))))
                && Lookup(rows, Slot(tenant, MutationKind)) == (if v == Allowed && mutating then Some(mutation.0) else old(Lookup(rows, Slot(tenant, MutationKind))))
      ensures forall slot: Slot :: slot.tenant != tenant ==> Lookup(rows, slot) == old(Lookup(rows, slot))
    {
      if policy.None? {
        return Allowed;
      }
      var p := policy.value;
      var request := Consume(Slot(tenant, RequestKind), p.requestLimit, Window(p.windowSeconds), now);
      if !request {
        return RequestLimited;
      }
      if mutating {
        var mutation := Consume(Slot(tenant, MutationKind), p.mutationLimit, Window(p.windowSeconds), now);
        if !mutation {
          return MutationLimited;
        }
      }
      return Allowed;
    }

    /** `expire_tenant_limit_counters`: some of the expired rows, at most a batch, are deleted. */
    method Expire(now: int, batch: set<Slot>)
      modifies this
      ensures forall slot :: Lookup(rows, slot) ==
                             if slot in batch && slot in old(rows) && old(rows)[slot].expires <= now then None
                             else old(Lookup(rows, slot))
      ensures forall slot :: slot in batch ==>
                Lookup(rows, slot) == Step(Run(old(Lookup(rows, slot)), []), SweepAt(now), 1, 1).row
    {
      rows := rows - set slot | slot in batch && slot in rows && rows[slot].expires <= now;
    }
  }

  // ---- Runs of one counter ----

  datatype Event = Call(at: int) | SweepAt(at: int)

  /** An admitted call and the start of the window it was counted in. */
  datatype Admission = Admission(at: int, window: int)

  datatype Run = Run(row: Option<Counter>, admitted: seq<Admission>)

  function Step(r: Run, e: Event, limit: nat, window: nat): (t: Run) {
    match e
    case SweepAt(at) => if r.row.Some? && r.row.value.expires <= at then r.(row := None) else r
    case Call(at) =>
      var (counter, admitted) := ConsumeRow(r.row, limit, window, at);
      if admitted then Run(Some(counter), r.admitted + [Admission(at, counter.started)]) else r
  }

  function Replay(r: Run, events: seq<Event>, limit: nat, window: nat): (t: Run)
    decreases events
  {
    if events == [] then r else Replay(Step(r, events[0], limit, window), events[1..], limit, window)
  }

  ghost predicate Chronological(events: seq<Event>, from: int) {
    events != [] ==> from <= events[0].at && Chronological(events[1..], events[0].at)
  }

  function LastTime(events: seq<Event>, from: int): (t: int)
    decreases events
  {
    if events == [] then from else LastTime(events[1..], events[0].at)
  }

  // ---- Counting admissions ----

  function CountWindow(admitted: seq<Admission>, window: int): (n: nat) {
    if admitted == [] then 0
    else CountWindow(admitted[..|admitted| - 1], window) + if admitted[|admitted| - 1].window == window then 1 else 0
  }

  /** Admissions at times from `lo` up to but not including `hi`. */
  function CountBetween(admitted: seq<Admission>, lo: int, hi: int): (n: nat) {
    if admitted == [] then 0
    else CountBetween(admitted[..|admitted| - 1], lo, hi) + if lo <= admitted[|admitted| - 1].at < hi then 1 else 0
  }

  lemma CountAppend(admitted: seq<Admission>, a: Admission, window: int)
    ensures CountWindow(admitted + [a], window) == CountWindow(admitted, window) + if a.window == window then 1 else 0
  {
    assert (admitted + [a])[..|admitted|] == admitted;
  }

  lemma {:induction false} CountNone(admitted: seq<Admission>, window: int)
    requires forall i :: 0 <= i < |admitted| ==> admitted[i].window != window
    ensures CountWindow(admitted, window) == 0
  {
    if admitted != [] {
      CountNone(admitted[..|admitted| - 1], window);
    }
  }

  // ---- The invariant of a run ----

  /** Every admission lies in its window, and different windows do not overlap. */
  ghost predicate Tidy(admitted: seq<Admission>, window: nat) {
    && (forall i :: 0 <= i < |admitted| ==> admitted[i].window <= admitted[i].at < admitted[i].window + window)
    && (forall i, j :: 0 <= i < j < |admitted| ==>
          admitted[i].window == admitted[j].window || admitted[i].window + window <= admitted[j].window)
  }

  /** A window starts with the admission that opened it. */
  ghost predicate Opened(admitted: seq<Admission>) {
    forall i :: 0 <= i < |admitted| ==> Admission(admitted[i].window, admitted[i].window) in admitted
  }

  ghost predicate AllExpired(admitted: seq<Admission>, window: nat, now: int) {
    forall i :: 0 <= i < |admitted| ==> admitted[i].window + window <= now
  }

  ghost predicate CurrentWindow(r: Run, c: Counter, window: nat) {
    && c.expires == c.started + window && CountWindow(r.admitted, c.started) == c.used
    && Admission(c.started, c.started) in r.admitted
    && forall i :: 0 <= i < |r.admitted| ==>
         r.admitted[i].window == c.started || r.admitted[i].window + window <= c.started
  }

  ghost predicate Inv(r: Run, limit: nat, window: nat, now: int) {
    && Tidy(r.admitted, window) && Opened(r.admitted)
    && (forall w :: CountWindow(r.admitted, w) <= limit)
    && match r.row
       case None => AllExpired(r.admitted, window, now)
       case Some(c) => CurrentWindow(r, c, window) && c.started <= now
  }

  lemma TidyAppend(admitted: seq<Admission>, a: Admission, window: nat)
    requires Tidy(admitted, window) && a.window <= a.at < a.window + window
    requires forall i :: 0 <= i < |admitted| ==> admitted[i].window == a.window || admitted[i].window + window <= a.window
    ensures Tidy(admitted + [a], window)
  {
  }

  lemma NewWindowKeeps(r: Run, limit: nat, window: nat, at: int)
    requires Tidy(r.admitted, window) && Opened(r.admitted) && limit >= 1 && window >= 1
    requires forall w :: CountWindow(r.admitted, w) <= limit
    requires AllExpired(r.admitted, window, at)
    ensures Inv(Run(Some(Counter(1, at, at + window)), r.admitted + [Admission(at, at)]), limit, window, at)
  {
    hide CountWindow, Tidy, Opened;
    var a := Admission(at, at);
    forall w {
      CountAppend(r.admitted, a, w);
    }
    CountNone(r.admitted, at);
    OpenedAppend(r.admitted, a);
    TidyAppend(r.admitted, a, window);
  }

  lemma OpenedAppend(admitted: seq<Admission>, a: Admission)
    requires Opened(admitted) && (a.at == a.window || Admission(a.window, a.window) in admitted)
    ensures Opened(admitted + [a])
  {
    var more := admitted + [a];
    forall i | 0 <= i < |more| ensures Admission(more[i].window, more[i].window) in more {
      if i < |admitted| {
        assert Admission(admitted[i].window, admitted[i].window) in admitted;
      } else {
        assert a in more;
      }
    }
  }

  lemma SameWindowKeeps(r: Run, limit: nat, window: nat, at: int)
    requires Inv(r, limit, window, at) && r.row.Some? && r.row.value.expires > at && r.row.value.used < limit
    ensures var c := r.row.value;
            Inv(Run(Some(c.(used := c.used + 1)), r.admitted + [Admission(at, c.started)]), limit, window, at)
  {
    hide CountWindow, Tidy, Opened;
    var c := r.row.value;
    forall w {
      CountAppend(r.admitted, Admission(at, c.started), w);
    }
    OpenedAppend(r.admitted, Admission(at, c.started));
    TidyAppend(r.admitted, Admission(at, c.started), window);
  }

  lemma StepKeeps(r: Run, e: Event, limit: nat, window: nat, now: int)
    requires Inv(r, limit, window, now) && now <= e.at && limit >= 1 && window >= 1
    ensures Inv(Step(r, e, limit, window), limit, window, e.at)
  {
    assert Inv(r, limit, window, e.at);
    if e.Call? {
      if r.row.None? || r.row.value.expires <= e.at {
        NewWindowKeeps(r, limit, window, e.at);
      } else if r.row.value.used < limit {
        SameWindowKeeps(r, limit, window, e.at);
      }
    }
  }

  lemma {:induction false} ReplayKeeps(r: Run, events: seq<Event>, limit: nat, window: nat, now: int)
    requires Inv(r, limit, window, now) && Chronological(events, now) && limit >= 1 && window >= 1
    ensures Inv(Replay(r, events, limit, window), limit, window, LastTime(events, now))
    decreases events
  {
    hide Inv, Step;
    if events != [] {
      StepKeeps(r, events[0], limit, window, now);
      ReplayKeeps(Step(r, events[0], limit, window), events[1..], limit, window, events[0].at);
    }
  }

  const FRESH: Run := Run(None, [])

  /** Under a fixed acceptable policy no window admits more than the limit. */
  lemma WindowBound(events: seq<Event>, limit: nat, window: nat, now: int, w: int)
    requires Chronological(events, now) && limit >= 1 && window >= 1
    ensures CountWindow(Replay(FRESH, events, limit, window).admitted, w) <= limit
  {
    assert Inv(FRESH, limit, window, now);
    ReplayKeeps(FRESH, events, limit, window, now);
  }

  // ---- Any interval of one window length ----

  lemma {:induction false} TwoWindows(admitted: seq<Admission>, lo: int, hi: int, x: int, y: int)
    requires forall i :: 0 <= i < |admitted| && lo <= admitted[i].at < hi ==> admitted[i].window == x || admitted[i].window == y
    ensures CountBetween(admitted, lo, hi) <= CountWindow(admitted, x) + CountWindow(admitted, y)
  {
    if admitted != [] {
      TwoWindows(admitted[..|admitted| - 1], lo, hi, x, y);
    }
  }

  /** One admission of window `x` outside the interval leaves one fewer to count. */
  lemma {:induction false} TwoWindowsLessOne(admitted: seq<Admission>, lo: int, hi: int, x: int, y: int, out: Admission)
    requires forall i :: 0 <= i < |admitted| && lo <= admitted[i].at < hi ==> admitted[i].window == x || admitted[i].window == y
    requires out in admitted && out.window == x && !(lo <= out.at < hi)
    ensures CountBetween(admitted, lo, hi) < CountWindow(admitted, x) + CountWindow(admitted, y)
  {
    var init, last := admitted[..|admitted| - 1], admitted[|admitted| - 1];
    if last == out {
      TwoWindows(init, lo, hi, x, y);
    } else {
      assert out in init;
      TwoWindowsLessOne(init, lo, hi, x, y, out);
    }
  }

  lemma Apart(admitted: seq<Admission>, window: nat, i: nat, j: nat)
    requires Tidy(admitted, window) && i < |admitted| && j < |admitted|
    ensures || admitted[i].window == admitted[j].window
            || admitted[i].window + window <= admitted[j].window
            || admitted[j].window + window <= admitted[i].window
  {
  }

  ghost predicate Within(a: Admission, lo: int, window: nat) {
    lo <= a.at < lo + window
  }

  /** Admissions in an interval one window long were counted in at most two windows. */
  lemma NoThirdWindow(admitted: seq<Admission>, window: nat, lo: int, i: nat, j: nat, k: nat)
    requires Tidy(admitted, window) && i < |admitted| && j < |admitted| && k < |admitted|
    requires Within(admitted[i], lo, window) && Within(admitted[j], lo, window) && Within(admitted[k], lo, window)
    requires admitted[i].window < admitted[j].window
    ensures admitted[k].window == admitted[i].window || admitted[k].window == admitted[j].window
  {
    Apart(admitted, window, i, j);
    Apart(admitted, window, j, k);
    Apart(admitted, window, i, k);
  }

  /** Two windows meet in the interval: the call that opened the earlier one came before it. */
  lemma TwoWindowsMeet(admitted: seq<Admission>, window: nat, limit: nat, lo: int, i: nat, j: nat)
    requires Tidy(admitted, window) && Opened(admitted) && i < |admitted| && j < |admitted|
    requires Within(admitted[i], lo, window) && Within(admitted[j], lo, window)
    requires admitted[i].window < admitted[j].window
    requires forall w :: CountWindow(admitted, w) <= limit
    ensures CountBetween(admitted, lo, lo + window) <= 2 * limit - 1
  {
    hide CountWindow, CountBetween;
    var x, y := admitted[i].window, admitted[j].window;
    Apart(admitted, window, i, j);
    assert Admission(x, x) in admitted;
    forall k: nat | k < |admitted| && lo <= admitted[k].at < lo + window
      ensures admitted[k].window == x || admitted[k].window == y
    {
      NoThirdWindow(admitted, window, lo, i, j, k);
    }
    TwoWindowsLessOne(admitted, lo, lo + window, x, y, Admission(x, x));
  }

  lemma OneWindow(admitted: seq<Admission>, window: nat, limit: nat, lo: int, x: int)
    requires forall k :: 0 <= k < |admitted| && Within(admitted[k], lo, window) ==> admitted[k].window == x
    requires forall w :: CountWindow(admitted, w) <= limit
    ensures CountBetween(admitted, lo, lo + window) <= limit
  {
    BetweenInWindow(admitted, lo, lo + window, x);
  }

  lemma {:induction false} BetweenInWindow(admitted: seq<Admission>, lo: int, hi: int, x: int)
    requires forall k :: 0 <= k < |admitted| && lo <= admitted[k].at < hi ==> admitted[k].window == x
    ensures CountBetween(admitted, lo, hi) <= CountWindow(admitted, x)
  {
    if admitted != [] {
      BetweenInWindow(admitted[..|admitted| - 1], lo, hi, x);
    }
  }

  lemma TidyIntervalBound(admitted: seq<Admission>, window: nat, limit: nat, lo: int)
    requires Tidy(admitted, window) && Opened(admitted) && limit >= 1
    requires forall w :: CountWindow(admitted, w) <= limit
    ensures CountBetween(admitted, lo, lo + window) <= 2 * limit - 1
  {
    if i: nat, j: nat :| i < |admitted| && j < |admitted| && Within(admitted[i], lo, window)
                         && Within(admitted[j], lo, window) && admitted[i].window < admitted[j].window {
      TwoWindowsMeet(admitted, window, limit, lo, i, j);
    } else if f: nat :| f < |admitted| && Within(admitted[f], lo, window) {
      OneWindow(admitted, window, limit, lo, admitted[f].window);
    } else {
      OneWindow(admitted, window, limit, lo, 0);
    }
  }

  /** Any interval one window long admits fewer calls than twice the limit. */
  lemma IntervalBound(events: seq<Event>, limit: nat, window: nat, now: int, lo: int)
    requires Chronological(events, now) && limit >= 1 && window >= 1
    ensures CountBetween(Replay(FRESH, events, limit, window).admitted, lo, lo + window) <= 2 * limit - 1
  {
    assert Inv(FRESH, limit, window, now);
    ReplayKeeps(FRESH, events, limit, window, now);
    TidyIntervalBound(Replay(FRESH, events, limit, window).admitted, window, limit, lo);
  }

  /** A call is refused only inside a window that has already admitted the limit. */
  lemma RefusedOnlyWhenFull(events: seq<Event>, limit: nat, window: nat, now: int, at: int)
    requires Chronological(events, now) && LastTime(events, now) <= at && limit >= 1 && window >= 1
    ensures var r := Replay(FRESH, events, limit, window);
            !ConsumeRow(r.row, limit, window, at).1 ==>
              && r.row.value.started <= at < r.row.value.started + window
              && CountWindow(r.admitted, r.row.value.started) == limit
  {
    assert Inv(FRESH, limit, window, now);
    ReplayKeeps(FRESH, events, limit, window, now);
  }

  // ---- The interval bound is attained ----

  function Calls(n: nat, at: int): (r: seq<Event>)
    ensures |r| == n
  {
    if n == 0 then [] else [Call(at)] + Calls(n - 1, at)
  }

  function Copies(n: nat, a: Admission): (r: seq<Admission>) {
    if n == 0 then [] else Copies(n - 1, a) + [a]
  }

  lemma {:induction false} ReplayAppend(r: Run, a: seq<Event>, b: seq<Event>, limit: nat, window: nat)
    ensures Replay(r, a + b, limit, window) == Replay(Replay(r, a, limit, window), b, limit, window)
    decreases a
  {
    hide Step;
    if a == [] {
      assert a + b == b;
    } else {
      assert (a + b)[1..] == a[1..] + b;
      ReplayAppend(Step(r, a[0], limit, window), a[1..], b, limit, window);
    }
  }

  /** Calls that find room in the current window are all admitted to it. */
  lemma {:induction false} RoomForAll(r: Run, n: nat, at: int, limit: nat, window: nat)
    requires r.row.Some? && at < r.row.value.expires && r.row.value.used + n <= limit
    ensures var c := r.row.value;
            Replay(r, Calls(n, at), limit, window) ==
            Run(Some(c.(used := c.used + n)), r.admitted + Copies(n, Admission(at, c.started)))
    decreases n
  {
    var c := r.row.value;
    var a := Admission(at, c.started);
    if n > 0 {
      var t := Step(r, Call(at), limit, window);
      assert Calls(n, at)[1..] == Calls(n - 1, at);
      RoomForAll(t, n - 1, at, limit, window);
      CopiesFirst(n, a);
      assert t.admitted + Copies(n - 1, a) == r.admitted + Copies(n, a);
    }
  }

  lemma {:induction false} CopiesFirst(n: nat, a: Admission)
    requires n > 0
    ensures Copies(n, a) == [a] + Copies(n - 1, a)
  {
    if n > 1 {
      CopiesFirst(n - 1, a);
    }
  }

  lemma {:induction false} BetweenAppendCopies(admitted: seq<Admission>, n: nat, a: Admission, lo: int, hi: int)
    requires lo <= a.at < hi
    ensures CountBetween(admitted + Copies(n, a), lo, hi) == CountBetween(admitted, lo, hi) + n
  {
    if n == 0 {
      assert admitted + Copies(n, a) == admitted;
    } else {
      BetweenAppendCopies(admitted, n - 1, a, lo, hi);
      assert (admitted + Copies(n, a))[..|admitted| + |Copies(n - 1, a)|] == admitted + Copies(n - 1, a);
    }
  }

  /** Late in one window and at once in the next: for no accepted policy can the bound be lowered. */
  lemma IntervalBoundAttained(limit: nat, seconds: nat)
    requires limit >= 1 && seconds >= 1
    ensures var window := Window(seconds);
            var events := [Call(0)] + Calls(limit - 1, window - 1) + ([Call(window)] + Calls(limit - 1, window));
            && Chronological(events, 0)
            && CountBetween(Replay(FRESH, events, limit, window).admitted, 1, 1 + window) == 2 * limit - 1
  {
    hide CountBetween, Copies;
    var window := Window(seconds);
    InOrder(limit - 1, window);
    var early, late := [Call(0)] + Calls(limit - 1, window - 1), [Call(window)] + Calls(limit - 1, window);
    ReplayAppend(FRESH, early, late, limit, window);
    OpenAndFill(FRESH, 0, limit - 1, window - 1, limit, window);
    var first := [Admission(0, 0)];
    var r2 := Replay(FRESH, early, limit, window);
    assert FRESH.admitted + [Admission(0, 0)] == first;
    OpenAndFill(r2, window, limit - 1, window, limit, window);
    BetweenSingle(Admission(0, 0), 1, 1 + window);
    BetweenAppendCopies(first, limit - 1, Admission(window - 1, 0), 1, 1 + window);
    BetweenAppend(r2.admitted, Admission(window, window), 1, 1 + window);
    BetweenAppendCopies(r2.admitted + [Admission(window, window)], limit - 1, Admission(window, window), 1, 1 + window);
  }

  lemma InOrder(n: nat, window: nat)
    requires window >= 1
    ensures Chronological([Call(0)] + Calls(n, window - 1) + ([Call(window)] + Calls(n, window)), 0)
  {
    hide Chronological, Calls;
    SameTime(n, window);
    CalledFirst(window, Calls(n, window), window - 1);
    var late := [Call(window)] + Calls(n, window);
    ThenLater(n, window - 1, late);
    Sooner(Calls(n, window - 1) + late, window - 1, 0);
    CalledFirst(0, Calls(n, window - 1) + late, 0);
    assert [Call(0)] + Calls(n, window - 1) + late == [Call(0)] + (Calls(n, window - 1) + late);
  }

  lemma CalledFirst(at: int, events: seq<Event>, now: int)
    requires now <= at && Chronological(events, at)
    ensures Chronological([Call(at)] + events, now)
  {
    assert ([Call(at)] + events)[1..] == events;
  }

  lemma {:induction false} SameTime(n: nat, at: int)
    ensures Chronological(Calls(n, at), at)
    decreases n
  {
    if n > 0 {
      assert Calls(n, at)[1..] == Calls(n - 1, at);
      SameTime(n - 1, at);
    }
  }

  lemma {:induction false} ThenLater(n: nat, at: int, later: seq<Event>)
    requires Chronological(later, at)
    ensures Chronological(Calls(n, at) + later, at)
    decreases n
  {
    if n == 0 {
      assert Calls(n, at) + later == later;
    } else {
      assert (Calls(n, at) + later)[1..] == Calls(n - 1, at) + later;
      ThenLater(n - 1, at, later);
    }
  }

  lemma Sooner(events: seq<Event>, now: int, before: int)
    requires Chronological(events, now) && before <= now
    ensures Chronological(events, before)
  {
  }

  /** A call that opens a window at `start`, followed by `n` more at `at` inside it. */
  lemma OpenAndFill(r: Run, start: int, n: nat, at: int, limit: nat, window: nat)
    requires (r.row.None? || r.row.value.expires <= start) && start <= at < start + window && n + 1 <= limit
    ensures Replay(r, [Call(start)] + Calls(n, at), limit, window) ==
            Run(Some(Counter(n + 1, start, start + window)),
                r.admitted + [Admission(start, start)] + Copies(n, Admission(at, start)))
  {
    hide Copies;
    var events := [Call(start)] + Calls(n, at);
    assert events[1..] == Calls(n, at);
    RoomForAll(Step(r, Call(start), limit, window), n, at, limit, window);
  }

  lemma BetweenAppend(admitted: seq<Admission>, a: Admission, lo: int, hi: int)
    ensures CountBetween(admitted + [a], lo, hi) == CountBetween(admitted, lo, hi) + if lo <= a.at < hi then 1 else 0
  {
    assert (admitted + [a])[..|admitted|] == admitted;
  }

  lemma BetweenSingle(a: Admission, lo: int, hi: int)
    ensures CountBetween([a], lo, hi) == if lo <= a.at < hi then 1 else 0
  {
    BetweenAppend([], a, lo, hi);
    assert [] + [a] == [a];
  }

  // ---- The sweeper ----

  function Decisions(row: Option<Counter>, events: seq<Event>, limit: nat, window: nat): (r: seq<bool>)
    decreases events
  {
    if events == [] then []
    else
      match events[0]
      case SweepAt(at) =>
        Decisions(if row.Some? && row.value.expires <= at then None else row, events[1..], limit, window)
      case Call(at) =>
        var (counter, admitted) := ConsumeRow(row, limit, window, at);
        [admitted] + Decisions(Some(counter), events[1..], limit, window)
  }

  function CallsOnly(events: seq<Event>): (r: seq<Event>) {
    if events == [] then []
    else if events[0].Call? then [events[0]] + CallsOnly(events[1..])
    else CallsOnly(events[1..])
  }

  /** Deleting an expired counter never changes what a later call is told. */
  lemma {:induction false} SweepingChangesNothing(swept: Option<Counter>, kept: Option<Counter>, events: seq<Event>,
                                                  limit: nat, window: nat, now: int)
    requires Chronological(events, now)
    requires swept == kept || (swept.None? && kept.Some? && kept.value.expires <= now)
    ensures Decisions(swept, events, limit, window) == Decisions(kept, CallsOnly(events), limit, window)
    decreases events
  {
    if events != [] {
      var at, rest := events[0].at, events[1..];
      match events[0]
      case SweepAt(_) =>
        SweepingChangesNothing(if swept.Some? && swept.value.expires <= at then None else swept, kept, rest, limit, window, at);
      case Call(_) =>
        var next := Some(ConsumeRow(swept, limit, window, at).0);
        SweepingChangesNothing(next, next, rest, limit, window, at);
        assert CallsOnly(events)[1..] == CallsOnly(rest);
    }
  }

  // ---- Whole runs of a tenant's calls ----

  datatype Arrival = Arrival(at: int, mutating: bool)

  /** How many of the calls in `[lo, hi)` were let past the request limit. */
  function Passed(arrivals: seq<Arrival>, verdicts: seq<Verdict>, lo: int, hi: int): (n: nat)
    requires |arrivals| == |verdicts|
  {
    if arrivals == [] then 0
    else
      var last := |arrivals| - 1;
      Passed(arrivals[..last], verdicts[..last], lo, hi)
      + if lo <= arrivals[last].at < hi && verdicts[last] != RequestLimited then 1 else 0
  }

  /** How many of the mutating calls in `[lo, hi)` were allowed. */
  function Mutated(arrivals: seq<Arrival>, verdicts: seq<Verdict>, lo: int, hi: int): (n: nat)
    requires |arrivals| == |verdicts|
  {
    if arrivals == [] then 0
    else
      var last := |arrivals| - 1;
      Mutated(arrivals[..last], verdicts[..last], lo, hi)
      + if lo <= arrivals[last].at < hi && arrivals[last].mutating && verdicts[last] == Allowed then 1 else 0
  }

  /** `r` is the history behind the counter `row` at `now`. */
  ghost predicate Tracks(r: Run, limit: nat, window: nat, now: int, row: Option<Counter>) {
    && limit >= 1 && window >= 1
    && Inv(r, limit, window, now) && r.row == row
    && forall k :: 0 <= k < |r.admitted| ==> r.admitted[k].at <= now
  }

  lemma {:induction false} WindowWithin(admitted: seq<Admission>, w: int, lo: int, hi: int)
    requires forall k :: 0 <= k < |admitted| && admitted[k].window == w ==> lo <= admitted[k].at < hi
    ensures CountWindow(admitted, w) <= CountBetween(admitted, lo, hi)
  {
    if admitted != [] {
      WindowWithin(admitted[..|admitted| - 1], w, lo, hi);
    }
  }

  lemma TrackStep(r: Run, limit: nat, window: nat, now: int, at: int)
    requires Tracks(r, limit, window, now, r.row) && now <= at
    ensures var t := Step(r, Call(at), limit, window);
            Tracks(t, limit, window, at, t.row) && Tracks(r, limit, window, at, r.row)
    ensures var t := Step(r, Call(at), limit, window);
            forall lo, hi :: CountBetween(t.admitted, lo, hi) == CountBetween(r.admitted, lo, hi) +
                             if ConsumeRow(r.row, limit, window, at).1 && lo <= at < hi then 1 else 0
    ensures !ConsumeRow(r.row, limit, window, at).1 ==> CountBetween(r.admitted, at - window + 1, at + 1) >= limit
  {
    hide CountBetween, CountWindow;
    var t := Step(r, Call(at), limit, window);
    StepKeeps(r, Call(at), limit, window, now);
    forall lo, hi ensures CountBetween(t.admitted, lo, hi) == CountBetween(r.admitted, lo, hi) +
                          if ConsumeRow(r.row, limit, window, at).1 && lo <= at < hi then 1 else 0
    {
      if t.admitted != r.admitted {
        BetweenAppend(r.admitted, t.admitted[|r.admitted|], lo, hi);
      }
    }
    if !ConsumeRow(r.row, limit, window, at).1 {
      WindowWithin(r.admitted, r.row.value.started, at - window + 1, at + 1);
    }
  }

  lemma CountsAppend(arrivals: seq<Arrival>, verdicts: seq<Verdict>, i: nat, v: Verdict, lo: int, hi: int)
    requires i < |arrivals| && |verdicts| == i
    ensures var a := arrivals[i];
            && Passed(arrivals[..i + 1], verdicts + [v], lo, hi) ==
               Passed(arrivals[..i], verdicts, lo, hi) + (if lo <= a.at < hi && v != RequestLimited then 1 else 0)
            && Mutated(arrivals[..i + 1], verdicts + [v], lo, hi) ==
               Mutated(arrivals[..i], verdicts, lo, hi) + (if lo <= a.at < hi && a.mutating && v == Allowed then 1 else 0)
  {
    assert arrivals[..i + 1][..i] == arrivals[..i] && (verdicts + [v])[..i] == verdicts;
  }

  /** A tenant's calls under a fixed accepted policy, one after the other: within any interval as long
      as the policy's window fewer than twice the limit pass, and a call is refused only if the
      window before it was full. */
  method EnforceAll(counters: Counters, tenant: bytes, policy: Policy, arrivals: seq<Arrival>)
    returns (verdicts: seq<Verdict>)
    requires policy.requestLimit >= 1 && policy.mutationLimit >= 1 && policy.windowSeconds >= 1
    requires forall slot: Slot :: slot.tenant == tenant ==> slot !in counters.rows
    requires forall i, j :: 0 <= i < j < |arrivals| ==> arrivals[i].at <= arrivals[j].at
    modifies counters
    ensures |verdicts| == |arrivals|
    ensures forall lo, hi :: hi - lo == policy.windowSeconds * 1_000_000_000 ==>
              && Passed(arrivals, verdicts, lo, hi) <= 2 * policy.requestLimit - 1
              && Mutated(arrivals, verdicts, lo, hi) <= 2 * policy.mutationLimit - 1
    ensures forall i :: 0 <= i < |arrivals| ==>
              var from := arrivals[i].at - policy.windowSeconds * 1_000_000_000 + 1;
              && (verdicts[i] == RequestLimited ==>
                    Passed(arrivals[..i], verdicts[..i], from, arrivals[i].at + 1) >= policy.requestLimit)
              && (verdicts[i] == MutationLimited ==>
                    && arrivals[i].mutating
                    && Mutated(arrivals[..i], verdicts[..i], from, arrivals[i].at + 1) >= policy.mutationLimit)
  {
    hide CountBetween, CountWindow, Inv, Passed, Mutated, ConsumeRow;
    verdicts := [];
    ghost var window := policy.windowSeconds * 1_000_000_000;
    ghost var now := if arrivals == [] then 0 else arrivals[0].at;
    ghost var q, m := FRESH, FRESH;
    assert arrivals[..0] == [];
    FreshTracks(policy.requestLimit, window, now);
    FreshTracks(policy.mutationLimit, window, now);
    NothingCounted();
    for i := 0 to |arrivals|
      invariant |verdicts| == i && (i < |arrivals| ==> now <= arrivals[i].at)
      invariant Tracks(q, policy.requestLimit, window, now, Lookup(counters.rows, Slot(tenant, RequestKind)))
      invariant Tracks(m, policy.mutationLimit, window, now, Lookup(counters.rows, Slot(tenant, MutationKind)))
      invariant forall lo, hi :: CountBetween(q.admitted, lo, hi) == Passed(arrivals[..i], verdicts, lo, hi)
      invariant forall lo, hi :: CountBetween(m.admitted, lo, hi) == Mutated(arrivals[..i], verdicts, lo, hi)
      invariant forall j :: 0 <= j < i ==>
                  var from := arrivals[j].at - window + 1;
                  && (verdicts[j] == RequestLimited ==>
                        Passed(arrivals[..j], verdicts[..j], from, arrivals[j].at + 1) >= policy.requestLimit)
                  && (verdicts[j] == MutationLimited ==>
                        && arrivals[j].mutating
                        && Mutated(arrivals[..j], verdicts[..j], from, arrivals[j].at + 1) >= policy.mutationLimit)
    {
      var Arrival(at, mutating) := arrivals[i];
      TrackStep(q, policy.requestLimit, window, now, at);
      TrackStep(m, policy.mutationLimit, window, now, at);
      var v := counters.Enforce(tenant, Some(policy), mutating, at);
      forall lo, hi ensures Passed(arrivals[..i + 1], verdicts + [v], lo, hi) ==
                            Passed(arrivals[..i], verdicts, lo, hi) + (if lo <= at < hi && v != RequestLimited then 1 else 0)
                    ensures Mutated(arrivals[..i + 1], verdicts + [v], lo, hi) ==
                            Mutated(arrivals[..i], verdicts, lo, hi) + (if lo <= at < hi && mutating && v == Allowed then 1 else 0)
      {
        CountsAppend(arrivals, verdicts, i, v, lo, hi);
      }
      q := Step(q, Call(at), policy.requestLimit, window);
      if v != RequestLimited && mutating {
        m := Step(m, Call(at), policy.mutationLimit, window);
      }
      assert (verdicts + [v])[..i] == verdicts;
      assert forall j :: 0 <= j < i ==> (verdicts + [v])[..j] == verdicts[..j];
      verdicts := verdicts + [v];
      now := at;
    }
    assert arrivals[..|arrivals|] == arrivals;
    forall lo, hi | hi - lo == window
      ensures Passed(arrivals, verdicts, lo, hi) <= 2 * policy.requestLimit - 1
      ensures Mutated(arrivals, verdicts, lo, hi) <= 2 * policy.mutationLimit - 1
    {
      TrackedBound(q, policy.requestLimit, window, now, lo);
      TrackedBound(m, policy.mutationLimit, window, now, lo);
    }
  }

  lemma FreshTracks(limit: nat, window: nat, now: int)
    requires limit >= 1 && window >= 1
    ensures Tracks(FRESH, limit, window, now, None)
  {
  }

  lemma NothingCounted()
    ensures forall lo, hi :: CountBetween([], lo, hi) == 0 && Passed([], [], lo, hi) == 0 && Mutated([], [], lo, hi) == 0
  {
  }

  lemma TrackedBound(r: Run, limit: nat, window: nat, now: int, lo: int)
    requires Tracks(r, limit, window, now, r.row)
    ensures CountBetween(r.admitted, lo, lo + window) <= 2 * limit - 1
  {
    hide CountBetween, CountWindow, Tidy, Opened;
    TidyIntervalBound(r.admitted, window, limit, lo);
  }
}
