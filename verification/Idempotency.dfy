/** The idempotency middleware: concurrent requests, the processing lease, completion,
    abandonment and the sweeper, all acting on one table of rows.

    A run is a list of actions. An action names the request that moves and what the database
    and the wrapped handler did; a statement that reports an error may still have been applied.
 */
module Idempotency {
  import opened ByteStrings

  const PROCESSING_LEASE_SECONDS: int := 5 * 60
  const RETENTION_SECONDS: int := 24 * 60 * 60
  const REPLAY_POLLS: nat := 40
  const TOO_MANY_REQUESTS: nat := 429

  datatype Key = Key(tenant: bytes, name: bytes)

  /** Status, the three kept headers and the body, as one stored value. */
  datatype Response = Response(status: nat, content: bytes)

  datatype RecordState = Processing | Completed

  /** `owner` is the request that inserted the row; the table itself does not record it. */
  datatype Row = Row(fingerprint: bytes, state: RecordState, response: Option<Response>, expires: int, owner: nat)

  datatype Phase =
    | Clocked(readAt: int)                                    // clock read, insert not yet issued
    | Executing(lease: int)                                   // row inserted, handler running
    | Finished(lease: int, response: Response, skip: bool)    // handler returned
    | Cleanup(lease: int, response: Response)                 // completing the row reported an error
    | Answered(response: Response, skip: bool)
    | Polling(left: nat)
    | Replayed(response: Response)
    | Dropped(made: Option<Response>)                         // the client left or the server died
    | KeyReused | RecordReleased | InProgress | RecordIncomplete | DatabaseError

  datatype Request = Request(key: Key, fingerprint: bytes, phase: Phase)

  datatype State = State(now: int, rows: map<Key, Row>, requests: map<nat, Request>)

  const INITIAL: State := State(0, map[], map[])

  datatype Action =
    | Tick(now: int)
    | Arrive(id: nat, key: Key, fingerprint: bytes)
    | Insert(id: nat, ok: bool, applied: bool)
    | HandlerReturns(id: nat, response: Response, skip: bool)
    | Settle(id: nat, ok: bool, applied: bool)
    | CleanUp(id: nat, applied: bool)
    | Poll(id: nat, ok: bool)
    | Drop(id: nat, applied: bool)
    | Sweep(at: int, keys: set<Key>)

  predicate Storable(response: Response, skip: bool) {
    response.status != TOO_MANY_REQUESTS && !skip
  }

  function Move(s: State, id: nat, phase: Phase): (t: State)
    requires id in s.requests
  {
    s.(requests := s.requests[id := s.requests[id].(phase := phase)])
  }

  /** `abandon_record`: matches on tenant, key and state, not on the owner. */
  function Abandon(rows: map<Key, Row>, k: Key): (r: map<Key, Row>) {
    if k in rows && rows[k].state == Processing then rows - {k} else rows
  }

  /** `complete_record`: matches on tenant, key and state, not on the owner. */
  function CompleteRow(rows: map<Key, Row>, k: Key, response: Response, now: int): (r: map<Key, Row>) {
    if k in rows && rows[k].state == Processing
    then rows[k := rows[k].(state := Completed, response := Some(response), expires := now + RETENTION_SECONDS)]
    else rows
  }

  function InsertStep(s: State, id: nat, ok: bool, applied: bool): (t: State)
    requires id in s.requests && s.requests[id].phase.Clocked?
  {
    var q := s.requests[id];
    var lease := q.phase.readAt + PROCESSING_LEASE_SECONDS;
    if q.key in s.rows then Move(s, id, if ok then Polling(REPLAY_POLLS) else DatabaseError)
    else
      var inserted := s.rows[q.key := Row(q.fingerprint, Processing, None, lease, id)];
      if ok then Move(s.(rows := inserted), id, Executing(lease))
      else Move(s.(rows := if applied then inserted else s.rows), id, DatabaseError)
  }

  function SettleStep(s: State, id: nat, ok: bool, applied: bool): (t: State)
    requires id in s.requests && s.requests[id].phase.Finished?
  {
    var q := s.requests[id];
    var response := q.phase.response;
    if !Storable(response, q.phase.skip) then
      Move(s.(rows := if ok || applied then Abandon(s.rows, q.key) else s.rows), id, Answered(response, q.phase.skip))
    else
      Move(s.(rows := if ok || applied then CompleteRow(s.rows, q.key, response, s.now) else s.rows), id,
           if ok then Answered(response, false) else Cleanup(q.phase.lease, response))
  }

  /** One turn of `replay_or_wait`. */
  function PollStep(s: State, id: nat, ok: bool): (t: State)
    requires id in s.requests && s.requests[id].phase.Polling?
  {
    var q := s.requests[id];
    if !ok then Move(s, id, DatabaseError)
    else if q.key !in s.rows then Move(s, id, RecordReleased)
    else
      var row := s.rows[q.key];
      match (row.state, row.response)
      case (Completed, Some(response)) =>
        Move(s, id, if row.fingerprint != q.fingerprint then KeyReused else Replayed(response))
      case (Processing, _) =>
        if row.fingerprint != q.fingerprint then Move(s, id, KeyReused)
        else Move(s, id, if q.phase.left <= 1 then InProgress else Polling(q.phase.left - 1))
      case (Completed, None) => Move(s, id, RecordIncomplete)
  }

  /** The request's future is dropped wherever it is waiting; a statement it has issued may or may
      not be applied. */
  function DropStep(s: State, id: nat, applied: bool): (t: State)
    requires id in s.requests
  {
    var q := s.requests[id];
    match q.phase
    case Clocked(_) => Move(InsertStep(s, id, false, applied), id, Dropped(None))
    case Executing(_) => Move(s, id, Dropped(None))
    case Finished(_, response, skip) =>
      Move(SettleStep(s, id, false, applied), id, Dropped(if Storable(response, skip) then Some(response) else None))
    case Cleanup(_, response) =>
      Move(s.(rows := if applied then Abandon(s.rows, q.key) else s.rows), id, Dropped(Some(response)))
    case Polling(_) => Move(s, id, Dropped(None))
    case _ => s
  }

  /** The state after an action; an action that is not possible changes nothing. */
  function Perform(s: State, a: Action): (t: State) {
    match a
    case Tick(now) => if now >= s.now then s.(now := now) else s
    case Arrive(id, key, fingerprint) =>
      if id in s.requests then s
      else s.(requests := s.requests[id := Request(key, fingerprint, Clocked(s.now))])
    case Insert(id, ok, applied) =>
      if id in s.requests && s.requests[id].phase.Clocked? then InsertStep(s, id, ok, applied) else s
    case HandlerReturns(id, response, skip) =>
      if id in s.requests && s.requests[id].phase.Executing?
      then Move(s, id, Finished(s.requests[id].phase.lease, response, skip)) else s
    case Settle(id, ok, applied) =>
      if id in s.requests && s.requests[id].phase.Finished? then SettleStep(s, id, ok, applied) else s
    case CleanUp(id, applied) =>
      if id in s.requests && s.requests[id].phase.Cleanup?
      then Move(s.(rows := if applied then Abandon(s.rows, s.requests[id].key) else s.rows), id,
                Answered(s.requests[id].phase.response, false))
      else s
    case Poll(id, ok) =>
      if id in s.requests && s.requests[id].phase.Polling? then PollStep(s, id, ok) else s
    case Drop(id, applied) => if id in s.requests then DropStep(s, id, applied) else s
    case Sweep(at, keys) =>
      if at > s.now then s
      else s.(rows := s.rows - set k | k in keys && k in s.rows && s.rows[k].expires <= at)
  }

  function Run(s: State, actions: seq<Action>): (t: State)
    decreases actions
  {
    if actions == [] then s else Run(Perform(s, actions[0]), actions[1..])
  }

  // ---- The premise ----

  /** The request still has a statement to issue on the row it inserted. */
  predicate Active(q: Request) {
    q.phase.Executing? || q.phase.Finished? || q.phase.Cleanup?
  }

  /** No request is still at work when its processing lease has run out. */
  ghost predicate Punctual(s: State) {
    forall id :: id in s.requests && Active(s.requests[id]) ==> s.now < s.requests[id].phase.lease
  }

  ghost predicate PunctualRun(s: State, actions: seq<Action>)
    decreases actions
  {
    Punctual(s) && (actions != [] ==> PunctualRun(Perform(s, actions[0]), actions[1..]))
  }

  // ---- The invariant ----

  /** An active request owns the row under its key. */
  ghost predicate OwnsItsRow(s: State, id: nat)
    requires id in s.requests && Active(s.requests[id])
  {
    var q := s.requests[id];
    && q.key in s.rows
    && var row := s.rows[q.key];
    && row.owner == id && row.expires >= q.phase.lease && q.phase.lease <= s.now + PROCESSING_LEASE_SECONDS
    && (row.state == Processing ==> row.expires == q.phase.lease)
    && (row.state == Processing || (q.phase.Cleanup? && row.response == Some(q.phase.response)))
  }

  /** The response a request's execution has produced for good. */
  ghost predicate Produced(q: Request, response: Response) {
    (q.phase.Answered? && q.phase.response == response && !q.phase.skip)
    || (q.phase.Cleanup? && q.phase.response == response)
    || (q.phase.Dropped? && q.phase.made == Some(response))
  }

  ghost predicate SoundRow(s: State, k: Key)
    requires k in s.rows
  {
    var row := s.rows[k];
    && row.owner in s.requests
    && var q := s.requests[row.owner];
    && q.key == k && q.fingerprint == row.fingerprint && !q.phase.Clocked?
    && (row.state == Completed ==>
          row.response.Some? && Produced(q, row.response.value) && Storable(row.response.value, false))
  }

  /** A replay repeats what an execution of the same request answered. */
  ghost predicate SoundReplay(s: State, id: nat)
    requires id in s.requests && s.requests[id].phase.Replayed?
  {
    var q := s.requests[id];
    exists o :: o in s.requests && SameExecution(s.requests[o], q, q.phase.response)
  }

  ghost predicate SameExecution(o: Request, q: Request, response: Response) {
    o.key == q.key && o.fingerprint == q.fingerprint && Produced(o, response) && Storable(response, false)
  }

  ghost predicate Inv(s: State) {
    && (forall id :: id in s.requests && Active(s.requests[id]) ==> OwnsItsRow(s, id))
    && (forall k :: k in s.rows ==> SoundRow(s, k))
    && (forall id :: id in s.requests && s.requests[id].phase.Replayed? ==> SoundReplay(s, id))
    && (forall id :: id in s.requests && s.requests[id].phase.Clocked? ==> s.requests[id].phase.readAt <= s.now)
    && (forall id :: id in s.requests ==> !s.requests[id].phase.RecordIncomplete?)
  }

  // ---- Steps keep it ----

  /** What a production was stays what it is when requests move forward. */
  ghost predicate Forward(p: Phase, q: Phase) {
    || p == q
    || (p.Cleanup? && (q == Answered(p.response, false) || q == Dropped(Some(p.response))))
    || !(p.Answered? || p.Cleanup? || p.Replayed? || p.Dropped?)
  }

  lemma ReplaysStand(s: State, t: State, id: nat)
    requires id in s.requests && s.requests[id].phase.Replayed? && SoundReplay(s, id)
    requires id in t.requests && t.requests[id] == s.requests[id]
    requires forall o :: o in s.requests ==>
               && o in t.requests && t.requests[o].key == s.requests[o].key
               && t.requests[o].fingerprint == s.requests[o].fingerprint
               && Forward(s.requests[o].phase, t.requests[o].phase)
    ensures SoundReplay(t, id)
  {
    var q := s.requests[id];
    var o :| o in s.requests && SameExecution(s.requests[o], q, q.phase.response);
    assert SameExecution(t.requests[o], q, q.phase.response);
  }

  /** Only request `id` moves, and not away from an answer it has given. */
  ghost predicate OnlyMoves(s: State, t: State, id: nat) {
    && t.now == s.now && t.requests.Keys == s.requests.Keys && id in s.requests
    && (forall o :: o in s.requests && o != id ==> t.requests[o] == s.requests[o])
    && t.requests[id].key == s.requests[id].key && t.requests[id].fingerprint == s.requests[id].fingerprint
    && Forward(s.requests[id].phase, t.requests[id].phase)
    && !t.requests[id].phase.Clocked? && !t.requests[id].phase.RecordIncomplete?
  }

  lemma MovedReplays(s: State, t: State, id: nat)
    requires Inv(s) && OnlyMoves(s, t, id)
    ensures forall o :: o in t.requests && t.requests[o].phase.Replayed? && o != id ==> SoundReplay(t, o)
  {
    forall o | o in t.requests && t.requests[o].phase.Replayed? && o != id ensures SoundReplay(t, o) {
      ReplaysStand(s, t, o);
    }
  }

  /** Rows other than the one under the mover's key are untouched. */
  ghost predicate OnlyRow(s: State, t: State, k: Key) {
    forall j :: j != k ==> (j in t.rows <==> j in s.rows) && (j in s.rows ==> t.rows[j] == s.rows[j])
  }

  lemma OtherRowsSound(s: State, t: State, id: nat, j: Key)
    requires Inv(s) && OnlyMoves(s, t, id) && OnlyRow(s, t, s.requests[id].key)
    requires j in t.rows && j != s.requests[id].key
    ensures SoundRow(t, j)
  {
    assert SoundRow(s, j);
  }

  lemma OthersKeepRows(s: State, t: State, id: nat, o: nat)
    requires Inv(s) && OnlyMoves(s, t, id) && OnlyRow(s, t, s.requests[id].key)
    requires o in t.requests && o != id && Active(t.requests[o]) && t.requests[o].key != s.requests[id].key
    ensures OwnsItsRow(t, o)
  {
    assert OwnsItsRow(s, o);
  }

  lemma AtMostOneActive(s: State, a: nat, b: nat)
    requires Inv(s) && a in s.requests && b in s.requests
    requires Active(s.requests[a]) && Active(s.requests[b]) && s.requests[a].key == s.requests[b].key
    ensures a == b
  {
    assert OwnsItsRow(s, a) && OwnsItsRow(s, b);
  }

  /** A request that has no row yet claims a free key or leaves the rows alone. */
  lemma ClaimKeeps(s: State, t: State, id: nat)
    requires Inv(s) && id in s.requests && s.requests[id].phase.Clocked?
    requires OnlyMoves(s, t, id) && !t.requests[id].phase.Replayed?
    requires var q := s.requests[id];
             var lease := q.phase.readAt + PROCESSING_LEASE_SECONDS;
             || (t.rows == s.rows && !Active(t.requests[id]))
             || (&& q.key !in s.rows && t.rows == s.rows[q.key := Row(q.fingerprint, Processing, None, lease, id)]
                 && (Active(t.requests[id]) ==> t.requests[id].phase == Executing(lease)))
    ensures Inv(t)
  {
    MovedReplays(s, t, id);
    forall j | j in t.rows ensures SoundRow(t, j) {
      assert j in s.rows ==> SoundRow(s, j);
    }
    forall o | o in t.requests && Active(t.requests[o]) ensures OwnsItsRow(t, o) {
      assert o != id ==> OwnsItsRow(s, o);
    }
  }

  lemma InsertKeeps(s: State, id: nat, ok: bool, applied: bool)
    requires Inv(s) && id in s.requests && s.requests[id].phase.Clocked?
    ensures Inv(InsertStep(s, id, ok, applied))
  {
    hide Inv;
    ClaimKeeps(s, InsertStep(s, id, ok, applied), id);
  }

  lemma ReturnKeeps(s: State, id: nat, response: Response, skip: bool)
    requires Inv(s) && id in s.requests && s.requests[id].phase.Executing?
    ensures Inv(Move(s, id, Finished(s.requests[id].phase.lease, response, skip)))
  {
    var t := Move(s, id, Finished(s.requests[id].phase.lease, response, skip));
    assert OnlyMoves(s, t, id) && OnlyRow(s, t, s.requests[id].key);
    MovedReplays(s, t, id);
    forall j | j in t.rows ensures SoundRow(t, j) {
      assert SoundRow(s, j);
    }
    forall o | o in t.requests && Active(t.requests[o]) ensures OwnsItsRow(t, o) {
      assert OwnsItsRow(s, o);
    }
  }

  /** The owner of the row under its key deletes, completes or leaves it. */
  lemma OwnerKeeps(s: State, t: State, id: nat)
    requires Inv(s) && id in s.requests && Active(s.requests[id])
    requires OnlyMoves(s, t, id) && OnlyRow(s, t, s.requests[id].key)
    requires !t.requests[id].phase.Replayed?
    requires Active(t.requests[id]) ==> OwnsItsRow(t, id)
    requires s.requests[id].key in t.rows ==> SoundRow(t, s.requests[id].key)
    ensures Inv(t)
  {
    MovedReplays(s, t, id);
    forall j | j in t.rows ensures SoundRow(t, j) {
      if j != s.requests[id].key {
        OtherRowsSound(s, t, id, j);
      }
    }
    forall o | o in t.requests && Active(t.requests[o]) ensures OwnsItsRow(t, o) {
      if o != id {
        if s.requests[o].key == s.requests[id].key {
          AtMostOneActive(s, id, o);
        } else {
          OthersKeepRows(s, t, id, o);
        }
      }
    }
  }

  lemma SettleKeeps(s: State, id: nat, ok: bool, applied: bool)
    requires Inv(s) && id in s.requests && s.requests[id].phase.Finished?
    ensures Inv(SettleStep(s, id, ok, applied))
  {
    hide Inv;
    var t := SettleStep(s, id, ok, applied);
    OwnRow(s, id);
    OwnerKeeps(s, t, id);
  }

  lemma OwnRow(s: State, id: nat)
    requires Inv(s) && id in s.requests && Active(s.requests[id])
    ensures OwnsItsRow(s, id) && SoundRow(s, s.requests[id].key)
  {
  }

  lemma CleanUpKeeps(s: State, id: nat, applied: bool)
    requires Inv(s) && id in s.requests && s.requests[id].phase.Cleanup?
    ensures Inv(Perform(s, CleanUp(id, applied)))
  {
    hide Inv;
    var t := Perform(s, CleanUp(id, applied));
    OwnRow(s, id);
    OwnerKeeps(s, t, id);
  }

  /** A request that only waits changes nothing but its own phase. */
  lemma WaiterKeeps(s: State, id: nat, phase: Phase)
    requires Inv(s) && id in s.requests && s.requests[id].phase.Polling?
    requires !Active(s.requests[id].(phase := phase)) && !phase.Clocked? && !phase.RecordIncomplete?
    requires phase.Replayed? ==> SoundReplay(Move(s, id, phase), id)
    ensures Inv(Move(s, id, phase))
  {
    var t := Move(s, id, phase);
    assert OnlyMoves(s, t, id);
    MovedReplays(s, t, id);
    forall j | j in t.rows ensures SoundRow(t, j) {
      assert SoundRow(s, j);
    }
    forall o | o in t.requests && Active(t.requests[o]) ensures OwnsItsRow(t, o) {
      assert OwnsItsRow(s, o);
    }
  }

  lemma PollKeeps(s: State, id: nat, ok: bool)
    requires Inv(s) && id in s.requests && s.requests[id].phase.Polling?
    ensures Inv(PollStep(s, id, ok))
  {
    var t := PollStep(s, id, ok);
    var q := s.requests[id];
    var phase := t.requests[id].phase;
    assert q.key in s.rows ==> SoundRow(s, q.key);
    if phase.Replayed? {
      var o := s.rows[q.key].owner;
      assert SameExecution(t.requests[o], t.requests[id], phase.response);
    }
    hide Inv;
    WaiterKeeps(s, id, phase);
  }

  lemma DropKeeps(s: State, id: nat, applied: bool)
    requires Inv(s) && id in s.requests
    ensures Inv(DropStep(s, id, applied))
  {
    hide Inv;
    var t := DropStep(s, id, applied);
    var phase := s.requests[id].phase;
    if phase.Clocked? {
      ClaimKeeps(s, t, id);
    } else if phase.Polling? {
      WaiterKeeps(s, id, Dropped(None));
    } else if Active(s.requests[id]) {
      OwnRow(s, id);
      OwnerKeeps(s, t, id);
    }
  }

  lemma SweepKeeps(s: State, at: int, keys: set<Key>)
    requires Inv(s) && Punctual(s)
    ensures Inv(Perform(s, Sweep(at, keys)))
  {
    var t := Perform(s, Sweep(at, keys));
    forall o | o in t.requests && Active(t.requests[o]) ensures OwnsItsRow(t, o) {
      assert OwnsItsRow(s, o) && s.now < s.requests[o].phase.lease;
    }
    forall j | j in t.rows ensures SoundRow(t, j) {
      assert SoundRow(s, j);
    }
    forall o | o in t.requests && t.requests[o].phase.Replayed? ensures SoundReplay(t, o) {
      ReplaysStand(s, t, o);
    }
  }

  lemma ArriveKeeps(s: State, id: nat, key: Key, fingerprint: bytes)
    requires Inv(s)
    ensures Inv(Perform(s, Arrive(id, key, fingerprint)))
  {
    var t := Perform(s, Arrive(id, key, fingerprint));
    forall o | o in t.requests && Active(t.requests[o]) ensures OwnsItsRow(t, o) {
      assert OwnsItsRow(s, o);
    }
    forall j | j in t.rows ensures SoundRow(t, j) {
      assert SoundRow(s, j);
    }
    forall o | o in t.requests && t.requests[o].phase.Replayed? ensures SoundReplay(t, o) {
      ReplaysStand(s, t, o);
    }
  }

  lemma TickKeeps(s: State, now: int)
    requires Inv(s)
    ensures Inv(Perform(s, Tick(now)))
  {
    var t := Perform(s, Tick(now));
    forall o | o in t.requests && Active(t.requests[o]) ensures OwnsItsRow(t, o) {
      assert OwnsItsRow(s, o);
    }
    forall j | j in t.rows ensures SoundRow(t, j) {
      assert SoundRow(s, j);
    }
    forall o | o in t.requests && t.requests[o].phase.Replayed? ensures SoundReplay(t, o) {
      ReplaysStand(s, t, o);
    }
  }

  lemma StepKeeps(s: State, a: Action)
    requires Inv(s) && Punctual(s)
    ensures Inv(Perform(s, a))
  {
    hide Inv, Punctual;
    match a
    case Tick(now) => TickKeeps(s, now);
    case Arrive(id, key, fingerprint) => ArriveKeeps(s, id, key, fingerprint);
    case Insert(id, ok, applied) => if id in s.requests && s.requests[id].phase.Clocked? { InsertKeeps(s, id, ok, applied); }
    case HandlerReturns(id, response, skip) => if id in s.requests && s.requests[id].phase.Executing? { ReturnKeeps(s, id, response, skip); }
    case Settle(id, ok, applied) => if id in s.requests && s.requests[id].phase.Finished? { SettleKeeps(s, id, ok, applied); }
    case CleanUp(id, applied) => if id in s.requests && s.requests[id].phase.Cleanup? { CleanUpKeeps(s, id, applied); }
    case Poll(id, ok) => if id in s.requests && s.requests[id].phase.Polling? { PollKeeps(s, id, ok); }
    case Drop(id, applied) => if id in s.requests { DropKeeps(s, id, applied); }
    case Sweep(at, keys) => SweepKeeps(s, at, keys);
  }

  lemma {:induction false} RunKeeps(s: State, actions: seq<Action>)
    requires Inv(s) && PunctualRun(s, actions)
    ensures Inv(Run(s, actions))
    decreases actions
  {
    hide Inv, Punctual, Perform;
    if actions != [] {
      StepKeeps(s, actions[0]);
      RunKeeps(Perform(s, actions[0]), actions[1..]);
    }
  }

  /** Everything the middleware promises, in one state: at most one execution in progress per key;
      a completed row holds the storable response of the request that inserted it, under that
      request's fingerprint; a replay repeats what a request with the same key and fingerprint
      answered, or would have answered had it not been dropped; a completed row is never without its
      response. */
  ghost predicate Promises(s: State) {
    && (forall a, b ::
          (&& a in s.requests && b in s.requests && Active(s.requests[a]) && Active(s.requests[b])
           && s.requests[a].key == s.requests[b].key) ==> a == b)
    && (forall k :: k in s.rows && s.rows[k].state == Completed ==>
          && s.rows[k].response.Some? && s.rows[k].owner in s.requests
          && s.requests[s.rows[k].owner].key == k
          && s.requests[s.rows[k].owner].fingerprint == s.rows[k].fingerprint
          && Produced(s.requests[s.rows[k].owner], s.rows[k].response.value)
          && s.rows[k].response.value.status != TOO_MANY_REQUESTS)
    && (forall id :: id in s.requests && s.requests[id].phase.Replayed? ==> SoundReplay(s, id))
    && (forall id :: id in s.requests ==> !s.requests[id].phase.RecordIncomplete?)
  }

  lemma InvPromises(s: State)
    requires Inv(s)
    ensures Promises(s)
  {
    forall a, b | a in s.requests && b in s.requests && Active(s.requests[a]) && Active(s.requests[b])
                  && s.requests[a].key == s.requests[b].key
      ensures a == b
    {
      AtMostOneActive(s, a, b);
    }
    forall k | k in s.rows ensures SoundRow(s, k) {
    }
  }

  /** Every interleaving in which no request outlives its processing lease keeps the promises. */
  lemma EveryPunctualRunIsSafe(actions: seq<Action>)
    requires PunctualRun(INITIAL, actions)
    ensures Promises(Run(INITIAL, actions))
  {
    assert Inv(INITIAL);
    RunKeeps(INITIAL, actions);
    InvPromises(Run(INITIAL, actions));
  }

  /** What the lease is for: the row a dropped request leaves behind is swept once it has expired,
      and the key is free again, with every promise kept. */
  lemma DroppedClaimIsReclaimed(s: State, id: nat, other: nat, fingerprint: bytes)
    requires Inv(s) && Punctual(s) && id in s.requests && s.requests[id].phase.Dropped? && other !in s.requests
    requires var k := s.requests[id].key; k in s.rows && s.rows[k].owner == id && s.rows[k].expires <= s.now
    ensures var k := s.requests[id].key;
            var t := Run(s, [Sweep(s.now, {k}), Arrive(other, k, fingerprint), Insert(other, true, true)]);
            other in t.requests && t.requests[other].phase.Executing? && Promises(t)
  {
    var k := s.requests[id].key;
    var actions := [Sweep(s.now, {k}), Arrive(other, k, fingerprint), Insert(other, true, true)];
    RunOfThree(s, actions);
    FreedAndTaken(s, k, other, fingerprint);
    hide Inv, Promises, Run, Perform, Punctual;
    var s1 := Perform(s, actions[0]);
    StepKeeps(s, actions[0]);
    var s2 := Perform(s1, actions[1]);
    StepKeeps(s1, actions[1]);
    StepKeeps(s2, actions[2]);
    InvPromises(Perform(s2, actions[2]));
  }

  lemma FreedAndTaken(s: State, k: Key, other: nat, fingerprint: bytes)
    requires Punctual(s) && other !in s.requests && (k in s.rows ==> s.rows[k].expires <= s.now)
    ensures var s1 := Perform(s, Sweep(s.now, {k}));
            var s2 := Perform(s1, Arrive(other, k, fingerprint));
            var s3 := Perform(s2, Insert(other, true, true));
            && Punctual(s1) && Punctual(s2)
            && other in s3.requests && s3.requests[other].phase.Executing?
            && forall id :: id in s.requests ==> id in s3.requests && s3.requests[id] == s.requests[id]
  {
    hide DropStep, SettleStep, PollStep;
    var s1 := Perform(s, Sweep(s.now, {k}));
    assert s1.requests == s.requests && k !in s1.rows;
  }

  // ---- What a request is told ----

  /** A free key is claimed for five minutes; a taken one sends the request waiting for forty polls. */
  lemma InsertIsForced(s: State, id: nat, applied: bool)
    requires id in s.requests && s.requests[id].phase.Clocked?
    ensures var q, t := s.requests[id], Perform(s, Insert(id, true, applied));
            var lease := q.phase.readAt + 300;
            if q.key in s.rows then t == Move(s, id, Polling(40))
            else t == Move(s.(rows := s.rows[q.key := Row(q.fingerprint, Processing, None, lease, id)]), id, Executing(lease))
  {
  }

  /** What the handler answered is stored for a day, under the key, the fingerprint and the request
      that claimed it, unless it is a 429 or must not be kept; then the key is free again. */
  lemma SettleIsForced(s: State, id: nat, applied: bool)
    requires Inv(s) && id in s.requests && s.requests[id].phase.Finished?
    ensures var q, t := s.requests[id], Perform(s, Settle(id, true, applied));
            var response := q.phase.response;
            && t.now == s.now && id in t.requests
            && t.requests[id] == q.(phase := Answered(response, q.phase.skip))
            && (response.status != 429 && !q.phase.skip ==>
                  t.rows == s.rows[q.key := Row(q.fingerprint, Completed, Some(response), s.now + 86400, id)])
            && (response.status == 429 || q.phase.skip ==> t.rows == s.rows - {q.key})
  {
    OwnRow(s, id);
    hide Inv;
    var q := s.requests[id];
    assert s.rows[q.key].fingerprint == q.fingerprint && s.rows[q.key].owner == id;
  }

  /** A request reads the clock when it arrives and has no row yet. */
  lemma ArriveIsForced(s: State, id: nat, key: Key, fingerprint: bytes)
    requires id !in s.requests
    ensures Perform(s, Arrive(id, key, fingerprint)) ==
            s.(requests := s.requests[id := Request(key, fingerprint, Clocked(s.now))])
  {
  }

  /** If storing reports an error the row is still to be released, whether or not it was written; an
      error in releasing it is only logged. */
  lemma SettleErrorIsForced(s: State, id: nat, applied: bool)
    requires Inv(s) && id in s.requests && s.requests[id].phase.Finished?
    ensures var q, t := s.requests[id], Perform(s, Settle(id, false, applied));
            var ok := Perform(s, Settle(id, true, applied));
            && t.rows == (if applied then ok.rows else s.rows)
            && t.requests[id].phase ==
               if q.phase.response.status != 429 && !q.phase.skip then Cleanup(q.phase.lease, q.phase.response)
               else Answered(q.phase.response, q.phase.skip)
  {
  }

  /** Dropping a request in the middle of its work touches no row. */
  lemma DropLeavesTheRow(s: State, id: nat, applied: bool)
    requires id in s.requests && (s.requests[id].phase.Executing? || s.requests[id].phase.Polling?)
    ensures Perform(s, Drop(id, applied)) == Move(s, id, Dropped(None))
  {
  }

  /** A response whose storing failed leaves the key free, if the row can be deleted. */
  lemma CleanUpFrees(s: State, id: nat)
    requires Inv(s) && id in s.requests && s.requests[id].phase.Cleanup?
    ensures var q, t := s.requests[id], Perform(s, CleanUp(id, true));
            && t.requests[id] == q.(phase := Answered(q.phase.response, false))
            && (s.rows[q.key].state == Processing ==> t.rows == s.rows - {q.key})
            && (s.rows[q.key].state == Completed ==> t.rows == s.rows)
  {
    OwnRow(s, id);
  }

  /** What a waiting request is told depends only on the row under its key. */
  lemma PollIsForced(s: State, id: nat)
    requires Inv(s) && id in s.requests && s.requests[id].phase.Polling?
    ensures var q, t := s.requests[id], Perform(s, Poll(id, true));
            && t == Move(s, id, t.requests[id].phase)
            && t.requests[id].phase ==
               if q.key !in s.rows then RecordReleased
               else if s.rows[q.key].fingerprint != q.fingerprint then KeyReused
               else if s.rows[q.key].state == Completed then Replayed(s.rows[q.key].response.value)
               else if q.phase.left <= 1 then InProgress else Polling(q.phase.left - 1)
  {
    assert s.requests[id].key in s.rows ==> SoundRow(s, s.requests[id].key);
  }

  /** Forty polls of a request that is still being processed, and the waiter is told so. */
  lemma {:induction false} PollsRunOut(s: State, id: nat, n: nat)
    requires id in s.requests && s.requests[id].phase == Polling(n) && n >= 1
    requires var q := s.requests[id];
             q.key in s.rows && s.rows[q.key].state == Processing && s.rows[q.key].fingerprint == q.fingerprint
    ensures Run(s, seq(n, _ => Poll(id, true))) == Move(s, id, InProgress)
    decreases n
  {
    var polls := seq(n, _ => Poll(id, true));
    assert polls[1..] == seq(n - 1, _ => Poll(id, true));
    var t := Perform(s, Poll(id, true));
    hide DropStep, SettleStep, InsertStep;
    if n == 1 {
      assert polls[1..] == [];
    } else {
      PollsRunOut(t, id, n - 1);
      assert Move(t, id, InProgress).requests == Move(s, id, InProgress).requests;
    }
  }

  /** A completed row is changed by nothing before it expires. */
  lemma CompletedStep(s: State, a: Action, k: Key)
    requires k in s.rows && s.rows[k].state == Completed
    ensures var t := Perform(s, a);
            && s.now <= t.now
            && (s.now < s.rows[k].expires ==> k in t.rows && t.rows[k] == s.rows[k])
  {
  }

  lemma {:induction false} CompletedStays(s: State, actions: seq<Action>, k: Key)
    requires k in s.rows && s.rows[k].state == Completed
    ensures var t := Run(s, actions);
            s.now <= t.now && (t.now < s.rows[k].expires ==> k in t.rows && t.rows[k] == s.rows[k])
    decreases actions
  {
    hide Perform;
    if actions != [] {
      CompletedStep(s, actions[0], k);
      var t := Perform(s, actions[0]);
      if s.now < s.rows[k].expires {
        CompletedStays(t, actions[1..], k);
      } else {
        TimeMoves(t, actions[1..]);
      }
    }
  }

  lemma TimeStep(s: State, a: Action)
    ensures s.now <= Perform(s, a).now
  {
  }

  lemma {:induction false} TimeMoves(s: State, actions: seq<Action>)
    ensures s.now <= Run(s, actions).now
    decreases actions
  {
    hide Perform;
    if actions != [] {
      TimeStep(s, actions[0]);
      TimeMoves(Perform(s, actions[0]), actions[1..]);
    }
  }

  /** What retrying is for. Once a request has stored its answer, whatever happens within a day, a new
      request with the same key and body is told that answer and executes nothing; one with another
      body is refused. */
  lemma RetryIsReplayed(s: State, id: nat, actions: seq<Action>, other: nat, fingerprint: bytes)
    requires Inv(s) && id in s.requests && s.requests[id].phase.Finished?
    requires s.requests[id].phase.response.status != 429 && !s.requests[id].phase.skip
    requires var u := Run(Perform(s, Settle(id, true, true)), actions); other !in u.requests && u.now < s.now + 86400
    ensures var q := s.requests[id];
            var u := Run(Perform(s, Settle(id, true, true)), actions);
            var v := Run(u, [Arrive(other, q.key, fingerprint), Insert(other, true, true), Poll(other, true)]);
            && v.rows == u.rows && other in v.requests
            && v.requests[other].phase == if fingerprint == q.fingerprint then Replayed(q.phase.response) else KeyReused
  {
    var q := s.requests[id];
    SettleIsForced(s, id, true);
    var t := Perform(s, Settle(id, true, true));
    CompletedStays(t, actions, q.key);
    var u := Run(t, actions);
    var a := [Arrive(other, q.key, fingerprint), Insert(other, true, true), Poll(other, true)];
    RunOfThree(u, a);
    hide Inv, Run;
    AskAgain(u, q.key, other, fingerprint);
  }

  lemma AskAgain(u: State, k: Key, other: nat, fingerprint: bytes)
    requires k in u.rows && u.rows[k].state == Completed && u.rows[k].response.Some? && other !in u.requests
    ensures var v := Perform(Perform(Perform(u, Arrive(other, k, fingerprint)), Insert(other, true, true)), Poll(other, true));
            && v.rows == u.rows && other in v.requests
            && v.requests[other].phase ==
               if fingerprint == u.rows[k].fingerprint then Replayed(u.rows[k].response.value) else KeyReused
  {
    hide DropStep, SettleStep;
  }

  // ---- Without the premise ----

  const K: Key := Key([], [])
  const FIRST: bytes := [1]
  const SECOND: bytes := [2]
  const OK: Response := Response(200, [])

  /** The first request outlives its lease, the row is swept, and a second request takes the key. */
  const OVERRUN: seq<Action> := [
    Arrive(0, K, FIRST), Insert(0, true, true), Tick(PROCESSING_LEASE_SECONDS), Sweep(PROCESSING_LEASE_SECONDS, {K}),
    Arrive(1, K, SECOND), Insert(1, true, true)]

  /** Then the first request completes the second one's row, and a third request replays it. */
  const WRONG_REPLAY: seq<Action> := [
    HandlerReturns(0, OK, false), Settle(0, true, true), Tick(PROCESSING_LEASE_SECONDS + 1),
    Arrive(2, K, SECOND), Insert(2, true, true), Poll(2, true)]

  lemma {:induction false} RunAppend(s: State, a: seq<Action>, b: seq<Action>)
    ensures Run(s, a + b) == Run(Run(s, a), b)
    decreases a
  {
    hide Perform;
    if a == [] {
      assert a + b == b;
    } else {
      assert (a + b)[1..] == a[1..] + b;
      RunAppend(Perform(s, a[0]), a[1..], b);
    }
  }

  function Overrun(): (s: State) {
    State(PROCESSING_LEASE_SECONDS,
          map[K := Row(SECOND, Processing, None, 2 * PROCESSING_LEASE_SECONDS, 1)],
          map[0 := Request(K, FIRST, Executing(PROCESSING_LEASE_SECONDS)),
              1 := Request(K, SECOND, Executing(2 * PROCESSING_LEASE_SECONDS))])
  }

  /** Two executions under one key: the premise is needed. */
  lemma OverrunBreaksExclusion()
    ensures Run(INITIAL, OVERRUN) == Overrun() && !Promises(Run(INITIAL, OVERRUN))
  {
    var s1 := Perform(INITIAL, Arrive(0, K, FIRST));
    var s2 := Perform(s1, Insert(0, true, true));
    var s3 := Perform(s2, Tick(PROCESSING_LEASE_SECONDS));
    var s4 := Perform(s3, Sweep(PROCESSING_LEASE_SECONDS, {K}));
    assert s4.rows == map[];
    var s5 := Perform(s4, Arrive(1, K, SECOND));
    var s6 := Perform(s5, Insert(1, true, true));
    assert s6.requests == Overrun().requests;
    RunOfSix(INITIAL, OVERRUN);
    assert Active(Overrun().requests[0]) && Active(Overrun().requests[1]);
  }

  /** The premise is needed in every state: once a request that has not settled is past its lease,
      one sweep and one more request under its key, whatever its body, break the promises. */
  lemma EveryOverrunCanBreak(s: State, id: nat, other: nat, fingerprint: bytes)
    requires Inv(s) && id in s.requests && (s.requests[id].phase.Executing? || s.requests[id].phase.Finished?)
    requires s.requests[id].phase.lease <= s.now && other !in s.requests
    ensures var k := s.requests[id].key;
            !Promises(Run(s, [Sweep(s.now, {k}), Arrive(other, k, fingerprint), Insert(other, true, true)]))
  {
    var k := s.requests[id].key;
    var actions := [Sweep(s.now, {k}), Arrive(other, k, fingerprint), Insert(other, true, true)];
    RunOfThree(s, actions);
    hide Inv, SoundRow, SoundReplay, Run;
    assert OwnsItsRow(s, id) by {
      OwnRow(s, id);
    }
    var s1 := Perform(s, actions[0]);
    assert k !in s1.rows;
    var s3 := Perform(Perform(s1, actions[1]), actions[2]);
    assert s3.requests[id] == s.requests[id] && Active(s3.requests[other]);
  }

  /** The third request is told the answer of a request with another fingerprint. */
  lemma OverrunBreaksReplay()
    ensures var s := Run(INITIAL, OVERRUN + WRONG_REPLAY);
            && 2 in s.requests && s.requests[2] == Request(K, SECOND, Replayed(OK)) && !SoundReplay(s, 2)
  {
    OverrunBreaksExclusion();
    RunAppend(INITIAL, OVERRUN, WRONG_REPLAY);
    RunOfSix(Overrun(), WRONG_REPLAY);
    WrongReplay();
  }

  /** The second request's row, completed with the first one's answer. */
  function Miscompleted(): (s: State) {
    State(PROCESSING_LEASE_SECONDS,
          map[K := Row(SECOND, Completed, Some(OK), PROCESSING_LEASE_SECONDS + RETENTION_SECONDS, 1)],
          map[0 := Request(K, FIRST, Answered(OK, false)),
              1 := Request(K, SECOND, Executing(2 * PROCESSING_LEASE_SECONDS))])
  }

  lemma WrongCompletion()
    ensures Perform(Perform(Overrun(), WRONG_REPLAY[0]), WRONG_REPLAY[1]) == Miscompleted()
  {
    hide DropStep, Abandon, InsertStep, PollStep;
    var s1 := Perform(Overrun(), HandlerReturns(0, OK, false));
    var s2 := Perform(s1, Settle(0, true, true));
    assert s2.rows == Miscompleted().rows;
    assert s2.requests == Miscompleted().requests;
  }

  lemma WrongReplay()
    ensures var a := WRONG_REPLAY;
            var s := Perform(Perform(Perform(Perform(Perform(Perform(Overrun(), a[0]), a[1]), a[2]), a[3]), a[4]), a[5]);
            && 2 in s.requests && s.requests[2] == Request(K, SECOND, Replayed(OK)) && !SoundReplay(s, 2)
  {
    WrongCompletion();
    hide DropStep, SettleStep, Overrun;
    var s3 := Perform(Miscompleted(), Tick(PROCESSING_LEASE_SECONDS + 1));
    var s4 := Perform(s3, Arrive(2, K, SECOND));
    var s5 := Perform(s4, Insert(2, true, true));
    var s6 := Perform(s5, Poll(2, true));
    assert s6.requests[2] == Request(K, SECOND, Replayed(OK));
    assert s6.requests[1].phase.Executing? && s6.requests.Keys == {0, 1, 2};
  }

  lemma RunOfSix(s: State, a: seq<Action>)
    requires |a| == 6
    ensures Run(s, a) == Perform(Perform(Perform(Perform(Perform(Perform(s, a[0]), a[1]), a[2]), a[3]), a[4]), a[5])
  {
    hide Perform;
    assert a == a[..3] + a[3..];
    RunAppend(s, a[..3], a[3..]);
    RunOfThree(s, a[..3]);
    RunOfThree(Run(s, a[..3]), a[3..]);
  }

  lemma RunOfThree(s: State, a: seq<Action>)
    requires |a| == 3
    ensures Run(s, a) == Perform(Perform(Perform(s, a[0]), a[1]), a[2])
  {
    hide Perform;
    assert a[1..][1..] == a[2..] && a[2..][1..] == [];
    assert Run(Perform(Perform(s, a[0]), a[1]), a[2..]) == Run(Perform(Perform(Perform(s, a[0]), a[1]), a[2]), []);
  }
}
