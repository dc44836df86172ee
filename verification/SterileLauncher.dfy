/** The sterile launcher's one-shot activation cell with replay.

    Each action is one critical section of the cell's lock or one move of the runner outside it, so
    a recorded status may lag behind the child. The log records the answers in the order they were
    decided and what happened to the runner and its child.
 */
module SterileLauncher {
  import opened ByteStrings

  datatype Phase = Accepted | Running | Terminal

  datatype Status = Status(phase: Phase, pid: Option<nat>, exitCode: Option<int>, error: bool)

  const ACCEPTED: Status := Status(Accepted, None, None, false)

  datatype Activation = Free | Taken(digest: bytes, status: Status)

  const FAILED: Status := Status(Terminal, None, None, true)

  function RunningAs(pid: Option<nat>): (s: Status) {
    Status(Running, pid, None, false)
  }

  function EndedWith(exitCode: Option<int>): (s: Status) {
    Status(Terminal, None, exitCode, false)
  }

  /** Where the runner is: `Spawned` and `Finished` still have a status to record. */
  datatype Runner =
    | NoRunner
    | Scheduled
    | Preparing
    | Spawned(pid: Option<nat>)
    | Waiting
    | Finished(outcome: Status)
    | Ended

  datatype Event =
    | Created(digest: bytes, status: Status)      // 202: this request was taken
    | Repeated(digest: bytes, status: Status)     // 200: a replay of the taken request
    | Conflicted(digest: bytes)                   // 409
    | Refused(digest: bytes)                      // 422 or 413: never reached the cell
    | RunnerStarted(digest: bytes)
    | ChildStarted(pid: Option<nat>)
    | ChildEnded(exitCode: Option<int>)
    | RunnerFailed
    | Recorded(status: Status)                    // the runner updated the cell
    | StatusRead(answer: Option<Status>)          // 404 when there is none

  datatype State = State(activation: Activation, runner: Runner, log: seq<Event>)

  const INITIAL: State := State(Free, NoRunner, [])

  datatype Action =
    | Put(digest: bytes, valid: bool)
    | StartRunner
    | SpawnChild(pid: Option<nat>)
    | RecordRunning
    | ChildExits(exitCode: Option<int>)
    | RunnerFails
    | RecordOutcome
    | GetStatus

  function Logged(s: State, e: Event): (t: State) {
    s.(log := s.log + [e])
  }

  /** `set_sterile_launcher_status`. */
  function SetStatus(a: Activation, status: Status): (b: Activation) {
    if a.Taken? then a.(status := status) else a
  }

  /** `accept_sterile_activation`; the cell is taken in one critical section. */
  function PutStep(s: State, digest: bytes, valid: bool): (t: State) {
    if !valid then Logged(s, Refused(digest))
    else
      match s.activation
      case Free =>
        Logged(s.(activation := Taken(digest, ACCEPTED), runner := Scheduled), Created(digest, ACCEPTED))
      case Taken(existing, status) =>
        if existing == digest then Logged(s, Repeated(digest, status)) else Logged(s, Conflicted(digest))
  }

  function Perform(s: State, a: Action): (t: State) {
    match a
    case Put(digest, valid) => PutStep(s, digest, valid)
    case StartRunner =>
      if s.runner.Scheduled? && s.activation.Taken?
      then Logged(s.(runner := Preparing), RunnerStarted(s.activation.digest)) else s
    case SpawnChild(pid) =>
      if s.runner.Preparing? then Logged(s.(runner := Spawned(pid)), ChildStarted(pid)) else s
    case RecordRunning =>
      if s.runner.Spawned?
      then
        Logged(s.(runner := Waiting, activation := SetStatus(s.activation, RunningAs(s.runner.pid))),
               Recorded(RunningAs(s.runner.pid)))
      else s
    case ChildExits(exitCode) =>
      if s.runner.Waiting?
      then Logged(s.(runner := Finished(EndedWith(exitCode))), ChildEnded(exitCode)) else s
    case RunnerFails =>
      if s.runner.Preparing? || s.runner.Waiting?
      then Logged(s.(runner := Finished(FAILED)), RunnerFailed) else s
    case RecordOutcome =>
      if s.runner.Finished?
      then
        Logged(s.(runner := Ended, activation := SetStatus(s.activation, s.runner.outcome)), Recorded(s.runner.outcome))
      else s
    case GetStatus =>
      Logged(s, StatusRead(if s.activation.Taken? then Some(s.activation.status) else None))
  }

  function Run(s: State, actions: seq<Action>): (t: State)
    decreases actions
  {
    if actions == [] then s else Run(Perform(s, actions[0]), actions[1..])
  }

  // ---- Reading a log ----

  function TakenDigest(log: seq<Event>): (r: Option<bytes>) {
    if log == [] then None
    else if log[|log| - 1].Created? then Some(log[|log| - 1].digest)
    else TakenDigest(log[..|log| - 1])
  }

  predicate RunnerWasStarted(log: seq<Event>) {
    log != [] && (log[|log| - 1].RunnerStarted? || RunnerWasStarted(log[..|log| - 1]))
  }

  /** The status recorded last. */
  function Current(log: seq<Event>): (r: Option<Status>) {
    if log == [] then None
    else
      match log[|log| - 1]
      case Created(_, status) => Some(status)
      case Recorded(status) => Some(status)
      case _ => Current(log[..|log| - 1])
  }

  function Rank(p: Phase): (n: nat) {
    match p
    case Accepted => 1
    case Running => 2
    case Terminal => 3
  }

  /** The status an answer carries, if any. */
  function Reported(e: Event): (r: Option<Status>) {
    match e
    case Created(_, status) => Some(status)
    case Repeated(_, status) => Some(status)
    case StatusRead(status) => status
    case _ => None
  }

  /** The furthest phase any answer so far has reported. */
  function Furthest(log: seq<Event>): (n: nat)
    ensures n <= 3
  {
    if log == [] then 0
    else
      var before, e := Furthest(log[..|log| - 1]), Reported(log[|log| - 1]);
      if e.Some? && Rank(e.value.phase) > before then Rank(e.value.phase) else before
  }

  /** A status that may be reported after `log`: nothing is claimed that has not happened. */
  ghost predicate Backed(log: seq<Event>, status: Status) {
    match status.phase
    case Accepted => status == Status(Accepted, None, None, false)
    case Running => status == Status(Running, status.pid, None, false) && ChildStarted(status.pid) in log
    case Terminal =>
      || (status == Status(Terminal, None, status.exitCode, false) && ChildEnded(status.exitCode) in log)
      || (status == Status(Terminal, None, None, true) && RunnerFailed in log)
  }

  ghost predicate NoChildYet(log: seq<Event>) {
    forall pid :: ChildStarted(pid) !in log
  }

  ghost predicate NotOver(log: seq<Event>) {
    RunnerFailed !in log && forall exitCode :: ChildEnded(exitCode) !in log
  }

  /** What each entry of a log must satisfy, given what came before it. */
  ghost predicate Lawful(before: seq<Event>, e: Event) {
    && (Reported(e).Some? ==>
          && Rank(Reported(e).value.phase) >= Furthest(before)
          && Backed(before, Reported(e).value))
    && match e
       case Created(_, status) => TakenDigest(before).None? && status == Status(Accepted, None, None, false)
       case Repeated(digest, status) => TakenDigest(before) == Some(digest) && Current(before) == Some(status)
       case Recorded(status) =>
         && Current(before).Some? && Rank(Current(before).value.phase) < Rank(status.phase)
         && Backed(before, status)
       case Conflicted(digest) => TakenDigest(before).Some? && TakenDigest(before) != Some(digest)
       case RunnerStarted(digest) => TakenDigest(before) == Some(digest) && !RunnerWasStarted(before)
       case ChildStarted(_) => RunnerWasStarted(before) && NoChildYet(before) && NotOver(before)
       case ChildEnded(_) => !NoChildYet(before) && NotOver(before)
       case RunnerFailed => RunnerWasStarted(before) && NotOver(before)
       case StatusRead(answer) => answer == Current(before) && (answer.Some? <==> TakenDigest(before).Some?)
       case Refused(_) => true
  }

  ghost predicate LawfulLog(log: seq<Event>) {
    forall i :: 0 <= i < |log| ==> Lawful(log[..i], log[i])
  }

  // ---- The invariant ----

  ghost predicate Inv(s: State) {
    && LawfulLog(s.log)
    && TakenDigest(s.log) == (if s.activation.Taken? then Some(s.activation.digest) else None)
    && Current(s.log) == (if s.activation.Taken? then Some(s.activation.status) else None)
    && (RunnerWasStarted(s.log) <==> !s.runner.NoRunner? && !s.runner.Scheduled?)
    && (NotOver(s.log) <==> !s.runner.Finished? && !s.runner.Ended?)
    && (s.runner.NoRunner? || s.runner.Scheduled? || s.runner.Preparing? ==> NoChildYet(s.log))
    && (s.runner.Spawned? ==> ChildStarted(s.runner.pid) in s.log)
    && (s.runner.Spawned? || s.runner.Waiting? ==> !NoChildYet(s.log))
    && (s.runner.Finished? ==> s.runner.outcome.phase == Terminal && Backed(s.log, s.runner.outcome))
    && (s.activation.Free? ==> s.runner.NoRunner? && Furthest(s.log) == 0)
    && (s.activation.Taken? ==> !s.runner.NoRunner? && StatusFits(s.log, s.runner, s.activation.status))
  }

  /** The recorded status, given where the runner is. */
  ghost predicate StatusFits(log: seq<Event>, runner: Runner, status: Status) {
    && Furthest(log) <= Rank(status.phase)
    && Backed(log, status)
    && match runner
       case Waiting => status.phase == Running
       case Finished(_) => status.phase != Terminal
       case Ended => status.phase == Terminal
       case _ => status.phase == Accepted
  }

  lemma AppendFacts(log: seq<Event>, e: Event)
    ensures Current(log + [e]) == if e.Created? || e.Recorded? then Some(e.status) else Current(log)
    ensures TakenDigest(log + [e]) == if e.Created? then Some(e.digest) else TakenDigest(log)
    ensures RunnerWasStarted(log + [e]) <==> e.RunnerStarted? || RunnerWasStarted(log)
    ensures Furthest(log + [e]) ==
            if Reported(e).Some? && Rank(Reported(e).value.phase) > Furthest(log) then Rank(Reported(e).value.phase) else Furthest(log)
  {
    assert (log + [e])[..|log|] == log;
  }

  lemma LawfulAppend(log: seq<Event>, e: Event)
    requires LawfulLog(log) && Lawful(log, e)
    ensures LawfulLog(log + [e])
  {
    hide Lawful;
    var more := log + [e];
    forall i | 0 <= i < |more| ensures Lawful(more[..i], more[i]) {
      assert more[..i] == if i < |log| then log[..i] else log;
    }
  }

  lemma MembersAppend(log: seq<Event>, e: Event, status: Status)
    ensures Backed(log, status) ==> Backed(log + [e], status)
    ensures NoChildYet(log + [e]) <==> NoChildYet(log) && !e.ChildStarted?
    ensures NotOver(log + [e]) <==> NotOver(log) && !e.RunnerFailed? && !e.ChildEnded?
  {
    assert (log + [e])[|log|] == e;
    if NoChildYet(log + [e]) {
      forall pid ensures ChildStarted(pid) !in log {
        assert ChildStarted(pid) !in log + [e];
      }
    }
    if NotOver(log + [e]) {
      forall exitCode ensures ChildEnded(exitCode) !in log {
        assert ChildEnded(exitCode) !in log + [e];
      }
    }
  }

  /** A step that logs one lawful entry keeps everything that does not depend on the log's end. */
  lemma Extend(s: State, e: Event)
    requires LawfulLog(s.log) && Lawful(s.log, e)
    ensures LawfulLog(s.log + [e])
    ensures Current(s.log + [e]) == if e.Created? || e.Recorded? then Some(e.status) else Current(s.log)
    ensures TakenDigest(s.log + [e]) == if e.Created? then Some(e.digest) else TakenDigest(s.log)
    ensures RunnerWasStarted(s.log + [e]) <==> e.RunnerStarted? || RunnerWasStarted(s.log)
    ensures Furthest(s.log + [e]) ==
            if Reported(e).Some? && Rank(Reported(e).value.phase) > Furthest(s.log)
            then Rank(Reported(e).value.phase) else Furthest(s.log)
    ensures NoChildYet(s.log + [e]) <==> NoChildYet(s.log) && !e.ChildStarted?
    ensures NotOver(s.log + [e]) <==> NotOver(s.log) && !e.RunnerFailed? && !e.ChildEnded?
    ensures forall status :: Backed(s.log, status) ==> Backed(s.log + [e], status)
  {
    AppendFacts(s.log, e);
    LawfulAppend(s.log, e);
    forall status ensures Backed(s.log, status) ==> Backed(s.log + [e], status) {
      MembersAppend(s.log, e, status);
    }
    MembersAppend(s.log, e, ACCEPTED);
  }

  lemma PutKeeps(s: State, digest: bytes, valid: bool)
    requires Inv(s)
    ensures Inv(PutStep(s, digest, valid))
  {
    hide LawfulLog, TakenDigest, RunnerWasStarted, Furthest, NoChildYet, NotOver, Current;
    if !valid {
      Extend(s, Refused(digest));
    } else if s.activation.Free? {
      Extend(s, Created(digest, ACCEPTED));
    } else if s.activation.digest == digest {
      Extend(s, Repeated(digest, s.activation.status));
    } else {
      Extend(s, Conflicted(digest));
    }
  }

  lemma RunnerKeeps(s: State, a: Action)
    requires Inv(s) && !a.Put? && !a.GetStatus?
    ensures Inv(Perform(s, a))
  {
    hide LawfulLog, TakenDigest, RunnerWasStarted, Furthest, NoChildYet, NotOver, Current;
    match a
    case StartRunner =>
      if s.runner.Scheduled? && s.activation.Taken? {
        Extend(s, RunnerStarted(s.activation.digest));
      }
    case SpawnChild(pid) =>
      if s.runner.Preparing? {
        Extend(s, ChildStarted(pid));
      }
    case RecordRunning =>
      if s.runner.Spawned? {
        Extend(s, Recorded(RunningAs(s.runner.pid)));
      }
    case RecordOutcome =>
      if s.runner.Finished? {
        Extend(s, Recorded(s.runner.outcome));
      }
    case ChildExits(exitCode) =>
      if s.runner.Waiting? {
        Extend(s, ChildEnded(exitCode));
      }
    case RunnerFails =>
      if s.runner.Preparing? || s.runner.Waiting? {
        Extend(s, RunnerFailed);
      }
    case _ =>
  }

  lemma ReadKeeps(s: State)
    requires Inv(s)
    ensures Inv(Perform(s, GetStatus))
  {
    hide LawfulLog, TakenDigest, RunnerWasStarted, Furthest, NoChildYet, NotOver, Current;
    Extend(s, StatusRead(if s.activation.Taken? then Some(s.activation.status) else None));
  }

  lemma StepKeeps(s: State, a: Action)
    requires Inv(s)
    ensures Inv(Perform(s, a))
  {
    hide Inv;
    match a
    case Put(digest, valid) => PutKeeps(s, digest, valid);
    case GetStatus => ReadKeeps(s);
    case _ => RunnerKeeps(s, a);
  }

  lemma {:induction false} RunKeeps(s: State, actions: seq<Action>)
    requires Inv(s)
    ensures Inv(Run(s, actions))
    decreases actions
  {
    hide Inv, Perform;
    if actions != [] {
      StepKeeps(s, actions[0]);
      RunKeeps(Perform(s, actions[0]), actions[1..]);
    }
  }

  /** In every interleaving the log is lawful: one activation is taken and never replaced, replays
      and only replays of it succeed, one runner and at most one child are started, for it, and
      reported statuses only move forward and claim only what has happened. */
  lemma EveryRunIsLawful(actions: seq<Action>)
    ensures LawfulLog(Run(INITIAL, actions).log)
  {
    RunKeeps(INITIAL, actions);
  }

  /** After any run, which answer a valid request gets is fixed by the digest taken so far, if any. */
  lemma AnswerIsForced(actions: seq<Action>, digest: bytes)
    ensures
      var log := Run(INITIAL, actions).log;
      var after := Run(INITIAL, actions + [Put(digest, true)]).log;
      && |after| == |log| + 1
      && after[..|log|] == log
      && (after[|log|].Created? <==> TakenDigest(log).None?)
      && (after[|log|].Repeated? <==> TakenDigest(log) == Some(digest))
      && (after[|log|].Conflicted? <==> TakenDigest(log).Some? && TakenDigest(log).value != digest)
  {
    RunKeeps(INITIAL, actions);
    RunAppend(INITIAL, actions, Put(digest, true));
    hide LawfulLog, TakenDigest, Run;
  }

  lemma {:induction false} RunAppend(s: State, actions: seq<Action>, a: Action)
    ensures Run(s, actions + [a]) == Perform(Run(s, actions), a)
    decreases actions
  {
    hide Perform;
    if actions == [] {
      assert (actions + [a])[1..] == [];
    } else {
      assert (actions + [a])[1..] == actions[1..] + [a];
      RunAppend(Perform(s, actions[0]), actions[1..], a);
    }
  }

  // ---- What a lawful log says about positions ----

  lemma {:induction false} DigestStays(log: seq<Event>, i: nat, j: nat)
    requires LawfulLog(log) && i < j <= |log| && log[i].Created?
    ensures TakenDigest(log[..j]) == Some(log[i].digest)
    decreases j
  {
    assert log[..j][..j - 1] == log[..j - 1] && log[..j][j - 1] == log[j - 1];
    if i < j - 1 {
      DigestStays(log, i, j - 1);
      assert Lawful(log[..j - 1], log[j - 1]);
    }
  }

  /** Every success answer after the activation belongs to the digest that was taken, and no second
      activation is ever taken. */
  lemma SuccessBelongsToTheTaken(log: seq<Event>, i: nat, j: nat)
    requires LawfulLog(log) && i < j < |log| && log[i].Created?
    ensures !log[j].Created? && (log[j].Repeated? || log[j].RunnerStarted? ==> log[j].digest == log[i].digest)
  {
    DigestStays(log, i, j);
    assert Lawful(log[..j], log[j]);
  }

  lemma {:induction false} StartStays(log: seq<Event>, i: nat, j: nat)
    requires i < j <= |log| && log[i].RunnerStarted?
    ensures RunnerWasStarted(log[..j])
    decreases j
  {
    assert log[..j][..j - 1] == log[..j - 1] && log[..j][j - 1] == log[j - 1];
    if i < j - 1 {
      StartStays(log, i, j - 1);
    }
  }

  /** At most one runner is started. */
  lemma OneRunner(log: seq<Event>, i: nat, j: nat)
    requires LawfulLog(log) && i < j < |log| && log[i].RunnerStarted?
    ensures !log[j].RunnerStarted?
  {
    StartStays(log, i, j);
    assert Lawful(log[..j], log[j]);
  }

  lemma {:induction false} FurthestStays(log: seq<Event>, i: nat, j: nat)
    requires i < j <= |log| && Reported(log[i]).Some?
    ensures Furthest(log[..j]) >= Rank(Reported(log[i]).value.phase)
    decreases j
  {
    assert log[..j][..j - 1] == log[..j - 1] && log[..j][j - 1] == log[j - 1];
    if i < j - 1 {
      FurthestStays(log, i, j - 1);
    }
  }

  /** A later answer never reports an earlier phase. */
  lemma StatusMovesForward(log: seq<Event>, i: nat, j: nat)
    requires LawfulLog(log) && i < j < |log| && Reported(log[i]).Some? && Reported(log[j]).Some?
    ensures Rank(Reported(log[i]).value.phase) <= Rank(Reported(log[j]).value.phase)
  {
    FurthestStays(log, i, j);
    assert Lawful(log[..j], log[j]);
  }

  // ---- Two runs in full ----

  lemma RunOfTwo(s: State, a: Action, b: Action)
    ensures Run(s, [a, b]) == Perform(Perform(s, a), b)
  {
    hide Perform;
    assert [a, b][1..] == [b] && [b][1..] == [];
    assert Run(Perform(s, a), [b]) == Run(Perform(Perform(s, a), b), []);
  }

  /** An activation from the request to the child's end, with the status asked for on the way. */
  lemma WholeActivation(digest: bytes, pid: Option<nat>, exitCode: Option<int>)
    ensures var s2 := Run(INITIAL, [Put(digest, true), StartRunner]);
            var s4 := Run(s2, [SpawnChild(pid), RecordRunning]);
            var s6 := Run(s4, [GetStatus, ChildExits(exitCode)]);
            var s8 := Run(s6, [RecordOutcome, GetStatus]);
            && s2.log == [Created(digest, Status(Accepted, None, None, false)), RunnerStarted(digest)]
            && s4.log == s2.log + [ChildStarted(pid), Recorded(Status(Running, pid, None, false))]
            && s6.log == s4.log + [StatusRead(Some(Status(Running, pid, None, false))), ChildEnded(exitCode)]
            && s8.log == s6.log + [Recorded(Status(Terminal, None, exitCode, false)),
                                   StatusRead(Some(Status(Terminal, None, exitCode, false)))]
  {
    RunOfTwo(INITIAL, Put(digest, true), StartRunner);
    var s2 := Run(INITIAL, [Put(digest, true), StartRunner]);
    RunOfTwo(s2, SpawnChild(pid), RecordRunning);
    var s4 := Run(s2, [SpawnChild(pid), RecordRunning]);
    RunOfTwo(s4, GetStatus, ChildExits(exitCode));
    var s6 := Run(s4, [GetStatus, ChildExits(exitCode)]);
    RunOfTwo(s6, RecordOutcome, GetStatus);
    hide Run;
    assert s2.log == [] + [Created(digest, ACCEPTED)] + [RunnerStarted(digest)];
    assert s4.log == s2.log + [ChildStarted(pid)] + [Recorded(RunningAs(pid))];
    assert s6.log == s4.log + [StatusRead(Some(RunningAs(pid)))] + [ChildEnded(exitCode)];
  }

  /** A preparation that fails. */
  lemma FailedActivation(digest: bytes)
    ensures var s2 := Run(INITIAL, [Put(digest, true), StartRunner]);
            var s4 := Run(s2, [RunnerFails, RecordOutcome]);
            s4.log == s2.log + [RunnerFailed, Recorded(Status(Terminal, None, None, true))]
  {
    RunOfTwo(INITIAL, Put(digest, true), StartRunner);
    var s2 := Run(INITIAL, [Put(digest, true), StartRunner]);
    RunOfTwo(s2, RunnerFails, RecordOutcome);
    hide Run;
    assert s2.log + [RunnerFailed] + [Recorded(FAILED)] == s2.log + [RunnerFailed, Recorded(FAILED)];
  }

  /** A request that does not validate is refused and changes nothing. */
  lemma InvalidIsRefused(s: State, digest: bytes)
    ensures Perform(s, Put(digest, false)) == s.(log := s.log + [Refused(digest)])
  {
  }
}
