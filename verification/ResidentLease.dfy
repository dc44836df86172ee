/** The resident-process handler and the lease-renewal task it runs beside.

    Every interleaving is a list of actions; an action carries what the outside world decided
    (a request succeeded or failed, the child exited, the cancellation was noticed). The log
    records, in order, what was spawned, sent, acknowledged, read and renewed.
 */
module ResidentLease {
  import opened ByteStrings

  datatype Reason = DesiredStop | LeaseLost

  type ExitCode = Option<int>

  datatype Observed = Starting | Running | Stopped | Failed | Lost

  datatype RenewOutcome = Renewed | StopSignalled | RenewFailed

  /** Errors that end the handler without a word to the server. */
  datatype Cause = Validation | Wait | LossReport

  datatype Event =
    | Spawned(attempt: nat)
    | SpawnFailed(attempt: nat)
    | Exited(exit: ExitCode)                    // the child ended
    | Waited(attempt: nat, exit: ExitCode)      // the handler's wait returned
    | Killed(attempt: nat)                      // killed and waited for while reconciling
    | Posted(attempt: nat, state: Observed, exit: ExitCode)
    | Acked(attempt: nat, state: Observed, exit: ExitCode)
    | CompleteSent(exit: ExitCode)
    | CompleteAcked
    | FailSent(retry: bool)
    | Broke(cause: Cause)
    | Ended                                     // the handler returned
    | CellSet(reason: Reason)
    | ReasonRead(reason: Reason)
    | Renewal(result: RenewOutcome)
    | RenewalStopped

  /** The requests that are retried until they succeed or the lease is cancelled. */
  datatype Kind = PostSpawnFailed | PostStarting | PostRunning | PostTerminal | Complete

  datatype Phase = Check | InFlight | Backoff

  datatype Handler =
    | Validate
    | Spawn
    | Retrying(kind: Kind, phase: Phase)
    | Waiting
    | Cancelled(withChild: bool)                // cancellation noticed, reason not yet read
    | Killing(reason: Reason)
    | Reconciling(reason: Reason)
    | StopPosting | StopCompleting | StopCompleteInFlight
    | PostingLost | FailRetryable | FailTerminal
    | Ending
    | Done

  datatype RenewalTask = Sleeping | Trying(failures: nat) | Deciding | Losing | RenewalEnded | Aborted

  const RENEW_ATTEMPTS: nat := 3

  datatype Child = NoChild | Alive | Gone(code: ExitCode)

  datatype State = State(
    handler: Handler, renewal: RenewalTask, cell: Option<Reason>,
    attempt: nat, maxAttempts: nat, child: Child, lastExit: ExitCode, log: seq<Event>)

  datatype RestartPolicy = Never | OnFailure

  function MaxAttempts(policy: RestartPolicy): (n: nat) {
    if policy == OnFailure then 3 else 1
  }

  function Initial(policy: RestartPolicy): (s: State) {
    State(Validate, Sleeping, None, 1, MaxAttempts(policy), NoChild, None, [])
  }

  // ---- Steps ----

  datatype Outcome = Good | Bad | Cancel

  datatype Action =
    | Handle(outcome: Outcome)
    | Renew(result: RenewOutcome)
    | ChildExits(exit: ExitCode)
    | AbortRenewal

  function Logged(s: State, e: Event): (t: State) {
    s.(log := s.log + [e])
  }

  /** `LeaseCancellation::cancel`: compare-and-exchange from none. */
  function SetCell(s: State, r: Reason): (t: State) {
    if s.cell.None? then Logged(s.(cell := Some(r)), CellSet(r)) else s
  }

  function TerminalState(exit: ExitCode): (o: Observed) {
    if exit == Some(0) then Stopped else Failed
  }

  function NextAttempt(s: State): (t: State) {
    s.(attempt := s.attempt + 1, handler := Validate)
  }

  /** What is posted in each case. */
  function StateOf(s: State, kind: Kind): (o: Observed) {
    match kind
    case PostSpawnFailed => Failed
    case PostStarting => Starting
    case PostRunning => Running
    case PostTerminal => TerminalState(s.lastExit)
    case Complete => Lost
  }

  function ExitOf(s: State, kind: Kind): (e: ExitCode) {
    if kind == PostTerminal then s.lastExit else None
  }

  /** Where the handler goes when a request of the retry loop is answered. */
  function AfterPost(kind: Kind): (h: Handler) {
    match kind
    case PostSpawnFailed => FailTerminal
    case PostStarting => Retrying(PostRunning, Check)
    case PostRunning => Waiting
    case PostTerminal => Retrying(Complete, Check)
    case Complete => Ending
  }

  function Resolved(s: State, kind: Kind): (t: State) {
    Logged(s.(handler := AfterPost(kind)),
           if kind == Complete then CompleteAcked else Acked(s.attempt, StateOf(s, kind), ExitOf(s, kind)))
  }

  predicate WithChild(kind: Kind) {
    kind == PostStarting || kind == PostRunning
  }

  function RetryStep(s: State, kind: Kind, phase: Phase, o: Outcome): (r: Option<State>) {
    match phase
    case Check =>
      if s.cell.Some? then Some(s.(handler := Cancelled(WithChild(kind))))
      else
        Some(Logged(s.(handler := Retrying(kind, InFlight)),
                    if kind == Complete then CompleteSent(s.lastExit)
                    else Posted(s.attempt, StateOf(s, kind), ExitOf(s, kind))))
    case InFlight =>
      if o == Good then Some(Resolved(s, kind)) else Some(s.(handler := Retrying(kind, Backoff)))
    case Backoff =>
      if o == Cancel && s.cell.Some? then Some(s.(handler := Cancelled(WithChild(kind))))
      else Some(s.(handler := Retrying(kind, Check)))
  }

  function SpawnStep(s: State, o: Outcome): (r: Option<State>) {
    if o == Good then
      Some(Logged(s.(child := Alive, handler := Retrying(PostStarting, Check)), Spawned(s.attempt)))
    else
      var t := Logged(s, SpawnFailed(s.attempt));
      if s.attempt < s.maxAttempts then Some(NextAttempt(t))
      else Some(t.(handler := Retrying(PostSpawnFailed, Check)))
  }

  /** The child's wait raced against the cancellation. */
  function WaitStep(s: State, o: Outcome): (r: Option<State>) {
    match o
    case Cancel => if s.cell.Some? then Some(s.(handler := Cancelled(true))) else None
    case Bad => Some(Logged(s.(handler := Ending), Broke(Wait)))
    case Good =>
      if !s.child.Gone? then None
      else
        var code := s.child.code;
        var t := Logged(s.(child := NoChild, lastExit := code), Waited(s.attempt, code));
        if code == Some(0) || s.attempt == s.maxAttempts then Some(t.(handler := Retrying(PostTerminal, Check)))
        else Some(NextAttempt(t))
  }

  function ReconcileStep(s: State, o: Outcome): (r: Option<State>) {
    match s.handler
    case Cancelled(withChild) =>
      if s.cell.None? then None
      else
        var reason := s.cell.value;
        Some(Logged(s.(handler := if withChild then Killing(reason) else Reconciling(reason)), ReasonRead(reason)))
    case Killing(reason) =>
      Some(Logged(s.(child := NoChild, handler := if reason == DesiredStop then StopPosting else PostingLost),
                  Killed(s.attempt)))
    case Reconciling(reason) => Some(s.(handler := if reason == DesiredStop then StopPosting else FailTerminal))
    case StopPosting =>
      if o == Good then Some(Logged(s.(handler := StopCompleting), Acked(s.attempt, Stopped, Some(0)))) else Some(s)
    case StopCompleting => Some(Logged(s.(handler := StopCompleteInFlight), CompleteSent(Some(0))))
    case StopCompleteInFlight =>
      if o == Good then Some(Logged(s.(handler := Ending), CompleteAcked)) else Some(s.(handler := StopCompleting))
    case PostingLost =>
      if o == Good then Some(Logged(s.(handler := FailRetryable), Acked(s.attempt, Lost, None)))
      else Some(Logged(s.(handler := Ending), Broke(LossReport)))
    case FailRetryable => Some(Logged(s.(handler := Ending), FailSent(true)))
    case FailTerminal => Some(Logged(s.(handler := Ending), FailSent(false)))
    case Ending => Some(Logged(s.(handler := Done), Ended))
    case _ => None
  }

  function HandlerStep(s: State, o: Outcome): (r: Option<State>) {
    match s.handler
    case Validate =>
      if o == Good then Some(s.(handler := Spawn)) else Some(Logged(s.(handler := Ending), Broke(Validation)))
    case Spawn => SpawnStep(s, o)
    case Retrying(kind, phase) => RetryStep(s, kind, phase, o)
    case Waiting => WaitStep(s, o)
    case _ => ReconcileStep(s, o)
  }

  /** One attempt of the renewal task has been answered. */
  function AttemptStep(s: State, failures: nat, result: RenewOutcome): (t: State) {
    match result
    case Renewed => s.(renewal := Sleeping)
    case StopSignalled => SetCell(s, DesiredStop).(renewal := Sleeping)
    case RenewFailed => s.(renewal := if failures + 1 < RENEW_ATTEMPTS then Trying(failures + 1) else Deciding)
  }

  function RenewalStep(s: State, result: RenewOutcome): (r: Option<State>) {
    match s.renewal
    case Sleeping => Some(s.(renewal := Trying(0)))
    case Trying(failures) => Some(AttemptStep(Logged(s, Renewal(result)), failures, result))
    case Deciding => Some(s.(renewal := if s.cell == Some(DesiredStop) then Sleeping else Losing))
    case Losing => Some(Logged(SetCell(s, LeaseLost).(renewal := RenewalEnded), RenewalStopped))
    case RenewalEnded => None
    case Aborted => None
  }

  function Perform(s: State, a: Action): (r: Option<State>) {
    match a
    case Handle(o) => HandlerStep(s, o)
    case Renew(result) => RenewalStep(s, result)
    case ChildExits(exit) => if s.child.Alive? then Some(Logged(s.(child := Gone(exit)), Exited(exit))) else None
    case AbortRenewal => if s.handler.Done? then Some(s.(renewal := Aborted)) else None
  }

  /** The state after the actions, an action that is not possible being skipped. */
  function Run(s: State, actions: seq<Action>): (t: State)
    decreases actions
  {
    if actions == [] then s
    else
      match Perform(s, actions[0])
      case Some(t) => Run(t, actions[1..])
      case None => Run(s, actions[1..])
  }

  // ---- Reading a log ----

  /** A child has been spawned and neither waited for nor killed. */
  predicate ChildOutstanding(log: seq<Event>) {
    log != [] &&
    match log[|log| - 1]
    case Spawned(_) => true
    case Waited(_, _) => false
    case Killed(_) => false
    case _ => ChildOutstanding(log[..|log| - 1])
  }

  /** How the child spawned last ended, if it has. */
  function ExitSinceSpawn(log: seq<Event>): (r: Option<ExitCode>) {
    if log == [] then None
    else
      match log[|log| - 1]
      case Exited(exit) => Some(exit)
      case Spawned(_) => None
      case _ => ExitSinceSpawn(log[..|log| - 1])
  }

  predicate WasKilled(log: seq<Event>) {
    log != [] && (log[|log| - 1].Killed? || WasKilled(log[..|log| - 1]))
  }

  /** The exit code of the last child waited for. */
  function LastWaited(log: seq<Event>): (r: Option<ExitCode>) {
    if log == [] then None
    else if log[|log| - 1].Waited? then Some(log[|log| - 1].exit)
    else LastWaited(log[..|log| - 1])
  }

  function SpawnCount(log: seq<Event>): (n: nat) {
    if log == [] then 0 else SpawnCount(log[..|log| - 1]) + if log[|log| - 1].Spawned? then 1 else 0
  }

  function ReadOf(log: seq<Event>): (r: Option<Reason>) {
    if log == [] then None
    else if log[|log| - 1].ReasonRead? then Some(log[|log| - 1].reason)
    else ReadOf(log[..|log| - 1])
  }

  function CellOf(log: seq<Event>): (r: Option<Reason>) {
    if log == [] then None
    else if log[|log| - 1].CellSet? then Some(log[|log| - 1].reason)
    else CellOf(log[..|log| - 1])
  }

  /** The last answer to a renewal. */
  function LastRenewal(log: seq<Event>): (r: Option<RenewOutcome>) {
    if log == [] then None
    else if log[|log| - 1].Renewal? then Some(log[|log| - 1].result)
    else LastRenewal(log[..|log| - 1])
  }

  /** How many renewals have failed since the last one that did not. */
  function FailuresAtEnd(log: seq<Event>): (n: nat) {
    if log == [] then 0
    else
      match log[|log| - 1]
      case Renewal(RenewFailed) => 1 + FailuresAtEnd(log[..|log| - 1])
      case Renewal(_) => 0
      case _ => FailuresAtEnd(log[..|log| - 1])
  }

  /** `Stopped` with exit 0 was acknowledged after the handler read the reason. */
  predicate StoppedSinceRead(log: seq<Event>) {
    log != [] &&
    var init, e := log[..|log| - 1], log[|log| - 1];
    (e.Acked? && e.state == Stopped && e.exit == Some(0) && ReadOf(init).Some?) || StoppedSinceRead(init)
  }

  ghost predicate TerminalAcked(log: seq<Event>, exit: ExitCode) {
    if exit == Some(0) then exists a :: Acked(a, Stopped, exit) in log else exists a :: Acked(a, Failed, exit) in log
  }

  ghost predicate LossAcked(log: seq<Event>) {
    exists a :: Acked(a, Lost, None) in log
  }

  /** Attempt `a` came to nothing. */
  ghost predicate AttemptFailed(log: seq<Event>, a: nat) {
    SpawnFailed(a) in log || exists exit :: exit != Some(0) && Waited(a, exit) in log
  }

  /** The lease has been completed or given back, or an error ends the handler. */
  ghost predicate Settled(log: seq<Event>) {
    || CompleteAcked in log
    || (ReadOf(log) != Some(DesiredStop) &&
        (FailSent(true) in log || FailSent(false) in log || exists cause :: Broke(cause) in log))
  }

  // ---- What every entry of a log must satisfy, given what came before it ----

  /** A child failed in the last attempt with `exit`, or the last attempt could not even spawn one. */
  ghost predicate AttemptsExhausted(log: seq<Event>, exit: ExitCode, maxAttempts: nat) {
    || (LastWaited(log) == Some(exit) && Waited(maxAttempts, exit) in log)
    || (exit == None && SpawnFailed(maxAttempts) in log)
  }

  ghost predicate LawfulAck(before: seq<Event>, a: nat, state: Observed, exit: ExitCode, maxAttempts: nat) {
    && (ReadOf(before).None? ==> Posted(a, state, exit) in before)
    && match state
       case Starting => Spawned(a) in before && ChildOutstanding(before)
       case Running => Acked(a, Starting, None) in before && ChildOutstanding(before)
       case Lost => !ChildOutstanding(before) && ReadOf(before) == Some(LeaseLost) && WasKilled(before)
       case Stopped =>
         && !ChildOutstanding(before) && exit == Some(0)
         && (ReadOf(before).None? ==> LastWaited(before) == Some(Some(0)))
         && (ReadOf(before).Some? ==> ReadOf(before) == Some(DesiredStop))
       case Failed =>
         && !ChildOutstanding(before) && exit != Some(0) && ReadOf(before).None?
         && AttemptsExhausted(before, exit, maxAttempts)
  }

  ghost predicate LawfulRequest(before: seq<Event>, e: Event, maxAttempts: nat)
    requires e.CompleteSent? || e.FailSent? || e.Broke? || e.CompleteAcked? || e.Ended?
  {
    match e
    case CompleteSent(exit) =>
      && !ChildOutstanding(before)
      && TerminalAcked(before, exit)
      && (ReadOf(before).None? ==>
            && CellOf(before).None? && LastWaited(before) == Some(exit)
            && (exit != Some(0) ==> Waited(maxAttempts, exit) in before))
      && (ReadOf(before).Some? ==>
            ReadOf(before).value == DesiredStop && exit == Some(0) && StoppedSinceRead(before))
    case CompleteAcked => exists exit :: CompleteSent(exit) in before
    case FailSent(retry) =>
      && !ChildOutstanding(before)
      && ReadOf(before) != Some(DesiredStop)
      && (retry ==> ReadOf(before) == Some(LeaseLost) && WasKilled(before) && LossAcked(before))
      && (!retry ==>
            || (ReadOf(before) == Some(LeaseLost) && !WasKilled(before))
            || (ReadOf(before).None? && SpawnFailed(maxAttempts) in before && Acked(maxAttempts, Failed, None) in before))
    case Broke(Validation) => ReadOf(before).None? && !ChildOutstanding(before)
    case Broke(Wait) => ReadOf(before).None? && ChildOutstanding(before)
    case Broke(LossReport) => ReadOf(before) == Some(LeaseLost) && WasKilled(before) && !ChildOutstanding(before)
    case Ended => Settled(before)
  }

  ghost predicate LawfulRenewal(before: seq<Event>, e: Event)
    requires e.CellSet? || e.ReasonRead? || e.RenewalStopped?
  {
    match e
    case CellSet(DesiredStop) => CellOf(before).None? && LastRenewal(before) == Some(StopSignalled)
    case CellSet(LeaseLost) => CellOf(before).None? && FailuresAtEnd(before) >= 3
    case ReasonRead(r) => ReadOf(before).None? && CellOf(before) == Some(r)
    case RenewalStopped => CellOf(before) == Some(LeaseLost) && FailuresAtEnd(before) >= 3
  }

  ghost predicate Lawful(before: seq<Event>, e: Event, maxAttempts: nat) {
    match e
    case Spawned(a) =>
      && !ChildOutstanding(before) && SpawnCount(before) < a <= maxAttempts
      && ReadOf(before).None? && LastWaited(before) != Some(Some(0))
      && (a > 1 ==> AttemptFailed(before, a - 1))
    case SpawnFailed(a) => !ChildOutstanding(before) && ReadOf(before).None? && (a > 1 ==> AttemptFailed(before, a - 1))
    case Exited(_) => ChildOutstanding(before) && ExitSinceSpawn(before).None?
    case Waited(a, exit) =>
      && Acked(a, Running, None) in before && ChildOutstanding(before) && ReadOf(before).None?
      && ExitSinceSpawn(before) == Some(exit)
    case Killed(_) => ChildOutstanding(before) && ReadOf(before).Some?
    case Posted(_, _, _) => CellOf(before).None? && ReadOf(before).None?
    case Acked(a, state, exit) => LawfulAck(before, a, state, exit, maxAttempts)
    case Renewal(_) => true
    case CellSet(_) => LawfulRenewal(before, e)
    case ReasonRead(_) => LawfulRenewal(before, e)
    case RenewalStopped => LawfulRenewal(before, e)
    case _ => LawfulRequest(before, e, maxAttempts)
  }

  ghost predicate LawfulLog(log: seq<Event>, maxAttempts: nat) {
    forall i :: 0 <= i < |log| ==> Lawful(log[..i], log[i], maxAttempts)
  }

  lemma LawfulAppend(log: seq<Event>, e: Event, maxAttempts: nat)
    requires LawfulLog(log, maxAttempts) && Lawful(log, e, maxAttempts)
    ensures LawfulLog(log + [e], maxAttempts)
  {
    hide Lawful;
    var more := log + [e];
    forall i | 0 <= i < |more| ensures Lawful(more[..i], more[i], maxAttempts) {
      assert more[..i] == if i < |log| then log[..i] else log;
    }
  }

  lemma ReadAppend(log: seq<Event>, e: Event)
    ensures ReadOf(log + [e]) == if e.ReasonRead? then Some(e.reason) else ReadOf(log)
    ensures CellOf(log + [e]) == if e.CellSet? then Some(e.reason) else CellOf(log)
    ensures LastWaited(log + [e]) == if e.Waited? then Some(e.exit) else LastWaited(log)
    ensures SpawnCount(log + [e]) == SpawnCount(log) + if e.Spawned? then 1 else 0
    ensures ChildOutstanding(log + [e]) == (e.Spawned? || (!e.Waited? && !e.Killed? && ChildOutstanding(log)))
    ensures WasKilled(log + [e]) == (e.Killed? || WasKilled(log))
    ensures ExitSinceSpawn(log + [e]) ==
            if e.Exited? then Some(e.exit) else if e.Spawned? then None else ExitSinceSpawn(log)
    ensures LastRenewal(log + [e]) == if e.Renewal? then Some(e.result) else LastRenewal(log)
    ensures FailuresAtEnd(log + [e]) ==
            if !e.Renewal? then FailuresAtEnd(log) else if e.result == RenewFailed then 1 + FailuresAtEnd(log) else 0
    ensures StoppedSinceRead(log + [e]) ==
            ((e.Acked? && e.state == Stopped && e.exit == Some(0) && ReadOf(log).Some?) || StoppedSinceRead(log))
  {
    assert (log + [e])[..|log|] == log;
  }

  lemma FoundAppend(log: seq<Event>, e: Event)
    ensures forall exit :: TerminalAcked(log, exit) ==> TerminalAcked(log + [e], exit)
    ensures forall a :: AttemptFailed(log, a) ==> AttemptFailed(log + [e], a)
    ensures LossAcked(log) ==> LossAcked(log + [e])
    ensures e in log + [e] && forall f :: f in log ==> f in log + [e]
  {
  }

  // ---- The invariant ----

  /** What the log says at each point of the handler. */
  ghost predicate HandlerFacts(s: State) {
    var quiet := s.child.NoChild? && ReadOf(s.log).None? && !WasKilled(s.log);
    var busy := !s.child.NoChild? && ReadOf(s.log).None? && !WasKilled(s.log);
    match s.handler
    case Validate => quiet && Fresh(s)
    case Spawn => quiet && Fresh(s)
    case Retrying(kind, phase) =>
      && (phase == InFlight && kind != Complete ==> Posted(s.attempt, StateOf(s, kind), ExitOf(s, kind)) in s.log)
      && (phase == InFlight && kind == Complete ==> CompleteSent(s.lastExit) in s.log)
      && (match kind
          case PostSpawnFailed => quiet && s.attempt == s.maxAttempts && SpawnFailed(s.maxAttempts) in s.log
          case PostStarting => busy && Spawned(s.attempt) in s.log
          case PostRunning => busy && Acked(s.attempt, Starting, None) in s.log
          case PostTerminal => quiet && LastChild(s)
          case Complete => quiet && LastChild(s) && TerminalAcked(s.log, s.lastExit))
    case Waiting => busy && Acked(s.attempt, Running, None) in s.log
    case Cancelled(withChild) => s.cell.Some? && if withChild then busy else quiet
    case Killing(reason) => !s.child.NoChild? && ReadOf(s.log) == Some(reason)
    case Reconciling(reason) => s.child.NoChild? && ReadOf(s.log) == Some(reason) && !WasKilled(s.log)
    case StopPosting => s.child.NoChild? && ReadOf(s.log) == Some(DesiredStop)
    case StopCompleting => s.child.NoChild? && ReadOf(s.log) == Some(DesiredStop) && StopAcked(s.log)
    case StopCompleteInFlight =>
      s.child.NoChild? && ReadOf(s.log) == Some(DesiredStop) && StopAcked(s.log) && CompleteSent(Some(0)) in s.log
    case PostingLost => s.child.NoChild? && ReadOf(s.log) == Some(LeaseLost) && WasKilled(s.log)
    case FailRetryable => s.child.NoChild? && ReadOf(s.log) == Some(LeaseLost) && WasKilled(s.log) && LossAcked(s.log)
    case FailTerminal =>
      && s.child.NoChild? && !WasKilled(s.log)
      && (|| ReadOf(s.log) == Some(LeaseLost)
          || (ReadOf(s.log).None? && SpawnFailed(s.maxAttempts) in s.log && Acked(s.maxAttempts, Failed, None) in s.log))
    case Ending => Settled(s.log)
    case Done => Ended in s.log
  }

  /** The attempt about to be made is the first, or follows one that failed. */
  ghost predicate Fresh(s: State) {
    && SpawnCount(s.log) < s.attempt && LastWaited(s.log) != Some(Some(0))
    && (s.attempt > 1 ==> AttemptFailed(s.log, s.attempt - 1))
  }

  /** The child waited for last succeeded or was that of the last attempt. */
  ghost predicate LastChild(s: State) {
    && LastWaited(s.log) == Some(s.lastExit)
    && (s.lastExit != Some(0) ==> Waited(s.maxAttempts, s.lastExit) in s.log)
  }

  ghost predicate StopAcked(log: seq<Event>) {
    StoppedSinceRead(log) && TerminalAcked(log, Some(0))
  }

  ghost predicate RenewalFacts(s: State) {
    && (s.renewal.Trying? ==> s.renewal.failures < 3 && FailuresAtEnd(s.log) >= s.renewal.failures)
    && (s.renewal.Deciding? || s.renewal.Losing? ==> FailuresAtEnd(s.log) >= 3)
    && (s.renewal.Losing? ==> s.cell.None?)
    && (s.cell == Some(LeaseLost) ==> s.renewal.RenewalEnded? || s.renewal.Aborted?)
    && (s.renewal.RenewalEnded? ==> s.cell == Some(LeaseLost))
  }

  ghost predicate ChildFacts(s: State) {
    && (!s.child.NoChild? <==> ChildOutstanding(s.log))
    && (s.child.Alive? ==> ExitSinceSpawn(s.log).None?)
    && (s.child.Gone? ==> ExitSinceSpawn(s.log) == Some(s.child.code))
  }

  ghost predicate Inv(s: State) {
    && LawfulLog(s.log, s.maxAttempts)
    && s.cell == CellOf(s.log)
    && ChildFacts(s)
    && SpawnCount(s.log) <= s.attempt && 1 <= s.attempt <= s.maxAttempts
    && (ReadOf(s.log).Some? ==> s.cell == ReadOf(s.log))
    && HandlerFacts(s)
    && RenewalFacts(s)
  }

  /** A lawful entry at the end of the log: everything that can be read off it afterwards. */
  lemma LogStep(s: State, e: Event)
    requires LawfulLog(s.log, s.maxAttempts) && Lawful(s.log, e, s.maxAttempts)
    ensures LawfulLog(s.log + [e], s.maxAttempts)
    ensures e in s.log + [e] && forall f :: f in s.log ==> f in s.log + [e]
  {
    hide Lawful;
    LawfulAppend(s.log, e, s.maxAttempts);
  }

  lemma ResolvedKeeps(s: State, kind: Kind)
    requires Inv(s) && s.handler == Retrying(kind, InFlight)
    ensures Inv(Resolved(s, kind))
  {
    hide LawfulLog, ReadOf, CellOf, LastWaited, SpawnCount, ChildOutstanding, StoppedSinceRead, WasKilled, ExitSinceSpawn, LastRenewal, FailuresAtEnd;
    var e := if kind == Complete then CompleteAcked else Acked(s.attempt, StateOf(s, kind), ExitOf(s, kind));
    ReadAppend(s.log, e);
    FoundAppend(s.log, e);
    LogStep(s, e);
  }

  lemma SendKeeps(s: State, kind: Kind, o: Outcome)
    requires Inv(s) && s.handler == Retrying(kind, Check)
    ensures var r := RetryStep(s, kind, Check, o); r.Some? ==> Inv(r.value)
  {
    hide LawfulLog, ReadOf, CellOf, LastWaited, SpawnCount, ChildOutstanding, StoppedSinceRead, WasKilled, ExitSinceSpawn, LastRenewal, FailuresAtEnd;
    if s.cell.None? {
      var e := if kind == Complete then CompleteSent(s.lastExit) else Posted(s.attempt, StateOf(s, kind), ExitOf(s, kind));
      ReadAppend(s.log, e);
      FoundAppend(s.log, e);
      LogStep(s, e);
    }
  }

  lemma RetryKeeps(s: State, o: Outcome)
    requires Inv(s) && s.handler.Retrying?
    ensures var r := RetryStep(s, s.handler.kind, s.handler.phase, o); r.Some? ==> Inv(r.value)
  {
    hide LawfulLog, ReadOf, CellOf, LastWaited, SpawnCount, ChildOutstanding, StoppedSinceRead, WasKilled, ExitSinceSpawn, LastRenewal, FailuresAtEnd;
    match s.handler.phase
    case Check => SendKeeps(s, s.handler.kind, o);
    case InFlight => ResolvedKeeps(s, s.handler.kind);
    case Backoff =>
  }

  lemma SpawnKeeps(s: State, o: Outcome)
    requires Inv(s) && s.handler.Spawn?
    ensures var r := SpawnStep(s, o); r.Some? ==> Inv(r.value)
  {
    hide LawfulLog, ReadOf, CellOf, LastWaited, SpawnCount, ChildOutstanding, StoppedSinceRead, WasKilled, ExitSinceSpawn, LastRenewal, FailuresAtEnd;
    var e := if o == Good then Spawned(s.attempt) else SpawnFailed(s.attempt);
    ReadAppend(s.log, e);
    FoundAppend(s.log, e);
    LogStep(s, e);
  }

  lemma WaitKeeps(s: State, o: Outcome)
    requires Inv(s) && s.handler.Waiting?
    ensures var r := WaitStep(s, o); r.Some? ==> Inv(r.value)
  {
    hide LawfulLog, ReadOf, CellOf, LastWaited, SpawnCount, ChildOutstanding, StoppedSinceRead, WasKilled, ExitSinceSpawn, LastRenewal, FailuresAtEnd;
    if o == Bad {
      ReadAppend(s.log, Broke(Wait));
      FoundAppend(s.log, Broke(Wait));
      LogStep(s, Broke(Wait));
    } else if o == Good && s.child.Gone? {
      var e := Waited(s.attempt, s.child.code);
      ReadAppend(s.log, e);
      FoundAppend(s.log, e);
      LogStep(s, e);
    }
  }

  lemma ValidateKeeps(s: State, o: Outcome)
    requires Inv(s) && s.handler.Validate?
    ensures Inv(HandlerStep(s, o).value)
  {
    hide LawfulLog, ReadOf, CellOf, LastWaited, SpawnCount, ChildOutstanding, StoppedSinceRead, WasKilled, ExitSinceSpawn, LastRenewal, FailuresAtEnd;
    if o != Good {
      ReadAppend(s.log, Broke(Validation));
      FoundAppend(s.log, Broke(Validation));
      LogStep(s, Broke(Validation));
    }
  }

  /** Reading the reason and stopping the child. */
  lemma CancelKeeps(s: State, o: Outcome)
    requires Inv(s) && (s.handler.Cancelled? || s.handler.Killing? || s.handler.Reconciling?)
    ensures var r := ReconcileStep(s, o); r.Some? ==> Inv(r.value)
  {
    hide LawfulLog, ReadOf, CellOf, LastWaited, SpawnCount, ChildOutstanding, StoppedSinceRead, WasKilled, ExitSinceSpawn, LastRenewal, FailuresAtEnd;
    if !s.handler.Reconciling? {
      var e := if s.handler.Cancelled? then ReasonRead(s.cell.value) else Killed(s.attempt);
      ReadAppend(s.log, e);
      FoundAppend(s.log, e);
      LogStep(s, e);
    }
  }

  /** Reporting a desired stop. */
  lemma StopKeeps(s: State, o: Outcome)
    requires Inv(s) && (s.handler.StopPosting? || s.handler.StopCompleting? || s.handler.StopCompleteInFlight?)
    ensures var r := ReconcileStep(s, o); r.Some? ==> Inv(r.value)
  {
    hide LawfulLog, ReadOf, CellOf, LastWaited, SpawnCount, ChildOutstanding, StoppedSinceRead, WasKilled, ExitSinceSpawn, LastRenewal, FailuresAtEnd;
    var e := if s.handler.StopPosting? then Acked(s.attempt, Stopped, Some(0))
             else if s.handler.StopCompleting? then CompleteSent(Some(0)) else CompleteAcked;
    ReadAppend(s.log, e);
    FoundAppend(s.log, e);
    LogStep(s, e);
  }

  /** Giving the lease back, and returning. */
  lemma FailKeeps(s: State, o: Outcome)
    requires Inv(s) && (s.handler.PostingLost? || s.handler.FailRetryable? || s.handler.FailTerminal? || s.handler.Ending?)
    ensures var r := ReconcileStep(s, o); r.Some? ==> Inv(r.value)
  {
    hide LawfulLog, ReadOf, CellOf, LastWaited, SpawnCount, ChildOutstanding, StoppedSinceRead, WasKilled, ExitSinceSpawn, LastRenewal, FailuresAtEnd;
    var e := if s.handler.Ending? then Ended
             else if !s.handler.PostingLost? then FailSent(s.handler.FailRetryable?)
             else if o == Good then Acked(s.attempt, Lost, None) else Broke(LossReport);
    ReadAppend(s.log, e);
    FoundAppend(s.log, e);
    LogStep(s, e);
  }

  /** Entries the handler has no part in leave what it knows alone. */
  lemma BackgroundKeeps(s: State, e: Event)
    requires Inv(s) && Lawful(s.log, e, s.maxAttempts) && (e.CellSet? || e.Renewal? || e.RenewalStopped? || e.Exited?)
    ensures var t := Logged(s, e);
            && LawfulLog(t.log, t.maxAttempts) && SpawnCount(t.log) == SpawnCount(s.log) && ReadOf(t.log) == ReadOf(s.log)
            && CellOf(t.log) == (if e.CellSet? then Some(e.reason) else CellOf(s.log))
            && HandlerFacts(t)
            && ChildOutstanding(t.log) == ChildOutstanding(s.log)
            && (!e.Exited? ==> ExitSinceSpawn(t.log) == ExitSinceSpawn(s.log))
  {
    hide LawfulLog, ReadOf, CellOf, LastWaited, SpawnCount, ChildOutstanding, StoppedSinceRead, WasKilled, ExitSinceSpawn, LastRenewal, FailuresAtEnd;
    ReadAppend(s.log, e);
    FoundAppend(s.log, e);
    LogStep(s, e);
  }

  lemma ExitKeeps(s: State, exit: ExitCode)
    requires Inv(s) && s.child.Alive?
    ensures Inv(Perform(s, ChildExits(exit)).value)
  {
    hide LawfulLog, ReadOf, CellOf, LastWaited, SpawnCount, ChildOutstanding, StoppedSinceRead, WasKilled, ExitSinceSpawn, LastRenewal, FailuresAtEnd;
    BackgroundKeeps(s, Exited(exit));
    ReadAppend(s.log, Exited(exit));
  }

  lemma ResultKeeps(s: State, result: RenewOutcome)
    requires Inv(s) && s.renewal.Trying?
    ensures var t := Logged(s, Renewal(result)); Inv(t.(renewal := Sleeping))
    ensures var t := Logged(s, Renewal(result));
            && LastRenewal(t.log) == Some(result)
            && (result == RenewFailed ==> FailuresAtEnd(t.log) >= s.renewal.failures + 1)
  {
    hide LawfulLog, ReadOf, CellOf, LastWaited, SpawnCount, ChildOutstanding, StoppedSinceRead, WasKilled, ExitSinceSpawn, LastRenewal, FailuresAtEnd;
    BackgroundKeeps(s, Renewal(result));
    ReadAppend(s.log, Renewal(result));
  }

  lemma CellKeeps(s: State, reason: Reason)
    requires Inv(s) && s.cell.None?
    requires if reason == DesiredStop then LastRenewal(s.log) == Some(StopSignalled) else FailuresAtEnd(s.log) >= 3
    ensures Inv(SetCell(s, reason).(renewal := if reason == DesiredStop then Sleeping else RenewalEnded))
    ensures FailuresAtEnd(SetCell(s, reason).log) == FailuresAtEnd(s.log)
  {
    hide LawfulLog, ReadOf, CellOf, LastWaited, SpawnCount, ChildOutstanding, StoppedSinceRead, WasKilled, ExitSinceSpawn, LastRenewal, FailuresAtEnd;
    BackgroundKeeps(s, CellSet(reason));
    ReadAppend(s.log, CellSet(reason));
  }

  lemma AttemptKeeps(s: State, result: RenewOutcome)
    requires Inv(s) && s.renewal.Trying?
    ensures Inv(RenewalStep(s, result).value)
  {
    hide LawfulLog, ReadOf, CellOf, LastWaited, SpawnCount, ChildOutstanding, StoppedSinceRead, WasKilled, ExitSinceSpawn, LastRenewal, FailuresAtEnd;
    ResultKeeps(s, result);
    var t := Logged(s, Renewal(result)).(renewal := Sleeping);
    if result == StopSignalled && s.cell.None? {
      CellKeeps(t, DesiredStop);
    }
  }

  lemma LosingKeeps(s: State, result: RenewOutcome)
    requires Inv(s) && s.renewal.Losing?
    ensures Inv(RenewalStep(s, result).value)
  {
    hide LawfulLog, ReadOf, CellOf, LastWaited, SpawnCount, ChildOutstanding, StoppedSinceRead, WasKilled, ExitSinceSpawn, LastRenewal, FailuresAtEnd;
    CellKeeps(s, LeaseLost);
    var mid := SetCell(s, LeaseLost).(renewal := RenewalEnded);
    BackgroundKeeps(mid, RenewalStopped);
    ReadAppend(mid.log, RenewalStopped);
  }

  lemma RenewalKeeps(s: State, result: RenewOutcome)
    requires Inv(s)
    ensures var r := RenewalStep(s, result); r.Some? ==> Inv(r.value)
  {
    hide LawfulLog, ReadOf, CellOf, LastWaited, SpawnCount, ChildOutstanding, StoppedSinceRead, WasKilled, ExitSinceSpawn, LastRenewal, FailuresAtEnd;
    match s.renewal
    case Trying(_) => AttemptKeeps(s, result);
    case Losing => LosingKeeps(s, result);
    case Deciding => assert s.cell.None? || s.cell.value == DesiredStop || s.cell.value == LeaseLost;
    case _ =>
  }

  lemma HandlerKeeps(s: State, o: Outcome)
    requires Inv(s)
    ensures var r := HandlerStep(s, o); r.Some? ==> Inv(r.value)
  {
    hide Inv, SpawnStep, RetryStep, WaitStep, ReconcileStep;
    match s.handler
    case Validate => ValidateKeeps(s, o);
    case Spawn => SpawnKeeps(s, o);
    case Retrying(_, _) => RetryKeeps(s, o);
    case Waiting => WaitKeeps(s, o);
    case Cancelled(_) => CancelKeeps(s, o);
    case Killing(_) => CancelKeeps(s, o);
    case Reconciling(_) => CancelKeeps(s, o);
    case StopPosting => StopKeeps(s, o);
    case StopCompleting => StopKeeps(s, o);
    case StopCompleteInFlight => StopKeeps(s, o);
    case PostingLost => FailKeeps(s, o);
    case FailRetryable => FailKeeps(s, o);
    case FailTerminal => FailKeeps(s, o);
    case Ending => FailKeeps(s, o);
    case Done => NothingAfterDone(s, o);
  }

  lemma NothingAfterDone(s: State, o: Outcome)
    requires s.handler.Done?
    ensures HandlerStep(s, o).None?
  {
  }

  lemma AbortKeeps(s: State)
    requires Inv(s) && s.handler.Done?
    ensures Inv(s.(renewal := Aborted))
  {
    hide LawfulLog, ReadOf, CellOf, LastWaited, SpawnCount, ChildOutstanding, StoppedSinceRead, WasKilled, ExitSinceSpawn, LastRenewal, FailuresAtEnd;
  }

  /** Every step of the handler, of the renewal task and of the child keeps the invariant. */
  lemma StepKeeps(s: State, a: Action)
    requires Inv(s) && Perform(s, a).Some?
    ensures Inv(Perform(s, a).value)
  {
    hide Inv, HandlerStep, RenewalStep;
    match a
    case Handle(o) => HandlerKeeps(s, o);
    case Renew(result) => RenewalKeeps(s, result);
    case ChildExits(exit) => ExitKeeps(s, exit);
    case AbortRenewal => AbortKeeps(s);
  }

  // ---- Whole runs ----

  lemma {:induction false} RunKeeps(s: State, actions: seq<Action>)
    requires Inv(s)
    ensures Inv(Run(s, actions)) && Run(s, actions).maxAttempts == s.maxAttempts
    decreases actions
  {
    hide Inv, Perform;
    if actions != [] {
      if Perform(s, actions[0]).Some? {
        StepKeeps(s, actions[0]);
        MaxAttemptsFixed(s, actions[0]);
        RunKeeps(Perform(s, actions[0]).value, actions[1..]);
      } else {
        RunKeeps(s, actions[1..]);
      }
    }
  }

  lemma MaxAttemptsFixed(s: State, a: Action)
    requires Perform(s, a).Some?
    ensures Perform(s, a).value.maxAttempts == s.maxAttempts
  {
  }

  /** In every interleaving every entry of the log is lawful, and at most three children are spawned
      under `OnFailure` and at most one otherwise. */
  lemma EveryRunIsLawful(policy: RestartPolicy, actions: seq<Action>)
    ensures var s := Run(Initial(policy), actions);
            var most := if policy == OnFailure then 3 else 1;
            && LawfulLog(s.log, most) && SpawnCount(s.log) <= most
            && (s.handler.Done? ==> Ended in s.log)
  {
    assert Inv(Initial(policy));
    RunKeeps(Initial(policy), actions);
  }

  // ---- What happens next ----

  /** A child that failed before the last attempt is replaced: the next three moves of the handler
      record its exit and spawn the next one. */
  lemma FailedChildIsReplaced(s: State, exit: ExitCode)
    requires s.handler.Waiting? && s.child == Gone(exit) && exit != Some(0) && s.attempt < s.maxAttempts
    ensures var t := Run(s, [Handle(Good), Handle(Good), Handle(Good)]);
            && t.log == s.log + [Waited(s.attempt, exit), Spawned(s.attempt + 1)]
            && t.child == Alive && t.attempt == s.attempt + 1 && t.handler == Retrying(PostStarting, Check)
  {
    var good := Handle(Good);
    RunOfThree(s, good, good, good);
    var s1 := Perform(s, good).value;
    var s2 := Perform(s1, good).value;
    var s3 := Perform(s2, good).value;
    assert s3.log == s.log + [Waited(s.attempt, exit)] + [Spawned(s.attempt + 1)];
  }

  /** A child that succeeded, or that failed in the last attempt, is reported. */
  lemma LastChildIsReported(s: State, exit: ExitCode)
    requires s.handler.Waiting? && s.child == Gone(exit) && s.cell.None? && (exit == Some(0) || s.attempt == s.maxAttempts)
    ensures var t := Run(s, [Handle(Good), Handle(Good), Handle(Good)]);
            var state := if exit == Some(0) then Stopped else Failed;
            && t.log == s.log + [Waited(s.attempt, exit), Posted(s.attempt, state, exit), Acked(s.attempt, state, exit)]
            && t.handler == Retrying(Complete, Check)
  {
    var good := Handle(Good);
    RunOfThree(s, good, good, good);
    var s1 := Perform(s, good).value;
    var s2 := Perform(s1, good).value;
    var s3 := Perform(s2, good).value;
    var state := if exit == Some(0) then Stopped else Failed;
    assert s3.log == s.log + [Waited(s.attempt, exit)] + [Posted(s.attempt, state, exit)] + [Acked(s.attempt, state, exit)];
  }

  /** A spawned child is announced as starting and then as running, and then waited for. */
  lemma ChildIsAnnounced(s: State)
    requires s.handler == Retrying(PostStarting, Check) && s.cell.None?
    ensures var good := Handle(Good);
            var t := Run(Run(s, [good, good, good]), [good]);
            && t.handler == Waiting
            && t.log == s.log + [Posted(s.attempt, Starting, None), Acked(s.attempt, Starting, None)]
                        + [Posted(s.attempt, Running, None), Acked(s.attempt, Running, None)]
  {
    var good := Handle(Good);
    RunOfThree(s, good, good, good);
    var mid := Run(s, [good, good, good]);
    assert mid.log == s.log + [Posted(s.attempt, Starting, None)] + [Acked(s.attempt, Starting, None)] + [Posted(s.attempt, Running, None)];
    assert [good][1..] == [];
    assert Run(mid, [good]) == Run(Perform(mid, good).value, []);
  }

  /** A reported exit is completed, and the handler returns. */
  lemma ReportedExitIsCompleted(s: State)
    requires s.handler == Retrying(Complete, Check) && s.cell.None?
    ensures var t := Run(s, [Handle(Good), Handle(Good), Handle(Good)]);
            t.handler == Done && t.log == s.log + [CompleteSent(s.lastExit), CompleteAcked, Ended]
  {
    var good := Handle(Good);
    var s1 := Perform(s, good).value;
    assert s1.handler == Retrying(Complete, InFlight) && s1.log == s.log + [CompleteSent(s.lastExit)];
    var s2 := Perform(s1, good).value;
    assert s2.handler == Ending && s2.log == s1.log + [CompleteAcked];
    var s3 := Perform(s2, good).value;
    assert s3.handler == Done && s3.log == s2.log + [Ended];
    RunOfThree(s, good, good, good);
  }

  /** A last spawn that failed is reported, and the lease given up for good. */
  lemma FailedSpawnIsReported(s: State)
    requires s.handler == Retrying(PostSpawnFailed, Check) && s.cell.None?
    ensures var t := Run(s, [Handle(Good), Handle(Good), Handle(Good)]);
            t.log == s.log + [Posted(s.attempt, Failed, None), Acked(s.attempt, Failed, None), FailSent(false)]
  {
    var good := Handle(Good);
    var s1 := Perform(s, good).value;
    assert s1.log == s.log + [Posted(s.attempt, Failed, None)];
    var s2 := Perform(s1, good).value;
    assert s2.handler == FailTerminal && s2.log == s1.log + [Acked(s.attempt, Failed, None)];
    RunOfThree(s, good, good, good);
  }

  lemma RunOfThree(s: State, a: Action, b: Action, c: Action)
    requires Perform(s, a).Some? && Perform(Perform(s, a).value, b).Some?
    requires Perform(Perform(Perform(s, a).value, b).value, c).Some?
    ensures Run(s, [a, b, c]) == Perform(Perform(Perform(s, a).value, b).value, c).value
  {
    hide Perform;
    assert [a, b, c][1..] == [b, c] && [b, c][1..] == [c] && [c][1..] == [];
    var s1 := Perform(s, a).value;
    var s2 := Perform(s1, b).value;
    assert Run(s, [a, b, c]) == Run(s1, [b, c]);
    assert Run(s1, [b, c]) == Run(s2, [c]);
    assert Run(s2, [c]) == Run(Perform(s2, c).value, []);
  }

  /** A cancellation is noticed while waiting for the child, before a request is sent and while
      waiting to send it again; the reason is then read, and a child killed. */
  lemma CancellationIsNoticed(s: State, reason: Reason, any: Outcome)
    requires s.cell == Some(reason)
    requires s.handler.Waiting? || (s.handler.Retrying? && s.handler.phase != InFlight)
    ensures var t := Run(s, [Handle(Cancel), Handle(any)]);
            var child := s.handler.Waiting? || s.handler.kind == PostStarting || s.handler.kind == PostRunning;
            && t.log == s.log + [ReasonRead(reason)]
            && t.handler == if child then Killing(reason) else Reconciling(reason)
  {
    assert [Handle(Cancel), Handle(any)][1..] == [Handle(any)] && [Handle(any)][1..] == [];
    var s1 := Perform(s, Handle(Cancel)).value;
    assert Run(s, [Handle(Cancel), Handle(any)]) == Run(s1, [Handle(any)]);
    assert Run(s1, [Handle(any)]) == Run(Perform(s1, Handle(any)).value, []);
  }

  /** A request that fails is sent again, unless a cancellation intervenes. */
  lemma FailedRequestIsSentAgain(s: State, kind: Kind)
    requires s.handler == Retrying(kind, InFlight) && s.cell.None?
    ensures var t := Run(s, [Handle(Bad), Handle(Bad), Handle(Bad)]);
            && t.handler == Retrying(kind, InFlight)
            && t.log == s.log + [if kind == Complete then CompleteSent(s.lastExit)
                                 else Posted(s.attempt, StateOf(s, kind), ExitOf(s, kind))]
  {
    var bad := Handle(Bad);
    RunOfThree(s, bad, bad, bad);
  }

  /** After a desired stop: the child is killed, the stop reported, and the lease completed with 0. */
  lemma DesiredStopRunsItsCourse(s: State)
    requires s.handler == Killing(DesiredStop)
    ensures var good := Handle(Good);
            var t := Run(Run(s, [good, good, good]), [good, good, good]);
            && t.child == NoChild
            && t.log == s.log + [Killed(s.attempt), Acked(s.attempt, Stopped, Some(0)), CompleteSent(Some(0))]
                        + [CompleteAcked, Ended]
  {
    var good := Handle(Good);
    RunOfThree(s, good, good, good);
    var mid := Run(s, [good, good, good]);
    assert mid.log == s.log + [Killed(s.attempt)] + [Acked(s.attempt, Stopped, Some(0))] + [CompleteSent(Some(0))];
    RunOfTwoAndIdle(mid, good);
    hide Run;
    assert mid.log + [CompleteAcked] + [Ended] == mid.log + [CompleteAcked, Ended];
  }

  /** Two moves and a third that is no longer possible. */
  lemma RunOfTwoAndIdle(s: State, a: Action)
    requires Perform(s, a).Some? && Perform(Perform(s, a).value, a).Some?
    requires Perform(Perform(Perform(s, a).value, a).value, a).None?
    ensures Run(s, [a, a, a]) == Perform(Perform(s, a).value, a).value
  {
    hide Perform;
    assert [a, a, a][1..] == [a, a] && [a, a][1..] == [a] && [a][1..] == [];
    var s1 := Perform(s, a).value;
    var s2 := Perform(s1, a).value;
    assert Run(s, [a, a, a]) == Run(s1, [a, a]);
    assert Run(s1, [a, a]) == Run(s2, [a]);
    assert Run(s2, [a]) == Run(s2, []);
  }

  /** After a lost lease: the child is killed, the loss reported, and the lease given back for another
      try; without a child it is given up for good. */
  lemma LostLeaseRunsItsCourse(s: State)
    requires s.handler == Killing(LeaseLost) || s.handler == Reconciling(LeaseLost)
    ensures var good := Handle(Good);
            var t := Run(s, [good, good, good]);
            if s.handler.Killing?
            then t.child == NoChild && t.log == s.log + [Killed(s.attempt), Acked(s.attempt, Lost, None), FailSent(true)]
            else t.log == s.log + [FailSent(false), Ended]
  {
    var good := Handle(Good);
    RunOfThree(s, good, good, good);
    var t := Run(s, [good, good, good]);
    if s.handler.Killing? {
      assert t.log == s.log + [Killed(s.attempt)] + [Acked(s.attempt, Lost, None)] + [FailSent(true)];
    } else {
      assert t.log == s.log + [FailSent(false)] + [Ended];
    }
  }

  /** An activation that no longer validates ends the handler before anything is spawned; so does a
      wait that fails. */
  lemma ErrorsEndTheHandler(s: State)
    requires s.handler.Validate? || s.handler.Waiting?
    ensures var t := Run(s, [Handle(Bad), Handle(Good)]);
            && t.handler == Done && t.child == s.child
            && t.log == s.log + [Broke(if s.handler.Validate? then Validation else Wait), Ended]
  {
    assert [Handle(Bad), Handle(Good)][1..] == [Handle(Good)] && [Handle(Good)][1..] == [];
    var s1 := Perform(s, Handle(Bad)).value;
    assert Run(s, [Handle(Bad), Handle(Good)]) == Run(s1, [Handle(Good)]);
    assert Run(s1, [Handle(Good)]) == Run(Perform(s1, Handle(Good)).value, []);
  }

  /** A spawn that fails is tried again up to the last attempt, and then reported. */
  lemma FailedSpawnIsTriedAgain(s: State)
    requires s.handler.Spawn? && s.attempt <= s.maxAttempts
    ensures var t := Run(s, [Handle(Bad)]);
            && t.log == s.log + [SpawnFailed(s.attempt)]
            && (s.attempt < s.maxAttempts ==> t.handler == Validate && t.attempt == s.attempt + 1)
            && (s.attempt == s.maxAttempts ==> t.handler == Retrying(PostSpawnFailed, Check) && t.attempt == s.attempt)
  {
    assert [Handle(Bad)][1..] == [];
    assert Run(s, [Handle(Bad)]) == Run(Perform(s, Handle(Bad)).value, []);
  }

  /** The server's word that a stop is desired is recorded, unless something else was first. */
  lemma StopIsRecorded(s: State)
    requires s.renewal.Trying?
    ensures var t := Run(s, [Renew(StopSignalled)]);
            t.renewal == Sleeping && t.cell == if s.cell.None? then Some(DesiredStop) else s.cell
  {
    assert [Renew(StopSignalled)][1..] == [];
    assert Run(s, [Renew(StopSignalled)]) == Run(Perform(s, Renew(StopSignalled)).value, []);
  }

  /** A renewal that succeeds leaves the cell alone and renewal asleep. */
  lemma RenewedSleepsAgain(s: State)
    requires s.renewal.Trying?
    ensures var t := Run(s, [Renew(Renewed)]);
            t.renewal == Sleeping && t.cell == s.cell && t.log == s.log + [Renewal(Renewed)]
  {
    assert [Renew(Renewed)][1..] == [];
    assert Perform(s, Renew(Renewed)).Some?;
  }

  /** Three failures of a task that has just woken: the lease is given up, unless a stop was desired,
      and then renewal goes back to sleep. */
  lemma ThreeFailuresDecide(s: State, any: RenewOutcome)
    requires s.renewal == Trying(0)
    ensures var t := Run(Run(s, [Renew(RenewFailed), Renew(RenewFailed), Renew(RenewFailed)]), [Renew(any), Renew(any)]);
            if s.cell.None? then t.cell == Some(LeaseLost) && t.renewal == RenewalEnded
            else if s.cell == Some(DesiredStop) then t.cell == s.cell && t.renewal == Trying(0)
            else t.cell == s.cell && t.renewal == RenewalEnded
  {
    var fail := Renew(RenewFailed);
    RunOfThree(s, fail, fail, fail);
    var mid := Run(s, [fail, fail, fail]);
    assert mid.renewal == Deciding && mid.cell == s.cell;
    assert [Renew(any), Renew(any)][1..] == [Renew(any)] && [Renew(any)][1..] == [];
    var next := Perform(mid, Renew(any)).value;
    var last := Perform(next, Renew(any)).value;
    assert Run(mid, [Renew(any), Renew(any)]) == Run(next, [Renew(any)]);
    assert Run(next, [Renew(any)]) == Run(last, []);
  }

  // ---- What a lawful log says about positions ----

  lemma {:induction false} ReadFound(log: seq<Event>)
    ensures ReadOf(log).Some? ==> exists i :: 0 <= i < |log| && log[i] == ReasonRead(ReadOf(log).value)
    ensures ReadOf(log).None? ==> forall i :: 0 <= i < |log| ==> !log[i].ReasonRead?
  {
    if log != [] && !log[|log| - 1].ReasonRead? {
      ReadFound(log[..|log| - 1]);
    }
  }

  lemma {:induction false} CellFound(log: seq<Event>)
    ensures CellOf(log).Some? ==> exists i :: 0 <= i < |log| && log[i] == CellSet(CellOf(log).value)
    ensures CellOf(log).None? ==> forall i :: 0 <= i < |log| ==> !log[i].CellSet?
  {
    if log != [] && !log[|log| - 1].CellSet? {
      CellFound(log[..|log| - 1]);
    }
  }

  lemma {:induction false} StoppedFound(log: seq<Event>)
    requires StoppedSinceRead(log)
    ensures exists i, k ::
              0 <= i < k < |log| && log[i].ReasonRead? && log[k].Acked? && log[k].state == Stopped && log[k].exit == Some(0)
  {
    var init, e := log[..|log| - 1], log[|log| - 1];
    if StoppedSinceRead(init) {
      StoppedFound(init);
    } else {
      ReadFound(init);
    }
  }

  /** The reason is read at most once, and it is the one that was set. */
  lemma ReadOnce(log: seq<Event>, maxAttempts: nat, i: nat, j: nat)
    requires LawfulLog(log, maxAttempts) && i < |log| && j < |log| && log[i].ReasonRead? && log[j].ReasonRead?
    ensures i == j
  {
    hide LawfulAck, LawfulRequest, ReadOf, CellOf;
    var lo, hi := if i < j then i else j, if i < j then j else i;
    ReadFound(log[..hi]);
    assert Lawful(log[..hi], log[hi], maxAttempts);
  }

  /** The cancellation reason is set at most once. */
  lemma CellSetOnce(log: seq<Event>, maxAttempts: nat, i: nat, j: nat)
    requires LawfulLog(log, maxAttempts) && i < |log| && j < |log| && log[i].CellSet? && log[j].CellSet?
    ensures i == j
  {
    hide LawfulAck, LawfulRequest, ReadOf, CellOf;
    var lo, hi := if i < j then i else j, if i < j then j else i;
    CellFound(log[..hi]);
    assert Lawful(log[..hi], log[hi], maxAttempts);
  }

  /** Once a desired stop is recorded, the renewal task neither declares the lease lost nor stops. */
  lemma DesiredStopKeepsRenewing(log: seq<Event>, maxAttempts: nat, i: nat, j: nat)
    requires LawfulLog(log, maxAttempts) && i < |log| && j < |log| && log[i] == CellSet(DesiredStop)
    ensures log[j] != CellSet(LeaseLost) && !log[j].RenewalStopped?
  {
    if log[j].CellSet? {
      CellSetOnce(log, maxAttempts, i, j);
    }
    if log[j].RenewalStopped? {
      assert Lawful(log[..j], log[j], maxAttempts);
      CellFound(log[..j]);
      var k :| 0 <= k < j && log[..j][k] == CellSet(LeaseLost);
      CellSetOnce(log, maxAttempts, i, k);
    }
  }

  lemma ReadBefore(log: seq<Event>, maxAttempts: nat, i: nat, j: nat)
    requires LawfulLog(log, maxAttempts) && i < j < |log| && log[i].ReasonRead?
    ensures ReadOf(log[..j]) == Some(log[i].reason)
  {
    ReadFound(log[..j]);
    assert log[..j][i] == log[i];
    var k :| 0 <= k < j && log[..j][k] == ReasonRead(ReadOf(log[..j]).value);
    assert log[k].ReasonRead?;
    ReadOnce(log, maxAttempts, i, k);
  }

  /** After reading a desired stop the handler fails nothing, and completes only with exit 0 after
      `Stopped` has been acknowledged in between. */
  lemma DesiredStopIsFollowed(log: seq<Event>, maxAttempts: nat, i: nat, j: nat)
    requires LawfulLog(log, maxAttempts) && i < j < |log| && log[i] == ReasonRead(DesiredStop)
    ensures !log[j].FailSent?
    ensures log[j].CompleteSent? ==>
              && log[j].exit == Some(0)
              && exists k :: i < k < j && log[k].Acked? && log[k].state == Stopped && log[k].exit == Some(0)
  {
    ReadBefore(log, maxAttempts, i, j);
    assert Lawful(log[..j], log[j], maxAttempts);
    if log[j].CompleteSent? {
      StoppedFound(log[..j]);
      var r, k :| 0 <= r < k < j && log[..j][r].ReasonRead? && log[..j][k].Acked? && log[..j][k].state == Stopped
                  && log[..j][k].exit == Some(0);
      assert log[r].ReasonRead?;
      ReadOnce(log, maxAttempts, i, r);
      assert log[k] == log[..j][k];
    }
  }

  /** After reading that the lease was lost the handler never completes it. */
  lemma LostLeaseIsNotCompleted(log: seq<Event>, maxAttempts: nat, i: nat, j: nat)
    requires LawfulLog(log, maxAttempts) && i < j < |log| && log[i] == ReasonRead(LeaseLost)
    ensures !log[j].CompleteSent?
  {
    ReadBefore(log, maxAttempts, i, j);
    assert Lawful(log[..j], log[j], maxAttempts);
  }

  /** Unless it was cancelled, the handler completes with the exit code of the last child it waited
      for, after a terminal observation with that code was acknowledged, and with no child left. A
      failure is completed only as that of the last attempt. */
  lemma CompletionIsEarned(log: seq<Event>, maxAttempts: nat, i: nat)
    requires LawfulLog(log, maxAttempts) && i < |log| && log[i].CompleteSent?
    ensures exists j :: 0 <= j < i && log[j].Acked? && log[j].exit == log[i].exit
                        && log[j].state == if log[i].exit == Some(0) then Stopped else Failed
    ensures !ChildOutstanding(log[..i])
    ensures (forall j :: 0 <= j < i ==> !log[j].ReasonRead?) ==>
              && LastWaited(log[..i]) == Some(log[i].exit)
              && (log[i].exit != Some(0) ==> exists j :: 0 <= j < i && log[j] == Waited(maxAttempts, log[i].exit))
  {
    assert Lawful(log[..i], log[i], maxAttempts);
    var state := if log[i].exit == Some(0) then Stopped else Failed;
    var a :| Acked(a, state, log[i].exit) in log[..i];
    var j :| 0 <= j < i && log[..i][j] == Acked(a, state, log[i].exit);
    assert log[j] == log[..i][j];
    ReadFound(log[..i]);
    if ReadOf(log[..i]).Some? {
      var k :| 0 <= k < i && log[..i][k] == ReasonRead(ReadOf(log[..i]).value);
      assert log[k].ReasonRead?;
    } else if log[i].exit != Some(0) {
      var k :| 0 <= k < i && log[..i][k] == Waited(maxAttempts, log[i].exit);
      assert log[k] == Waited(maxAttempts, log[i].exit);
    }
  }

  /** The answer to a renewal that failed and the two that failed right before it. */
  lemma {:induction false} FailuresFound(log: seq<Event>, n: nat) returns (at: seq<nat>)
    requires FailuresAtEnd(log) >= n
    ensures |at| == n && forall k :: 0 <= k < n ==> at[k] < |log| && log[at[k]] == Renewal(RenewFailed)
    ensures forall k, l :: 0 <= k < l < n ==> at[k] < at[l]
    ensures n > 0 ==> forall m :: at[0] < m < |log| && log[m].Renewal? ==> m in at
    decreases |log|
  {
    if n == 0 {
      return [];
    }
    var init, e := log[..|log| - 1], log[|log| - 1];
    if e == Renewal(RenewFailed) {
      var before := FailuresFound(init, n - 1);
      return before + [|log| - 1];
    } else {
      at := FailuresFound(init, n);
    }
  }

  /** The lease is declared lost, and renewal stops, only when the last three renewals have all
      failed. */
  lemma LostOnlyAfterThreeFailures(log: seq<Event>, maxAttempts: nat, i: nat) returns (a: nat, b: nat, c: nat)
    requires LawfulLog(log, maxAttempts) && i < |log| && (log[i] == CellSet(LeaseLost) || log[i].RenewalStopped?)
    ensures a < b < c < i && log[a] == log[b] == log[c] == Renewal(RenewFailed)
    ensures forall m :: a < m < i && log[m].Renewal? ==> m == b || m == c
  {
    assert Lawful(log[..i], log[i], maxAttempts);
    var at := FailuresFound(log[..i], 3);
    a, b, c := at[0], at[1], at[2];
    assert log[a] == log[..i][a] && log[b] == log[..i][b] && log[c] == log[..i][c];
    forall m | a < m < i && log[m].Renewal? ensures m == b || m == c {
      assert log[..i][m] == log[m];
      assert m in at;
    }
  }

  /** A desired stop is recorded only on the server's word. */
  lemma StopOnlyWhenSignalled(log: seq<Event>, maxAttempts: nat, i: nat)
    requires LawfulLog(log, maxAttempts) && i < |log| && log[i] == CellSet(DesiredStop)
    ensures exists j :: 0 <= j < i && log[j] == Renewal(StopSignalled)
  {
    assert Lawful(log[..i], log[i], maxAttempts);
    RenewalFound(log[..i]);
    var j :| 0 <= j < i && log[..i][j] == Renewal(StopSignalled);
    assert log[j] == log[..i][j];
  }

  lemma {:induction false} RenewalFound(log: seq<Event>)
    ensures LastRenewal(log).Some? ==> exists i :: 0 <= i < |log| && log[i] == Renewal(LastRenewal(log).value)
  {
    if log != [] && !log[|log| - 1].Renewal? {
      RenewalFound(log[..|log| - 1]);
    }
  }

  /** The handler does not return before the lease is completed or given back, or an error of the
      activation check, of the wait or of reporting the loss ends it; after a desired stop only the
      completion will do. */
  lemma NothingIsDropped(log: seq<Event>, maxAttempts: nat, i: nat)
    requires LawfulLog(log, maxAttempts) && i < |log| && log[i] == Ended
    ensures exists j :: 0 <= j < i && (log[j].CompleteAcked? || log[j].FailSent? || log[j].Broke?)
    ensures (exists r :: 0 <= r < i && log[r] == ReasonRead(DesiredStop)) ==> exists j :: 0 <= j < i && log[j].CompleteAcked?
  {
    assert Lawful(log[..i], log[i], maxAttempts);
    var e :| e in log[..i] && (e.CompleteAcked? || e.FailSent? || e.Broke?) && (CompleteAcked in log[..i] ==> e == CompleteAcked);
    var j :| 0 <= j < i && log[..i][j] == e;
    assert log[j] == e;
    if r :| 0 <= r < i && log[r] == ReasonRead(DesiredStop) {
      ReadBefore(log, maxAttempts, r, i);
    }
  }
}
