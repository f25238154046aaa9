/**
 The life of requests over all interleavings: the request task with its record and its permit, the
 handler that awaits it, panics and their unwinding, clients that go away, and shutdown, as a machine
 whose steps any scheduler may order as it likes.
 */
module Lifecycle {
  import opened Wrappers

  /* ---- The log ---- */

  datatype Level = Trace | Debug | Info | Warning | Error | Critical

  function Severity(level: Level): nat {
    match level
    case Trace => 0
    case Debug => 1
    case Info => 2
    case Warning => 3
    case Error => 4
    case Critical => 5
  }

  /** Whether the logger writes lines of the level. */
  predicate Writes(threshold: Level, level: Level) {
    Severity(threshold) <= Severity(level)
  }

  /* ---- The permits ---- */

  /** The free permits, the waiters in order, and the waiters that were given a permit but have not resumed. */
  datatype Permits = Permits(free: nat, queue: seq<nat>, granted: set<nat>) {
    function GiveBack(): Permits {
      if queue == [] then this.(free := free + 1)
      else this.(queue := queue[1..], granted := granted + {queue[0]})
    }

    /** A waiter that is dropped leaves the queue, or gives back what it was given. */
    function Cancel(id: nat): Permits {
      if id in granted then this.(granted := granted - {id}).GiveBack() else this.(queue := Without(queue, id))
    }
  }

  function Without(queue: seq<nat>, id: nat): seq<nat> {
    if queue == [] then []
    else if queue[0] == id then Without(queue[1..], id)
    else [queue[0]] + Without(queue[1..], id)
  }

  /* ---- Requests ---- */

  /** How a submission ends. */
  datatype Outcome = Accepted | PartlyRefused | Temporary | Permanent

  /** The `result` of a record. */
  datatype Verdict =
    | InternalError | BadRequest | AuthError | PolicyError | TooLarge
    | SmtpTemporary | SmtpPermanent | Queued | PartialRefusal

  datatype Record = Record(verdict: Verdict, status: int)

  /** Where the task is; `Decided` and `Recorded` hold the status of the response. */
  datatype Counter =
    | Spawned | Deciding | Waiting | Submitting | Submitted | Released | Reported | Warned
    | Decided(status: int) | Recorded(status: int) | Unwinding | Finished

  /** What the task holds of the permits: nothing, a pending acquisition, or a permit. */
  datatype Slot = NoSlot | Pending | Guard

  datatype TaskResult = Returned(status: int) | Panicked

  /** The handler that awaits the task; it is dropped when the client goes away. */
  datatype Handler = Awaiting | Answered(status: int) | Dropped

  /**
   A request. `made` says that its record was created, `record` is the record while it lives; `lines`
   are the request lines and `warnings` the number of partial-refusal lines it has written.
   */
  datatype Request = Request(
    counter: Counter, made: bool, record: Option<Record>, slot: Slot, submissions: nat, outcome: Option<Outcome>,
    warnings: nat, lines: seq<Record>, result: Option<TaskResult>, handler: Handler)

  const NEW_REQUEST := Request(Spawned, false, None, NoSlot, 0, None, 0, [], None, Awaiting)

  /** The process; `live` is the count of its task tracker. */
  datatype Relay = Relay(
    cap: nat, failOnPartialRefusal: bool, threshold: Level,
    permits: Permits, requests: seq<Request>, live: nat, stopping: bool, serversDone: bool, ended: bool)

  function Start(cap: nat, failOnPartialRefusal: bool, threshold: Level): Relay {
    Relay(cap, failOnPartialRefusal, threshold, Permits(cap, [], {}), [], 0, false, false, false)
  }

  /** The labels of requests that are refused before they are submitted. */
  predicate IsRefusal(verdict: Verdict) {
    verdict in {InternalError, BadRequest, AuthError, PolicyError, TooLarge}
  }

  function StatusOf(verdict: Verdict, failOnPartialRefusal: bool): int {
    match verdict
    case InternalError => 500
    case BadRequest => 400
    case AuthError => 401
    case PolicyError => 403
    case TooLarge => 413
    case SmtpTemporary => 503
    case SmtpPermanent => 502
    case Queued => 200
    case PartialRefusal => if failOnPartialRefusal then 502 else 200
  }

  function ResultStatus(result: TaskResult): int {
    match result case Returned(status) => status case Panicked => 500
  }

  /* ---- Steps ---- */

  datatype Step =
    | Arrive
    | Begin(id: nat)
    | Refuse(id: nat, verdict: Verdict)
    | Ask(id: nat)
    | Resume(id: nat)
    | SubmitReturns(id: nat, outcome: Outcome)
    | Release(id: nat)
    | Report(id: nat)
    | Warn(id: nat)
    | Respond(id: nat)
    | SetStatus(id: nat)
    | Return(id: nat)
    | Panic(id: nat)
    | Unwind(id: nat)
    | Answer(id: nat)
    | Disconnect(id: nat)
    | Stop
    | JoinServers
    | End

  /** A request and the permits, as one step of the task or its handler leaves them. */
  datatype Move = Move(r: Request, permits: Permits)

  /** The record is dropped: its line is written, if the logger writes such lines. */
  function DropRecord(r: Request, threshold: Level): Request
    requires r.record.Some?
  {
    r.(record := None, lines := if Writes(threshold, Info) then r.lines + [r.record.value] else r.lines)
  }

  function SetVerdict(r: Request, verdict: Verdict): Request
    requires r.record.Some?
  {
    r.(record := Some(r.record.value.(verdict := verdict)))
  }

  /** The submission is over, the permit is given back: a failure ends the decision. */
  function Reporting(r: Request): Request
    requires r.record.Some? && r.outcome.Some?
  {
    match r.outcome.value
    case Temporary => SetVerdict(r, SmtpTemporary).(counter := Decided(503))
    case Permanent => SetVerdict(r, SmtpPermanent).(counter := Decided(502))
    case _ => SetVerdict(r, Queued).(counter := Reported)
  }

  /** The line of a partial refusal. */
  function Logged(r: Request, threshold: Level): Request {
    r.(counter := Warned, warnings := if Writes(threshold, Warning) then r.warnings + 1 else r.warnings)
  }

  /** The response of a submission that went through; a partial refusal, once logged, is recorded. */
  function Responding(r: Request, failOnPartialRefusal: bool): Request
    requires r.record.Some?
  {
    if r.counter == Warned then
      SetVerdict(r, PartialRefusal).(counter := Decided(if failOnPartialRefusal then 502 else 200))
    else r.(counter := Decided(200))
  }

  /** A partial refusal is logged before it is recorded. */
  predicate CanRespond(r: Request) {
    r.record.Some? && (r.counter == Warned || (r.counter == Reported && r.outcome == Some(Accepted)))
  }

  /** Unwinding drops the locals of the task, the innermost first; then the task has panicked. */
  function Unwound(r: Request, id: nat, permits: Permits, threshold: Level): Move {
    match r.slot
    case Guard => Move(r.(slot := NoSlot), permits.GiveBack())
    case Pending => Move(r.(slot := NoSlot), permits.Cancel(id))
    case NoSlot =>
      if r.record.Some? then Move(DropRecord(r, threshold), permits)
      else Move(r.(counter := Finished, result := Some(Panicked)), permits)
  }

  /** Behind the assignment of the status only the record is dropped. */
  predicate CanPanic(counter: Counter) {
    !counter.Recorded? && counter != Unwinding && counter != Finished
  }

  /** The steps of one request: its task, or its handler. */
  function MoveOf(s: Relay, id: nat, step: Step): Option<Move>
    requires id < |s.requests|
  {
    var r, permits := s.requests[id], s.permits;
    match step
    case Begin(_) =>
      if r.counter != Spawned then None
      else Some(Move(r.(counter := Deciding, made := true, record := Some(Record(InternalError, 500))), permits))
    case Refuse(_, verdict) =>
      if r.counter != Deciding || r.record.None? || !IsRefusal(verdict) then None
      else Some(Move(SetVerdict(r, verdict).(counter := Decided(StatusOf(verdict, s.failOnPartialRefusal))), permits))
    case Ask(_) =>
      if r.counter != Deciding then None
      else if permits.free > 0 then
        Some(Move(r.(counter := Submitting, slot := Guard, submissions := r.submissions + 1),
          permits.(free := permits.free - 1)))
      else Some(Move(r.(counter := Waiting, slot := Pending), permits.(queue := permits.queue + [id])))
    case Resume(_) =>
      if r.counter != Waiting || id !in permits.granted then None
      else
        Some(Move(r.(counter := Submitting, slot := Guard, submissions := r.submissions + 1),
          permits.(granted := permits.granted - {id})))
    case SubmitReturns(_, outcome) =>
      if r.counter != Submitting then None else Some(Move(r.(counter := Submitted, outcome := Some(outcome)), permits))
    case Release(_) =>
      if r.counter != Submitted then None
      else Some(Move(r.(counter := Released, slot := NoSlot), permits.GiveBack()))
    case Report(_) =>
      if r.counter != Released || r.record.None? || r.outcome.None? then None
      else Some(Move(Reporting(r), permits))
    case Warn(_) =>
      if r.counter != Reported || r.outcome != Some(PartlyRefused) then None
      else Some(Move(Logged(r, s.threshold), permits))
    case Respond(_) =>
      if !CanRespond(r) then None else Some(Move(Responding(r, s.failOnPartialRefusal), permits))
    case SetStatus(_) =>
      if !r.counter.Decided? || r.record.None? then None
      else
        Some(Move(r.(counter := Recorded(r.counter.status),
          record := Some(r.record.value.(status := r.counter.status))), permits))
    case Return(_) =>
      if !r.counter.Recorded? || r.record.None? then None
      else
        var ended := DropRecord(r, s.threshold);
        Some(Move(ended.(counter := Finished, result := Some(Returned(r.counter.status))), permits))
    case Panic(_) =>
      if !CanPanic(r.counter) then None else Some(Move(r.(counter := Unwinding), permits))
    case Unwind(_) =>
      if r.counter != Unwinding then None else Some(Unwound(r, id, permits, s.threshold))
    case Answer(_) =>
      if r.handler != Awaiting || r.result.None? then None
      else Some(Move(r.(handler := Answered(ResultStatus(r.result.value))), permits))
    case Disconnect(_) =>
      if r.handler != Awaiting then None else Some(Move(r.(handler := Dropped), permits))
    case _ => None
  }

  predicate NoneAwaits(s: Relay) {
    forall i :: 0 <= i < |s.requests| ==> s.requests[i].handler != Awaiting
  }

  predicate IsOwn(step: Step) {
    !step.Arrive? && !step.Stop? && !step.JoinServers? && !step.End?
  }

  /** A task that has finished leaves the tracker. */
  function Moved(s: Relay, id: nat, m: Move): Relay
    requires id < |s.requests|
  {
    var left := s.requests[id].counter != Finished && m.r.counter == Finished && s.live > 0;
    s.(requests := s.requests[id := m.r], permits := m.permits, live := if left then s.live - 1 else s.live)
  }

  /** The state after a step, if the step can happen. */
  function Next(s: Relay, step: Step): Option<Relay> {
    if s.ended then None
    else if IsOwn(step) then
      if step.id >= |s.requests| then None
      else match MoveOf(s, step.id, step) case None => None case Some(m) => Some(Moved(s, step.id, m))
    else match step
      case Arrive =>
        if s.serversDone then None
        else Some(s.(requests := s.requests + [NEW_REQUEST], live := s.live + 1))
      case Stop => Some(s.(stopping := true))
      case JoinServers => if !s.stopping || !NoneAwaits(s) then None else Some(s.(serversDone := true))
      case End => if !s.serversDone || s.live > 0 then None else Some(s.(ended := true))
  }

  /** A run of the machine, if every step of it can happen. */
  function Run(s: Relay, steps: seq<Step>): Option<Relay>
    decreases |steps|
  {
    if steps == [] then Some(s)
    else
      var next :- Next(s, steps[0]);
      Run(next, steps[1..])
  }

  /* ---- Sums over the requests ---- */

  function Sum(rs: seq<Request>, f: Request -> nat): nat {
    if rs == [] then 0 else f(rs[0]) + Sum(rs[1..], f)
  }

  function Guards(r: Request): nat {
    if r.slot == Guard then 1 else 0
  }

  function Unfinished(r: Request): nat {
    if r.counter == Finished then 0 else 1
  }

  lemma {:induction false} SumUpdate(rs: seq<Request>, i: nat, r: Request, f: Request -> nat)
    requires i < |rs|
    ensures Sum(rs[i := r], f) == Sum(rs, f) - f(rs[i]) + f(r)
  {
    if i == 0 {
      assert rs[0 := r][1..] == rs[1..];
    } else {
      SumUpdate(rs[1..], i - 1, r, f);
      assert rs[i := r][1..] == rs[1..][i - 1 := r];
    }
  }

  lemma {:induction false} SumAppend(rs: seq<Request>, r: Request, f: Request -> nat)
    ensures Sum(rs + [r], f) == Sum(rs, f) + f(r)
  {
    if rs == [] {
      assert [] + [r] == [r] && [r][1..] == [];
    } else {
      SumAppend(rs[1..], r, f);
      assert (rs + [r])[1..] == rs[1..] + [r];
    }
  }

  lemma {:induction false} SumZero(rs: seq<Request>, f: Request -> nat)
    requires Sum(rs, f) == 0
    ensures forall i :: 0 <= i < |rs| ==> f(rs[i]) == 0
  {
    if rs != [] {
      SumZero(rs[1..], f);
    }
  }

  lemma {:induction false} SumPositive(rs: seq<Request>, f: Request -> nat) returns (id: nat)
    requires Sum(rs, f) > 0
    ensures id < |rs| && f(rs[id]) > 0
  {
    if f(rs[0]) > 0 {
      id := 0;
    } else {
      var rest := SumPositive(rs[1..], f);
      id := rest + 1;
    }
  }

  /* ---- The invariant ---- */

  /** The message went to the SMTP server, whole or in part. */
  predicate WasTaken(r: Request) {
    r.outcome == Some(Accepted) || r.outcome == Some(PartlyRefused)
  }

  predicate SaysTaken(verdict: Verdict) {
    verdict == Queued || verdict == PartialRefusal
  }

  /** The task has come far enough to hold its record. */
  predicate HasRecord(counter: Counter) {
    counter != Spawned && counter != Unwinding && counter != Finished
  }

  ghost predicate SlotIsSound(r: Request) {
    && (r.slot == Pending ==> r.counter == Waiting || r.counter == Unwinding)
    && (r.slot == Guard ==> r.counter in {Submitting, Submitted, Unwinding})
    && (r.counter == Waiting ==> r.slot == Pending)
    && (r.counter in {Submitting, Submitted} ==> r.slot == Guard)
  }

  ghost predicate SubmissionIsSound(r: Request) {
    && r.submissions <= 1
    && (r.counter in {Spawned, Deciding, Waiting} ==> r.submissions == 0)
    && (r.outcome.Some? ==> r.submissions == 1)
    && (r.counter in {Submitting, Submitted, Released, Reported, Warned} ==> r.submissions == 1)
    && (r.counter in {Spawned, Deciding, Waiting, Submitting} ==> r.outcome == None)
    && (r.counter in {Submitted, Released} ==> r.outcome.Some?)
    && (r.counter == Reported ==> WasTaken(r))
    && (r.counter == Warned ==> r.outcome == Some(PartlyRefused))
  }

  /** When the record is there. */
  ghost predicate RecordLives(r: Request) {
    && (r.record.Some? ==> r.made)
    && (HasRecord(r.counter) ==> r.record.Some?)
    && (r.counter == Spawned ==> !r.made)
    && (r.counter == Finished ==> r.record == None)
  }

  /** What it says of the submission. */
  ghost predicate VerdictTells(r: Request) {
    && (HasRecord(r.counter) ==> r.record.Some?)
    && (r.record.Some? && SaysTaken(r.record.value.verdict) ==> WasTaken(r))
    && (r.counter in {Reported, Warned} ==> r.record.value.verdict == Queued)
  }

  /** What it says once the response is decided. */
  ghost predicate VerdictIsFinal(r: Request) {
    && (HasRecord(r.counter) ==> r.record.Some?)
    && (r.counter.Decided? || r.counter.Recorded? ==>
      && (WasTaken(r) ==> SaysTaken(r.record.value.verdict))
      && (r.record.value.verdict == PartialRefusal <==> r.outcome == Some(PartlyRefused)))
  }

  /** What it says of the answer. */
  ghost predicate StatusTells(r: Request, failOnPartialRefusal: bool) {
    && (HasRecord(r.counter) ==> r.record.Some?)
    && (r.record.Some? && !r.counter.Recorded? ==> r.record.value.status == 500)
    && (r.counter.Recorded? ==> r.record.value.status == r.counter.status)
    && (r.counter.Decided? || r.counter.Recorded? ==>
      r.counter.status == StatusOf(r.record.value.verdict, failOnPartialRefusal))
  }

  /** The lines that were written, once the record is dropped. */
  ghost predicate LinesAreSound(r: Request, failOnPartialRefusal: bool, threshold: Level) {
    && |r.lines| == (if r.made && r.record.None? && Writes(threshold, Info) then 1 else 0)
    && (r.lines != [] && SaysTaken(r.lines[0].verdict) ==> WasTaken(r))
    && (r.lines != [] && r.result.None? ==> r.lines[0].status == 500)
    && (r.lines != [] && r.result.Some? ==> r.lines[0].status == ResultStatus(r.result.value))
    && (r.lines != [] && r.result.Some? && r.result.value.Returned? ==>
      && r.lines[0].status == StatusOf(r.lines[0].verdict, failOnPartialRefusal)
      && (WasTaken(r) ==> SaysTaken(r.lines[0].verdict)))
  }

  predicate IsPastWarning(counter: Counter) {
    counter == Warned || counter.Decided? || counter.Recorded?
  }

  ghost predicate WarningIsSound(r: Request, threshold: Level) {
    && r.warnings <= 1
    && (r.warnings == 1 ==> Writes(threshold, Warning) && r.outcome == Some(PartlyRefused))
    && (r.warnings == 0 || IsPastWarning(r.counter) || r.counter == Unwinding || r.counter == Finished)
    && (IsPastWarning(r.counter) || (r.result.Some? && r.result.value.Returned?) ==>
      (r.warnings == 1 <==> Writes(threshold, Warning) && r.outcome == Some(PartlyRefused)))
  }

  ghost predicate ResultIsSound(r: Request) {
    && (r.result.Some? <==> r.counter == Finished)
    && (r.result.Some? && r.result.value.Returned? ==> r.made && (r.result.value.status == 200 ==> WasTaken(r)))
    && (r.handler.Answered? ==> r.result.Some? && r.handler.status == ResultStatus(r.result.value))
  }

  ghost predicate IsSound(r: Request, failOnPartialRefusal: bool, threshold: Level) {
    && SlotIsSound(r) && SubmissionIsSound(r)
    && RecordLives(r) && VerdictTells(r) && VerdictIsFinal(r) && StatusTells(r, failOnPartialRefusal)
    && LinesAreSound(r, failOnPartialRefusal, threshold) && WarningIsSound(r, threshold) && ResultIsSound(r)
  }

  ghost predicate AllSound(s: Relay) {
    forall i :: 0 <= i < |s.requests| ==> IsSound(s.requests[i], s.failOnPartialRefusal, s.threshold)
  }

  ghost predicate Distinct(queue: seq<nat>) {
    forall i, j :: 0 <= i < j < |queue| ==> queue[i] != queue[j]
  }

  predicate IsPending(rs: seq<Request>, id: nat) {
    id < |rs| && rs[id].slot == Pending
  }

  /** The waiters are exactly the requests with a pending acquisition, and none waits while a permit is free. */
  ghost predicate QueueIsSound(permits: Permits, rs: seq<Request>) {
    && Distinct(permits.queue)
    && (permits.queue != [] ==> permits.free == 0)
    && (forall id: nat :: id in permits.queue || id in permits.granted <==> IsPending(rs, id))
    && (forall id: nat :: !(id in permits.queue && id in permits.granted))
  }

  /** Permits are neither lost nor made. */
  ghost predicate Conserves(s: Relay) {
    s.permits.free + |s.permits.granted| + Sum(s.requests, Guards) == s.cap
  }

  ghost predicate Inv(s: Relay) {
    && AllSound(s) && QueueIsSound(s.permits, s.requests) && Conserves(s)
    && s.live == Sum(s.requests, Unfinished)
    && (s.serversDone ==> s.stopping && NoneAwaits(s))
    && (s.ended ==> s.serversDone && s.live == 0)
  }

  /* ---- Every step keeps it ---- */

  lemma MoveKeepsSlot(s: Relay, id: nat, step: Step)
    requires AllSound(s) && id < |s.requests| && MoveOf(s, id, step).Some?
    ensures SlotIsSound(MoveOf(s, id, step).value.r)
  {
    assert IsSound(s.requests[id], s.failOnPartialRefusal, s.threshold);
  }

  lemma MoveKeepsSubmission(s: Relay, id: nat, step: Step)
    requires AllSound(s) && id < |s.requests| && MoveOf(s, id, step).Some?
    ensures SubmissionIsSound(MoveOf(s, id, step).value.r)
  {
    assert IsSound(s.requests[id], s.failOnPartialRefusal, s.threshold);
  }

  lemma MoveKeepsRecord(s: Relay, id: nat, step: Step)
    requires AllSound(s) && id < |s.requests| && MoveOf(s, id, step).Some?
    ensures RecordLives(MoveOf(s, id, step).value.r)
  {
    assert IsSound(s.requests[id], s.failOnPartialRefusal, s.threshold);
  }

  lemma MoveKeepsVerdict(s: Relay, id: nat, step: Step)
    requires AllSound(s) && id < |s.requests| && MoveOf(s, id, step).Some?
    ensures VerdictTells(MoveOf(s, id, step).value.r)
  {
    assert IsSound(s.requests[id], s.failOnPartialRefusal, s.threshold);
  }

  lemma MoveKeepsFinal(s: Relay, id: nat, step: Step)
    requires AllSound(s) && id < |s.requests| && MoveOf(s, id, step).Some?
    ensures VerdictIsFinal(MoveOf(s, id, step).value.r)
  {
    assert IsSound(s.requests[id], s.failOnPartialRefusal, s.threshold);
  }

  lemma MoveKeepsStatus(s: Relay, id: nat, step: Step)
    requires AllSound(s) && id < |s.requests| && MoveOf(s, id, step).Some?
    ensures StatusTells(MoveOf(s, id, step).value.r, s.failOnPartialRefusal)
  {
    assert IsSound(s.requests[id], s.failOnPartialRefusal, s.threshold);
  }

  lemma MoveKeepsLines(s: Relay, id: nat, step: Step)
    requires AllSound(s) && id < |s.requests| && MoveOf(s, id, step).Some?
    ensures LinesAreSound(MoveOf(s, id, step).value.r, s.failOnPartialRefusal, s.threshold)
  {
    assert IsSound(s.requests[id], s.failOnPartialRefusal, s.threshold);
  }

  lemma MoveKeepsWarning(s: Relay, id: nat, step: Step)
    requires AllSound(s) && id < |s.requests| && MoveOf(s, id, step).Some?
    ensures WarningIsSound(MoveOf(s, id, step).value.r, s.threshold)
  {
    assert IsSound(s.requests[id], s.failOnPartialRefusal, s.threshold);
  }

  lemma MoveKeepsResult(s: Relay, id: nat, step: Step)
    requires AllSound(s) && id < |s.requests| && MoveOf(s, id, step).Some?
    ensures ResultIsSound(MoveOf(s, id, step).value.r)
  {
    assert IsSound(s.requests[id], s.failOnPartialRefusal, s.threshold);
  }

  lemma MoveIsSound(s: Relay, id: nat, step: Step)
    requires AllSound(s) && id < |s.requests| && MoveOf(s, id, step).Some?
    ensures IsSound(MoveOf(s, id, step).value.r, s.failOnPartialRefusal, s.threshold)
  {
    MoveKeepsSlot(s, id, step);
    MoveKeepsSubmission(s, id, step);
    MoveKeepsRecord(s, id, step);
    MoveKeepsVerdict(s, id, step);
    MoveKeepsFinal(s, id, step);
    MoveKeepsStatus(s, id, step);
    MoveKeepsLines(s, id, step);
    MoveKeepsWarning(s, id, step);
    MoveKeepsResult(s, id, step);
  }

  lemma {:induction false} WithoutIs(queue: seq<nat>, id: nat)
    requires Distinct(queue)
    ensures Distinct(Without(queue, id)) && id !in Without(queue, id)
    ensures forall k :: k in Without(queue, id) <==> k in queue && k != id
  {
    if queue != [] {
      var rest := queue[1..];
      assert Distinct(rest) by {
        assert forall i :: 0 <= i < |rest| ==> rest[i] == queue[i + 1];
      }
      WithoutIs(rest, id);
      assert queue[0] !in rest;
      assert queue == [queue[0]] + rest;
    }
  }

  lemma HeadAndRest(queue: seq<nat>)
    requires Distinct(queue) && queue != []
    ensures Distinct(queue[1..]) && queue[0] !in queue[1..]
    ensures forall k :: k in queue <==> k == queue[0] || k in queue[1..]
  {
    assert forall i :: 0 <= i < |queue| - 1 ==> queue[1..][i] == queue[i + 1];
    assert queue == [queue[0]] + queue[1..];
  }

  /** Giving back one permit: who waits, and how many permits there are. */
  lemma GiveBackIs(permits: Permits)
    requires Distinct(permits.queue) && (permits.queue != [] ==> permits.free == 0)
    requires forall id :: !(id in permits.queue && id in permits.granted)
    ensures var q := permits.GiveBack();
      && Distinct(q.queue) && (q.queue != [] ==> q.free == 0)
      && (forall id :: !(id in q.queue && id in q.granted))
      && (forall id :: id in q.queue || id in q.granted <==> id in permits.queue || id in permits.granted)
      && q.free + |q.granted| == permits.free + |permits.granted| + 1
  {
    if permits.queue != [] {
      HeadAndRest(permits.queue);
      assert permits.queue[0] !in permits.granted;
    }
  }

  lemma CancelIs(permits: Permits, id: nat)
    requires Distinct(permits.queue) && (permits.queue != [] ==> permits.free == 0)
    requires forall k :: !(k in permits.queue && k in permits.granted)
    ensures var q := permits.Cancel(id);
      && Distinct(q.queue) && (q.queue != [] ==> q.free == 0)
      && (forall k :: !(k in q.queue && k in q.granted))
      && (forall k :: k in q.queue || k in q.granted <==> (k in permits.queue || k in permits.granted) && k != id)
      && q.free + |q.granted| == permits.free + |permits.granted|
  {
    if id in permits.granted {
      GiveBackIs(permits.(granted := permits.granted - {id}));
    } else {
      WithoutIs(permits.queue, id);
    }
  }

  /** What a move may do with the permits. */
  ghost predicate Uses(before: Permits, slot: Slot, id: nat, after: Permits, slot': Slot) {
    || (after == before && slot' == slot)
    || (slot == NoSlot && slot' == Guard && before.free > 0 && after == before.(free := before.free - 1))
    || (slot == NoSlot && slot' == Pending && before.free == 0 && after == before.(queue := before.queue + [id]))
    || (slot == Pending && slot' == Guard && id in before.granted
        && after == before.(granted := before.granted - {id}))
    || (slot == Guard && slot' == NoSlot && after == before.GiveBack())
    || (slot == Pending && slot' == NoSlot && after == before.Cancel(id))
  }

  lemma MoveUses(s: Relay, id: nat, step: Step)
    requires AllSound(s) && id < |s.requests| && MoveOf(s, id, step).Some?
    ensures var m := MoveOf(s, id, step).value; Uses(s.permits, s.requests[id].slot, id, m.permits, m.r.slot)
  {
    assert IsSound(s.requests[id], s.failOnPartialRefusal, s.threshold);
  }

  lemma QueueUpdate(before: Permits, after: Permits, rs: seq<Request>, id: nat, r: Request)
    requires QueueIsSound(before, rs) && id < |rs|
    requires Distinct(after.queue) && (after.queue != [] ==> after.free == 0)
    requires forall k: nat :: !(k in after.queue && k in after.granted)
    requires forall k: nat :: k != id ==>
      (k in after.queue || k in after.granted <==> k in before.queue || k in before.granted)
    requires id in after.queue || id in after.granted <==> r.slot == Pending
    ensures QueueIsSound(after, rs[id := r])
  {
    forall k: nat ensures k in after.queue || k in after.granted <==> IsPending(rs[id := r], k) {
      assert k != id ==> (IsPending(rs[id := r], k) <==> IsPending(rs, k));
    }
  }

  lemma UseIsSound(before: Permits, after: Permits, rs: seq<Request>, id: nat, r: Request)
    requires QueueIsSound(before, rs) && id < |rs| && Uses(before, rs[id].slot, id, after, r.slot)
    ensures QueueIsSound(after, rs[id := r])
    ensures after.free + |after.granted| + Guards(r) == before.free + |before.granted| + Guards(rs[id])
  {
    GiveBackIs(before);
    CancelIs(before, id);
    assert IsPending(rs, id) <==> rs[id].slot == Pending;
    QueueUpdate(before, after, rs, id, r);
  }

  lemma UpdateKeepsInv(s: Relay, id: nat, m: Move)
    requires Inv(s) && !s.ended && id < |s.requests|
    requires IsSound(m.r, s.failOnPartialRefusal, s.threshold) && QueueIsSound(m.permits, s.requests[id := m.r])
    requires m.permits.free + |m.permits.granted| + Guards(m.r) ==
      s.permits.free + |s.permits.granted| + Guards(s.requests[id])
    requires s.requests[id].counter == Finished ==> m.r.counter == Finished
    requires s.requests[id].handler != Awaiting ==> m.r.handler != Awaiting
    ensures Inv(Moved(s, id, m))
  {
    SumUpdate(s.requests, id, m.r, Guards);
    SumUpdate(s.requests, id, m.r, Unfinished);
  }

  lemma MovedKeepsInv(s: Relay, step: Step)
    requires Inv(s) && !s.ended && IsOwn(step) && step.id < |s.requests| && MoveOf(s, step.id, step).Some?
    ensures Inv(Moved(s, step.id, MoveOf(s, step.id, step).value))
  {
    var id := step.id;
    var m := MoveOf(s, id, step).value;
    MoveIsSound(s, id, step);
    MoveUses(s, id, step);
    UseIsSound(s.permits, m.permits, s.requests, id, m.r);
    FinishedStays(s, id, step);
    UpdateKeepsInv(s, id, m);
  }

  lemma FinishedStays(s: Relay, id: nat, step: Step)
    requires id < |s.requests| && MoveOf(s, id, step).Some?
    ensures s.requests[id].counter == Finished ==> MoveOf(s, id, step).value.r.counter == Finished
    ensures s.requests[id].handler != Awaiting ==> MoveOf(s, id, step).value.r.handler != Awaiting
  {
  }

  lemma ArriveKeepsQueue(permits: Permits, rs: seq<Request>)
    requires QueueIsSound(permits, rs)
    ensures QueueIsSound(permits, rs + [NEW_REQUEST])
  {
    forall id: nat
      ensures id in permits.queue || id in permits.granted <==> IsPending(rs + [NEW_REQUEST], id)
    {
      assert IsPending(rs + [NEW_REQUEST], id) <==> IsPending(rs, id);
    }
  }

  lemma ArriveKeepsInv(s: Relay)
    requires Inv(s) && Next(s, Arrive).Some?
    ensures Inv(Next(s, Arrive).value)
  {
    SumAppend(s.requests, NEW_REQUEST, Guards);
    SumAppend(s.requests, NEW_REQUEST, Unfinished);
    ArriveKeepsQueue(s.permits, s.requests);
    ArriveKeepsSound(s);
  }

  lemma ArriveKeepsSound(s: Relay)
    requires AllSound(s) && Next(s, Arrive).Some?
    ensures AllSound(Next(s, Arrive).value)
  {
  }

  lemma NextKeepsInv(s: Relay, step: Step)
    requires Inv(s) && Next(s, step).Some?
    ensures Inv(Next(s, step).value)
  {
    if IsOwn(step) {
      MovedKeepsInv(s, step);
    } else if step == Arrive {
      ArriveKeepsInv(s);
    }
  }

  lemma StartInv(cap: nat, failOnPartialRefusal: bool, threshold: Level)
    ensures Inv(Start(cap, failOnPartialRefusal, threshold))
  {
  }

  /** Over every run: permits are conserved, and every request's story holds together. */
  lemma {:induction false} RunKeepsInv(s: Relay, steps: seq<Step>)
    requires Inv(s) && Run(s, steps).Some?
    ensures Inv(Run(s, steps).value)
    decreases |steps|
  {
    if steps != [] {
      NextKeepsInv(s, steps[0]);
      RunKeepsInv(Next(s, steps[0]).value, steps[1..]);
    }
  }
}
