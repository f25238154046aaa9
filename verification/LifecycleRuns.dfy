/** What holds after every run of the service, and what can still happen from there. */
module LifecycleRuns {
  import opened Wrappers
  import opened Lifecycle

  /* ---- The story of a request ---- */

  /**
   A finished request has exactly one request line if its record was created and the logger writes
   such lines, and none otherwise; the line carries the status of the answer.
   */
  ghost predicate LinesTell(r: Request, threshold: Level) {
    && (r.counter == Finished ==>
      && |r.lines| <= 1 && (|r.lines| == 1 <==> r.made && Writes(threshold, Info))
      && (!r.made ==> r.result == Some(Panicked)))
    && (r.handler.Answered? ==>
      && r.counter == Finished && r.result.Some? && r.handler.status == ResultStatus(r.result.value)
      && forall i :: 0 <= i < |r.lines| ==> r.lines[i].status == r.handler.status)
  }

  /** What the line says about the submission, and the line of a partial refusal. */
  ghost predicate LinesAreTrue(r: Request, failOnPartialRefusal: bool, threshold: Level) {
    && r.submissions <= 1
    && (forall i :: 0 <= i < |r.lines| && SaysTaken(r.lines[i].verdict) ==> WasTaken(r))
    && (r.handler == Answered(200) ==> WasTaken(r))
    && (r.warnings == 1 ==> r.outcome == Some(PartlyRefused))
    && (r.result.Some? && r.result.value.Returned? ==>
      && (forall i :: 0 <= i < |r.lines| ==>
        && r.lines[i].status == StatusOf(r.lines[i].verdict, failOnPartialRefusal)
        && (SaysTaken(r.lines[i].verdict) <==> WasTaken(r)))
      && (r.warnings == if Writes(threshold, Warning) && r.outcome == Some(PartlyRefused) then 1 else 0))
  }

  ghost predicate StoriesHold(s: Relay) {
    forall i :: 0 <= i < |s.requests| ==>
      LinesTell(s.requests[i], s.threshold) && LinesAreTrue(s.requests[i], s.failOnPartialRefusal, s.threshold)
  }

  predicate AllFinished(s: Relay) {
    forall i :: 0 <= i < |s.requests| ==> s.requests[i].counter == Finished
  }

  lemma StoryHolds(r: Request, failOnPartialRefusal: bool, threshold: Level)
    requires IsSound(r, failOnPartialRefusal, threshold)
    ensures LinesTell(r, threshold) && LinesAreTrue(r, failOnPartialRefusal, threshold)
  {
  }

  lemma {:induction false} RunSettings(s: Relay, steps: seq<Step>)
    requires Run(s, steps).Some?
    ensures var t := Run(s, steps).value;
      t.cap == s.cap && t.failOnPartialRefusal == s.failOnPartialRefusal && t.threshold == s.threshold
    decreases |steps|
  {
    if steps != [] {
      RunSettings(Next(s, steps[0]).value, steps[1..]);
    }
  }

  /**
   From the start on, whatever the order of the steps: the free permits, the permits on their way to a
   waiter and the permits held make up the cap; every request's lines and answer tell one story; the
   process ends only when every task has finished and no client waits for its answer.
   */
  lemma EveryRun(cap: nat, failOnPartialRefusal: bool, threshold: Level, steps: seq<Step>)
    requires Run(Start(cap, failOnPartialRefusal, threshold), steps).Some?
    ensures var s := Run(Start(cap, failOnPartialRefusal, threshold), steps).value;
      && s.cap == cap && s.failOnPartialRefusal == failOnPartialRefusal && s.threshold == threshold
      && s.permits.free + |s.permits.granted| + Sum(s.requests, Guards) == cap
      && StoriesHold(s)
      && (s.ended ==> AllFinished(s) && NoneAwaits(s))
  {
    var start := Start(cap, failOnPartialRefusal, threshold);
    var s := Run(start, steps).value;
    StartInv(cap, failOnPartialRefusal, threshold);
    RunKeepsInv(start, steps);
    RunSettings(start, steps);
    forall i | 0 <= i < |s.requests|
      ensures LinesTell(s.requests[i], s.threshold) && LinesAreTrue(s.requests[i], s.failOnPartialRefusal, s.threshold)
    {
      StoryHolds(s.requests[i], s.failOnPartialRefusal, s.threshold);
    }
    if s.ended {
      SumZero(s.requests, Unfinished);
    }
  }

  /* ---- The two ways to write no line ---- */

  lemma Prepend(s: Relay, step: Step, next: Relay, rest: seq<Step>) returns (steps: seq<Step>)
    requires Next(s, step) == Some(next)
    ensures steps == [step] + rest && Run(s, steps) == Run(next, rest)
  {
    steps := [step] + rest;
    assert steps[1..] == rest;
  }

  /** The service with one request. */
  function One(s: Relay, r: Request, permits: Permits): Relay {
    s.(requests := [r], permits := permits, live := Unfinished(r))
  }

  /** A move of the one request, in front of what follows. */
  lemma OneMove(s: Relay, r: Request, permits: Permits, step: Step, m: Move, rest: seq<Step>) returns (steps: seq<Step>)
    requires !s.ended && IsOwn(step) && step.id == 0 && MoveOf(One(s, r, permits), 0, step) == Some(m)
    ensures Run(One(s, r, permits), steps) == Run(One(s, m.r, m.permits), rest)
  {
    FinishedStays(One(s, r, permits), 0, step);
    assert [r][0 := m.r] == [m.r];
    steps := Prepend(One(s, r, permits), step, One(s, m.r, m.permits), rest);
  }

  lemma FirstArrives(cap: nat, failOnPartialRefusal: bool, threshold: Level, rest: seq<Step>) returns (steps: seq<Step>)
    ensures var start := Start(cap, failOnPartialRefusal, threshold);
      Run(start, steps) == Run(One(start, NEW_REQUEST, start.permits), rest)
  {
    var start := Start(cap, failOnPartialRefusal, threshold);
    assert [] + [NEW_REQUEST] == [NEW_REQUEST];
    steps := Prepend(start, Arrive, One(start, NEW_REQUEST, start.permits), rest);
  }

  lemma AnswerLast(s: Relay, r: Request, permits: Permits) returns (steps: seq<Step>)
    requires !s.ended && r.result.Some? && r.handler == Awaiting
    ensures Run(One(s, r, permits), steps) ==
      Some(One(s, r.(handler := Answered(ResultStatus(r.result.value))), permits))
  {
    var answered := r.(handler := Answered(ResultStatus(r.result.value)));
    steps := OneMove(s, r, permits, Answer(0), Move(answered, permits), []);
  }

  ghost predicate EndsAccepted(s: Relay, r: Request, permits: Permits, steps: seq<Step>) {
    var run := Run(One(s, r, permits), steps);
    && run.Some? && |run.value.requests| == 1 && run.value.requests[0].handler == Answered(200)
    && run.value.requests[0].lines == if Writes(s.threshold, Info) then r.lines + [Record(Queued, 200)] else r.lines
  }

  /** An accepted submission, from its response on. */
  lemma RespondedFrom(s: Relay, r: Request, p: Permits) returns (steps: seq<Step>)
    requires !s.ended && r.counter == Decided(200) && r.record == Some(Record(Queued, 500)) && r.handler == Awaiting
    ensures EndsAccepted(s, r, p, steps)
  {
    var r1 := r.(counter := Recorded(200), record := Some(Record(Queued, 200)));
    var r2 := DropRecord(r1, s.threshold).(counter := Finished, result := Some(Returned(200)));
    steps := AnswerLast(s, r2, p);
    steps := OneMove(s, r1, p, Return(0), Move(r2, p), steps);
    steps := OneMove(s, r, p, SetStatus(0), Move(r1, p), steps);
  }

  lemma ReleasedFrom(s: Relay, r: Request, p: Permits) returns (steps: seq<Step>)
    requires !s.ended && r.counter == Released && r.record == Some(Record(InternalError, 500))
      && r.outcome == Some(Accepted) && r.handler == Awaiting
    ensures EndsAccepted(s, r, p, steps)
  {
    var r1 := r.(counter := Reported, record := Some(Record(Queued, 500)));
    var r2 := r1.(counter := Decided(200));
    steps := RespondedFrom(s, r2, p);
    steps := OneMove(s, r1, p, Respond(0), Move(r2, p), steps);
    steps := OneMove(s, r, p, Report(0), Move(r1, p), steps);
  }

  /** An accepted submission, from its permit on. */
  lemma AcceptedFrom(s: Relay, r: Request, permits: Permits) returns (steps: seq<Step>)
    requires !s.ended && r.counter == Submitting && r.record == Some(Record(InternalError, 500))
      && r.handler == Awaiting
    ensures EndsAccepted(s, r, permits, steps)
  {
    var r1, p := r.(counter := Submitted, outcome := Some(Accepted)), permits.GiveBack();
    var r2 := r1.(counter := Released, slot := NoSlot);
    steps := ReleasedFrom(s, r2, p);
    steps := OneMove(s, r1, permits, Release(0), Move(r2, p), steps);
    steps := OneMove(s, r, permits, SubmitReturns(0, Accepted), Move(r1, permits), steps);
  }

  /** Above INFO the request record is quiet: an accepted request, answered with 200, without a line. */
  lemma AcceptedRun(cap: nat, failOnPartialRefusal: bool, threshold: Level) returns (steps: seq<Step>)
    requires cap > 0
    ensures var run := Run(Start(cap, failOnPartialRefusal, threshold), steps);
      && run.Some? && |run.value.requests| == 1 && run.value.requests[0].handler == Answered(200)
      && run.value.requests[0].lines == if Writes(threshold, Info) then [Record(Queued, 200)] else []
  {
    var s := Start(cap, failOnPartialRefusal, threshold);
    var r1 := NEW_REQUEST.(counter := Deciding, made := true, record := Some(Record(InternalError, 500)));
    var r2, p := r1.(counter := Submitting, slot := Guard, submissions := 1), s.permits.(free := cap - 1);
    assert [] + [Record(Queued, 200)] == [Record(Queued, 200)];
    steps := AcceptedFrom(s, r2, p);
    steps := OneMove(s, r1, s.permits, Ask(0), Move(r2, p), steps);
    steps := OneMove(s, NEW_REQUEST, s.permits, Begin(0), Move(r1, s.permits), steps);
    steps := FirstArrives(cap, failOnPartialRefusal, threshold, steps);
  }

  /** A task that panics before its record is created writes no line at any level; the client gets a 500. */
  lemma EarlyPanicRun(cap: nat, failOnPartialRefusal: bool, threshold: Level) returns (steps: seq<Step>)
    ensures var run := Run(Start(cap, failOnPartialRefusal, threshold), steps);
      && run.Some? && |run.value.requests| == 1
      && run.value.requests[0].handler == Answered(500) && run.value.requests[0].lines == []
  {
    var s := Start(cap, failOnPartialRefusal, threshold);
    var p := s.permits;
    var r1 := NEW_REQUEST.(counter := Unwinding);
    var r2 := r1.(counter := Finished, result := Some(Panicked));
    steps := AnswerLast(s, r2, p);
    steps := OneMove(s, r1, p, Unwind(0), Move(r2, p), steps);
    steps := OneMove(s, NEW_REQUEST, p, Panic(0), Move(r1, p), steps);
    steps := FirstArrives(cap, failOnPartialRefusal, threshold, steps);
  }

  /* ---- Panics ---- */

  /** How many locals the unwinding still has to drop. */
  function Locals(r: Request): nat {
    (if r.slot == NoSlot then 0 else 1) + (if r.record.None? then 0 else 1)
  }

  /** The lines of a request once it is unwound. */
  function UnwoundLines(r: Request, threshold: Level): seq<Record> {
    if r.record.Some? && Writes(threshold, Info) then [Record(r.record.value.verdict, 500)] else r.lines
  }

  lemma UnwindStep(s: Relay, id: nat) returns (next: Relay)
    requires Inv(s) && !s.ended && id < |s.requests| && s.requests[id].counter == Unwinding
    ensures Next(s, Unwind(id)) == Some(next) && Inv(next) && !next.ended && next.threshold == s.threshold
    ensures |next.requests| == |s.requests| && next.requests == s.requests[id := next.requests[id]]
    ensures UnwoundLines(next.requests[id], s.threshold) == UnwoundLines(s.requests[id], s.threshold)
    ensures var r, r' := s.requests[id], next.requests[id];
      if Locals(r) > 0 then r'.counter == Unwinding && Locals(r') == Locals(r) - 1
      else r'.result == Some(Panicked) && r'.slot == NoSlot && r'.record.None?
  {
    assert IsSound(s.requests[id], s.failOnPartialRefusal, s.threshold);
    next := Next(s, Unwind(id)).value;
    NextKeepsInv(s, Unwind(id));
  }

  /**
   A panicked task unwinds in at most three steps of its own, and has then given up its place or its
   permit, and written a line with status 500 exactly if its record lived and the logger writes it.
   */
  lemma {:induction false} PanicUnwinds(s: Relay, id: nat) returns (steps: seq<Step>)
    requires Inv(s) && !s.ended && id < |s.requests| && s.requests[id].counter == Unwinding
    ensures |steps| == Locals(s.requests[id]) + 1 <= 3 && Run(s, steps).Some?
    ensures var t := Run(s, steps).value;
      && |t.requests| == |s.requests| && t.requests == s.requests[id := t.requests[id]]
      && t.requests[id].result == Some(Panicked) && t.requests[id].lines == UnwoundLines(s.requests[id], s.threshold)
      && id !in t.permits.queue && id !in t.permits.granted
    decreases Locals(s.requests[id])
  {
    var next := UnwindStep(s, id);
    if Locals(s.requests[id]) == 0 {
      steps := Prepend(s, Unwind(id), next, []);
      assert !IsPending(next.requests, id);
    } else {
      var rest := PanicUnwinds(next, id);
      steps := Prepend(s, Unwind(id), next, rest);
    }
  }

  /* ---- What is written or answered stays ---- */

  ghost predicate Extends(before: Request, after: Request) {
    && before.lines <= after.lines && before.warnings <= after.warnings && before.submissions <= after.submissions
    && (before.outcome.Some? ==> after.outcome == before.outcome)
    && (before.handler != Awaiting ==> after.handler == before.handler)
    && (before.result.Some? ==>
      after.result == before.result && after.lines == before.lines && after.warnings == before.warnings)
  }

  ghost predicate AllExtend(s: Relay, t: Relay) {
    |s.requests| <= |t.requests| && forall i :: 0 <= i < |s.requests| ==> Extends(s.requests[i], t.requests[i])
  }

  lemma MoveExtends(s: Relay, id: nat, step: Step)
    requires AllSound(s) && id < |s.requests| && MoveOf(s, id, step).Some?
    ensures Extends(s.requests[id], MoveOf(s, id, step).value.r)
  {
    assert IsSound(s.requests[id], s.failOnPartialRefusal, s.threshold);
  }

  lemma NextExtends(s: Relay, step: Step)
    requires Inv(s) && Next(s, step).Some?
    ensures AllExtend(s, Next(s, step).value)
  {
    if IsOwn(step) {
      MoveExtends(s, step.id, step);
      MovedExtends(s, step.id, MoveOf(s, step.id, step).value);
    }
  }

  lemma MovedExtends(s: Relay, id: nat, m: Move)
    requires id < |s.requests| && Extends(s.requests[id], m.r)
    ensures AllExtend(s, Moved(s, id, m))
  {
  }

  lemma {:induction false} RunExtends(s: Relay, steps: seq<Step>)
    requires Inv(s) && Run(s, steps).Some?
    ensures AllExtend(s, Run(s, steps).value)
    decreases |steps|
  {
    if steps != [] {
      var next, last := Next(s, steps[0]).value, Run(s, steps).value;
      NextKeepsInv(s, steps[0]);
      NextExtends(s, steps[0]);
      RunExtends(next, steps[1..]);
      forall i | 0 <= i < |s.requests|
        ensures Extends(s.requests[i], last.requests[i])
      {
        assert Extends(s.requests[i], next.requests[i]) && Extends(next.requests[i], last.requests[i]);
      }
    }
  }
}
