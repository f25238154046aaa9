/**
 Waiting and progress: the permits go to the waiters in the order they asked, some request can always
 go on, and the process can always drain and end.
 */
module LifecycleProgress {
  import opened Wrappers
  import opened Lifecycle
  import opened LifecycleRuns

  /* ---- Nobody is overtaken ---- */

  /** The place of a waiter in the queue. */
  function Place(queue: seq<nat>, id: nat): nat
    requires id in queue
  {
    if queue[0] == id then 0 else 1 + Place(queue[1..], id)
  }

  lemma {:induction false} PlaceBehind(queue: seq<nat>, id: nat, newcomer: nat)
    requires id in queue
    ensures id in queue + [newcomer] && Place(queue + [newcomer], id) == Place(queue, id)
  {
    if queue[0] != id {
      PlaceBehind(queue[1..], id, newcomer);
      assert (queue + [newcomer])[1..] == queue[1..] + [newcomer];
    }
  }

  lemma {:induction false} PlaceWithout(queue: seq<nat>, id: nat, other: nat)
    requires id in queue && id != other
    ensures id in Without(queue, other) && Place(Without(queue, other), id) <= Place(queue, id)
  {
    if queue[0] != id {
      PlaceWithout(queue[1..], id, other);
    }
  }

  /** A task gives back the permit that it holds, or that it was given while it waited. */
  predicate Returns(permits: Permits, slot: Slot, id: nat, slot': Slot) {
    slot' == NoSlot && (slot == Guard || (slot == Pending && id in permits.granted))
  }

  /** The permits that a step gives back. */
  function GivenBack(s: Relay, step: Step): nat {
    if !IsOwn(step) || step.id >= |s.requests| then 0
    else match MoveOf(s, step.id, step)
      case None => 0
      case Some(m) => if Returns(s.permits, s.requests[step.id].slot, step.id, m.r.slot) then 1 else 0
  }

  lemma GiveBackPlace(permits: Permits, id: nat)
    requires Distinct(permits.queue) && id in permits.queue && id in permits.GiveBack().queue
    ensures Place(permits.GiveBack().queue, id) + 1 == Place(permits.queue, id)
  {
    HeadAndRest(permits.queue);
  }

  /** One use of the permits: the place never grows, and every permit given back moves the waiter forward. */
  lemma UsePlace(before: Permits, slot: Slot, user: nat, after: Permits, slot': Slot, rs: seq<Request>, id: nat)
    requires QueueIsSound(before, rs) && Uses(before, slot, user, after, slot')
    requires id in before.queue && id in after.queue
    ensures Place(after.queue, id) + (if Returns(before, slot, user, slot') then 1 else 0) <= Place(before.queue, id)
  {
    PlaceBehind(before.queue, id, user);
    if after == before.GiveBack() {
      GiveBackPlace(before, id);
    } else if after == before.Cancel(user) {
      CancelPlace(before, user, id);
    }
  }

  lemma CancelPlace(before: Permits, user: nat, id: nat)
    requires Distinct(before.queue) && id in before.queue && id in before.Cancel(user).queue
    ensures Place(before.Cancel(user).queue, id) + (if user in before.granted then 1 else 0) <= Place(before.queue, id)
  {
    if user in before.granted {
      GiveBackPlace(before.(granted := before.granted - {user}), id);
    } else {
      WithoutIs(before.queue, user);
      PlaceWithout(before.queue, id, user);
    }
  }

  lemma NextPlace(s: Relay, step: Step, id: nat)
    requires Inv(s) && Next(s, step).Some? && id in s.permits.queue && id in Next(s, step).value.permits.queue
    ensures Place(Next(s, step).value.permits.queue, id) + GivenBack(s, step) <= Place(s.permits.queue, id)
  {
    if IsOwn(step) {
      MovePlace(s, step.id, step, MoveOf(s, step.id, step).value, id);
    }
  }

  lemma MovePlace(s: Relay, user: nat, step: Step, m: Move, id: nat)
    requires AllSound(s) && QueueIsSound(s.permits, s.requests) && user < |s.requests|
    requires MoveOf(s, user, step) == Some(m) && id in s.permits.queue && id in m.permits.queue
    ensures Place(m.permits.queue, id) + (if Returns(s.permits, s.requests[user].slot, user, m.r.slot) then 1 else 0)
      <= Place(s.permits.queue, id)
  {
    MoveUses(s, user, step);
    UsePlace(s.permits, s.requests[user].slot, user, m.permits, m.r.slot, s.requests, id);
  }

  /** The request waits in every state of the run. */
  predicate WaitsThroughout(s: Relay, steps: seq<Step>, id: nat)
    requires Run(s, steps).Some?
    decreases |steps|
  {
    id in s.permits.queue && (steps != [] ==> WaitsThroughout(Next(s, steps[0]).value, steps[1..], id))
  }

  /** The permits that a run gives back. */
  function AllGivenBack(s: Relay, steps: seq<Step>): nat
    requires Run(s, steps).Some?
    decreases |steps|
  {
    if steps == [] then 0 else GivenBack(s, steps[0]) + AllGivenBack(Next(s, steps[0]).value, steps[1..])
  }

  /**
   Nobody is overtaken: as long as a request waits, at most as many permits are given back as there
   were requests before it, whatever newcomers do. The next one is its own.
   */
  lemma {:induction false} WaitIsBounded(s: Relay, steps: seq<Step>, id: nat)
    requires Inv(s) && Run(s, steps).Some? && WaitsThroughout(s, steps, id)
    ensures AllGivenBack(s, steps) <= Place(s.permits.queue, id)
    decreases |steps|
  {
    if steps != [] {
      NextKeepsInv(s, steps[0]);
      NextPlace(s, steps[0], id);
      WaitIsBounded(Next(s, steps[0]).value, steps[1..], id);
    }
  }

  /** A permit that is given back goes to the first waiter. */
  lemma FirstIsNext(s: Relay, step: Step)
    requires Inv(s) && Next(s, step).Some? && GivenBack(s, step) == 1 && s.permits.queue != []
    ensures s.permits.queue[0] in Next(s, step).value.permits.granted
  {
    MoveUses(s, step.id, step);
    assert s.permits.queue[0] in s.permits.queue;
  }

  /* ---- Some request can always go on ---- */

  function Distance(counter: Counter): nat {
    match counter
    case Spawned => 11
    case Deciding => 10
    case Waiting => 9
    case Submitting => 8
    case Submitted => 7
    case Released => 6
    case Reported => 5
    case Warned => 4
    case Decided(_) => 3
    case Recorded(_) => 2
    case Unwinding => 1
    case Finished => 0
  }

  /** The steps that a request still needs at most: those of its task, and the answer. */
  function Left(r: Request): nat {
    Distance(r.counter) + (if r.counter == Unwinding then Locals(r) else 0) + if r.handler == Awaiting then 1 else 0
  }

  function Work(s: Relay): nat {
    Sum(s.requests, Left)
  }

  /** What a request does next, unless it waits in the queue. */
  function OwnStep(r: Request, id: nat): Step {
    match r.counter
    case Spawned => Begin(id)
    case Deciding => Ask(id)
    case Waiting => Resume(id)
    case Submitting => SubmitReturns(id, Accepted)
    case Submitted => Release(id)
    case Released => Report(id)
    case Reported => if r.outcome == Some(PartlyRefused) then Warn(id) else Respond(id)
    case Warned => Respond(id)
    case Decided(_) => SetStatus(id)
    case Recorded(_) => Return(id)
    case Unwinding => Unwind(id)
    case Finished => Answer(id)
  }

  /** The step can happen and brings the request nearer to its end. */
  ghost predicate GoesOn(s: Relay, id: nat, step: Step)
    requires id < |s.requests|
  {
    && IsOwn(step) && step.id == id && MoveOf(s, id, step).Some?
    && Left(MoveOf(s, id, step).value.r) < Left(s.requests[id])
  }

  lemma Advances(s: Relay, step: Step)
    requires !s.ended && IsOwn(step) && step.id < |s.requests| && GoesOn(s, step.id, step)
    ensures Next(s, step).Some? && Work(Next(s, step).value) < Work(s) && !Next(s, step).value.ended
    ensures Next(s, step).value.cap == s.cap
  {
    SumUpdate(s.requests, step.id, MoveOf(s, step.id, step).value.r, Left);
  }

  lemma EarlyGoesOn(s: Relay, id: nat)
    requires id < |s.requests| && IsSound(s.requests[id], s.failOnPartialRefusal, s.threshold)
    requires s.requests[id].counter in {Spawned, Deciding, Submitting, Submitted, Unwinding}
    ensures GoesOn(s, id, OwnStep(s.requests[id], id))
  {
  }

  lemma LateGoesOn(s: Relay, id: nat)
    requires id < |s.requests| && IsSound(s.requests[id], s.failOnPartialRefusal, s.threshold)
    requires s.requests[id].counter in {Released, Reported, Warned, Finished} || s.requests[id].counter.Decided?
      || s.requests[id].counter.Recorded?
    requires Left(s.requests[id]) > 0
    ensures GoesOn(s, id, OwnStep(s.requests[id], id))
  {
  }

  lemma OwnStepGoesOn(s: Relay, id: nat)
    requires Inv(s) && id < |s.requests| && Left(s.requests[id]) > 0 && id !in s.permits.queue
    ensures GoesOn(s, id, OwnStep(s.requests[id], id))
  {
    assert IsSound(s.requests[id], s.failOnPartialRefusal, s.threshold);
    if s.requests[id].counter in {Spawned, Deciding, Submitting, Submitted, Unwinding} {
      EarlyGoesOn(s, id);
    } else if s.requests[id].counter == Waiting {
      assert IsPending(s.requests, id);
    } else {
      LateGoesOn(s, id);
    }
  }

  /** Behind every waiter there is a request that holds or was given a permit. */
  lemma SomeoneElse(s: Relay) returns (id: nat)
    requires Inv(s) && s.cap > 0 && s.permits.queue != []
    ensures id < |s.requests| && Left(s.requests[id]) > 0 && id !in s.permits.queue
  {
    if s.permits.granted != {} {
      id :| id in s.permits.granted;
      assert IsPending(s.requests, id);
      assert IsSound(s.requests[id], s.failOnPartialRefusal, s.threshold);
    } else {
      id := SumPositive(s.requests, Guards);
      assert IsSound(s.requests[id], s.failOnPartialRefusal, s.threshold);
      assert !IsPending(s.requests, id);
    }
  }

  /** No deadlock: while a request is unfinished or unanswered, some request can go on. */
  lemma CanGoOn(s: Relay) returns (step: Step)
    requires Inv(s) && s.cap > 0 && Work(s) > 0 && !s.ended
    ensures Next(s, step).Some? && Work(Next(s, step).value) < Work(s)
    ensures Next(s, step).value.cap == s.cap && !Next(s, step).value.ended
  {
    var id := SumPositive(s.requests, Left);
    if id in s.permits.queue {
      id := SomeoneElse(s);
    }
    step := OwnStep(s.requests[id], id);
    OwnStepGoesOn(s, id);
    Advances(s, step);
  }

  lemma {:induction false} AllFinishedSum(rs: seq<Request>)
    requires forall i :: 0 <= i < |rs| ==> Left(rs[i]) == 0
    ensures Sum(rs, Unfinished) == 0
  {
    if rs != [] {
      assert Left(rs[0]) == 0;
      AllFinishedSum(rs[1..]);
    }
  }

  lemma NothingLeft(s: Relay)
    requires Inv(s) && Work(s) == 0
    ensures NoneAwaits(s) && s.live == 0
  {
    SumZero(s.requests, Left);
    AllFinishedSum(s.requests);
  }

  /** From every state the process can reach its end: drain, stop, join the servers. */
  lemma {:induction false} CanEnd(s: Relay) returns (steps: seq<Step>)
    requires Inv(s) && s.cap > 0 && !s.ended
    ensures Run(s, steps).Some? && Run(s, steps).value.ended && |steps| <= Work(s) + 3
    decreases Work(s)
  {
    if Work(s) == 0 {
      NothingLeft(s);
      var stopped := s.(stopping := true);
      var joined := stopped.(serversDone := true);
      steps := Prepend(joined, End, joined.(ended := true), []);
      steps := Prepend(stopped, JoinServers, joined, steps);
      steps := Prepend(s, Stop, stopped, steps);
    } else {
      var step := CanGoOn(s);
      NextKeepsInv(s, step);
      var rest := CanEnd(Next(s, step).value);
      steps := Prepend(s, step, Next(s, step).value, rest);
    }
  }
}
