/**
 Blocking a thread on a future, as interleaved steps of the blocked thread, of whoever completes the
 future, and of anyone who holds its waker.

 The parker is one token: a wake sets it, parking waits for it and takes it.  A poll registers the waker
 before it looks whether the future is ready, as futures must.
 */
module Blocking {
  import opened Wrappers

  datatype Pc =
    | BeforePoll
    | InPoll
    | BeforePark
    | Parked
    | TimedOut
    | Done(result: bool)

  // `owed`: the future became ready after the waker was registered and the waker has not been called for it yet.
  // `unconsumed`: a wake has been issued since the last poll began.
  datatype State = State(pc: Pc, deadline: Option<int>, now: int, token: bool,
                         ready: bool, registered: bool, owed: bool, unconsumed: bool)

  datatype Step =
    | PollBegins | PollReady | PollPending | Park | TakeToken | ParkTimesOut | Expire | NotYet
    | Complete | WakeOwed | WakeSpurious | Tick(elapsed: nat)

  predicate OwnStep(step: Step) {
    !(step.Complete? || step.WakeOwed? || step.WakeSpurious? || step.Tick?)
  }

  ghost predicate Init(s: State) {
    s.pc == BeforePoll && !s.token && !s.registered && !s.owed && !s.unconsumed
  }

  predicate Enabled(s: State, step: Step) {
    match step
    case PollBegins => s.pc == BeforePoll
    case PollReady => s.pc == InPoll && s.ready
    case PollPending => s.pc == InPoll && !s.ready
    case Park => s.pc == BeforePark
    case TakeToken => s.pc == Parked && s.token
    case ParkTimesOut => s.pc == Parked && !s.token && s.deadline.Some?
    case Expire => s.pc == TimedOut && s.deadline.Some? && s.deadline.value <= s.now
    case NotYet => s.pc == TimedOut && s.deadline.Some? && s.now < s.deadline.value
    case Complete => !s.ready
    case WakeOwed => s.owed
    case WakeSpurious => s.registered
    case Tick(_) => true
  }

  function After(s: State, step: Step): State {
    match step
    case PollBegins => s.(pc := InPoll, registered := true, unconsumed := false)
    case PollReady => s.(pc := Done(true))
    case PollPending => s.(pc := BeforePark)
    case Park => s.(pc := Parked)
    case TakeToken => s.(pc := BeforePoll, token := false)
    case ParkTimesOut => s.(pc := TimedOut)
    case Expire => s.(pc := Done(false))
    case NotYet => s.(pc := BeforePoll)
    case Complete => s.(ready := true, owed := s.registered)
    case WakeOwed => s.(owed := false, token := true, unconsumed := true)
    case WakeSpurious => s.(token := true, unconsumed := true)
    case Tick(elapsed) => s.(now := s.now + elapsed)
  }

  /** The blocked thread never has a choice. */
  lemma OwnStepIsUnique(s: State, step: Step, other: Step)
    requires OwnStep(step) && OwnStep(other) && Enabled(s, step) && Enabled(s, other)
    ensures step == other
  {
  }

  /** A run: a start and the steps taken one after the other, by whoever takes them. */
  ghost predicate Run(start: State, steps: seq<Step>, end: State)
    decreases |steps|
  {
    if steps == [] then
      end == start
    else
      Enabled(start, steps[0]) && Run(After(start, steps[0]), steps[1..], end)
  }

  ghost predicate Inv(s: State) {
    && (s.unconsumed ==> s.token || s.pc == BeforePoll || s.pc.Done?)
    && (s.pc != BeforePoll ==> s.registered)
    && (s.pc in {BeforePark, Parked, TimedOut} && s.ready ==> s.owed || s.token)
    && (s.pc == TimedOut ==> s.deadline.Some?)
    && (s.pc == Done(true) ==> s.ready)
    && (s.pc == Done(false) ==> s.deadline.Some? && s.deadline.value <= s.now)
  }

  lemma StepKeepsInv(s: State, step: Step)
    requires Inv(s) && Enabled(s, step)
    ensures Inv(After(s, step)) && After(s, step).deadline == s.deadline
  {
  }

  lemma {:induction false} RunKeepsInv(start: State, steps: seq<Step>, end: State)
    requires Inv(start) && Run(start, steps, end)
    ensures Inv(end) && end.deadline == start.deadline
    decreases |steps|
  {
    if steps != [] {
      StepKeepsInv(start, steps[0]);
      RunKeepsInv(After(start, steps[0]), steps[1..], end);
    }
  }

  /**
   In every interleaving: a parked thread has the token if a wake has come since its last poll began; it
   has the token, or will be given it, if the future is ready; `true` is returned only for a ready future
   and `false` only past a deadline that was given.
   */
  lemma NoWakeIsLost(start: State, steps: seq<Step>, end: State)
    requires Init(start) && Run(start, steps, end)
    ensures end.pc == Parked && end.unconsumed ==> end.token
    ensures end.pc == Parked && end.ready ==> end.token || end.owed
    ensures end.pc == Done(true) ==> end.ready
    ensures end.pc == Done(false) ==> start.deadline.Some? && start.deadline.value <= end.now
  {
    RunKeepsInv(start, steps, end);
  }

  /** How many steps of its own the thread is from returning once the future is ready. */
  function StepsToGo(pc: Pc): nat {
    match pc
    case Done(_) => 0
    case InPoll => 1
    case BeforePoll => 2
    case TimedOut => 3
    case Parked => 4
    case BeforePark => 5
  }

  /** What the thread can do itself. */
  lemma OwnStepOf(s: State) returns (step: Step)
    requires Inv(s) && s.ready && !s.owed && !s.pc.Done?
    ensures OwnStep(step) && Enabled(s, step)
  {
    step :=
      match s.pc
      case BeforePoll => PollBegins
      case InPoll => PollReady
      case BeforePark => Park
      case Parked => TakeToken
      case TimedOut => if s.now < s.deadline.value then NotYet else Expire
      case Done(_) => Park;
  }

  /**
   Once the future is ready and its wake delivered, the thread can always go on, and every step it takes
   brings it nearer to returning, whatever wakes and ticks come in between.
   */
  lemma ReadyMeansReturning(start: State, steps: seq<Step>, s: State)
    requires Init(start) && Run(start, steps, s)
    requires s.ready && !s.owed && !s.pc.Done?
    ensures exists step :: OwnStep(step) && Enabled(s, step)
    ensures forall step :: Enabled(s, step) ==>
              var t := After(s, step);
              && t.ready && !t.owed
              && if OwnStep(step) then StepsToGo(t.pc) < StepsToGo(s.pc) else t.pc == s.pc
  {
    RunKeepsInv(start, steps, s);
    var own := OwnStepOf(s);
    forall step | Enabled(s, step) {
      ReadyStep(s, step);
    }
  }

  /** The steps of the blocked thread among others. */
  function OwnSteps(steps: seq<Step>): nat {
    if steps == [] then 0 else (if OwnStep(steps[0]) then 1 else 0) + OwnSteps(steps[1..])
  }

  lemma {:induction false} OwnStepsAdd(steps: seq<Step>, step: Step)
    ensures OwnSteps(steps + [step]) == OwnSteps(steps) + if OwnStep(step) then 1 else 0
  {
    if steps == [] {
      assert steps + [step] == [step];
      assert [step][1..] == [];
    } else {
      assert (steps + [step])[1..] == steps[1..] + [step];
      OwnStepsAdd(steps[1..], step);
    }
  }

  lemma ReadyStep(s: State, step: Step)
    requires Inv(s) && s.ready && !s.owed && Enabled(s, step)
    ensures var t := After(s, step);
            && Inv(t) && t.ready && !t.owed
            && if OwnStep(step) then StepsToGo(t.pc) < StepsToGo(s.pc) else t.pc == s.pc
  {
    StepKeepsInv(s, step);
  }

  /**
   From then on the call returns whatever the order of the steps: the thread takes only so many steps of its own, and as
   long as it has not returned it can take one.
   */
  lemma {:induction false} ReadyRunReturns(s: State, steps: seq<Step>, end: State)
    requires Inv(s) && s.ready && !s.owed && Run(s, steps, end)
    ensures OwnSteps(steps) + StepsToGo(end.pc) <= StepsToGo(s.pc)
    ensures end.pc.Done? || exists step :: OwnStep(step) && Enabled(end, step)
    decreases |steps|
  {
    if steps != [] {
      ReadyStep(s, steps[0]);
      ReadyRunReturns(After(s, steps[0]), steps[1..], end);
    } else if !s.pc.Done? {
      var step := OwnStepOf(s);
    }
  }

  /** The same for every reachable state. */
  lemma ReadyReturns(start: State, before: seq<Step>, s: State, steps: seq<Step>, end: State)
    requires Init(start) && Run(start, before, s) && s.ready && !s.owed && Run(s, steps, end)
    ensures OwnSteps(steps) <= StepsToGo(s.pc)
    ensures end.pc.Done? || exists step :: OwnStep(step) && Enabled(end, step)
  {
    RunKeepsInv(start, before, s);
    ReadyRunReturns(s, steps, end);
  }

  /** Without a deadline the call returns only when the future is ready. */
  lemma WithoutDeadlineOnlyReady(start: State, steps: seq<Step>, end: State)
    requires Init(start) && start.deadline == None && Run(start, steps, end) && end.pc.Done?
    ensures end.pc == Done(true) && end.ready
  {
    RunKeepsInv(start, steps, end);
  }
}
