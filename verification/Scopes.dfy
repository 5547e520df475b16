/**
 Scoped background tasks, as interleaved steps of the scope's owner and of the executor that runs, finishes
 or drops the spawned futures.  The scope's drop waits until the channel has no sender left.
 */
module Scopes {

  // A wrapped future: still held by the scope, running, done with what it wraps but holding its sender, or gone.
  datatype Wrapped = Waiting | Alive | InnerGone | Gone

  datatype Phase = Building | Awaiting | Dropping | Dropped

  datatype State = State(phase: Phase, ownSender: bool, futures: seq<Wrapped>, senders: nat)

  datatype Step =
    | SpawnInScope
    | HandOver
    | FinishInner(task: nat)
    | DropSender(task: nat)
    | DropScope
    | ChannelClosed

  function Init(): State {
    State(Building, true, [], 1)
  }

  predicate Enabled(s: State, step: Step) {
    match step
    // The closure passed to `scoped` spawns; each spawn clones the scope's sender.
    case SpawnInScope => s.phase == Building && s.ownSender
    // The closure has returned and the futures go to the executor.
    case HandOver => s.phase == Building
    // What is wrapped has resolved, or is dropped first when the task is cancelled.
    case FinishInner(i) => i < |s.futures| && s.futures[i] == Alive
    case DropSender(i) => i < |s.futures| && s.futures[i] == InnerGone && s.senders > 0
    // All tasks have been awaited, or `scoped` itself is dropped, or its closure has panicked.
    case DropScope => (s.phase == Building || s.phase == Awaiting) && s.ownSender && s.senders > 0
    case ChannelClosed => s.phase == Dropping && s.senders == 0
  }

  function HandedOver(futures: seq<Wrapped>): seq<Wrapped> {
    seq(|futures|, i requires 0 <= i < |futures| => if futures[i] == Waiting then Alive else futures[i])
  }

  function After(s: State, step: Step): State
    requires Enabled(s, step)
  {
    match step
    case SpawnInScope => s.(futures := s.futures + [Waiting], senders := s.senders + 1)
    case HandOver => s.(phase := Awaiting, futures := HandedOver(s.futures))
    case FinishInner(i) => s.(futures := s.futures[i := InnerGone])
    case DropSender(i) => s.(futures := s.futures[i := Gone], senders := s.senders - 1)
    case DropScope => s.(phase := Dropping, ownSender := false, senders := s.senders - 1)
    case ChannelClosed => s.(phase := Dropped)
  }

  ghost predicate Run(start: State, steps: seq<Step>, end: State)
    decreases |steps|
  {
    if steps == [] then
      end == start
    else
      Enabled(start, steps[0]) && Run(After(start, steps[0]), steps[1..], end)
  }

  /** The futures that are not gone; each of them holds a sender. */
  function Held(futures: seq<Wrapped>): nat {
    if futures == [] then 0
    else Held(futures[..|futures| - 1]) + if futures[|futures| - 1] == Gone then 0 else 1
  }

  lemma {:induction false} HeldUpdate(futures: seq<Wrapped>, i: nat, w: Wrapped)
    requires i < |futures|
    ensures Held(futures[i := w]) + (if futures[i] == Gone then 0 else 1) ==
            Held(futures) + (if w == Gone then 0 else 1)
  {
    var n := |futures| - 1;
    if i == n {
      assert futures[i := w][..n] == futures[..n];
    } else {
      HeldUpdate(futures[..n], i, w);
      assert futures[i := w][..n] == futures[..n][i := w];
    }
  }

  lemma {:induction false} HeldHandedOver(futures: seq<Wrapped>)
    ensures Held(HandedOver(futures)) == Held(futures)
  {
    if futures != [] {
      var n := |futures| - 1;
      HeldHandedOver(futures[..n]);
      assert HandedOver(futures)[..n] == HandedOver(futures[..n]);
    }
  }

  lemma {:induction false} NoneHeld(futures: seq<Wrapped>, i: nat)
    requires Held(futures) == 0 && i < |futures|
    ensures futures[i] == Gone
  {
    if i < |futures| - 1 {
      NoneHeld(futures[..|futures| - 1], i);
    }
  }

  lemma {:induction false} SomeHeld(futures: seq<Wrapped>) returns (i: nat)
    requires Held(futures) > 0
    ensures i < |futures| && futures[i] != Gone
  {
    var n := |futures| - 1;
    if futures[n] != Gone {
      i := n;
    } else {
      i := SomeHeld(futures[..n]);
    }
  }

  /** The senders are the scope's own and one for each wrapped future that is not gone. */
  ghost predicate Inv(s: State) {
    && s.senders == Held(s.futures) + (if s.ownSender then 1 else 0)
    && (s.ownSender <==> s.phase == Building || s.phase == Awaiting)
    && (s.phase == Awaiting ==> Waiting !in s.futures)
    && (s.phase == Dropped ==> Held(s.futures) == 0)
  }

  lemma StepKeepsInv(s: State, step: Step)
    requires Inv(s) && Enabled(s, step)
    ensures Inv(After(s, step))
  {
    match step
    case SpawnInScope => assert (s.futures + [Waiting])[..|s.futures|] == s.futures;
    case HandOver => HeldHandedOver(s.futures);
    case FinishInner(i) => HeldUpdate(s.futures, i, InnerGone);
    case DropSender(i) => HeldUpdate(s.futures, i, Gone);
    case DropScope =>
    case ChannelClosed =>
  }

  lemma {:induction false} RunKeepsInv(start: State, steps: seq<Step>, end: State)
    requires Inv(start) && Run(start, steps, end)
    ensures Inv(end)
    decreases |steps|
  {
    if steps != [] {
      StepKeepsInv(start, steps[0]);
      RunKeepsInv(After(start, steps[0]), steps[1..], end);
    }
  }

  /** Until it is dropped a scope can be dropped, whatever its futures are doing. */
  lemma CanBeDropped(steps: seq<Step>, s: State)
    requires Run(Init(), steps, s) && (s.phase == Building || s.phase == Awaiting)
    ensures Enabled(s, DropScope)
  {
    RunKeepsInv(Init(), steps, s);
  }

  /** In every interleaving, when the scope's drop has returned no future spawned in it is still alive. */
  lemma DropOutlivesFutures(steps: seq<Step>, end: State)
    requires Run(Init(), steps, end)
    ensures end.senders == Held(end.futures) + (if end.ownSender then 1 else 0)
    ensures end.phase == Dropped ==> forall i :: 0 <= i < |end.futures| ==> end.futures[i] == Gone
  {
    RunKeepsInv(Init(), steps, end);
    forall i | 0 <= i < |end.futures| && end.phase == Dropped ensures end.futures[i] == Gone {
      NoneHeld(end.futures, i);
    }
  }

  // ---------- When the drop returns ----------

  /** The steps that the futures which were handed over still have to take. */
  function ToGo(futures: seq<Wrapped>): nat {
    if futures == [] then 0
    else ToGo(futures[..|futures| - 1]) + WrappedToGo(futures[|futures| - 1])
  }

  function WrappedToGo(w: Wrapped): nat {
    match w
    case Alive => 2
    case InnerGone => 1
    case _ => 0
  }

  lemma {:induction false} ToGoUpdate(futures: seq<Wrapped>, i: nat, w: Wrapped)
    requires i < |futures|
    ensures ToGo(futures[i := w]) + WrappedToGo(futures[i]) == ToGo(futures) + WrappedToGo(w)
  {
    var n := |futures| - 1;
    if i == n {
      assert futures[i := w][..n] == futures[..n];
    } else {
      ToGoUpdate(futures[..n], i, w);
      assert futures[i := w][..n] == futures[..n][i := w];
    }
  }

  /** A scope whose drop has begun holds no future back. */
  ghost predicate DropsAll(s: State) {
    Inv(s) && (s.phase == Dropping || s.phase == Dropped) && Waiting !in s.futures
  }

  /** Every step that anyone takes brings the end of the drop nearer. */
  lemma DropStep(s: State, step: Step)
    requires DropsAll(s) && Enabled(s, step)
    ensures var t := After(s, step);
            && DropsAll(t)
            && if t.phase == Dropped && s.phase == Dropping then t.futures == s.futures
               else t.phase == s.phase && ToGo(t.futures) < ToGo(s.futures)
  {
    StepKeepsInv(s, step);
    match step
    case FinishInner(i) => ToGoUpdate(s.futures, i, InnerGone);
    case DropSender(i) => ToGoUpdate(s.futures, i, Gone);
    case _ =>
  }

  /** Until the drop has returned someone can take a step. */
  lemma DropCanStep(s: State) returns (step: Step)
    requires DropsAll(s) && s.phase == Dropping
    ensures Enabled(s, step)
  {
    step := ChannelClosed;
    if Held(s.futures) > 0 {
      var i := SomeHeld(s.futures);
      assert s.futures[i] in s.futures;
      step := if s.futures[i] == Alive then FinishInner(i) else DropSender(i);
    }
  }

  /** The drop returns in the step in which all futures are gone; until then some future can take a step. */
  lemma WaitingDropGoesOn(steps: seq<Step>, end: State)
    requires Run(Init(), steps, end) && end.phase == Dropping
    ensures Waiting !in end.futures ==> exists step :: Enabled(end, step)
    ensures Enabled(end, ChannelClosed) <==> forall i :: 0 <= i < |end.futures| ==> end.futures[i] == Gone
  {
    RunKeepsInv(Init(), steps, end);
    if Waiting !in end.futures {
      var step := DropCanStep(end);
    }
    if Held(end.futures) > 0 {
      var i := SomeHeld(end.futures);
    } else {
      forall i | 0 <= i < |end.futures| ensures end.futures[i] == Gone {
        NoneHeld(end.futures, i);
      }
    }
  }

  /**
   Whatever the order of the steps, the drop returns: no run is longer than what the futures still have to do, and
   none is stuck before its end.
   */
  lemma {:induction false} DropReturnsAlways(s: State, steps: seq<Step>, end: State)
    requires DropsAll(s) && Run(s, steps, end)
    ensures |steps| <= ToGo(s.futures) + (if s.phase == Dropping then 1 else 0)
    ensures end.phase == Dropped || exists step :: Enabled(end, step)
    decreases |steps|
  {
    if steps != [] {
      DropStep(s, steps[0]);
      DropReturnsAlways(After(s, steps[0]), steps[1..], end);
    } else if s.phase == Dropping {
      var step := DropCanStep(s);
    }
  }

  lemma {:induction false} DropReturns(s: State) returns (steps: seq<Step>, end: State)
    requires DropsAll(s)
    ensures Run(s, steps, end) && end.phase == Dropped
    decreases ToGo(s.futures), if s.phase == Dropping then 1 else 0
  {
    if s.phase == Dropped {
      steps, end := [], s;
    } else {
      var step := DropCanStep(s);
      DropStep(s, step);
      var rest;
      rest, end := DropReturns(After(s, step));
      steps := [step] + rest;
      assert steps[1..] == rest;
    }
  }

  /** Only a scope given up before the hand-over can hold a future that never runs, and then its drop never returns. */
  lemma {:induction false} NeverHandedOver(start: State, steps: seq<Step>, end: State, i: nat)
    requires Inv(start) && start.phase == Dropping && i < |start.futures| && start.futures[i] == Waiting
    requires Run(start, steps, end)
    ensures end.phase == Dropping && i < |end.futures| && end.futures[i] == Waiting
    decreases |steps|
  {
    if steps != [] {
      if start.senders == 0 {
        NoneHeld(start.futures, i);
      }
      StepKeepsInv(start, steps[0]);
      NeverHandedOver(After(start, steps[0]), steps[1..], end, i);
    }
  }

  /** After the closure nothing is spawned in the scope and nothing handed over any more. */
  lemma {:induction false} ClosureIsOver(start: State, steps: seq<Step>, end: State)
    requires start.phase != Building && Run(start, steps, end)
    ensures HandOver !in steps && SpawnInScope !in steps
    ensures Waiting !in start.futures ==> Waiting !in end.futures
    decreases |steps|
  {
    if steps != [] {
      ClosureIsOver(After(start, steps[0]), steps[1..], end);
      assert steps == [steps[0]] + steps[1..];
    }
  }

  /** A future is held back exactly when something was spawned and the scope was dropped before the hand-over. */
  lemma {:induction false} HeldBack(start: State, steps: seq<Step>, end: State)
    requires Inv(start) && start.phase == Building && (forall i :: 0 <= i < |start.futures| ==> start.futures[i] == Waiting)
    requires Run(start, steps, end) && (end.phase == Dropping || end.phase == Dropped)
    ensures Waiting in end.futures <==> HandOver !in steps && (start.futures != [] || SpawnInScope in steps)
    decreases |steps|
  {
    var step, rest := steps[0], steps[1..];
    var next := After(start, step);
    assert steps == [step] + rest;
    StepKeepsInv(start, step);
    match step
    case SpawnInScope => HeldBack(next, rest, end);
    case HandOver => ClosureIsOver(next, rest, end);
    case DropScope =>
      ClosureIsOver(next, rest, end);
      if start.futures != [] {
        NeverHandedOver(next, rest, end, 0);
      }
    case _ => assert false;
  }

  /**
   The drop of a scope can return exactly when it holds no future back, that is, unless something was spawned in it
   and it was dropped before the hand-over; and then it does return, whatever the order of the steps.
   */
  lemma DropReturnsIff(before: seq<Step>, s: State)
    requires Run(Init(), before, s) && s.phase == Dropping
    ensures (exists steps, end :: Run(s, steps, end) && end.phase == Dropped) <==> Waiting !in s.futures
    ensures Waiting in s.futures <==> SpawnInScope in before && HandOver !in before
    ensures Waiting !in s.futures ==>
              forall steps, end :: Run(s, steps, end) && !(exists step :: Enabled(end, step)) ==> end.phase == Dropped
  {
    RunKeepsInv(Init(), before, s);
    HeldBack(Init(), before, s);
    if Waiting in s.futures {
      var i :| 0 <= i < |s.futures| && s.futures[i] == Waiting;
      forall steps, end | Run(s, steps, end) ensures end.phase == Dropping {
        NeverHandedOver(s, steps, end, i);
      }
    } else {
      var path, last := DropReturns(s);
      assert exists steps, end :: Run(s, steps, end) && end.phase == Dropped;
      forall steps, end | Run(s, steps, end) ensures end.phase == Dropped || exists step :: Enabled(end, step) {
        DropReturnsAlways(s, steps, end);
      }
    }
  }

  /** Such a scope exists: its closure spawns once and gives up. */
  lemma GivenUpScope() returns (s: State)
    ensures Run(Init(), [SpawnInScope, DropScope], s)
    ensures s.phase == Dropping && Waiting in s.futures
    ensures forall steps, end :: Run(s, steps, end) ==> end.phase != Dropped
  {
    var spawned := After(Init(), SpawnInScope);
    s := After(spawned, DropScope);
    assert [SpawnInScope, DropScope][1..] == [DropScope] && [DropScope][1..] == [];
    assert Run(s, [], s) && Run(spawned, [DropScope], s);
    DropReturnsIff([SpawnInScope, DropScope], s);
  }
}
