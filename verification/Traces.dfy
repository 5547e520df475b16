/**
 What a run of the application may look like from outside: everything that user code does, every callback
 called, every window removed, every entity released and every effect applied, in order.

 The predicates `Follows` to `CallsBack` say which logs are those of a script, of a flush and of a callback; they mention
 no state.  `Runs` steps the effect queue and the window index from one state to the next along a log; what is
 proved about runs holds for everything that the application does.
 */
module Traces {
  import opened Wrappers
  import opened Effects

  datatype Event =
    | Did(op: Op)
    | Called(script: Script)
    | Removed(window: WindowId)
    | FlushBegan
    | Released(entity: EntityId)
    | Applied(effect: Effect)

  type Log = seq<Event>

  // ---------- The logs of scripts and flushes ----------

  /** The script is done from its first operation to its last, with nothing in between but what these bring about. */
  ghost predicate Follows(script: Script, log: Log, outer: bool)
    decreases |log|, 2
  {
    if script == [] then
      log == []
    else
      exists k :: 0 < k <= |log| && Performs(script[0], log[..k], outer) && Follows(script[1..], log[k..], outer)
  }

  /** `outer` says that no update is open around the operation. */
  ghost predicate Performs(op: Op, log: Log, outer: bool)
    decreases |log|, 1
  {
    && log != [] && log[0] == Did(op)
    && match op
       case Update(body) =>
         exists k :: 1 <= k <= |log| && Follows(body, log[1..k], false) && Finishes(log[k..], outer)
       case Borrow(id, body) =>
         exists k :: 1 <= k < |log| && Follows(body, log[1..k], false) && log[k] == Did(Op.NotifyEntity(id))
                     && Finishes(log[k + 1..], outer)
       case RemoveWindow(w, body) =>
         exists k :: 1 <= k < |log| && Follows(body, log[1..k], false) && log[k] == Removed(w)
                     && Closes(log[k + 1..], outer)
       case _ => |log| == 1
  }

  /** The observers of a closed window are called before the update in which it was removed is finished. */
  ghost predicate Closes(log: Log, outer: bool)
    decreases |log|, 5
  {
    exists k :: 0 <= k <= |log| && CallsBack(log[..k], false) && Finishes(log[k..], outer)
  }

  /** Only the outermost finish flushes. */
  ghost predicate Finishes(log: Log, outer: bool)
    decreases |log|, 4
  {
    if outer then log != [] && log[0] == FlushBegan && Flushes(log[1..]) else log == []
  }

  ghost predicate Flushes(log: Log)
    decreases |log|, 3
  {
    log == [] || exists k :: 0 < k <= |log| && FlushStep(log[..k]) && Flushes(log[k..])
  }

  /** One entity is released or one effect applied; what that calls runs inside an update. */
  ghost predicate FlushStep(log: Log)
    decreases |log|, 0
  {
    && log != []
    && match log[0]
       case Released(_) => CallsBack(log[1..], false)
       case Applied(effect) => Handles(effect, log[1..])
       case _ => false
  }

  ghost predicate Handles(effect: Effect, log: Log)
    decreases |log|, 4
  {
    match effect
    case Defer(callback) => Follows(callback, log, false)
    case RefreshWindows => log == []
    case _ => CallsBack(log, false)
  }

  ghost predicate CallsBack(log: Log, outer: bool)
    decreases |log|, 3
  {
    log != [] && log[0].Called? && Follows(log[0].script, log[1..], outer)
  }

  // ---------- Putting logs together ----------

  lemma Regroup(before: Log, first: Log, rest: Log)
    ensures before + first + rest == before + (first + rest)
  {
  }

  lemma FollowsCons(script: Script, first: Log, rest: Log, outer: bool)
    requires script != [] && Performs(script[0], first, outer) && Follows(script[1..], rest, outer)
    ensures Follows(script, first + rest, outer)
  {
    var log, k := first + rest, |first|;
    assert log[..k] == first && log[k..] == rest;
  }

  lemma PerformsUpdate(body: Script, inner: Log, finish: Log, outer: bool)
    requires Follows(body, inner, false) && Finishes(finish, outer)
    ensures Performs(Update(body), [Did(Update(body))] + inner + finish, outer)
  {
    var log, k := [Did(Update(body))] + inner + finish, 1 + |inner|;
    assert log[1..k] == inner && log[k..] == finish;
  }

  lemma PerformsBorrow(id: EntityId, body: Script, inner: Log, finish: Log, outer: bool)
    requires Follows(body, inner, false) && Finishes(finish, outer)
    ensures Performs(Borrow(id, body), [Did(Borrow(id, body))] + inner + [Did(Op.NotifyEntity(id))] + finish, outer)
  {
    var log, k := [Did(Borrow(id, body))] + inner + [Did(Op.NotifyEntity(id))] + finish, 1 + |inner|;
    assert log[1..k] == inner && log[k + 1..] == finish;
  }

  lemma CallsBackWith(script: Script, log: Log, outer: bool)
    requires Follows(script, log, outer)
    ensures CallsBack([Called(script)] + log, outer)
  {
    assert ([Called(script)] + log)[1..] == log;
  }

  lemma ClosesWith(called: Log, finish: Log, outer: bool)
    requires CallsBack(called, false) && Finishes(finish, outer)
    ensures Closes(called + finish, outer)
  {
    var log, k := called + finish, |called|;
    assert log[..k] == called && log[k..] == finish;
  }

  lemma PerformsRemoval(w: WindowId, body: Script, inner: Log, closing: Log, outer: bool)
    requires Follows(body, inner, false) && Closes(closing, outer)
    ensures Performs(RemoveWindow(w, body), [Did(RemoveWindow(w, body))] + inner + [Removed(w)] + closing, outer)
  {
    var log, k := [Did(RemoveWindow(w, body))] + inner + [Removed(w)] + closing, 1 + |inner|;
    assert log[1..k] == inner && log[k + 1..] == closing;
  }

  lemma ReleaseIsStep(e: EntityId, log: Log)
    requires CallsBack(log, false)
    ensures FlushStep([Released(e)] + log)
  {
    assert ([Released(e)] + log)[1..] == log;
  }

  lemma ApplyIsStep(effect: Effect, log: Log)
    requires Handles(effect, log)
    ensures FlushStep([Applied(effect)] + log)
  {
    assert ([Applied(effect)] + log)[1..] == log;
  }

  lemma {:induction false} FlushesConcat(log: Log, more: Log)
    requires Flushes(log) && Flushes(more)
    ensures Flushes(log + more)
    decreases |log|
  {
    if log == [] {
      assert log + more == more;
    } else {
      var k :| 0 < k <= |log| && FlushStep(log[..k]) && Flushes(log[k..]);
      FlushesConcat(log[k..], more);
      assert (log + more)[..k] == log[..k] && (log + more)[k..] == log[k..] + more;
    }
  }

  lemma FlushesSnoc(log: Log, step: Log)
    requires Flushes(log) && FlushStep(step)
    ensures Flushes(log + step)
  {
    assert step[..|step|] == step && step[|step|..] == [];
    FlushesConcat(log, step);
  }

  lemma FinishesByFlush(log: Log)
    requires Flushes(log)
    ensures Finishes([FlushBegan] + log, true)
  {
    assert ([FlushBegan] + log)[1..] == log;
  }

  // ---------- What such logs tell ----------

  ghost predicate Quiet(log: Log) {
    forall i :: 0 <= i < |log| ==> log[i].Did? || log[i].Called? || log[i].Removed?
  }

  /** Inside an update no flush begins, no effect is applied and no entity released, however updates and borrows nest. */
  lemma {:induction false} InnerIsQuiet(script: Script, log: Log)
    requires Follows(script, log, false)
    ensures Quiet(log)
    decreases |log|, 2
  {
    if script != [] {
      var k :| 0 < k <= |log| && Performs(script[0], log[..k], false) && Follows(script[1..], log[k..], false);
      InnerOpIsQuiet(script[0], log[..k]);
      InnerIsQuiet(script[1..], log[k..]);
      assert log == log[..k] + log[k..];
    }
  }

  lemma {:induction false} InnerOpIsQuiet(op: Op, log: Log)
    requires Performs(op, log, false)
    ensures Quiet(log)
    decreases |log|, 1
  {
    match op
    case Update(body) =>
      var k :| 1 <= k <= |log| && Follows(body, log[1..k], false) && Finishes(log[k..], false);
      InnerIsQuiet(body, log[1..k]);
      QuietBetween(log, 1, k);
    case Borrow(id, body) => InnerBorrowIsQuiet(id, body, log);
    case RemoveWindow(w, body) => InnerRemovalIsQuiet(w, body, log);
    case _ =>
  }

  lemma {:induction false} InnerBorrowIsQuiet(id: EntityId, body: Script, log: Log)
    requires Performs(Borrow(id, body), log, false)
    ensures Quiet(log)
    decreases |log|, 0
  {
    var k :| 1 <= k < |log| && Follows(body, log[1..k], false) && log[k] == Did(Op.NotifyEntity(id))
             && Finishes(log[k + 1..], false);
    InnerIsQuiet(body, log[1..k]);
    QuietBetween(log, 1, k);
  }

  lemma {:induction false} InnerRemovalIsQuiet(w: WindowId, body: Script, log: Log)
    requires Performs(RemoveWindow(w, body), log, false)
    ensures Quiet(log)
    decreases |log|, 0
  {
    var k :| 1 <= k < |log| && Follows(body, log[1..k], false) && log[k] == Removed(w) && Closes(log[k + 1..], false);
    InnerIsQuiet(body, log[1..k]);
    InnerClosingIsQuiet(log[k + 1..]);
    QuietBetween(log[..k], 1, k);
    QuietBetween(log, k, k + 1);
  }

  lemma {:induction false} InnerClosingIsQuiet(log: Log)
    requires Closes(log, false)
    ensures Quiet(log)
    decreases |log|, 3
  {
    var k :| 0 <= k <= |log| && CallsBack(log[..k], false) && Finishes(log[k..], false);
    InnerIsQuiet(log[0].script, log[..k][1..]);
    QuietBetween(log[..k], 1, k);
    assert log == log[..k];
  }

  lemma QuietBetween(log: Log, i: nat, k: nat)
    requires i <= k <= |log| && Quiet(log[..i]) && Quiet(log[i..k]) && Quiet(log[k..])
    ensures Quiet(log)
  {
    assert log == log[..i] + log[i..k] + log[k..];
  }

  lemma QuietAfter(first: Event, log: Log)
    requires !first.FlushBegan? && Quiet(log)
    ensures FlushBegan !in [first] + log
  {
  }

  lemma CallbackIsQuiet(log: Log)
    requires CallsBack(log, false)
    ensures Quiet(log)
  {
    InnerIsQuiet(log[0].script, log[1..]);
    QuietBetween(log, 1, |log|);
  }

  lemma HandlerIsQuiet(effect: Effect, log: Log)
    requires Handles(effect, log)
    ensures Quiet(log)
  {
    match effect
    case Defer(callback) => InnerIsQuiet(callback, log);
    case RefreshWindows =>
    case _ => CallbackIsQuiet(log);
  }

  lemma StepBeginsNoFlush(log: Log)
    requires FlushStep(log)
    ensures FlushBegan !in log
  {
    var rest := log[1..];
    assert log == [log[0]] + rest;
    if log[0].Applied? {
      HandlerIsQuiet(log[0].effect, rest);
    } else {
      CallbackIsQuiet(rest);
    }
    QuietAfter(log[0], rest);
  }

  /** A flush never re-enters: in all that happens during one, no other begins. */
  lemma {:induction false} FlushNeverReenters(log: Log)
    requires Flushes(log)
    ensures FlushBegan !in log
    decreases |log|
  {
    if log != [] {
      var k :| 0 < k <= |log| && FlushStep(log[..k]) && Flushes(log[k..]);
      StepBeginsNoFlush(log[..k]);
      FlushNeverReenters(log[k..]);
      assert log == log[..k] + log[k..];
    }
  }

  /** Where the operations of the script stand in the log: each in its turn. */
  ghost predicate DoneAt(script: Script, log: Log, at: seq<nat>) {
    && |at| == |script|
    && (forall i :: 0 <= i < |at| ==> at[i] < |log| && log[at[i]] == Did(script[i]))
    && (forall i, j :: 0 <= i < j < |at| ==> at[i] < at[j])
  }

  /** Every operation of a script is done, as often as it stands there and in the order of the script. */
  lemma {:induction false} EveryOpIsDone(script: Script, log: Log, outer: bool) returns (at: seq<nat>)
    requires Follows(script, log, outer)
    ensures DoneAt(script, log, at)
    ensures script != [] ==> at[0] == 0
    decreases |log|
  {
    at := [];
    if script != [] {
      var k :| 0 < k <= |log| && Performs(script[0], log[..k], outer) && Follows(script[1..], log[k..], outer);
      var rest := EveryOpIsDone(script[1..], log[k..], outer);
      assert log[0] == log[..k][0];
      at := DoneBehind(script, log, k, rest);
    }
  }

  lemma DoneBehind(script: Script, log: Log, k: nat, rest: seq<nat>) returns (at: seq<nat>)
    requires script != [] && 0 < k <= |log| && log[0] == Did(script[0]) && DoneAt(script[1..], log[k..], rest)
    ensures DoneAt(script, log, at) && at[0] == 0
  {
    at := [0] + seq(|rest|, i requires 0 <= i < |rest| => k + rest[i]);
    forall i | 0 < i < |at| ensures 0 < at[i] < |log| && log[at[i]] == Did(script[i]) {
      assert log[k..][rest[i - 1]] == Did(script[1..][i - 1]);
    }
  }

  // ---------- What a run adds up to ----------

  function Collect<T>(log: Log, part: Event -> seq<T>): seq<T> {
    if log == [] then [] else Collect(log[..|log| - 1], part) + part(log[|log| - 1])
  }

  function EffectOf(event: Event): seq<Effect> {
    if event.Applied? then [event.effect] else []
  }

  function ReleaseOf(event: Event): seq<EntityId> {
    if event.Released? then [event.entity] else []
  }

  function DropOf(event: Event): seq<EntityId> {
    if event.Did? && event.op.DropEntity? then [event.op.id] else []
  }

  function FrameOf(event: Event): seq<FrameEvent> {
    match event
    case Did(RecordFrame(w, entities)) => [Recorded(w, entities)]
    case Removed(w) => [Closed(w)]
    case _ => []
  }

  function CalledOf(event: Event): seq<Script> {
    if event.Called? then [event.script] else []
  }

  /** The effect that an operation asks for by name. */
  function AskOf(event: Event): Option<Effect> {
    match event
    case Did(Push(effect)) => Some(effect)
    case Did(Refresh) => Some(Effect.RefreshWindows)
    case _ => None
  }

  /** The effects that an event may add to those pending. */
  function AsksOf(event: Event): seq<Effect> {
    match event
    case Did(NotifyEntity(e)) => [Notify(e)]
    case _ => if AskOf(event).Some? then [AskOf(event).value] else []
  }

  function DrawingAfter(log: Log): set<WindowId> {
    if log == [] then {}
    else
      var before := DrawingAfter(log[..|log| - 1]);
      match log[|log| - 1]
      case Did(BeginDraw(w)) => before + {w}
      case Did(EndDraw(w)) => before - {w}
      case _ => before
  }

  ghost predicate AppliedAfter(log: Log, i: nat, effect: Effect) {
    exists j :: i < j < |log| && log[j] == Applied(effect)
  }

  /** Every effect that was asked for is pending, or has been applied since. */
  ghost predicate Answered(log: Log, pending: seq<Effect>) {
    forall i :: 0 <= i < |log| && AskOf(log[i]).Some? ==>
                  AskOf(log[i]).value in pending || AppliedAfter(log, i, AskOf(log[i]).value)
  }

  /** Whenever an effect was applied, everything dropped by then had been released. */
  ghost predicate ReleasesFirst(log: Log) {
    forall i :: 0 <= i < |log| && log[i].Applied? ==> Collect(log[..i], DropOf) == Collect(log[..i], ReleaseOf)
  }

  lemma AnsweredPush(log: Log, pending: seq<Effect>, event: Event, after: seq<Effect>)
    requires Answered(log, pending)
    requires if event.Applied? then pending == [event.effect] + after else pending <= after
    requires AskOf(event).Some? ==> AskOf(event).value in after
    ensures Answered(log + [event], after)
  {
    var longer := log + [event];
    forall i | 0 <= i < |longer| && AskOf(longer[i]).Some? && AskOf(longer[i]).value !in after
      ensures AppliedAfter(longer, i, AskOf(longer[i]).value)
    {
      var effect := AskOf(longer[i]).value;
      assert longer[i] == log[i];
      if effect in pending {
        assert longer[|log|] == Applied(effect);
      } else {
        var j :| i < j < |log| && log[j] == Applied(effect);
        assert longer[j] == log[j];
      }
    }
  }

  lemma ReleasesFirstPush(log: Log, event: Event)
    requires ReleasesFirst(log)
    requires event.Applied? ==> Collect(log, DropOf) == Collect(log, ReleaseOf)
    ensures ReleasesFirst(log + [event])
  {
    var longer := log + [event];
    forall i | 0 <= i < |longer| && longer[i].Applied?
      ensures Collect(longer[..i], DropOf) == Collect(longer[..i], ReleaseOf)
    {
      assert longer[..i] == log[..i];
      if i == |log| {
        assert log[..i] == log;
      } else {
        assert log[i].Applied?;
      }
    }
  }

  // ---------- Runs ----------

  /** The next thing a callback will do; when all are used up, callbacks do nothing. */
  function NextScript(tape: seq<Script>): Script {
    if tape == [] then [] else tape[0]
  }

  function AfterNext(tape: seq<Script>): seq<Script> {
    if tape == [] then [] else tape[1..]
  }

  // The queue, the index, what the application remembers of what has happened, and the callbacks to come.
  datatype State = State(pending: seq<Effect>, notifications: set<EntityId>, globals: set<TypeId>,
                         invalidators: map<EntityId, set<WindowId>>, tracked: map<WindowId, set<EntityId>>, books: Books,
                         callbacks: seq<Script>)

  datatype Books = Books(frames: seq<FrameEvent>, drawing: set<WindowId>, released: set<EntityId>, dropped: seq<EntityId>)

  function Start(tape: seq<Script>): State {
    State([], {}, {}, map[], map[], Books([], {}, {}, []), tape)
  }

  function Booked(b: Books, event: Event): Books {
    match event
    case Released(e) => b.(released := b.released + {e}, dropped := if b.dropped == [] then [] else b.dropped[1..])
    case Did(RecordFrame(w, entities)) => b.(frames := b.frames + [Recorded(w, entities)])
    case Removed(w) => b.(frames := b.frames + [Closed(w)])
    case Did(BeginDraw(w)) => b.(drawing := b.drawing + {w})
    case Did(EndDraw(w)) => b.(drawing := b.drawing - {w})
    case Did(DropEntity(e)) => b.(dropped := b.dropped + [e])
    case _ => b
  }

  ghost predicate Sound(s: State) {
    && Deduped(s.pending, s.notifications, s.globals)
    && Indexed(s.invalidators, s.tracked, s.books.released)
    && TracksFrames(s.tracked, s.books.frames)
  }

  /** The windows that are told of a change of the entity. */
  function Live(s: State, e: EntityId): set<WindowId> {
    if e in s.invalidators then s.invalidators[e] else {}
  }

  /** A change of the entity is told only to windows that are drawing: nobody queues a notification for them. */
  predicate Muted(s: State, e: EntityId) {
    Live(s, e) != {} && Live(s, e) <= s.books.drawing
  }

  /** The effects that an event adds to those pending. */
  function QueuedBy(s: State, event: Event): seq<Effect> {
    match event
    case Did(Push(effect)) => if Duplicate(effect, s.notifications, s.globals) then [] else [effect]
    case Did(Refresh) => [Effect.RefreshWindows]
    case Did(NotifyEntity(e)) =>
      if e in s.notifications || Muted(s, e) then [] else [Notify(e)]
    case _ => []
  }

  function Enqueued(s: State, effect: Effect): State {
    s.(pending := s.pending + [effect],
       notifications := if effect.Notify? then s.notifications + {effect.emitter} else s.notifications,
       globals := if effect.NotifyGlobalObservers? then s.globals + {effect.globalType} else s.globals)
  }

  function Dequeued(s: State): State
    requires s.pending != []
  {
    var effect := s.pending[0];
    s.(pending := s.pending[1..],
       notifications := if effect.Notify? then s.notifications - {effect.emitter} else s.notifications,
       globals := if effect.NotifyGlobalObservers? then s.globals - {effect.globalType} else s.globals)
  }

  function TrackedBy(s: State, w: WindowId): set<EntityId> {
    if w in s.tracked then s.tracked[w] else {}
  }

  /** What an event does to the index. */
  function Reindexed(s: State, event: Event): State {
    match event
    case Did(RecordFrame(w, entities)) =>
      s.(invalidators := WithWindow(WithoutWindow(s.invalidators, w, TrackedBy(s, w)), w, entities),
         tracked := s.tracked[w := entities])
    case Removed(w) =>
      s.(invalidators := WithoutWindow(s.invalidators, w, TrackedBy(s, w)), tracked := s.tracked - {w})
    case Did(NotifyEntity(e)) => s.(invalidators := s.invalidators[e := Live(s, e)])
    case Released(e) => s.(invalidators := s.invalidators - {e})
    case _ => s
  }

  /** What an event does to the queue. */
  function Requeued(s: State, event: Event): State {
    if event.Applied? then (if s.pending == [] then s else Dequeued(s))
    else if QueuedBy(s, event) == [] then s
    else Enqueued(s, QueuedBy(s, event)[0])
  }

  function Next(s: State, event: Event): State {
    var queue, index := Requeued(s, event), Reindexed(s, event);
    State(queue.pending, queue.notifications, queue.globals, index.invalidators, index.tracked, Booked(s.books, event),
          if event.Called? then AfterNext(s.callbacks) else s.callbacks)
  }

  /** The first of the pending effects is applied, and only once everything dropped has been released, in order. */
  predicate Enabled(s: State, event: Event) {
    match event
    case Applied(effect) => s.pending != [] && s.pending[0] == effect && s.books.dropped == []
    case Released(e) => s.books.dropped != [] && s.books.dropped[0] == e
    case Called(script) => script == NextScript(s.callbacks)
    case _ => true
  }

  ghost predicate Happens(s: State, event: Event, t: State) {
    Enabled(s, event) && t == Next(s, event)
  }

  lemma HappensToQueue(s: State, event: Event, t: State)
    requires Happens(s, event, t)
    ensures if event.Applied? then s.pending == [event.effect] + t.pending else t.pending == s.pending + QueuedBy(s, event)
    ensures t.books == Booked(s.books, event)
  {
    if event.Applied? {
      assert s.pending == [s.pending[0]] + s.pending[1..];
    } else {
      assert |QueuedBy(s, event)| <= 1;
      assert QueuedBy(s, event) != [] ==> QueuedBy(s, event) == [QueuedBy(s, event)[0]];
    }
  }

  /** The effects still to apply and the entities still to release, by what they may bring about. */
  function Work(s: State): nat {
    QueueWeight(s.pending) + |s.books.dropped|
  }

  /** An operation adds no more work than it weighs. */
  lemma NextLoad(s: State, op: Op)
    requires !op.Update? && !op.Borrow? && !op.RemoveWindow?
    ensures Work(Next(s, Did(op))) <= Work(s) + OpWeight(op)
  {
    var queued := QueuedBy(s, Did(op));
    if queued != [] {
      QueueWeightPush(s.pending, queued[0]);
    }
  }

  // ---------- Every step keeps what the queue and the index promise ----------

  lemma QueueStaysDeduped(s: State, event: Event)
    requires Deduped(s.pending, s.notifications, s.globals) && Enabled(s, event)
    ensures var t := Requeued(s, event); Deduped(t.pending, t.notifications, t.globals)
  {
    if event.Applied? {
      DedupedPop(s.pending, s.notifications, s.globals);
    } else if QueuedBy(s, event) != [] {
      DedupedPush(s.pending, s.notifications, s.globals, QueuedBy(s, event)[0]);
    }
  }

  lemma IndexStaysTrue(s: State, event: Event)
    requires Indexed(s.invalidators, s.tracked, s.books.released)
    ensures var t := Reindexed(s, event); Indexed(t.invalidators, t.tracked, Booked(s.books, event).released)
  {
    match event
    case Did(RecordFrame(w, entities)) =>
      IndexedRecord(s.invalidators, s.tracked, s.books.released, w, TrackedBy(s, w), entities);
    case Removed(w) => IndexedClose(s.invalidators, s.tracked, s.books.released, w, TrackedBy(s, w));
    case Did(NotifyEntity(e)) => IndexedTouch(s.invalidators, s.tracked, s.books.released, e, Live(s, e));
    case _ =>
  }

  lemma FramesStayTracked(s: State, event: Event)
    requires TracksFrames(s.tracked, s.books.frames)
    ensures TracksFrames(Reindexed(s, event).tracked, Booked(s.books, event).frames)
  {
    match event
    case Did(RecordFrame(w, entities)) => TracksFramesPush(s.tracked, s.books.frames, Recorded(w, entities));
    case Removed(w) => TracksFramesPush(s.tracked, s.books.frames, Closed(w));
    case _ =>
  }

  lemma NextIsSound(s: State, event: Event)
    requires Sound(s) && Enabled(s, event)
    ensures Sound(Next(s, event))
  {
    QueueStaysDeduped(s, event);
    IndexStaysTrue(s, event);
    FramesStayTracked(s, event);
  }

  lemma AskedIsPending(s: State, event: Event, t: State)
    requires Sound(s) && Happens(s, event, t) && AskOf(event).Some?
    ensures AskOf(event).value in t.pending
  {
    HappensToQueue(s, event, t);
  }

  ghost predicate Runs(s: State, log: Log, t: State)
    decreases |log|, 1
  {
    if log == [] then s == t else Continues(s, log[..|log| - 1], log[|log| - 1], t)
  }

  ghost predicate Continues(s: State, log: Log, event: Event, t: State)
    decreases |log|, 2
  {
    exists m :: Runs(s, log, m) && Happens(m, event, t)
  }

  lemma RunsPush(s: State, log: Log, m: State, event: Event, t: State)
    requires Runs(s, log, m) && Happens(m, event, t)
    ensures Runs(s, log + [event], t)
  {
    assert (log + [event])[..|log|] == log;
  }

  /** What holds in every state that is reached, so also before every effect that a flush takes. */
  lemma {:induction false} RunsKeepSound(s: State, log: Log, t: State)
    requires Sound(s) && Runs(s, log, t)
    ensures Sound(t)
    decreases |log|
  {
    if log != [] {
      var earlier, event := log[..|log| - 1], log[|log| - 1];
      assert Continues(s, earlier, event, t);
      var m :| Runs(s, earlier, m) && Happens(m, event, t);
      RunsKeepSound(s, earlier, m);
      NextIsSound(m, event);
    }
  }

  ghost predicate Agrees(log: Log, b: Books) {
    && b.frames == Collect(log, FrameOf)
    && b.drawing == DrawingAfter(log)
    && (forall e :: e in b.released <==> e in Collect(log, ReleaseOf))
    && Collect(log, DropOf) == Collect(log, ReleaseOf) + b.dropped
  }

  lemma CollectPush<T>(log: Log, event: Event, part: Event -> seq<T>)
    ensures Collect(log + [event], part) == Collect(log, part) + part(event)
  {
    assert (log + [event])[..|log|] == log;
  }

  lemma AgreesPush(log: Log, b: Books, event: Event)
    requires Agrees(log, b)
    requires event.Released? ==> b.dropped != [] && event.entity == b.dropped[0]
    ensures Agrees(log + [event], Booked(b, event))
  {
    CollectPush(log, event, FrameOf);
    CollectPush(log, event, DropOf);
    CollectPush(log, event, ReleaseOf);
    assert (log + [event])[..|log|] == log;
    if event.Released? {
      assert b.dropped == [event.entity] + b.dropped[1..];
    }
  }

  ghost predicate Recalls(log: Log, s: State) {
    Agrees(log, s.books) && Answered(log, s.pending) && ReleasesFirst(log)
  }

  lemma RecallsPush(log: Log, s: State, event: Event, t: State)
    requires Recalls(log, s) && Sound(s) && Happens(s, event, t)
    ensures Recalls(log + [event], t)
  {
    HappensToQueue(s, event, t);
    if AskOf(event).Some? {
      AskedIsPending(s, event, t);
    }
    AgreesPush(log, s.books, event);
    AnsweredPush(log, s.pending, event, t.pending);
    ReleasesFirstPush(log, event);
  }

  /**
   In every run from the start the application remembers what happened, every effect that was asked for is pending or
   has been applied since, and no effect was applied while an entity waited to be released.
   */
  lemma {:induction false} RunFacts(tape: seq<Script>, log: Log, t: State)
    requires Runs(Start(tape), log, t)
    ensures Agrees(log, t.books) && Answered(log, t.pending) && ReleasesFirst(log)
    decreases |log|
  {
    if log != [] {
      var earlier, event := log[..|log| - 1], log[|log| - 1];
      var s :| Runs(Start(tape), earlier, s) && Happens(s, event, t);
      assert log == earlier + [event];
      RunFacts(tape, earlier, s);
      RunsKeepSound(Start(tape), earlier, s);
      RecallsPush(earlier, s, event, t);
    }
  }

  /**
   The effects pending at any moment are applied in their order and before any other, as far as effects are
   applied afterwards: all of them once the queue is drained.
   */
  lemma {:induction false} FirstInFirstApplied(s: State, log: Log, t: State)
    requires Runs(s, log, t)
    ensures s.pending <= Collect(log, EffectOf) + t.pending
    decreases |log|
  {
    if log != [] {
      var earlier, event := log[..|log| - 1], log[|log| - 1];
      var m :| Runs(s, earlier, m) && Happens(m, event, t);
      HappensToQueue(m, event, t);
      FirstInFirstApplied(s, earlier, m);
      if event.Applied? {
        assert Collect(log, EffectOf) + t.pending == Collect(earlier, EffectOf) + m.pending;
      } else {
        assert Collect(log, EffectOf) == Collect(earlier, EffectOf);
      }
    }
  }

  /** Every run can be cut anywhere. */
  lemma {:induction false} RunsSplit(s: State, log: Log, more: Log, t: State) returns (m: State)
    requires Runs(s, log + more, t)
    ensures Runs(s, log, m) && Runs(m, more, t)
    decreases |more|
  {
    if more == [] {
      assert log + more == log;
      m := t;
    } else {
      var earlier, event := more[..|more| - 1], more[|more| - 1];
      assert (log + more)[..|log + more| - 1] == log + earlier;
      var n :| Runs(s, log + earlier, n) && Happens(n, event, t);
      m := RunsSplit(s, log, earlier, n);
    }
  }

  ghost predicate IsMerged(effect: Effect) {
    effect.Notify? || effect.NotifyGlobalObservers?
  }

  lemma QueuedOrMerged(s: State, event: Event)
    ensures QueuedBy(s, event) == AsksOf(event)
            || (QueuedBy(s, event) == [] && |AsksOf(event)| == 1 && IsMerged(AsksOf(event)[0]))
  {
  }

  lemma TakenGrows(earlier: Log, s: State, event: Event, t: State)
    requires Happens(s, event, t)
    ensures Collect(earlier + [event], EffectOf) + t.pending == Collect(earlier, EffectOf) + s.pending + QueuedBy(s, event)
  {
    CollectPush(earlier, event, EffectOf);
    HappensToQueue(s, event, t);
  }

  lemma CountConcat(a: seq<Effect>, b: seq<Effect>, effect: Effect)
    ensures multiset(a + b)[effect] == multiset(a)[effect] + multiset(b)[effect]
  {
  }

  /** What is asked for is applied as often as it was asked for, or pending; only notifications are merged. */
  lemma {:induction false} NoneTwice(tape: seq<Script>, log: Log, t: State, effect: Effect)
    requires Runs(Start(tape), log, t)
    ensures var taken, asked := multiset(Collect(log, EffectOf) + t.pending)[effect], multiset(Collect(log, AsksOf))[effect];
            taken <= asked && (IsMerged(effect) || taken == asked)
    decreases |log|
  {
    if log != [] {
      var earlier, event := log[..|log| - 1], log[|log| - 1];
      assert log == earlier + [event];
      var s :| Runs(Start(tape), earlier, s) && Happens(s, event, t);
      NoneTwice(tape, earlier, s, effect);
      TakenGrows(earlier, s, event, t);
      CountConcat(Collect(earlier, EffectOf) + s.pending, QueuedBy(s, event), effect);
      CountConcat(Collect(earlier, AsksOf), AsksOf(event), effect);
      QueuedOrMerged(s, event);
    }
  }

  lemma {:induction false} CollectedReleases(log: Log, e: EntityId)
    ensures e in Collect(log, ReleaseOf) <==> Released(e) in log
  {
    if log != [] {
      CollectedReleases(log[..|log| - 1], e);
      assert log == log[..|log| - 1] + [log[|log| - 1]];
    }
  }

  /** In every run the windows told of a change are those whose last frame read the entity, unless it was released. */
  lemma LiveIsLastRead(tape: seq<Script>, log: Log, t: State, e: EntityId, w: WindowId)
    requires Runs(Start(tape), log, t)
    ensures w in Live(t, e) ==> Reads(Collect(log, FrameOf), w, e)
    ensures Released(e) !in log && Reads(Collect(log, FrameOf), w, e) ==> w in Live(t, e)
  {
    RunFacts(tape, log, t);
    RunsKeepSound(Start(tape), log, t);
    LiveWindows(t.invalidators, t.tracked, t.books.released, t.books.frames, e, Live(t, e));
    CollectedReleases(log, e);
  }

  lemma {:induction false} CollectedEffects(log: Log, effect: Effect)
    ensures effect in Collect(log, EffectOf) <==> Applied(effect) in log
  {
    if log != [] {
      CollectedEffects(log[..|log| - 1], effect);
      assert log == log[..|log| - 1] + [log[|log| - 1]];
    }
  }

  /** The windows whose last frame read the entity are all drawing, and there is one. */
  ghost predicate OnlyDrawingShow(log: Log, e: EntityId) {
    && (exists w: WindowId :: Reads(Collect(log, FrameOf), w, e))
    && (forall w: WindowId :: Reads(Collect(log, FrameOf), w, e) ==> w in DrawingAfter(log))
  }

  lemma MutedIsOnlyDrawing(tape: seq<Script>, log: Log, s: State, e: EntityId)
    requires Runs(Start(tape), log, s) && Released(e) !in log
    ensures Muted(s, e) <==> OnlyDrawingShow(log, e)
  {
    forall w: WindowId ensures w in Live(s, e) <==> Reads(Collect(log, FrameOf), w, e) {
      LiveIsLastRead(tape, log, s, e, w);
    }
    RunFacts(tape, log, s);
  }

  /** A change leaves a notification pending unless there was none and the entity is shown by drawing windows only. */
  lemma NotifyQueuesIff(tape: seq<Script>, before: Log, s: State, e: EntityId, m: State)
    requires Runs(Start(tape), before, s) && Happens(s, Did(Op.NotifyEntity(e)), m)
    ensures Notify(e) in m.pending <==> Notify(e) in s.pending || !Muted(s, e)
    ensures Released(e) !in before ==>
              (Notify(e) in m.pending <==> Notify(e) in s.pending || !OnlyDrawingShow(before, e))
  {
    RunFacts(tape, before, s);
    RunsKeepSound(Start(tape), before, s);
    HappensToQueue(s, Did(Op.NotifyEntity(e)), m);
    if Released(e) !in before {
      MutedIsOnlyDrawing(tape, before, s, e);
    }
  }

  ghost predicate NobodyAsks(log: Log, effect: Effect) {
    forall i :: 0 <= i < |log| ==> effect !in AsksOf(log[i])
  }

  lemma {:induction false} UnaskedIsUnapplied(s: State, log: Log, t: State, effect: Effect)
    requires Runs(s, log, t) && effect !in s.pending && NobodyAsks(log, effect)
    ensures effect !in t.pending && Applied(effect) !in log
    decreases |log|
  {
    if log != [] {
      var earlier, event := log[..|log| - 1], log[|log| - 1];
      var m :| Runs(s, earlier, m) && Happens(m, event, t);
      UnaskedIsUnapplied(s, earlier, m, effect);
      HappensToQueue(m, event, t);
      QueuedOrMerged(m, event);
      assert log == earlier + [event];
    }
  }

  lemma PendingIsApplied(m: State, later: Log, t: State, effect: Effect)
    requires Runs(m, later, t) && t.pending == [] && effect in m.pending
    ensures Applied(effect) in later
  {
    FirstInFirstApplied(m, later, t);
    assert Collect(later, EffectOf) + t.pending == Collect(later, EffectOf);
    CollectedEffects(later, effect);
  }

  /**
   In a run that drains the queue a change of an entity reaches its observers, unless none was pending and only drawing
   windows show it; and then it does so only if somebody asks again.
   */
  lemma NotifiedLater(tape: seq<Script>, before: Log, s: State, e: EntityId, m: State, later: Log, t: State)
    requires Runs(Start(tape), before, s) && Happens(s, Did(Op.NotifyEntity(e)), m) && Runs(m, later, t) && t.pending == []
    ensures Notify(e) in s.pending || !Muted(s, e) ==> Applied(Notify(e)) in later
    ensures NobodyAsks(later, Notify(e)) ==>
              (Applied(Notify(e)) in later <==> Notify(e) in s.pending || !Muted(s, e))
  {
    NotifyQueuesIff(tape, before, s, e, m);
    if Notify(e) in m.pending {
      PendingIsApplied(m, later, t, Notify(e));
    } else if NobodyAsks(later, Notify(e)) {
      UnaskedIsUnapplied(m, later, t, Notify(e));
    }
  }

  /** A change that finds no window showing the entity, or one that is not drawing. */
  ghost predicate Announced(before: Log, e: EntityId) {
    || (forall w: WindowId :: !Reads(Collect(before, FrameOf), w, e))
    || (Released(e) !in before && !OnlyDrawingShow(before, e))
  }

  lemma AnnouncedIsNotMuted(tape: seq<Script>, before: Log, s: State, e: EntityId)
    requires Runs(Start(tape), before, s) && Announced(before, e)
    ensures !Muted(s, e)
  {
    if Muted(s, e) {
      var w :| w in Live(s, e);
      LiveIsLastRead(tape, before, s, e, w);
      assert Reads(Collect(before, FrameOf), w, e);
      MutedIsOnlyDrawing(tape, before, s, e);
    }
  }

  /** The same, said of the log alone. */
  lemma AnnouncedLater(tape: seq<Script>, before: Log, e: EntityId, later: Log, t: State)
    requires Runs(Start(tape), before + [Did(Op.NotifyEntity(e))] + later, t) && t.pending == []
    requires Announced(before, e)
    ensures Applied(Notify(e)) in later
  {
    var notify := Did(Op.NotifyEntity(e));
    var m := RunsSplit(Start(tape), before + [notify], later, t);
    assert (before + [notify])[..|before|] == before;
    assert Continues(Start(tape), before, notify, m);
    var s :| Runs(Start(tape), before, s) && Happens(s, notify, m);
    AnnouncedIsNotMuted(tape, before, s, e);
    NotifiedLater(tape, before, s, e, m, later, t);
  }

  lemma FrameIsShown(tape: seq<Script>, w: WindowId, e: EntityId) returns (s: State)
    ensures Runs(Start(tape), [Did(RecordFrame(w, {e}))], s)
    ensures Live(s, e) == {w} && s.pending == [] && s.books.frames == [Recorded(w, {e})]
  {
    var event := Did(RecordFrame(w, {e}));
    s := Next(Start(tape), event);
    assert [] + [event] == [event];
    RunsPush(Start(tape), [], Start(tape), event, s);
  }

  lemma DrawingIsShown(tape: seq<Script>, w: WindowId, e: EntityId) returns (s: State)
    ensures Runs(Start(tape), [Did(RecordFrame(w, {e})), Did(BeginDraw(w))], s)
    ensures Live(s, e) == {w} && w in s.books.drawing && s.pending == [] && s.books.frames == [Recorded(w, {e})]
  {
    var m := FrameIsShown(tape, w, e);
    var event := Did(BeginDraw(w));
    s := Next(m, event);
    assert [Did(RecordFrame(w, {e}))] + [event] == [Did(RecordFrame(w, {e})), event];
    RunsPush(Start(tape), [Did(RecordFrame(w, {e}))], m, event, s);
  }

  /** The case that is not announced is reached: a window that shows an entity draws while the entity changes. */
  lemma DrawingWindowMutes(tape: seq<Script>, w: WindowId, e: EntityId) returns (t: State)
    ensures Runs(Start(tape), [Did(RecordFrame(w, {e})), Did(BeginDraw(w)), Did(Op.NotifyEntity(e))], t)
    ensures t.pending == [] && Reads(t.books.frames, w, e)
  {
    var m := DrawingIsShown(tape, w, e);
    var before, event := [Did(RecordFrame(w, {e})), Did(BeginDraw(w))], Did(Op.NotifyEntity(e));
    t := Next(m, event);
    assert before + [event] == [Did(RecordFrame(w, {e})), Did(BeginDraw(w)), event];
    RunsPush(Start(tape), before, m, event, t);
  }

  // ---------- The callbacks ----------

  /** The first `n` of the callbacks to come, and nothing for each that there is no more. */
  function Served(tape: seq<Script>, n: nat): seq<Script> {
    seq(n, i requires 0 <= i < n => if i < |tape| then tape[i] else [])
  }

  /** Those that are left then. */
  function TapeRest(tape: seq<Script>, n: nat): seq<Script> {
    if n <= |tape| then tape[n..] else []
  }

  lemma ServedAndRest(tape: seq<Script>, n: nat)
    ensures |Served(tape, n)| == n
    ensures if n <= |tape| then Served(tape, n) + TapeRest(tape, n) == tape
            else tape <= Served(tape, n) && TapeRest(tape, n) == []
    ensures forall i :: |tape| <= i < n ==> Served(tape, n)[i] == []
  {
  }

  /** The callbacks called along the log are the first ones of those to come, in their order; `after` are the others. */
  ghost predicate Serves(before: seq<Script>, log: Log, after: seq<Script>) {
    ServesCalls(before, Collect(log, CalledOf), after)
  }

  ghost predicate ServesCalls(before: seq<Script>, called: seq<Script>, after: seq<Script>) {
    called == Served(before, |called|) && after == TapeRest(before, |called|)
  }

  lemma ServesMore(before: seq<Script>, n: nat, more: nat)
    requires more == n + 1
    ensures Served(before, more) == Served(before, n) + [NextScript(TapeRest(before, n))]
    ensures TapeRest(before, more) == AfterNext(TapeRest(before, n))
  {
  }

  lemma {:induction false} CalledInOrder(s: State, log: Log, t: State)
    requires Runs(s, log, t)
    ensures Serves(s.callbacks, log, t.callbacks)
    decreases |log|
  {
    if log != [] {
      var earlier, event := log[..|log| - 1], log[|log| - 1];
      var m :| Runs(s, earlier, m) && Happens(m, event, t);
      CalledInOrder(s, earlier, m);
      var n := |Collect(earlier, CalledOf)|;
      ServesMore(s.callbacks, n, n + 1);
    }
  }

  lemma {:induction false} RunsAreUnique(s: State, log: Log, t: State, u: State)
    requires Runs(s, log, t) && Runs(s, log, u)
    ensures t == u
    decreases |log|
  {
    if log != [] {
      var earlier, event := log[..|log| - 1], log[|log| - 1];
      var m :| Runs(s, earlier, m) && Happens(m, event, t);
      var n :| Runs(s, earlier, n) && Happens(n, event, u);
      RunsAreUnique(s, earlier, m, n);
    }
  }

  /** What is true of runs is true of the part of a run since some moment. */
  lemma RunsSince(s: State, log: Log, m: State, more: Log, t: State)
    requires Runs(s, log, m) && Runs(s, log + more, t)
    ensures Runs(m, more, t)
    ensures Serves(m.callbacks, more, t.callbacks)
  {
    var n := RunsSplit(s, log, more, t);
    RunsAreUnique(s, log, m, n);
    CalledInOrder(m, more, t);
  }
}
