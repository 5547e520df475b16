/**
 The application's update protocol: nested updates with one flush at the outermost finish, the queue
 of effects with its pending notifications, and the index of the windows that show an entity.

 The code that the application calls back into (update closures, observers, listeners, deferred and
 release callbacks) is data: a closure is a `Script`, and `callbacks` lists what the observers
 still to be called will do.  Every run in which user code does finitely much work is such a run.
 */
module App {
  import opened Effects
  import opened Traces

  class App {
    var pendingUpdates: nat
    var flushingEffects: bool
    var pendingEffects: seq<Effect>
    var pendingNotifications: set<EntityId>
    var pendingGlobalNotifications: set<TypeId>

    // The invalidator of a window is named by the window.
    var invalidatorsByEntity: map<EntityId, set<WindowId>>
    var trackedEntities: map<WindowId, set<EntityId>>

    // Windows that are drawing a frame, those marked dirty, and the views marked dirty in them so far.
    var drawing: set<WindowId>
    var dirtyWindows: set<WindowId>
    var dirtyViews: set<(WindowId, EntityId)>

    // Entities whose last handle is gone, and what the callbacks still to come will do.
    var droppedEntities: seq<EntityId>
    var callbacks: seq<Script>

    ghost var released: set<EntityId>
    ghost var frames: seq<FrameEvent>
    // Everything that has happened, in order.
    ghost var trace: Log

    ghost function Books(): Books
      reads this
    {
      Traces.Books(frames, drawing, released, droppedEntities)
    }

    // All callbacks that there will ever be.
    ghost const tape: seq<Script>

    ghost function Now(): State
      reads this
    {
      State(pendingEffects, pendingNotifications, pendingGlobalNotifications,
            invalidatorsByEntity, trackedEntities, Books(), callbacks)
    }

    ghost predicate Valid()
      reads this
    {
      && Runs(Start(tape), trace, Now())
      && (flushingEffects ==> pendingUpdates > 0)
    }

    ghost function Load(): nat
      reads this
    {
      TapeWeight(callbacks) + Work(Now())
    }

    constructor (callbacks: seq<Script>)
      ensures Valid() && pendingUpdates == 0 && !flushingEffects
      ensures pendingEffects == [] && trackedEntities == map[] && released == {} && trace == []
      ensures this.callbacks == callbacks && tape == callbacks
    {
      pendingUpdates, flushingEffects := 0, false;
      pendingEffects, pendingNotifications, pendingGlobalNotifications := [], {}, {};
      invalidatorsByEntity, trackedEntities, drawing := map[], map[], {};
      dirtyWindows, dirtyViews := {}, {};
      droppedEntities := [];
      this.callbacks, tape := callbacks, callbacks;
      released, frames, trace := {}, [], [];
    }

    // ---------- The effect queue ----------

    /** A notification that is already pending is dropped; everything else goes to the back of the queue. */
    method PushEffect(effect: Effect)
      modifies this`pendingEffects, this`pendingNotifications, this`pendingGlobalNotifications
      ensures Now() ==
              if old(Duplicate(effect, pendingNotifications, pendingGlobalNotifications)) then old(Now())
              else Enqueued(old(Now()), effect)
    {
      match effect {
        case Notify(emitter) =>
          if emitter in pendingNotifications {
            return;
          }
          pendingNotifications := pendingNotifications + {emitter};
        case NotifyGlobalObservers(globalType) =>
          if globalType in pendingGlobalNotifications {
            return;
          }
          pendingGlobalNotifications := pendingGlobalNotifications + {globalType};
        case _ =>
      }
      pendingEffects := pendingEffects + [effect];
    }

    method RefreshWindows()
      modifies this`pendingEffects
      ensures Now() == Enqueued(old(Now()), Effect.RefreshWindows)
    {
      pendingEffects := pendingEffects + [Effect.RefreshWindows];
    }

    // ---------- Windows and entities ----------

    /** Marks the view dirty; unless the window is drawing it is marked too, and a notification is queued. */
    method InvalidateView(w: WindowId, e: EntityId) returns (willRedraw: bool)
      modifies this`dirtyWindows, this`dirtyViews, this`pendingEffects, this`pendingNotifications,
               this`pendingGlobalNotifications
      ensures willRedraw <==> w !in drawing
      ensures dirtyViews == old(dirtyViews) + {(w, e)}
      ensures dirtyWindows == old(dirtyWindows) + if w in drawing then {} else {w}
      ensures Now() ==
              if w in drawing || e in old(pendingNotifications) then old(Now()) else Enqueued(old(Now()), Notify(e))
    {
      dirtyViews := dirtyViews + {(w, e)};
      willRedraw := w !in drawing;
      if willRedraw {
        dirtyWindows := dirtyWindows + {w};
        PushEffect(Notify(e));
      }
    }

    /** Marks the view dirty in each of the windows; they queue one notification between them. */
    method InvalidateAll(windows: set<WindowId>, e: EntityId)
      modifies this`dirtyWindows, this`dirtyViews, this`pendingEffects, this`pendingNotifications,
               this`pendingGlobalNotifications
      ensures dirtyViews == old(dirtyViews) + set w | w in windows :: (w, e)
      ensures dirtyWindows == old(dirtyWindows) + (windows - drawing)
      ensures Now() ==
              if windows <= drawing || e in old(pendingNotifications) then old(Now())
              else Enqueued(old(Now()), Notify(e))
    {
      var todo := windows;
      while todo != {}
        invariant todo <= windows
        invariant dirtyViews == old(dirtyViews) + set w | w in windows - todo :: (w, e)
        invariant dirtyWindows == old(dirtyWindows) + (windows - todo - drawing)
        invariant Now() ==
                  if windows - todo <= drawing || e in old(pendingNotifications) then old(Now())
                  else Enqueued(old(Now()), Notify(e))
      {
        var w :| w in todo;
        ghost var done := windows - todo;
        var willRedraw := InvalidateView(w, e);
        todo := todo - {w};
        assert windows - todo == done + {w};
      }
      assert windows - todo == windows;
    }

    /**
     Tells every window that currently shows `e`, or queues a notification when none does.  The windows
     told are exactly the open ones whose last recorded frame read `e`, unless `e` has been released.
     */
    method NotifyEntity(e: EntityId) returns (live: set<WindowId>)
      requires Sound(Now())
      modifies this`dirtyWindows, this`dirtyViews, this`pendingEffects, this`pendingNotifications,
               this`pendingGlobalNotifications, this`invalidatorsByEntity
      ensures Now() == Next(old(Now()), Did(Op.NotifyEntity(e)))
      ensures live == Live(old(Now()), e)
      ensures forall w :: w in live ==> Reads(frames, w, e)
      ensures e !in released ==> forall w :: Reads(frames, w, e) ==> w in live
      ensures dirtyViews == old(dirtyViews) + set w | w in live :: (w, e)
      ensures dirtyWindows == old(dirtyWindows) + (live - drawing)
    {
      var windows := if e in invalidatorsByEntity then invalidatorsByEntity[e] else {};
      LiveWindows(invalidatorsByEntity, trackedEntities, released, frames, e, windows);
      live := set w | w in windows && w in trackedEntities && e in trackedEntities[w];
      // The filter drops nothing: an entry always means that the window's last frame read the entity.
      assert live == windows;
      if live == {} {
        PushEffect(Notify(e));
      } else {
        InvalidateAll(live, e);
      }
      invalidatorsByEntity := invalidatorsByEntity[e := windows];
    }

    /** Takes the window out of the entries of `es`. */
    method ForgetWindow(w: WindowId, es: set<EntityId>)
      modifies this`invalidatorsByEntity
      ensures invalidatorsByEntity == WithoutWindow(old(invalidatorsByEntity), w, es)
    {
      var todo := es;
      while todo != {}
        invariant todo <= es
        invariant invalidatorsByEntity == WithoutWindow(old(invalidatorsByEntity), w, es - todo)
      {
        var e :| e in todo;
        if e in invalidatorsByEntity {
          invalidatorsByEntity := invalidatorsByEntity[e := invalidatorsByEntity[e] - {w}];
        }
        todo := todo - {e};
      }
      assert es - todo == es;
    }

    /** Puts the window into the entries of `es`. */
    method RememberWindow(w: WindowId, es: set<EntityId>)
      modifies this`invalidatorsByEntity
      ensures invalidatorsByEntity == WithWindow(old(invalidatorsByEntity), w, es)
    {
      var todo := es;
      while todo != {}
        invariant todo <= es
        invariant invalidatorsByEntity == WithWindow(old(invalidatorsByEntity), w, es - todo)
      {
        var e :| e in todo;
        var windows := if e in invalidatorsByEntity then invalidatorsByEntity[e] else {};
        invalidatorsByEntity := invalidatorsByEntity[e := windows + {w}];
        todo := todo - {e};
      }
      assert es - todo == es;
    }

    /** A frame of `w` has read exactly `entities`. */
    method RecordEntitiesAccessed(w: WindowId, entities: set<EntityId>)
      modifies this`invalidatorsByEntity, this`trackedEntities, this`frames
      ensures Now() == Next(old(Now()), Did(RecordFrame(w, entities)))
    {
      var before := if w in trackedEntities then trackedEntities[w] else {};
      ForgetWindow(w, before);
      RememberWindow(w, entities);
      trackedEntities := trackedEntities[w := entities];
      frames := frames + [Recorded(w, entities)];
    }

    /** A removed window takes its tracked entities and all its index entries with it. */
    method CloseWindow(w: WindowId)
      requires Sound(Now())
      modifies this`invalidatorsByEntity, this`trackedEntities, this`frames
      ensures Now() == Next(old(Now()), Removed(w))
      ensures forall e :: e in invalidatorsByEntity ==> w !in invalidatorsByEntity[e]
    {
      if w in trackedEntities {
        var tracked := trackedEntities[w];
        trackedEntities := trackedEntities - {w};
        ForgetWindow(w, tracked);
      }
      frames := frames + [Closed(w)];
    }

    /** A released entity is forgotten; windows may still list it until their next frame. */
    method ReleaseEntity(e: EntityId)
      modifies this`invalidatorsByEntity, this`released
      ensures released == old(released) + {e}
      ensures invalidatorsByEntity == old(invalidatorsByEntity) - {e}
    {
      invalidatorsByEntity := invalidatorsByEntity - {e};
      released := released + {e};
    }

    // ---------- Updates and the flush ----------

    /**
     What any code run between a start and its finish leaves behind: the nesting level and the flush
     flag are as before, and the trace has grown by `log`, along which the state is still a run from the start.
     */
    twostate predicate Extends(log: Log)
      reads this
    {
      && Valid()
      && pendingUpdates == old(pendingUpdates)
      && flushingEffects == old(flushingEffects)
      && trace == old(trace) + log
    }

    ghost predicate Drained()
      reads this
    {
      pendingEffects == [] && droppedEntities == []
    }

    /** The next thing a callback will do; when all are used up, callbacks do nothing. */
    method TakeCallback() returns (script: Script)
      modifies this`callbacks
      ensures script == NextScript(old(callbacks)) && callbacks == AfterNext(old(callbacks))
      ensures TapeWeight(old(callbacks)) == TapeWeight(callbacks) + ScriptWeight(script)
    {
      if callbacks == [] {
        return [];
      }
      script := callbacks[0];
      callbacks := callbacks[1..];
    }

    method RunCallback() returns (ghost log: Log)
      requires Valid()
      modifies this
      ensures Extends(log) && Load() <= old(Load())
      ensures CallsBack(log, pendingUpdates == 0) && log[0] == Called(NextScript(old(callbacks)))
      decreases Load(), 2
    {
      ghost var before := Now();
      var script := TakeCallback();
      Record(before, Called(script));
      log := RunScript(script);
      CallsBackWith(script, log, pendingUpdates == 0);
      Regroup(old(trace), [Called(script)], log);
      log := [Called(script)] + log;
    }

    /** The callbacks called since some moment were the next ones then, in their order. */
    twostate lemma ServedSince(log: Log)
      requires old(Valid()) && Extends(log)
      ensures Serves(old(callbacks), log, callbacks)
    {
      RunsSince(Start(tape), old(trace), old(Now()), log, Now());
    }

    method RunScript(script: Script) returns (ghost log: Log)
      requires Valid()
      modifies this
      ensures Extends(log) && Load() <= old(Load()) + ScriptWeight(script)
      ensures Follows(script, log, pendingUpdates == 0)
      ensures Serves(old(callbacks), log, callbacks)
      decreases Load() + ScriptWeight(script), 1, |script| + 1
    {
      log := RunOps(script);
      ServedSince(log);
    }

    method RunOps(script: Script) returns (ghost log: Log)
      requires Valid()
      modifies this
      ensures Extends(log) && Load() <= old(Load()) + ScriptWeight(script)
      ensures Follows(script, log, pendingUpdates == 0)
      decreases Load() + ScriptWeight(script), 1, |script|
    {
      log := [];
      if script != [] {
        ghost var first := RunOp(script[0]);
        ghost var rest := RunOps(script[1..]);
        FollowsCons(script, first, rest, pendingUpdates == 0);
        Regroup(old(trace), first, rest);
        log := first + rest;
      }
    }

    method RunOp(op: Op) returns (ghost log: Log)
      requires Valid()
      modifies this
      ensures Extends(log) && Load() <= old(Load()) + OpWeight(op)
      ensures Performs(op, log, pendingUpdates == 0)
      decreases Load() + OpWeight(op), 0, 1
    {
      match op
      case Update(body) => log := UpdateWith(body);
      case Borrow(e, body) => log := BorrowWith(e, body);
      case RemoveWindow(w, body) => log := RemoveWindowWith(w, body);
      case _ =>
        RunPlain(op);
        log := [Did(op)];
    }

    /** Adds to the trace what has just happened. */
    ghost method Record(before: State, event: Event)
      requires Runs(Start(tape), trace, before) && Happens(before, event, Now())
      requires flushingEffects ==> pendingUpdates > 0
      modifies this`trace
      ensures Valid() && trace == old(trace) + [event]
    {
      RunsPush(Start(tape), trace, before, event, Now());
      trace := trace + [event];
    }

    /** The operations that run no user code. */
    method RunPlain(op: Op)
      requires Valid() && !op.Update? && !op.Borrow? && !op.RemoveWindow?
      modifies this
      ensures Extends([Did(op)]) && Load() <= old(Load()) + OpWeight(op)
      ensures op.NotifyEntity? && op.id !in released ==>
                forall w: WindowId :: Reads(frames, w, op.id) ==> (w, op.id) in dirtyViews
    {
      RunsKeepSound(Start(tape), trace, Now());
      DoPlain(op);
      RecordPlain(old(Now()), op);
    }

    ghost method RecordPlain(before: State, op: Op)
      requires Runs(Start(tape), trace, before) && Now() == Next(before, Did(op))
      requires !op.Update? && !op.Borrow? && !op.RemoveWindow?
      requires flushingEffects ==> pendingUpdates > 0
      modifies this`trace
      ensures Valid() && trace == old(trace) + [Did(op)] && Work(Now()) <= Work(before) + OpWeight(op)
    {
      NextLoad(before, op);
      Record(before, Did(op));
    }

    method DoPlain(op: Op)
      requires Sound(Now()) && !op.Update? && !op.Borrow? && !op.RemoveWindow?
      modifies this`pendingEffects, this`pendingNotifications, this`pendingGlobalNotifications,
               this`dirtyWindows, this`dirtyViews,
               this`invalidatorsByEntity, this`trackedEntities, this`frames, this`drawing, this`droppedEntities
      ensures Now() == Next(old(Now()), Did(op))
      ensures op.NotifyEntity? && op.id !in released ==>
                forall w: WindowId :: Reads(frames, w, op.id) ==> (w, op.id) in dirtyViews
    {
      match op
      case Push(effect) => PushEffect(effect);
      case NotifyEntity(e) => var live := NotifyEntity(e);
      case Refresh => RefreshWindows();
      case RecordFrame(w, entities) => RecordEntitiesAccessed(w, entities);
      case BeginDraw(w) => drawing := drawing + {w};
      case EndDraw(w) => drawing := drawing - {w};
      case DropEntity(e) => droppedEntities := droppedEntities + [e];
    }

    method StartUpdate()
      modifies this`pendingUpdates
      ensures pendingUpdates == old(pendingUpdates) + 1
    {
      pendingUpdates := pendingUpdates + 1;
    }

    /** Flushes exactly when this finish is the outermost one and no flush is under way. */
    method FinishUpdate() returns (ghost log: Log)
      requires Valid() && pendingUpdates > 0
      requires flushingEffects ==> pendingUpdates > 1
      modifies this
      ensures Valid() && pendingUpdates == old(pendingUpdates) - 1 && flushingEffects == old(flushingEffects)
      ensures trace == old(trace) + log
      ensures Finishes(log, pendingUpdates == 0)
      ensures pendingUpdates == 0 ==> Drained()
      ensures Load() <= old(Load())
      decreases Load(), 4
    {
      log := [];
      if !flushingEffects && pendingUpdates == 1 {
        flushingEffects := true;
        Record(Now(), FlushBegan);
        log := FlushEffects();
        FinishesByFlush(log);
        Regroup(old(trace), [FlushBegan], log);
        log := [FlushBegan] + log;
        flushingEffects := false;
      }
      pendingUpdates := pendingUpdates - 1;
    }

    /** Applies effects from the front, also those that callbacks add, until none is left. */
    method FlushEffects() returns (ghost log: Log)
      requires Valid() && flushingEffects && pendingUpdates == 1
      modifies this
      ensures Extends(log) && Flushes(log) && Drained() && Load() <= old(Load())
      ensures Serves(old(callbacks), log, callbacks)
      decreases Load(), 3
    {
      log := [];
      while true
        invariant Extends(log) && Flushes(log) && Load() <= old(Load())
        decreases Load()
      {
        ghost var releases := ReleaseDroppedEntities();
        FlushesConcat(log, releases);
        Regroup(old(trace), log, releases);
        log := log + releases;
        if pendingEffects == [] {
          break;
        }
        ghost var step := ApplyNext();
        FlushesSnoc(log, step);
        Regroup(old(trace), log, step);
        log := log + step;
      }
      ServedSince(log);
    }

    /** Takes the first effect off the queue and lets its observers or its callback run. */
    method ApplyNext() returns (ghost log: Log)
      requires Valid() && flushingEffects && pendingUpdates == 1 && pendingEffects != [] && droppedEntities == []
      modifies this
      ensures Extends(log) && FlushStep(log) && log[0] == Applied(old(pendingEffects)[0])
      ensures Serves(old(callbacks), log, callbacks)
      ensures Load() < old(Load())
      decreases Load(), 2
    {
      var effect := TakeEffect();
      log := Handle(effect);
      ApplyIsStep(effect, log);
      Regroup(old(trace), [Applied(effect)], log);
      log := [Applied(effect)] + log;
      ServedSince(log);
    }

    /** Lets the observers of the effect or its own callback run. */
    method Handle(effect: Effect) returns (ghost log: Log)
      requires Valid() && flushingEffects && pendingUpdates == 1
      modifies this
      ensures Extends(log) && Handles(effect, log) && Load() < old(Load()) + EffectWeight(effect)
      decreases Load() + EffectWeight(effect), 1
    {
      match effect
      case Notify(_) => log := RunCallback();
      case NotifyGlobalObservers(_) => log := RunCallback();
      case RefreshWindows =>
        log := [];
        assert trace + log == trace;
      case Defer(callback) => log := RunScript(callback);
      case _ => log := RunCallback();
    }

    /** Takes the first effect off the queue; a notification is no longer pending from that moment. */
    method PopEffect() returns (effect: Effect)
      requires pendingEffects != []
      modifies this`pendingEffects, this`pendingNotifications, this`pendingGlobalNotifications
      ensures effect == old(pendingEffects)[0] && Now() == Dequeued(old(Now()))
    {
      effect := pendingEffects[0];
      pendingEffects := pendingEffects[1..];
      match effect {
        case Notify(emitter) => pendingNotifications := pendingNotifications - {emitter};
        case NotifyGlobalObservers(globalType) =>
          pendingGlobalNotifications := pendingGlobalNotifications - {globalType};
        case _ =>
      }
    }

    /** The same, as an event of the trace. */
    method TakeEffect() returns (effect: Effect)
      requires Valid() && pendingEffects != [] && droppedEntities == []
      modifies this`pendingEffects, this`pendingNotifications, this`pendingGlobalNotifications, this`trace
      ensures Valid() && [effect] + pendingEffects == old(pendingEffects)
      ensures trace == old(trace) + [Applied(effect)]
      ensures Load() + EffectWeight(effect) == old(Load())
    {
      ghost var before := Now();
      effect := PopEffect();
      Record(before, Applied(effect));
    }

    /** Releases entities, running their release callbacks, until none is left to release. */
    method ReleaseDroppedEntities() returns (ghost log: Log)
      requires Valid() && pendingUpdates > 0
      modifies this
      ensures Extends(log) && Flushes(log) && droppedEntities == [] && Load() <= old(Load())
      decreases Load(), 2
    {
      log := [];
      while droppedEntities != []
        invariant Extends(log) && Flushes(log) && Load() <= old(Load())
        decreases Load()
      {
        ghost var step := ReleaseNext();
        FlushesSnoc(log, step);
        Regroup(old(trace), log, step);
        log := log + step;
      }
    }

    /** Forgets the entity dropped first and runs its release callbacks. */
    method ReleaseNext() returns (ghost log: Log)
      requires Valid() && pendingUpdates > 0 && droppedEntities != []
      modifies this
      ensures Extends(log) && FlushStep(log) && log[0] == Released(old(droppedEntities)[0])
      ensures Load() < old(Load())
      decreases Load(), 1
    {
      ghost var before := Now();
      var e := droppedEntities[0];
      droppedEntities := droppedEntities[1..];
      ReleaseEntity(e);
      Record(before, Released(e));
      log := RunCallback();
      ReleaseIsStep(e, log);
      Regroup(old(trace), [Released(e)], log);
      log := [Released(e)] + log;
    }

    /** `update`: runs the closure between a start and a finish; from outside, that drains the queue. */
    method UpdateWith(body: Script) returns (ghost log: Log)
      requires Valid()
      modifies this
      ensures Extends(log) && Load() <= old(Load()) + ScriptWeight(body)
      ensures Performs(Update(body), log, pendingUpdates == 0)
      ensures pendingUpdates == 0 ==> Drained()
      decreases Load() + ScriptWeight(body) + 1, 0, 0
    {
      Record(Now(), Did(Update(body)));
      StartUpdate();
      ghost var inner := RunScript(body);
      ghost var finish := FinishUpdate();
      PerformsUpdate(body, inner, finish, pendingUpdates == 0);
      Regroup(old(trace), [Did(Update(body))], inner);
      Regroup(old(trace), [Did(Update(body))] + inner, finish);
      log := [Did(Update(body))] + inner + finish;
    }

    /**
     An update of a window that removes it: when the closure is done the window leaves the tables and its closing is told,
     both before the finish.
     */
    method RemoveWindowWith(w: WindowId, body: Script) returns (ghost log: Log)
      requires Valid()
      modifies this
      ensures Extends(log) && Load() <= old(Load()) + ScriptWeight(body)
      ensures Performs(RemoveWindow(w, body), log, pendingUpdates == 0)
      ensures pendingUpdates == 0 ==> Drained()
      decreases Load() + ScriptWeight(body) + 1, 0, 0
    {
      ghost var begin := [Did(RemoveWindow(w, body))];
      Record(Now(), Did(RemoveWindow(w, body)));
      StartUpdate();
      ghost var inner := RunScript(body);
      Regroup(old(trace), begin, inner);
      TrailRemoval(w);
      Regroup(old(trace), begin + inner, [Removed(w)]);
      ghost var called := RunCallback();
      ghost var finish := FinishUpdate();
      ClosesWith(called, finish, pendingUpdates == 0);
      PerformsRemoval(w, body, inner, called + finish, pendingUpdates == 0);
      log := begin + inner + [Removed(w)];
      Regroup(old(trace) + log, called, finish);
      Regroup(old(trace), log, called + finish);
      log := log + (called + finish);
    }

    /** The window leaves the tables. */
    method TrailRemoval(w: WindowId)
      requires Valid()
      modifies this`invalidatorsByEntity, this`trackedEntities, this`frames, this`trace
      ensures Extends([Removed(w)]) && Load() == old(Load())
    {
      ghost var before := Now();
      RunsKeepSound(Start(tape), trace, before);
      CloseWindow(w);
      Record(before, Removed(w));
    }

    /** A borrowed entity: the update lasts as long as the borrow and ends with a notification. */
    method BorrowWith(e: EntityId, body: Script) returns (ghost log: Log)
      requires Valid()
      modifies this
      ensures Extends(log) && Load() <= old(Load()) + ScriptWeight(body) + 2
      ensures Performs(Borrow(e, body), log, pendingUpdates == 0)
      ensures pendingUpdates == 0 ==> Drained()
      decreases Load() + ScriptWeight(body) + 3, 0, 0
    {
      Record(Now(), Did(Borrow(e, body)));
      StartUpdate();
      ghost var inner := RunScript(body);
      Regroup(old(trace), [Did(Borrow(e, body))], inner);
      RunPlain(Op.NotifyEntity(e));
      Regroup(old(trace), [Did(Borrow(e, body))] + inner, [Did(Op.NotifyEntity(e))]);
      ghost var finish := FinishUpdate();
      PerformsBorrow(e, body, inner, finish, pendingUpdates == 0);
      Regroup(old(trace), [Did(Borrow(e, body))] + inner + [Did(Op.NotifyEntity(e))], finish);
      log := [Did(Borrow(e, body))] + inner + [Did(Op.NotifyEntity(e))] + finish;
    }
  }
}
