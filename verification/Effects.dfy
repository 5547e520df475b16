/**
 Effects and what user code may do to the application, as finite scripts, together with the
 invariants of the effect queue and of the two-way index between windows and entities.
 */
module Effects {
  import opened Wrappers

  type EntityId = nat
  type WindowId = nat
  type TypeId = nat

  datatype Effect =
    | Notify(emitter: EntityId)
    | Emit(source: EntityId, eventType: TypeId)
    | RefreshWindows
    | NotifyGlobalObservers(globalType: TypeId)
    | Defer(callback: seq<Op>)
    | EntityCreated(entity: EntityId, tid: TypeId)

  // One thing that an update closure or a callback does.  Every nesting of updates is a finite tree of these.
  datatype Op =
    | Push(effect: Effect)
    | NotifyEntity(id: EntityId)
    | Refresh
    | Update(body: seq<Op>)
    | Borrow(id: EntityId, body: seq<Op>)
    | RecordFrame(window: WindowId, entities: set<EntityId>)
    | RemoveWindow(window: WindowId, body: seq<Op>)
    | BeginDraw(window: WindowId)
    | EndDraw(window: WindowId)
    | DropEntity(id: EntityId)

  type Script = seq<Op>

  // ---------- How much work is left ----------

  function EffectWeight(e: Effect): (w: nat)
    ensures w > 0
    decreases e, 0
  {
    match e
    case Defer(callback) => 1 + ScriptWeight(callback)
    case _ => 1
  }

  function OpWeight(op: Op): (w: nat)
    ensures w > 0
    decreases op, 0
  {
    match op
    case Push(effect) => 1 + EffectWeight(effect)
    case NotifyEntity(_) => 2
    case Refresh => 2
    case Update(body) => 1 + ScriptWeight(body)
    case RemoveWindow(_, body) => 1 + ScriptWeight(body)
    case Borrow(_, body) => 3 + ScriptWeight(body)
    case DropEntity(_) => 2
    case _ => 1
  }

  function ScriptWeight(s: Script): nat
    decreases s, 1
  {
    if s == [] then 0 else OpWeight(s[0]) + ScriptWeight(s[1..])
  }

  function QueueWeight(effects: seq<Effect>): nat {
    if effects == [] then 0 else EffectWeight(effects[0]) + QueueWeight(effects[1..])
  }

  function TapeWeight(scripts: seq<Script>): nat {
    if scripts == [] then 0 else ScriptWeight(scripts[0]) + TapeWeight(scripts[1..])
  }

  lemma {:induction false} QueueWeightPush(effects: seq<Effect>, e: Effect)
    ensures QueueWeight(effects + [e]) == QueueWeight(effects) + EffectWeight(e)
  {
    if effects == [] {
      assert effects + [e] == [e];
    } else {
      assert (effects + [e])[1..] == effects[1..] + [e];
      QueueWeightPush(effects[1..], e);
    }
  }

  // ---------- The queue ----------

  ghost predicate Once(effects: seq<Effect>, e: Effect) {
    forall i, j :: 0 <= i < j < |effects| ==> !(effects[i] == e && effects[j] == e)
  }

  /** A notification is pending exactly when it is queued, and then it is queued once. */
  ghost predicate Deduped(effects: seq<Effect>, notifications: set<EntityId>, globals: set<TypeId>) {
    && (forall e: EntityId :: e in notifications <==> Notify(e) in effects)
    && (forall t: TypeId :: t in globals <==> NotifyGlobalObservers(t) in effects)
    && (forall e: EntityId :: Once(effects, Notify(e)))
    && (forall t: TypeId :: Once(effects, NotifyGlobalObservers(t)))
  }

  predicate Duplicate(effect: Effect, notifications: set<EntityId>, globals: set<TypeId>) {
    || (effect.Notify? && effect.emitter in notifications)
    || (effect.NotifyGlobalObservers? && effect.globalType in globals)
  }

  lemma DedupedPush(effects: seq<Effect>, notifications: set<EntityId>, globals: set<TypeId>, effect: Effect)
    requires Deduped(effects, notifications, globals) && !Duplicate(effect, notifications, globals)
    ensures Deduped(effects + [effect],
                    if effect.Notify? then notifications + {effect.emitter} else notifications,
                    if effect.NotifyGlobalObservers? then globals + {effect.globalType} else globals)
  {
    var after := effects + [effect];
    assert forall x :: x in after <==> x in effects || x == effect;
  }

  lemma DedupedPop(effects: seq<Effect>, notifications: set<EntityId>, globals: set<TypeId>)
    requires effects != [] && Deduped(effects, notifications, globals)
    ensures var effect := effects[0];
            Deduped(effects[1..],
                    if effect.Notify? then notifications - {effect.emitter} else notifications,
                    if effect.NotifyGlobalObservers? then globals - {effect.globalType} else globals)
  {
    var rest := effects[1..];
    assert effects == [effects[0]] + rest;
    assert forall x :: x in effects <==> x in rest || x == effects[0];
    forall x ensures Once(effects, x) ==> Once(rest, x) && (x == effects[0] ==> x !in rest) {
      if Once(effects, x) {
        forall i, j | 0 <= i < j < |rest| ensures !(rest[i] == x && rest[j] == x) {
          assert effects[i + 1] == rest[i] && effects[j + 1] == rest[j];
        }
        forall i | 0 <= i < |rest| && x == effects[0] ensures rest[i] != x {
          assert effects[i + 1] == rest[i];
        }
      }
    }
  }

  // ---------- Windows and entities ----------

  // What has happened to the windows, newest last.
  datatype FrameEvent = Recorded(window: WindowId, entities: set<EntityId>) | Closed(window: WindowId)

  /** The entities read by the last frame recorded for an open window. */
  ghost function LastFrame(frames: seq<FrameEvent>, w: WindowId): Option<set<EntityId>> {
    if frames == [] then
      None
    else
      var last := frames[|frames| - 1];
      if last.window == w then
        if last.Recorded? then Some(last.entities) else None
      else
        LastFrame(frames[..|frames| - 1], w)
  }

  /** The windows whose last recorded frame read `e`. */
  ghost predicate Reads(frames: seq<FrameEvent>, w: WindowId, e: EntityId) {
    LastFrame(frames, w).Some? && e in LastFrame(frames, w).value
  }

  ghost predicate TracksFrames(tracked: map<WindowId, set<EntityId>>, frames: seq<FrameEvent>) {
    forall w: WindowId :: LastFrame(frames, w) == if w in tracked then Some(tracked[w]) else None
  }

  /** What the index knows about an entity is true, and complete unless the entity has been released. */
  ghost predicate Indexed(invalidators: map<EntityId, set<WindowId>>, tracked: map<WindowId, set<EntityId>>,
                          released: set<EntityId>) {
    && (forall e, w :: e in invalidators && w in invalidators[e] ==> w in tracked && e in tracked[w])
    && (forall e, w :: w in tracked && e in tracked[w] && e !in released ==> e in invalidators && w in invalidators[e])
  }

  /** Looking an entity up may leave an empty entry behind; that says nothing new. */
  lemma IndexedTouch(invalidators: map<EntityId, set<WindowId>>, tracked: map<WindowId, set<EntityId>>,
                     released: set<EntityId>, e: EntityId, windows: set<WindowId>)
    requires Indexed(invalidators, tracked, released)
    requires windows == if e in invalidators then invalidators[e] else {}
    ensures Indexed(invalidators[e := windows], tracked, released)
  {
    var after := invalidators[e := windows];
    forall d, w | w in tracked && d in tracked[w] && d !in released ensures d in after && w in after[d] {
      assert d in invalidators && w in invalidators[d];
    }
  }

  /** The windows found for an entity are the ones whose last frame read it. */
  lemma LiveWindows(invalidators: map<EntityId, set<WindowId>>, tracked: map<WindowId, set<EntityId>>,
                    released: set<EntityId>, frames: seq<FrameEvent>, e: EntityId, windows: set<WindowId>)
    requires Indexed(invalidators, tracked, released) && TracksFrames(tracked, frames)
    requires windows == if e in invalidators then invalidators[e] else {}
    ensures forall w :: w in windows ==> w in tracked && e in tracked[w] && Reads(frames, w, e)
    ensures e !in released ==> forall w :: Reads(frames, w, e) ==> w in windows
  {
    forall w | w in windows ensures Reads(frames, w, e) {
      assert LastFrame(frames, w) == Some(tracked[w]);
    }
    forall w | e !in released && Reads(frames, w, e) ensures w in windows {
      assert w in tracked && e in tracked[w];
    }
  }

  function WithoutWindow(invalidators: map<EntityId, set<WindowId>>, w: WindowId, es: set<EntityId>)
    : map<EntityId, set<WindowId>>
  {
    map e | e in invalidators :: if e in es then invalidators[e] - {w} else invalidators[e]
  }

  function WithWindow(invalidators: map<EntityId, set<WindowId>>, w: WindowId, es: set<EntityId>)
    : map<EntityId, set<WindowId>>
  {
    map e | e in invalidators.Keys + es ::
      if e in es then (if e in invalidators then invalidators[e] else {}) + {w} else invalidators[e]
  }

  lemma IndexedRecord(invalidators: map<EntityId, set<WindowId>>, tracked: map<WindowId, set<EntityId>>,
                      released: set<EntityId>, w: WindowId, before: set<EntityId>, es: set<EntityId>)
    requires Indexed(invalidators, tracked, released)
    requires before == if w in tracked then tracked[w] else {}
    ensures Indexed(WithWindow(WithoutWindow(invalidators, w, before), w, es), tracked[w := es], released)
  {
    var after := WithWindow(WithoutWindow(invalidators, w, before), w, es);
    forall e, v | v in tracked[w := es] && e in tracked[w := es][v] && e !in released
      ensures e in after && v in after[e]
    {
      if v != w {
        assert e in invalidators && v in invalidators[e];
      }
    }
  }

  lemma IndexedClose(invalidators: map<EntityId, set<WindowId>>, tracked: map<WindowId, set<EntityId>>,
                     released: set<EntityId>, w: WindowId, before: set<EntityId>)
    requires Indexed(invalidators, tracked, released)
    requires before == if w in tracked then tracked[w] else {}
    ensures Indexed(WithoutWindow(invalidators, w, before), tracked - {w}, released)
  {
    var after := WithoutWindow(invalidators, w, before);
    forall e, v | v in tracked - {w} && e in tracked[v] && e !in released ensures e in after && v in after[e] {
      assert e in invalidators && v in invalidators[e];
    }
  }

  lemma TracksFramesPush(tracked: map<WindowId, set<EntityId>>, frames: seq<FrameEvent>, event: FrameEvent)
    requires TracksFrames(tracked, frames)
    ensures TracksFrames(if event.Recorded? then tracked[event.window := event.entities] else tracked - {event.window},
                         frames + [event])
  {
    assert (frames + [event])[..|frames|] == frames;
  }
}
