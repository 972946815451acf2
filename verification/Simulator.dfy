/**
 * The simulator as a state machine. Each function is one step of the main thread or of another thread; a locked
 * block of the source is one step. The invariants hold after any sequence of steps, whatever the handlers do.
 */
module Simulator {
  import opened Wrappers
  import opened Scheduler

  const UID_DESTROY: nat := 2
  const UID_VALID: nat := 4
  const NO_CONTEXT: nat := 0xFFFF_FFFF

  /** Names an event; an identifier that was never assigned has no event object. */
  datatype EventId = EventId(impl: Option<nat>, key: EventKey)

  datatype EventWithContext = EventWithContext(context: nat, timestamp: nat, impl: nat)

  datatype Sim = Sim(
    queue: seq<Event>,
    stop: bool,
    uid: nat,
    currentTs: nat,
    currentUid: nat,
    currentContext: nat,
    unscheduled: int,
    eventCount: nat,
    cancelled: set<nat>,                // event objects whose cancel flag is set
    destroyEvents: seq<EventId>,
    shared: seq<EventWithContext>,      // filled by other threads
    sharedEmpty: bool,
    handedOver: seq<EventWithContext>   // taken from `shared` but not yet inserted
  )

  const INITIAL := Sim([], false, UID_VALID, 0, 0, NO_CONTEXT, 0, 0, {}, [], [], true, [])

  // ---------------------------------------------------------------- steps

  /** The common tail of all scheduling calls: a new key, one more event, one more uid. */
  function Enqueue(s: Sim, ts: nat, context: nat, impl: nat): Sim {
    s.(queue := InsertOrdered(false, s.queue, Event(impl, EventKey(ts, s.uid, context))),
       uid := s.uid + 1, unscheduled := s.unscheduled + 1)
  }

  function Schedule(s: Sim, delay: nat, impl: nat): (Sim, EventId) {
    (Enqueue(s, s.currentTs + delay, s.currentContext, impl),
     EventId(Some(impl), EventKey(s.currentTs + delay, s.uid, s.currentContext)))
  }

  function ScheduleWithContext(s: Sim, context: nat, delay: nat, impl: nat): Sim {
    Enqueue(s, s.currentTs + delay, context, impl)
  }

  function ScheduleDestroy(s: Sim, impl: nat): (Sim, EventId) {
    var id := EventId(Some(impl), EventKey(s.currentTs, UID_DESTROY, NO_CONTEXT));
    (s.(destroyEvents := s.destroyEvents + [id], uid := s.uid + 1), id)
  }

  /** Another thread appends to the shared list. */
  function Push(s: Sim, ev: EventWithContext): Sim {
    s.(shared := s.shared + [ev], sharedEmpty := false)
  }

  function PushAll(s: Sim, evs: seq<EventWithContext>): Sim
    decreases |evs|
  {
    if evs == [] then s else PushAll(Push(s, evs[0]), evs[1..])
  }

  /** The main thread swaps the shared list out. */
  function TakeShared(s: Sim): Sim {
    s.(handedOver := s.shared, shared := [], sharedEmpty := true)
  }

  /** The main thread inserts the first event it has taken over. */
  function InsertHandedOver(s: Sim): Sim
    requires s.handedOver != []
  {
    var ev := s.handedOver[0];
    Enqueue(s.(handedOver := s.handedOver[1..]), s.currentTs + ev.timestamp, ev.context, ev.impl)
  }

  /** The queue side of processing one event: it leaves the queue and becomes the current one. */
  function Pop(s: Sim): Sim
    requires s.queue != []
  {
    var next := s.queue[0];
    s.(queue := s.queue[1..], unscheduled := s.unscheduled - 1, eventCount := s.eventCount + 1,
       currentTs := next.key.ts, currentContext := next.key.context, currentUid := next.key.uid)
  }

  predicate IsExpired(s: Sim, id: EventId) {
    if id.key.uid == UID_DESTROY then
      id.impl.None? || id.impl.value in s.cancelled || id !in s.destroyEvents
    else
      || id.impl.None?
      || id.key.ts < s.currentTs
      || (id.key.ts == s.currentTs && id.key.uid <= s.currentUid)
      || id.impl.value in s.cancelled
  }

  /** Zero once expired; a destroy event's time lies in the past. */
  function GetDelayLeft(s: Sim, id: EventId): int {
    if IsExpired(s, id) then 0 else id.key.ts - s.currentTs
  }

  function Cancel(s: Sim, id: EventId): Sim {
    if IsExpired(s, id) then s else s.(cancelled := s.cancelled + {id.impl.value})
  }

  function WithoutId(ids: seq<EventId>, id: EventId): seq<EventId> {
    if ids == [] then [] else if ids[0] == id then ids[1..] else [ids[0]] + WithoutId(ids[1..], id)
  }

  function Remove(s: Sim, id: EventId): Sim {
    if id.key.uid == UID_DESTROY then
      s.(destroyEvents := WithoutId(s.destroyEvents, id))
    else if IsExpired(s, id) then
      s
    else
      s.(queue := WithoutUid(s.queue, id.key.uid), cancelled := s.cancelled + {id.impl.value},
         unscheduled := s.unscheduled - 1)
  }

  function Stop(s: Sim): Sim {
    s.(stop := true)
  }

  /** Run begins by clearing the stop flag. */
  function ClearStop(s: Sim): Sim {
    s.(stop := false)
  }

  // ---------------------------------------------------------------- runs with their history

  /** A state together with everything that has happened. */
  datatype Run = Run(
    sim: Sim,
    processed: seq<Event>,            // in the order they left the queue
    live: seq<bool>,                  // for each of these, that its object was not cancelled then
    inserted: multiset<Event>,
    removed: multiset<Event>,
    pushed: seq<EventWithContext>,    // by other threads, in order
    drained: seq<Event>,              // the queue events made from them, in order
    drainTimes: seq<nat>,             // simulated time at which each was inserted
    issued: set<EventId>,             // identifiers returned by Schedule
    destroyIssued: seq<EventId>,      // those returned by ScheduleDestroy, in order
    destroyRemoved: multiset<EventId> // those taken off the list of destroy events
  )

  const START := Run(INITIAL, [], [], multiset{}, multiset{}, [], [], [], {}, [], multiset{})

  datatype Step =
    | DoSchedule(delay: nat, impl: nat)
    | DoScheduleWithContext(context: nat, delay: nat, impl: nat)
    | DoScheduleDestroy(impl: nat)
    | DoPush(ev: EventWithContext)
    | DoTakeShared
    | DoInsertHandedOver
    | DoPop
    | DoCancel(id: EventId)
    | DoRemove(id: EventId)
    | DoStop
    | DoClearStop

  /**
   * When a step can be taken. The main thread does nothing else while it inserts what it has taken over; other
   * threads can push at any time. Identifiers come from Schedule or ScheduleDestroy, or were never assigned.
   */
  predicate Enabled(r: Run, step: Step) {
    match step
    case DoPush(_) => true
    case DoInsertHandedOver => r.sim.handedOver != []
    case DoTakeShared => r.sim.handedOver == [] && !r.sim.sharedEmpty
    case DoPop => r.sim.handedOver == [] && r.sim.queue != []
    case DoCancel(id) => r.sim.handedOver == [] && KnownId(r, id)
    case DoRemove(id) => r.sim.handedOver == [] && KnownId(r, id)
    case _ => r.sim.handedOver == []
  }

  predicate KnownId(r: Run, id: EventId) {
    id in r.issued || id.impl.None? || id.key.uid == UID_DESTROY
  }

  /** The event the next scheduling step puts in the queue. */
  function NewEvent(s: Sim, ts: nat, context: nat, impl: nat): Event {
    Event(impl, EventKey(ts, s.uid, context))
  }

  /** What a step does to the state. */
  function AfterStep(s: Sim, step: Step): Sim
    requires step.DoInsertHandedOver? ==> s.handedOver != []
    requires step.DoPop? ==> s.queue != []
  {
    match step
    case DoSchedule(delay, impl) => Schedule(s, delay, impl).0
    case DoScheduleWithContext(context, delay, impl) => ScheduleWithContext(s, context, delay, impl)
    case DoScheduleDestroy(impl) => ScheduleDestroy(s, impl).0
    case DoPush(ev) => Push(s, ev)
    case DoTakeShared => TakeShared(s)
    case DoInsertHandedOver => InsertHandedOver(s)
    case DoPop => Pop(s)
    case DoCancel(id) => Cancel(s, id)
    case DoRemove(id) => Remove(s, id)
    case DoStop => Stop(s)
    case DoClearStop => ClearStop(s)
  }

  /** The state and the history after a step. */
  function Apply(r: Run, step: Step): Run
    requires Enabled(r, step)
  {
    var s := r.sim;
    var r' := r.(sim := AfterStep(s, step));
    match step
    case DoSchedule(delay, impl) =>
      r'.(issued := r.issued + {Schedule(s, delay, impl).1},
          inserted := r.inserted + multiset{NewEvent(s, s.currentTs + delay, s.currentContext, impl)})
    case DoScheduleWithContext(context, delay, impl) =>
      r'.(inserted := r.inserted + multiset{NewEvent(s, s.currentTs + delay, context, impl)})
    case DoScheduleDestroy(impl) => r'.(destroyIssued := r.destroyIssued + [ScheduleDestroy(s, impl).1])
    case DoPush(ev) => r'.(pushed := r.pushed + [ev])
    case DoInsertHandedOver =>
      var ev := s.handedOver[0];
      var e := NewEvent(s, s.currentTs + ev.timestamp, ev.context, ev.impl);
      r'.(inserted := r.inserted + multiset{e}, drained := r.drained + [e], drainTimes := r.drainTimes + [s.currentTs])
    case DoPop =>
      r'.(processed := r.processed + [s.queue[0]], live := r.live + [s.queue[0].impl !in s.cancelled])
    case DoRemove(id) =>
      if id.key.uid == UID_DESTROY then
        if id in s.destroyEvents then r'.(destroyRemoved := r.destroyRemoved + multiset{id}) else r'
      else if IsExpired(s, id) then r'
      else r'.(removed := r.removed + multiset{Event(id.impl.value, id.key)})
    case _ => r'
  }
}
