/**
 * The simulator object: it updates its fields in place and keeps its events in a queue of any kind. Every method
 * takes the object from the state of the model to the model's next state, and extends its history.
 */
module DefaultSimulator {
  import opened Wrappers
  import opened Scheduler
  import opened Simulator
  import opened SimulatorInvariants
  import opened Handlers
  import opened AnyQueue

  // ---------------------------------------------------------------- what the queue can take

  /** As far as `p` gets from this state, it schedules nothing past the last timestamp. */
  ghost predicate Fits(p: Prog, s: Sim, mem: Memory)
    decreases p
  {
    match p
    case Done => true
    case ScheduleIn(delay, impl, reg, next) =>
      && s.currentTs + delay < MAX_TS
      && Fits(next, Simulator.Schedule(s, delay, impl).0, Keep(mem, reg, Simulator.Schedule(s, delay, impl).1))
    case ScheduleInContext(context, delay, impl, next) =>
      s.currentTs + delay < MAX_TS && Fits(next, Simulator.ScheduleWithContext(s, context, delay, impl), mem)
    case ScheduleAtDestroy(impl, reg, next) =>
      Fits(next, Simulator.ScheduleDestroy(s, impl).0, Keep(mem, reg, Simulator.ScheduleDestroy(s, impl).1))
    case CancelReg(reg, next) => Fits(next, Simulator.Cancel(s, IdIn(mem, reg)), mem)
    case RemoveReg(reg, next) => Fits(next, Simulator.Remove(s, IdIn(mem, reg)), mem)
    case IfExpired(reg, yes, no) => Fits(if Simulator.IsExpired(s, IdIn(mem, reg)) then yes else no, s, mem)
    case IfDelayBelow(reg, bound, yes, no) =>
      Fits(if Simulator.GetDelayLeft(s, IdIn(mem, reg)) < bound then yes else no, s, mem)
    case StopRun(next) => Fits(next, Simulator.Stop(s), mem)
    case Store(data, next) => Fits(next, s, mem.(data := data))
  }

  predicate NothingToRemove(s: Sim, id: EventId) {
    id.key.uid == UID_DESTROY || Simulator.IsExpired(s, id)
  }

  ghost predicate TimelyEvents(evs: seq<EventWithContext>, now: nat) {
    forall ev :: ev in evs ==> now + ev.timestamp < MAX_TS
  }

  /** The handler of the next event fits, if it is notified at all. */
  ghost predicate HeadFits(h: Handler, w: World)
    requires w.sim.queue != []
  {
    var next, s := w.sim.queue[0], Pop(w.sim);
    next.impl in s.cancelled || Fits(h(next.impl, s.currentTs, s.currentContext, w.mem), s, w.mem)
  }

  /** What is taken over from other threads behind it fits as well. */
  ghost predicate HandOffFits(h: Handler, pushed: seq<EventWithContext>, w: World)
    requires w.sim.queue != []
  {
    var s := PushAll(Notified(h, w).sim, pushed);
    TimelyEvents(s.shared, s.currentTs)
  }

  /** Along the run, everything that is scheduled fits. */
  ghost predicate FitsRun(h: Handler, others: Others, w: World, fuel: nat)
    decreases fuel
  {
    || fuel == 0 || Over(w.sim)
    || (&& HeadFits(h, w) && HandOffFits(h, others(w.sim.eventCount), w)
        && FitsRun(h, others, ProcessOne(h, others, w), fuel - 1))
  }

  class DefaultSimulatorImpl {
    var events: AnyScheduler
    var stop: bool
    var uid: nat
    var currentTs: nat
    var currentUid: nat
    var currentContext: nat
    var unscheduled: int
    var eventCount: nat
    var cancelled: set<nat>
    var destroyEvents: seq<EventId>
    var shared: seq<EventWithContext>
    var sharedEmpty: bool
    ghost var run: Run

    /** The model state of the object while `handedOver` is being inserted. */
    ghost function StateWith(handedOver: seq<EventWithContext>): Sim
      reads this, events
    {
      Sim(events.events, stop, uid, currentTs, currentUid, currentContext, unscheduled, eventCount, cancelled,
          destroyEvents, shared, sharedEmpty, handedOver)
    }

    ghost function State(): Sim
      reads this, events
    {
      StateWith([])
    }

    ghost predicate Wired()
      reads this, events, events.Repr
    {
      this !in events.Repr && events.Valid() && events.Floor() <= currentTs < MAX_TS
    }

    /** The object is in the state its history leads to, and that history satisfies all invariants. */
    ghost predicate Holds(handedOver: seq<EventWithContext>)
      reads this, events, events.Repr
    {
      Wired() && run.sim == StateWith(handedOver) && Inv(run)
    }

    ghost predicate Valid()
      reads this, events, events.Repr
    {
      Holds([])
    }

    constructor (kind: Kind)
      ensures Valid() && fresh(events) && fresh(events.Repr) && run == START
      ensures events.IsHeap() <==> kind.HeapKind?
    {
      hide Inv, AnyScheduler.Valid, AnyScheduler.Floor;
      events := new AnyScheduler(kind);
      stop, uid, currentUid, currentTs, currentContext := false, UID_VALID, 0, 0, NO_CONTEXT;
      unscheduled, eventCount, cancelled, destroyEvents := 0, 0, {}, [];
      shared, sharedEmpty := [], true;
      run := START;
      StartInv();
    }

    /** Another kind of queue takes over: all events move, and nothing else changes. */
    method SetScheduler(kind: Kind)
      requires Valid()
      modifies this, events.Repr
      ensures Valid() && State() == old(State()) && run == old(run) && fresh(events.Repr)
      ensures events.IsHeap() <==> kind.HeapKind?
    {
      hide Inv, AnyScheduler.Valid, AnyScheduler.Floor;
      var scheduler := new AnyScheduler(kind);
      scheduler.TakeAll(events);
      events := scheduler;
    }

    /** The part the scheduling calls share. */
    method AddEvent(ts: nat, context: nat, impl: nat, ghost handedOver: seq<EventWithContext>)
      requires Wired() && FreshUid(multiset(events.events), uid) && currentTs <= ts < MAX_TS
      modifies this, events.Repr
      ensures Wired() && events == old(events) && fresh(events.Repr - old(events.Repr)) && run == old(run)
      ensures StateWith(handedOver) == Enqueue(old(StateWith(handedOver)), ts, context, impl)
    {
      hide InsertOrdered, FreshUid, AnyScheduler.Valid, AnyScheduler.Floor;
      var ev := Event(impl, EventKey(ts, uid, context));
      uid := uid + 1;
      unscheduled := unscheduled + 1;
      events.Insert(ev);
    }

    method Schedule(delay: nat, impl: nat) returns (id: EventId)
      requires Valid() && currentTs + delay < MAX_TS
      modifies this, events.Repr
      ensures Valid() && events == old(events) && fresh(events.Repr - old(events.Repr))
      ensures (State(), id) == Simulator.Schedule(old(State()), delay, impl)
      ensures Took(old(run), DoSchedule(delay, impl), run) && run.issued == old(run.issued) + {id}
    {
      hide Inv, Took, Enqueue, AnyScheduler.Valid, AnyScheduler.Floor;
      NextUidIsFresh(run);
      id := EventId(Some(impl), EventKey(currentTs + delay, uid, currentContext));
      AddEvent(currentTs + delay, currentContext, impl, []);
      run := TakeStep(run, DoSchedule(delay, impl));
    }

    /** Called on the main thread the event is queued; on another thread it is handed over. */
    method ScheduleWithContext(mainThread: bool, context: nat, delay: nat, impl: nat)
      requires Valid() && (mainThread ==> currentTs + delay < MAX_TS)
      modifies this, events.Repr
      ensures Valid() && events == old(events) && fresh(events.Repr - old(events.Repr))
      ensures Took(old(run), if mainThread then DoScheduleWithContext(context, delay, impl)
                             else DoPush(EventWithContext(context, delay, impl)), run)
      ensures run.issued == old(run.issued)
      ensures State() == if mainThread then Simulator.ScheduleWithContext(old(State()), context, delay, impl)
                         else Push(old(State()), EventWithContext(context, delay, impl))
    {
      hide Inv, Took, Enqueue, AnyScheduler.Valid, AnyScheduler.Floor;
      if mainThread {
        NextUidIsFresh(run);
        AddEvent(currentTs + delay, context, impl, []);
        run := TakeStep(run, DoScheduleWithContext(context, delay, impl));
      } else {
        var ev := EventWithContext(context, delay, impl);
        shared := shared + [ev];
        sharedEmpty := false;
        run := TakeStep(run, DoPush(ev));
      }
    }

    method ScheduleDestroy(impl: nat) returns (id: EventId)
      requires Valid()
      modifies this
      ensures Valid() && events == old(events)
      ensures (State(), id) == Simulator.ScheduleDestroy(old(State()), impl)
      ensures Took(old(run), DoScheduleDestroy(impl), run) && run.issued == old(run.issued)
    {
      hide Inv, Took, AnyScheduler.Valid, AnyScheduler.Floor;
      id := EventId(Some(impl), EventKey(currentTs, UID_DESTROY, NO_CONTEXT));
      destroyEvents := destroyEvents + [id];
      uid := uid + 1;
      run := TakeStep(run, DoScheduleDestroy(impl));
    }

    method IsExpired(id: EventId) returns (expired: bool)
      ensures expired == Simulator.IsExpired(State(), id)
    {
      if id.key.uid == UID_DESTROY {
        if id.impl.None? || id.impl.value in cancelled {
          return true;
        }
        var i := 0;
        while i < |destroyEvents|
          invariant 0 <= i <= |destroyEvents| && forall k :: 0 <= k < i ==> destroyEvents[k] != id
        {
          if destroyEvents[i] == id {
            return false;
          }
          i := i + 1;
        }
        return true;
      }
      expired := id.impl.None? || id.key.ts < currentTs
              || (id.key.ts == currentTs && id.key.uid <= currentUid)
              || id.impl.value in cancelled;
    }

    method GetDelayLeft(id: EventId) returns (left: int)
      ensures left == Simulator.GetDelayLeft(State(), id)
      ensures Valid() && id in run.issued ==> left >= 0
      ensures Valid() && id.key.uid == UID_DESTROY ==> left <= 0
    {
      hide Inv, Simulator.IsExpired, AnyScheduler.Valid, AnyScheduler.Floor;
      if Valid() { DelayLeftBounds(run, id); }
      var expired := IsExpired(id);
      left := if expired then 0 else id.key.ts - currentTs;
    }

    method Cancel(id: EventId)
      requires Valid() && KnownId(run, id)
      modifies this
      ensures Valid() && events == old(events)
      ensures State() == Simulator.Cancel(old(State()), id)
      ensures Took(old(run), DoCancel(id), run) && run.issued == old(run.issued)
    {
      hide Inv, Took, Simulator.IsExpired, AnyScheduler.Valid, AnyScheduler.Floor;
      var expired := IsExpired(id);
      if !expired {
        NotExpiredHasObject(State(), id);
        cancelled := cancelled + {id.impl.value};
      }
      run := TakeStep(run, DoCancel(id));
    }

    /** On a heap the removal has to be one that keeps the heap in order. */
    method Remove(id: EventId)
      requires Valid() && KnownId(run, id)
      requires events.IsHeap() && !NothingToRemove(State(), id) ==> events.CanRemove(id.key.uid)
      modifies this, events.Repr
      ensures Valid() && events == old(events) && fresh(events.Repr - old(events.Repr))
      ensures State() == Simulator.Remove(old(State()), id)
      ensures Took(old(run), DoRemove(id), run) && run.issued == old(run.issued)
    {
      hide Inv, Took, Simulator.IsExpired, WithoutId, WithoutUid, AnyScheduler.Valid, AnyScheduler.Floor,
           AnyScheduler.CanRemove;
      if id.key.uid == UID_DESTROY {
        RemoveDestroyEvent(id);
        run := TakeStep(run, DoRemove(id));
        return;
      }
      var expired := IsExpired(id);
      if expired {
        run := TakeStep(run, DoRemove(id));
        return;
      }
      events.NotHeapCanRemove(id.key.uid);
      RemoveQueued(id);
    }

    method RemoveQueued(id: EventId)
      requires Valid() && KnownId(run, id) && !NothingToRemove(State(), id) && events.CanRemove(id.key.uid)
      modifies this, events.Repr
      ensures Valid() && events == old(events) && fresh(events.Repr - old(events.Repr))
      ensures State() == Simulator.Remove(old(State()), id)
      ensures Took(old(run), DoRemove(id), run) && run.issued == old(run.issued)
    {
      hide Inv, Took, Simulator.IsExpired, WithoutUid, AnyScheduler.Valid, AnyScheduler.Floor, AnyScheduler.CanRemove;
      NotExpiredHasObject(State(), id);
      UnexpiredIsQueued(run, id);
      var event := Event(id.impl.value, id.key);
      run := TakeStep(run, DoRemove(id));
      events.Remove(event);
      FlagRemoved(id.impl.value);
    }

    method FlagRemoved(impl: nat)
      modifies `cancelled, `unscheduled
      ensures cancelled == old(cancelled) + {impl} && unscheduled == old(unscheduled) - 1
    {
      cancelled := cancelled + {impl};
      unscheduled := unscheduled - 1;
    }

    method RemoveDestroyEvent(id: EventId)
      modifies `destroyEvents
      ensures destroyEvents == WithoutId(old(destroyEvents), id)
    {
      var i := 0;
      while i < |destroyEvents|
        invariant 0 <= i <= |destroyEvents| && destroyEvents == old(destroyEvents)
        invariant forall k :: 0 <= k < i ==> destroyEvents[k] != id
      {
        if destroyEvents[i] == id {
          WithoutIdAt(destroyEvents, id, i);
          destroyEvents := destroyEvents[..i] + destroyEvents[i + 1..];
          return;
        }
        i := i + 1;
      }
      WithoutIdAt(destroyEvents, id, i);
    }

    method Stop()
      requires Valid()
      modifies this
      ensures Valid() && events == old(events)
      ensures State() == Simulator.Stop(old(State())) && Took(old(run), DoStop, run) && run.issued == old(run.issued)
    {
      hide Inv, Took, AnyScheduler.Valid, AnyScheduler.Floor;
      stop := true;
      run := TakeStep(run, DoStop);
    }

    method IsFinished() returns (finished: bool)
      requires Wired()
      ensures finished <==> Over(State())
    {
      var empty := events.IsEmpty();
      finished := empty || stop;
    }

    method InsertFirst(event: EventWithContext, ghost rest: seq<EventWithContext>)
      requires Holds([event] + rest) && currentTs + event.timestamp < MAX_TS
      modifies this, events.Repr
      ensures Holds(rest) && events == old(events) && fresh(events.Repr - old(events.Repr))
      ensures StateWith(rest) == InsertHandedOver(old(StateWith([event] + rest)))
      ensures currentTs == old(currentTs) && run.issued == old(run.issued) && shared == old(shared)
    {
      hide Inv, Took, InsertOrdered, FreshUid, AnyScheduler.Valid, AnyScheduler.Floor;
      NextUidIsFresh(run);
      assert ([event] + rest)[1..] == rest;
      run := TakeStep(run, DoInsertHandedOver);
      AddEvent(currentTs + event.timestamp, event.context, event.impl, rest);
    }

    /** Swap the shared list out in one step, then insert what was in it, event by event. */
    method ProcessEventsWithContext()
      requires Valid() && TimelyEvents(shared, currentTs)
      modifies this, events.Repr
      ensures Valid() && events == old(events) && fresh(events.Repr - old(events.Repr))
      ensures State() == Drain(old(State())) && run.issued == old(run.issued) && shared == []
    {
      hide Inv, Took, InsertOrdered, FreshUid, InsertAll, AnyScheduler.Valid, AnyScheduler.Floor;
      if sharedEmpty {
        NothingShared(run);
        return;
      }
      run := TakeStep(run, DoTakeShared);
      var eventsWithContext := shared;
      shared := [];
      sharedEmpty := true;
      ghost var all := StateWith(eventsWithContext);
      while eventsWithContext != []
        invariant Holds(eventsWithContext) && TimelyEvents(eventsWithContext, currentTs)
        invariant events == old(events) && fresh(events.Repr - old(events.Repr)) && run.issued == old(run.issued)
        invariant InsertAll(StateWith(eventsWithContext)) == InsertAll(all) && shared == []
        decreases |eventsWithContext|
      {
        ghost var rest := eventsWithContext[1..];
        assert eventsWithContext == [eventsWithContext[0]] + rest;
        InsertAllStep(StateWith(eventsWithContext));
        InsertFirst(eventsWithContext[0], rest);
        eventsWithContext := eventsWithContext[1..];
      }
      InsertAllDone(State());
    }

    /** A removal that would leave the heap out of order comes next. */
    ghost predicate Blocked(rest: Prog, mem: Memory)
      reads this, events, events.Repr
      requires Valid()
    {
      rest.RemoveReg? && Unsafe(IdIn(mem, rest.reg))
    }

    ghost predicate Unsafe(id: EventId)
      reads this, events, events.Repr
      requires Valid()
    {
      events.IsHeap() && !NothingToRemove(State(), id) && !events.CanRemove(id.key.uid)
    }

    method IsUnsafe(id: EventId) returns (unsafe: bool)
      requires Valid()
      ensures unsafe <==> Unsafe(id)
    {
      if !events.IsHeap() || id.key.uid == UID_DESTROY {
        return false;
      }
      var expired := IsExpired(id);
      unsafe := !expired && !events.CanRemove(id.key.uid);
    }

    /**
     * What an event object does when it is invoked: the calls of its program, one after the other, up to a removal that
     * would leave a heap out of order. What is left of the program would end in the state the whole of it ends in.
     */
    method Perform(p: Prog, mem: Memory) returns (mem': Memory, rest: Prog)
      requires Valid() && Fits(p, State(), mem) && MemOk(mem, run.issued)
      modifies this, events.Repr
      ensures Valid() && events == old(events) && fresh(events.Repr - old(events.Repr))
      ensures Exec(rest, State(), mem') == Exec(p, old(State()), mem) && MemOk(mem', run.issued)
      ensures rest.Done? || Blocked(rest, mem')
      ensures currentTs == old(currentTs) && shared == old(shared) && eventCount == old(eventCount)
      decreases p
    {
      hide Inv, Took, InsertOrdered, Simulator.IsExpired, Simulator.GetDelayLeft, WithoutUid, WithoutId, MemOk,
           AnyScheduler.Valid, AnyScheduler.Floor, AnyScheduler.CanRemove, Unsafe;
      match p {
        case Done =>
          mem', rest := mem, Done;
        case ScheduleIn(delay, impl, reg, next) =>
          var id := this.Schedule(delay, impl);
          KeepKnown(mem, old(run.issued), reg, id, run.issued);
          mem', rest := Perform(next, Keep(mem, reg, id));
        case ScheduleInContext(context, delay, impl, next) =>
          this.ScheduleWithContext(true, context, delay, impl);
          mem', rest := Perform(next, mem);
        case ScheduleAtDestroy(impl, reg, next) =>
          var id := this.ScheduleDestroy(impl);
          KeepKnown(mem, old(run.issued), reg, id, run.issued);
          mem', rest := Perform(next, Keep(mem, reg, id));
        case CancelReg(reg, next) =>
          KnownReg(run, mem, reg);
          this.Cancel(IdIn(mem, reg));
          mem', rest := Perform(next, mem);
        case RemoveReg(reg, next) =>
          KnownReg(run, mem, reg);
          var unsafe := IsUnsafe(IdIn(mem, reg));
          if unsafe {
            return mem, p;
          }
          SafeRemoval(IdIn(mem, reg));
          this.Remove(IdIn(mem, reg));
          mem', rest := Perform(next, mem);
        case IfExpired(reg, yes, no) =>
          var expired := this.IsExpired(IdIn(mem, reg));
          mem', rest := Perform(if expired then yes else no, mem);
        case IfDelayBelow(reg, bound, yes, no) =>
          var left := this.GetDelayLeft(IdIn(mem, reg));
          mem', rest := Perform(if left < bound then yes else no, mem);
        case StopRun(next) =>
          this.Stop();
          mem', rest := Perform(next, mem);
        case Store(data, next) =>
          KeepKnown(mem, run.issued, 0, NEVER, run.issued);
          DataKnown(mem, data, run.issued);
          mem', rest := Perform(next, mem.(data := data));
      }
    }

    lemma SafeRemoval(id: EventId)
      requires Valid() && !Unsafe(id)
      ensures events.IsHeap() && !NothingToRemove(State(), id) ==> events.CanRemove(id.key.uid)
    {
    }

    /** The next event leaves the queue and becomes the current one. */
    method PopNext() returns (next: Event)
      requires Valid() && events.events != []
      modifies this, events.Repr
      ensures Valid() && events == old(events) && fresh(events.Repr - old(events.Repr))
      ensures next == old(events.events)[0] && State() == Pop(old(State()))
      ensures run.issued == old(run.issued)
    {
      hide Inv, AnyScheduler.Valid, AnyScheduler.Floor;
      run := TakePop(run);
      ghost var all := events.events;
      next := events.RemoveNext();
      TailIsRest(next, events.events, all);
      assert next.key.ts >= currentTs;
      BecomeCurrent(next);
    }

    method BecomeCurrent(next: Event)
      modifies `unscheduled, `eventCount, `currentTs, `currentContext, `currentUid
      ensures unscheduled == old(unscheduled) - 1 && eventCount == old(eventCount) + 1
      ensures currentTs == next.key.ts && currentContext == next.key.context && currentUid == next.key.uid
    {
      unscheduled := unscheduled - 1;
      eventCount := eventCount + 1;
      currentTs := next.key.ts;
      currentContext := next.key.context;
      currentUid := next.key.uid;
    }

    /** A cancelled event object is not notified. */
    method Invoke(h: Handler, impl: nat, mem: Memory) returns (mem': Memory, notified: bool, rest: Prog)
      requires Valid() && MemOk(mem, run.issued)
      requires impl !in cancelled ==> Fits(h(impl, currentTs, currentContext, mem), State(), mem)
      modifies this, events.Repr
      ensures Valid() && events == old(events) && fresh(events.Repr - old(events.Repr))
      ensures notified == (impl !in old(cancelled)) && MemOk(mem', run.issued)
      ensures if notified
              then Exec(rest, State(), mem')
                == Exec(h(impl, old(currentTs), old(currentContext), mem), old(State()), mem)
              else State() == old(State()) && mem' == mem && rest.Done?
      ensures (rest.Done? || Blocked(rest, mem')) && eventCount == old(eventCount)
    {
      hide Inv, Exec, Fits, Unsafe, AnyScheduler.Valid, AnyScheduler.Floor, AnyScheduler.CanRemove;
      notified := impl !in cancelled;
      mem', rest := mem, Done;
      if notified {
        mem', rest := Perform(h(impl, currentTs, currentContext, mem), mem);
      }
    }

    /** The events other threads push while an event is processed. */
    method Receive(pushed: seq<EventWithContext>)
      requires Valid()
      modifies this, events.Repr
      ensures Valid() && events == old(events) && fresh(events.Repr - old(events.Repr))
      ensures State() == PushAll(old(State()), pushed) && run.issued == old(run.issued)
    {
      hide Inv, Took, AnyScheduler.Valid, AnyScheduler.Floor;
      var i := 0;
      assert pushed[0..] == pushed;
      while i < |pushed|
        invariant 0 <= i <= |pushed| && Valid() && run.issued == old(run.issued)
        invariant events == old(events) && fresh(events.Repr - old(events.Repr))
        invariant PushAll(State(), pushed[i..]) == PushAll(old(State()), pushed)
      {
        var ev := pushed[i];
        assert pushed[i..][1..] == pushed[i + 1..];
        ScheduleWithContext(false, ev.context, ev.timestamp, ev.impl);
        assert EventWithContext(ev.context, ev.timestamp, ev.impl) == ev;
        i := i + 1;
      }
    }

    /**
     * One event; `pushed` comes from other threads before the main thread looks for such events again. If the handler
     * was stopped in front of an unsafe removal, the rest of it would finish the event.
     */
    method ProcessOneEvent(h: Handler, pushed: seq<EventWithContext>, mem: Memory, log: seq<Note>)
      returns (mem': Memory, log': seq<Note>, rest: Prog)
      requires Valid() && MemOk(mem, run.issued) && events.events != []
      requires HeadFits(h, World(State(), mem, log)) && HandOffFits(h, pushed, World(State(), mem, log))
      modifies this, events.Repr
      ensures Valid() && events == old(events) && fresh(events.Repr - old(events.Repr)) && MemOk(mem', run.issued)
      ensures var w := Notified(h, World(old(State()), mem, log));
              if rest.Done? then World(State(), mem', log') == w.(sim := Drain(PushAll(w.sim, pushed)))
              else Blocked(rest, mem') && log' == w.log && Exec(rest, State(), mem') == (w.sim, w.mem)
      ensures !rest.Done? ==> eventCount == old(eventCount) + 1
    {
      hide Inv, Took, Exec, Fits, Drain, PushAll, MemOk, TimelyEvents, Unsafe, AnyScheduler.Valid, AnyScheduler.Floor,
           AnyScheduler.CanRemove;
      var next := PopNext();
      var notified;
      mem', notified, rest := Invoke(h, next.impl, mem);
      log' := if notified then log + [Note(next.impl, next.key.ts, next.key.context)] else log;
      if !rest.Done? {
        return;
      }
      NothingLeft(State(), mem');
      Receive(pushed);
      ProcessEventsWithContext();
    }

    /**
     * The run, for at most `fuel` events. Whether it stopped for lack of events or not, the assertion that closes it
     * holds. On a heap it stops in front of an unsafe removal; finishing that event and going on would end the run.
     */
    method Run(h: Handler, others: Others, mem: Memory, fuel: nat)
      returns (mem': Memory, log: seq<Note>, rest: Prog, left: nat)
      requires Valid() && MemOk(mem, run.issued) && TimelyEvents(shared, currentTs)
      requires FitsRun(h, others, World(ClearStop(Drain(State())), mem, []), fuel)
      modifies this, events.Repr
      ensures Valid() && events == old(events) && fresh(events.Repr - old(events.Repr))
      ensures var w := RunFrom(h, others, old(State()), mem, fuel);
              if rest.Done? then World(State(), mem', log) == w
              else Blocked(rest, mem') && Resumed(h, others, World(State(), mem', log), rest, left) == w
      ensures events.events == [] ==> unscheduled == 0
    {
      hide Inv, RunLoop, FitsRun, Drain, MemOk, Resumed, Blocked, AnyScheduler.Valid, AnyScheduler.Floor;
      ProcessEventsWithContext();
      StartRun();
      mem', log, rest, left := ProcessEvents(h, others, mem, fuel);
      NothingUnscheduled(run);
    }

    method StartRun()
      requires Valid()
      modifies this
      ensures Valid() && events == old(events) && run.issued == old(run.issued)
      ensures State() == ClearStop(old(State()))
    {
      hide Inv, Took, AnyScheduler.Valid, AnyScheduler.Floor;
      run := TakeStep(run, DoClearStop);
      stop := false;
    }

    method ProcessEvents(h: Handler, others: Others, mem: Memory, fuel: nat)
      returns (mem': Memory, log: seq<Note>, rest: Prog, left: nat)
      requires Valid() && MemOk(mem, run.issued) && FitsRun(h, others, World(State(), mem, []), fuel)
      modifies this, events.Repr
      ensures Valid() && events == old(events) && fresh(events.Repr - old(events.Repr))
      ensures var w := RunLoop(h, others, World(old(State()), mem, []), fuel);
              if rest.Done? then World(State(), mem', log) == w
              else Blocked(rest, mem') && Resumed(h, others, World(State(), mem', log), rest, left) == w
    {
      hide Inv, Exec, Notified, HeadFits, HandOffFits, MemOk, Drain, PushAll, Blocked, AnyScheduler.Valid,
           AnyScheduler.Floor;
      mem', log, rest := mem, [], Done;
      left := fuel;
      var finished := IsFinished();
      while !finished && left > 0
        invariant Valid() && MemOk(mem', run.issued) && finished == Over(State())
        invariant events == old(events) && fresh(events.Repr - old(events.Repr))
        invariant FitsRun(h, others, World(State(), mem', log), left) && rest.Done?
        invariant RunLoop(h, others, World(State(), mem', log), left)
               == RunLoop(h, others, World(old(State()), mem, []), fuel)
      {
        left := left - 1;
        mem', log, rest := ProcessOneEvent(h, others(eventCount), mem', log);
        if !rest.Done? {
          return;
        }
        finished := IsFinished();
      }
    }
  }

  /** The run as it would go on from a handler stopped in its course. */
  function Resumed(h: Handler, others: Others, w: World, rest: Prog, left: nat): World {
    var (s, mem) := Exec(rest, w.sim, w.mem);
    var count := if w.sim.eventCount > 0 then w.sim.eventCount - 1 else 0;
    RunLoop(h, others, World(Drain(PushAll(s, others(count))), mem, w.log), left)
  }

  lemma {:induction false} LogOnlyGrows(h: Handler, others: Others, w: World, n: nat)
    ensures w.log <= RunLoop(h, others, w, n).log
    decreases n
  {
    hide Exec, Drain, PushAll;
    if n > 0 && !Over(w.sim) { LogOnlyGrows(h, others, ProcessOne(h, others, w), n - 1); }
  }

  lemma ResumedLog(h: Handler, others: Others, w: World, rest: Prog, left: nat)
    ensures w.log <= Resumed(h, others, w, rest, left).log
  {
    hide RunLoop, Exec, Drain, PushAll;
    var (s, mem) := Exec(rest, w.sim, w.mem);
    var count := if w.sim.eventCount > 0 then w.sim.eventCount - 1 else 0;
    LogOnlyGrows(h, others, World(Drain(PushAll(s, others(count))), mem, w.log), left);
  }

  /**
   * Whatever queues two simulators are given, a program started from one event notifies the same events: on lists and
   * calendars all of them, on a heap those up to a removal that would leave it out of order, if there is one.
   */
  method KindsAgree(first: Kind, second: Kind, h: Handler, others: Others, mem: Memory, delay: nat, impl: nat,
                    fuel: nat)
    returns (log: seq<Note>, other: seq<Note>, whole: bool)
    requires mem.ids == map[] && delay < MAX_TS
    requires FitsRun(h, others, World(Simulator.Schedule(INITIAL, delay, impl).0, mem, []), fuel)
    ensures var all := RunLoop(h, others, World(Simulator.Schedule(INITIAL, delay, impl).0, mem, []), fuel).log;
            log <= all && other <= all && (whole ==> log == other == all)
    ensures !first.HeapKind? && !second.HeapKind? ==> whole
  {
    var one, two;
    log, one := RunOne(first, h, others, mem, delay, impl, fuel);
    other, two := RunOne(second, h, others, mem, delay, impl, fuel);
    whole := one && two;
  }

  method RunOne(kind: Kind, h: Handler, others: Others, mem: Memory, delay: nat, impl: nat, fuel: nat)
    returns (log: seq<Note>, whole: bool)
    requires mem.ids == map[] && delay < MAX_TS
    requires FitsRun(h, others, World(Simulator.Schedule(INITIAL, delay, impl).0, mem, []), fuel)
    ensures var all := RunLoop(h, others, World(Simulator.Schedule(INITIAL, delay, impl).0, mem, []), fuel).log;
            log <= all && (whole ==> log == all)
    ensures !kind.HeapKind? ==> whole
  {
    hide Inv, RunLoop, FitsRun, InsertOrdered, Resumed, AnyScheduler.Valid, AnyScheduler.Floor, AnyScheduler.CanRemove;
    var sim := new DefaultSimulatorImpl(kind);
    var id := sim.Schedule(delay, impl);
    var mem', rest, left;
    mem', log, rest, left := sim.Run(h, others, mem, fuel);
    whole := rest.Done?;
    if !whole { ResumedLog(h, others, World(sim.State(), mem', log), rest, left); }
  }

  lemma NothingLeft(s: Sim, mem: Memory)
    ensures Exec(Done, s, mem) == (s, mem)
  {
  }

  // ---------------------------------------------------------------- small facts

  lemma NextUidIsFresh(r: Run)
    requires Inv(r)
    ensures FreshUid(multiset(r.sim.queue), r.sim.uid)
  {
    forall e | e in multiset(r.sim.queue)
      ensures e.key.uid != r.sim.uid
    {
      assert AfterCurrent(r.sim, e);
    }
  }

  lemma NothingShared(r: Run)
    requires Inv(r) && r.sim.sharedEmpty
    ensures r.sim.shared == []
  {
  }

  lemma TakePop(r: Run) returns (r': Run)
    requires Inv(r) && r.sim.queue != [] && r.sim.handedOver == []
    ensures Inv(r') && r'.sim == Pop(r.sim) && r'.issued == r.issued
    ensures r.sim.queue[0].key.ts >= r.sim.currentTs
  {
    hide Inv;
    HeadIsAhead(r);
    r' := TakeStep(r, DoPop);
  }

  lemma NothingUnscheduled(r: Run)
    requires Inv(r)
    ensures r.sim.queue == [] ==> r.sim.unscheduled == 0
  {
  }

  lemma UnexpiredIsQueued(r: Run, id: EventId)
    requires Inv(r) && KnownId(r, id) && id.key.uid != UID_DESTROY && !Simulator.IsExpired(r.sim, id) && id.impl.Some?
    ensures EventOf(id) in r.sim.queue
  {
    ExpiredExactly(r.sim, r.issued, id);
  }

  lemma {:induction false} WithoutIdAt(ids: seq<EventId>, id: EventId, i: nat)
    requires i <= |ids| && (forall k :: 0 <= k < i ==> ids[k] != id) && (i < |ids| ==> ids[i] == id)
    ensures WithoutId(ids, id) == if i < |ids| then ids[..i] + ids[i + 1..] else ids
  {
    if i == 0 {
      if ids != [] { assert ids[..0] + ids[1..] == ids[1..]; }
    } else {
      hide WithoutId;
      WithoutIdAt(ids[1..], id, i - 1);
      WithoutLater(ids, id);
      if i < |ids| {
        ShiftByOne(ids, i);
      } else {
        assert [ids[0]] + ids[1..] == ids;
      }
    }
  }

  lemma WithoutLater(ids: seq<EventId>, id: EventId)
    requires ids != [] && ids[0] != id
    ensures WithoutId(ids, id) == [ids[0]] + WithoutId(ids[1..], id)
  {
  }

  lemma ShiftByOne<T>(s: seq<T>, i: nat)
    requires 0 < i < |s|
    ensures [s[0]] + (s[1..][..i - 1] + s[1..][i..]) == s[..i] + s[i + 1..]
  {
    assert [s[0]] + s[1..][..i - 1] == s[..i];
    assert s[1..][i..] == s[i + 1..];
  }

  lemma InsertAllStep(s: Sim)
    requires s.handedOver != []
    ensures InsertAll(s) == InsertAll(InsertHandedOver(s))
  {
  }

  lemma InsertAllDone(s: Sim)
    requires s.handedOver == []
    ensures InsertAll(s) == s
  {
  }
}
