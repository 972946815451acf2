/** What runs do as seen from outside: which events they notify and when, when they end, and what registers name. */
module RunLaws {
  import opened Wrappers
  import opened Scheduler
  import opened Simulator
  import opened SimulatorInvariants
  import opened Handlers

  // ---------------------------------------------------------------- which events are notified

  lemma {:induction false} AllLive(events: seq<Event>, live: seq<bool>)
    requires |events| == |live| && forall i :: 0 <= i < |live| ==> live[i]
    ensures Notes(events, live)
         == seq(|events|, i requires 0 <= i < |events| =>
                Note(events[i].impl, events[i].key.ts, events[i].key.context))
  {
    if events != [] { AllLive(events[1..], live[1..]); }
  }

  /** If no object is cancelled, every event the run has processed was notified, at its time and in its context. */
  lemma NothingCancelled(h: Handler, others: Others, r: Run, mem: Memory, fuel: nat)
    returns (r': Run, steps: seq<Step>)
    requires Inv(r) && r.sim.handedOver == [] && MemOk(mem, r.issued)
    requires RunFrom(h, others, r.sim, mem, fuel).sim.cancelled == {}
    ensures var w := RunFrom(h, others, r.sim, mem, fuel);
            && RunsTo(r, steps, r') && r'.sim == w.sim && r.processed <= r'.processed
            && var events := r'.processed[|r.processed|..];
            && w.log == seq(|events|, i requires 0 <= i < |events| =>
                            Note(events[i].impl, events[i].key.ts, events[i].key.context))
            && |events| <= fuel && (|events| == fuel || w.sim.queue == [] || w.sim.stop)
  {
    hide RunFrom, RunsTo, EventsOk, DestroyOk, DestroyListOk, CountsOk, Notes;
    r', steps := RunKeepsHistory(h, others, r, mem, fuel);
    AllLive(r'.processed[|r.processed|..], r'.live[|r.live|..]);
  }

  // ---------------------------------------------------------------- a periodic event

  /** Counts its events and reschedules itself every `d`. */
  function Repeating(d: nat): Handler {
    (impl: nat, ts: nat, context: nat, mem: Memory) => Store(mem.data + 1, ScheduleIn(d, impl, 0, Done))
  }

  /** The object's one event is due at `t`, and nothing else is going on. */
  ghost predicate Due(s: Sim, impl: nat, t: nat, context: nat) {
    && |s.queue| == 1 && s.queue[0].impl == impl && s.queue[0].key.ts == t && s.queue[0].key.context == context
    && !s.stop && s.cancelled == {} && SingleThread(s)
  }

  lemma OnePeriod(d: nat, w: World, impl: nat, t: nat, context: nat)
    requires Due(w.sim, impl, t, context)
    ensures var w' := ProcessOne(Repeating(d), QUIET, w);
            && Due(w'.sim, impl, t + d, context) && w'.log == w.log + [Note(impl, t, context)]
            && w'.mem.data == w.mem.data + 1
  {
    hide Drain, PushAll;
    var s, data := Pop(w.sim), w.mem.data + 1;
    assert s.queue == [];
    var (s', id) := Schedule(s, d, impl);
    var p := ScheduleIn(d, impl, 0, Done);
    assert Exec(Store(data, p), s, w.mem) == Exec(p, s, w.mem.(data := data));
    assert Exec(p, s, w.mem.(data := data)) == (s', Keep(w.mem.(data := data), 0, id));
    NothingToDrain(s');
  }

  function Ticks(impl: nat, t: nat, d: nat, context: nat, n: nat): seq<Note> {
    seq(n, k requires 0 <= k < n => Note(impl, t + k * d, context))
  }

  lemma TicksFirst(impl: nat, t: nat, d: nat, context: nat, n: nat)
    requires n > 0
    ensures Ticks(impl, t, d, context, n) == [Note(impl, t, context)] + Ticks(impl, t + d, d, context, n - 1)
  {
    forall k | 1 <= k < n
      ensures t + k * d == (t + d) + (k - 1) * d
    {
    }
  }

  lemma {:induction false} TicksOn(d: nat, w: World, impl: nat, t: nat, context: nat, n: nat)
    requires Due(w.sim, impl, t, context)
    ensures var w' := RunLoop(Repeating(d), QUIET, w, n);
            w'.log == w.log + Ticks(impl, t, d, context, n) && w'.mem.data == w.mem.data + n
    decreases n
  {
    hide ProcessOne, Repeating, Ticks;
    if n == 0 {
      NoTicks(impl, t, d, context);
    } else {
      OnePeriod(d, w, impl, t, context);
      TicksOn(d, ProcessOne(Repeating(d), QUIET, w), impl, t + d, context, n - 1);
      TicksFirst(impl, t, d, context, n);
      var rest := Ticks(impl, t + d, d, context, n - 1);
      assert w.log + ([Note(impl, t, context)] + rest) == w.log + [Note(impl, t, context)] + rest;
    }
  }

  lemma NoTicks(impl: nat, t: nat, d: nat, context: nat)
    ensures Ticks(impl, t, d, context, 0) == []
  {
  }

  /**
   * An event that schedules itself again, started in a fresh simulator: in n events it takes place at t, t + d,
   * t + 2d, and so on, and its memory has counted to n.
   */
  lemma PeriodicEvent(d: nat, t: nat, impl: nat, mem: Memory, n: nat)
    ensures var w := RunFrom(Repeating(d), QUIET, Schedule(INITIAL, t, impl).0, mem, n);
            && w.log == seq(n, k requires 0 <= k < n => Note(impl, t + k * d, 0xFFFF_FFFF))
            && w.mem.data == mem.data + n
  {
    StartedPeriodic(d, t, impl, 0xFFFF_FFFF, mem, Schedule(INITIAL, t, impl).0, n);
  }

  /** If it was given a context, it stays in that. */
  lemma PeriodicEventInContext(d: nat, t: nat, impl: nat, context: nat, mem: Memory, n: nat)
    ensures var w := RunFrom(Repeating(d), QUIET, ScheduleWithContext(INITIAL, context, t, impl), mem, n);
            w.log == seq(n, k requires 0 <= k < n => Note(impl, t + k * d, context))
  {
    StartedPeriodic(d, t, impl, context, mem, ScheduleWithContext(INITIAL, context, t, impl), n);
  }

  lemma StartedPeriodic(d: nat, t: nat, impl: nat, context: nat, mem: Memory, s: Sim, n: nat)
    requires Due(s, impl, t, context)
    ensures var w := RunFrom(Repeating(d), QUIET, s, mem, n);
            w.log == Ticks(impl, t, d, context, n) && w.mem.data == mem.data + n
  {
    hide RunLoop, Repeating, Ticks;
    NothingToDrain(s);
    TicksOn(d, World(ClearStop(s), mem, []), impl, t, context, n);
    assert [] + Ticks(impl, t, d, context, n) == Ticks(impl, t, d, context, n);
  }

  // ---------------------------------------------------------------- Stop

  lemma StepStops(s: Sim, step: Step)
    requires (step.DoInsertHandedOver? ==> s.handedOver != []) && (step.DoPop? ==> s.queue != [])
    requires !step.DoClearStop?
    ensures AfterStep(s, step).stop <==> s.stop || step.DoStop?
  {
    hide InsertOrdered, IsExpired, WithoutUid, WithoutId;
  }

  lemma {:induction false} StepsStop(r: Run, steps: seq<Step>, r': Run)
    requires RunsTo(r, steps, r') && DoClearStop !in steps
    ensures r'.sim.stop <==> r.sim.stop || DoStop in steps
    decreases |steps|
  {
    hide AfterStep, KnownId;
    if steps != [] {
      StepStops(r.sim, steps[0]);
      StepsStop(Apply(r, steps[0]), steps[1..], r');
      assert steps == [steps[0]] + steps[1..];
    }
  }

  lemma {:induction false} CallsAreCalls(p: Prog, s: Sim, mem: Memory)
    ensures DoClearStop !in Calls(p, s, mem)
    decreases p
  {
    hide IsExpired, GetDelayLeft, Enqueue, Cancel, Remove, Stop;
    match p {
      case Done =>
      case ScheduleIn(delay, impl, reg, next) =>
        var (s', id) := Schedule(s, delay, impl);
        CallsAreCalls(next, s', mem.(ids := mem.ids[reg := id]));
      case ScheduleInContext(context, delay, impl, next) =>
        CallsAreCalls(next, ScheduleWithContext(s, context, delay, impl), mem);
      case ScheduleAtDestroy(impl, reg, next) =>
        var (s', id) := ScheduleDestroy(s, impl);
        CallsAreCalls(next, s', mem.(ids := mem.ids[reg := id]));
      case CancelReg(reg, next) => CallsAreCalls(next, Cancel(s, IdIn(mem, reg)), mem);
      case RemoveReg(reg, next) => CallsAreCalls(next, Remove(s, IdIn(mem, reg)), mem);
      case IfExpired(reg, yes, no) => CallsAreCalls(yes, s, mem); CallsAreCalls(no, s, mem);
      case IfDelayBelow(reg, bound, yes, no) => CallsAreCalls(yes, s, mem); CallsAreCalls(no, s, mem);
      case StopRun(next) => CallsAreCalls(next, Stop(s), mem);
      case Store(data, next) => CallsAreCalls(next, s, mem.(data := data));
    }
  }

  lemma HeadStops(h: Handler, w: World, pushed: seq<EventWithContext>, steps: seq<Step>)
    requires w.sim.queue != [] && EventSteps(h, w, pushed, steps)
    ensures DoClearStop !in steps && (DoStop in steps <==> DoStop in NotifySteps(h, w))
  {
    hide Calls;
    var next := w.sim.queue[0];
    CallsAreCalls(h(next.impl, next.key.ts, next.key.context, w.mem), Pop(w.sim), w.mem);
    var first, front := NotifySteps(h, w), NotifySteps(h, w) + Pushes(pushed);
    forall i | 0 <= i < |steps|
      ensures steps[i] != DoClearStop && (steps[i] == DoStop ==> DoStop in first)
    {
      if i < |front| { assert steps[i] == front[i]; }
    }
    if DoStop in first {
      var i :| 0 <= i < |first| && first[i] == DoStop;
      assert steps[i] == front[i] == DoStop;
    }
  }

  /**
   * The stop flag is up behind an event exactly if its handler called Stop; the run then ends with that event, whatever
   * is still queued, and nothing more is notified.
   */
  lemma StopEndsTheRun(h: Handler, others: Others, w: World, r: Run, fuel: nat)
    requires Inv(r) && r.sim == w.sim && w.sim.handedOver == [] && MemOk(w.mem, r.issued)
    requires w.sim.queue != [] && !w.sim.stop && fuel > 0
    ensures ProcessOne(h, others, w).sim.stop <==> DoStop in NotifySteps(h, w)
    ensures DoStop in NotifySteps(h, w) ==>
              && RunLoop(h, others, w, fuel) == ProcessOne(h, others, w)
              && RunLoop(h, others, w, fuel).log == w.log + HeadNote(w.sim)
              && RunLoop(h, others, w, fuel).sim.eventCount == w.sim.eventCount + 1
  {
    hide Inv, ProcessOne, NotifySteps, HeadNote, RunsTo, EventSteps;
    var r', steps := ProcessOneKeepsInv(h, others, w, r);
    HeadStops(h, w, others(w.sim.eventCount), steps);
    StepsStop(r, steps, r');
    CountIsLength(r);
    CountIsLength(r');
  }

  lemma CountIsLength(r: Run)
    requires Inv(r)
    ensures r.sim.eventCount == |r.processed|
  {
    hide EventsOk, DestroyOk, DestroyListOk, LiveOk;
  }

  ghost predicate NeverStops(h: Handler) {
    forall w: World :: w.sim.queue != [] ==> DoStop !in NotifySteps(h, w)
  }

  lemma {:induction false} RunsOn(h: Handler, others: Others, w: World, r: Run, fuel: nat)
    requires Inv(r) && r.sim == w.sim && w.sim.handedOver == [] && MemOk(w.mem, r.issued)
    requires !w.sim.stop && NeverStops(h)
    ensures !RunLoop(h, others, w, fuel).sim.stop
    decreases fuel
  {
    hide Inv, ProcessOne, NotifySteps, RunsTo, EventSteps, HeadNote;
    if fuel > 0 && w.sim.queue != [] {
      var r', steps := ProcessOneKeepsInv(h, others, w, r);
      StopEndsTheRun(h, others, w, r, fuel);
      RunsOn(h, others, ProcessOne(h, others, w), r', fuel - 1);
    }
  }

  /** A run whose handlers never stop ends for lack of events only, even if an earlier run was stopped. */
  lemma RunsUntilEmpty(h: Handler, others: Others, r: Run, mem: Memory, fuel: nat)
    requires Inv(r) && r.sim.handedOver == [] && MemOk(mem, r.issued) && NeverStops(h)
    ensures var w := RunFrom(h, others, r.sim, mem, fuel);
            w.sim.queue == [] || w.sim.eventCount == r.sim.eventCount + fuel
  {
    hide Inv, Drain, RunLoop, RunsTo, NewNotes, Arrivals, NeverStops;
    var r1, drain := DrainKeepsInv(r);
    var r2 := TakeStep(r1, DoClearStop);
    RunsOn(h, others, World(ClearStop(Drain(r.sim)), mem, []), r2, fuel);
    var r', steps := RunKeepsHistory(h, others, r, mem, fuel);
    CountIsLength(r);
    CountIsLength(r');
  }

  // ---------------------------------------------------------------- what registers name

  lemma JustScheduled(r: Run, delay: nat, impl: nat)
    requires Inv(r) && impl !in r.sim.cancelled
    ensures var (s, id) := Schedule(r.sim, delay, impl);
            && !IsExpired(s, id) && GetDelayLeft(s, id) == delay && IsExpired(Cancel(s, id), id)
            && Remove(s, id) == r.sim.(uid := r.sim.uid + 1, cancelled := r.sim.cancelled + {impl})
  {
    hide InsertOrdered, WithoutUid, IdsOk, OrderOk, Conserved, HandOffOk, DestroyOk, HistoryOk;
    var s, id := r.sim, Schedule(r.sim, delay, impl).1;
    forall e | e in multiset(s.queue)
      ensures e.key.uid != s.uid
    {
      assert AfterCurrent(s, e);
    }
    EraseUndoesInsert(false, s.queue, Event(impl, id.key));
  }

  /**
   * A register names the event scheduled into it: it is not expired, its whole delay is left, and removing it leaves
   * the queue as it was before.
   */
  lemma RegisterNamesEvent(r: Run, mem: Memory, delay: nat, impl: nat, reg: nat, bound: int, yes: Prog, no: Prog)
    requires Inv(r) && impl !in r.sim.cancelled
    ensures Exec(ScheduleIn(delay, impl, reg, IfExpired(reg, yes, no)), r.sim, mem)
         == Exec(ScheduleIn(delay, impl, reg, no), r.sim, mem)
    ensures Exec(ScheduleIn(delay, impl, reg, IfDelayBelow(reg, bound, yes, no)), r.sim, mem)
         == Exec(ScheduleIn(delay, impl, reg, if delay < bound then yes else no), r.sim, mem)
    ensures Exec(ScheduleIn(delay, impl, reg, CancelReg(reg, IfExpired(reg, yes, no))), r.sim, mem)
         == Exec(ScheduleIn(delay, impl, reg, CancelReg(reg, yes)), r.sim, mem)
    ensures Exec(ScheduleIn(delay, impl, reg, RemoveReg(reg, Done)), r.sim, mem).0
         == r.sim.(uid := r.sim.uid + 1, cancelled := r.sim.cancelled + {impl})
  {
    hide Inv, IsExpired, GetDelayLeft, Cancel, Remove, Schedule;
    JustScheduled(r, delay, impl);
    var (s, id) := Schedule(r.sim, delay, impl);
    var mem' := Keep(mem, reg, id);
    assert IdIn(mem', reg) == id;
    OneCall(IfExpired(reg, yes, no), s, mem');
    OneCall(IfDelayBelow(reg, bound, yes, no), s, mem');
    OneCall(CancelReg(reg, IfExpired(reg, yes, no)), s, mem');
    OneCall(IfExpired(reg, yes, no), Cancel(s, id), mem');
    OneCall(CancelReg(reg, yes), s, mem');
    OneCall(RemoveReg(reg, Done), s, mem');
  }

  /** And a destroy event, which is expired as soon as it is cancelled, or removed if it is the only one of its kind. */
  lemma RegisterNamesDestroyEvent(r: Run, mem: Memory, impl: nat, reg: nat, yes: Prog, no: Prog)
    requires Inv(r) && impl !in r.sim.cancelled
    requires EventId(Some(impl), EventKey(r.sim.currentTs, UID_DESTROY, NO_CONTEXT)) !in r.sim.destroyEvents
    ensures Exec(ScheduleAtDestroy(impl, reg, IfExpired(reg, yes, no)), r.sim, mem)
         == Exec(ScheduleAtDestroy(impl, reg, no), r.sim, mem)
    ensures Exec(ScheduleAtDestroy(impl, reg, CancelReg(reg, IfExpired(reg, yes, no))), r.sim, mem)
         == Exec(ScheduleAtDestroy(impl, reg, CancelReg(reg, yes)), r.sim, mem)
    ensures Exec(ScheduleAtDestroy(impl, reg, RemoveReg(reg, Done)), r.sim, mem).0 == r.sim.(uid := r.sim.uid + 1)
  {
    hide Inv, IsExpired, Cancel, Remove, ScheduleDestroy;
    JustListed(r, impl);
    var (s, id) := ScheduleDestroy(r.sim, impl);
    var mem' := Keep(mem, reg, id);
    assert IdIn(mem', reg) == id;
    OneCall(IfExpired(reg, yes, no), s, mem');
    OneCall(CancelReg(reg, IfExpired(reg, yes, no)), s, mem');
    OneCall(IfExpired(reg, yes, no), Cancel(s, id), mem');
    OneCall(CancelReg(reg, yes), s, mem');
    OneCall(RemoveReg(reg, Done), s, mem');
  }

  lemma JustListed(r: Run, impl: nat)
    requires Inv(r) && impl !in r.sim.cancelled
    requires EventId(Some(impl), EventKey(r.sim.currentTs, UID_DESTROY, NO_CONTEXT)) !in r.sim.destroyEvents
    ensures var (s, id) := ScheduleDestroy(r.sim, impl);
            && !IsExpired(s, id) && IsExpired(Cancel(s, id), id)
            && Remove(s, id) == r.sim.(uid := r.sim.uid + 1)
  {
    hide Inv;
    WithoutLast(r.sim.destroyEvents, ScheduleDestroy(r.sim, impl).1);
  }

  lemma {:induction false} WithoutLast(ids: seq<EventId>, id: EventId)
    requires id !in ids
    ensures WithoutId(ids + [id], id) == ids
  {
    if ids != [] {
      assert (ids + [id])[1..] == ids[1..] + [id];
      WithoutLast(ids[1..], id);
    }
  }

  lemma OneCall(p: Prog, s: Sim, mem: Memory)
    ensures p.CancelReg? ==> Exec(p, s, mem) == Exec(p.next, Cancel(s, IdIn(mem, p.reg)), mem)
    ensures p.RemoveReg? ==> Exec(p, s, mem) == Exec(p.next, Remove(s, IdIn(mem, p.reg)), mem)
    ensures p.IfExpired? ==> Exec(p, s, mem) == Exec(if IsExpired(s, IdIn(mem, p.reg)) then p.yes else p.no, s, mem)
    ensures p.IfDelayBelow? ==>
              Exec(p, s, mem) == Exec(if GetDelayLeft(s, IdIn(mem, p.reg)) < p.bound then p.yes else p.no, s, mem)
  {
  }
}
