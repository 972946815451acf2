/** Running the simulator with deterministic handlers. */
module Handlers {
  import opened Wrappers
  import opened Scheduler
  import opened Simulator
  import opened SimulatorInvariants

  /**
   * What a handler does, as a tree: it branches on the expiry of identifiers kept in numbered registers and on the
   * delay left until their events; time and context are known when it starts.
   */
  datatype Prog =
    | Done
    | ScheduleIn(delay: nat, impl: nat, reg: nat, next: Prog)
    | ScheduleInContext(context: nat, delay: nat, impl: nat, next: Prog)
    | ScheduleAtDestroy(impl: nat, reg: nat, next: Prog)
    | CancelReg(reg: nat, next: Prog)
    | RemoveReg(reg: nat, next: Prog)
    | IfExpired(reg: nat, yes: Prog, no: Prog)
    | IfDelayBelow(reg: nat, bound: int, yes: Prog, no: Prog)
    | StopRun(next: Prog)
    | Store(data: int, next: Prog)

  /** What the model remembers between handlers. */
  datatype Memory = Memory(ids: map<nat, EventId>, data: int)

  /** Event object, time, context and memory decide what the handler does. */
  type Handler = (nat, nat, nat, Memory) -> Prog

  /** What other threads push while the n-th event is processed, up to the next time the main thread looks. */
  type Others = nat -> seq<EventWithContext>

  /** There are none. */
  const QUIET: Others := (n: nat) => []

  datatype Note = Note(impl: nat, ts: nat, context: nat)

  datatype World = World(sim: Sim, mem: Memory, log: seq<Note>)

  const NEVER := EventId(None, EventKey(0, 0, 0))

  function IdIn(mem: Memory, reg: nat): EventId {
    if reg in mem.ids then mem.ids[reg] else NEVER
  }

  function Keep(mem: Memory, reg: nat, id: EventId): Memory {
    mem.(ids := mem.ids[reg := id])
  }

  function Exec(p: Prog, s: Sim, mem: Memory): (Sim, Memory) {
    match p
    case Done => (s, mem)
    case ScheduleIn(delay, impl, reg, next) =>
      var (s', id) := Schedule(s, delay, impl);
      Exec(next, s', Keep(mem, reg, id))
    case ScheduleInContext(context, delay, impl, next) => Exec(next, ScheduleWithContext(s, context, delay, impl), mem)
    case ScheduleAtDestroy(impl, reg, next) =>
      var (s', id) := ScheduleDestroy(s, impl);
      Exec(next, s', Keep(mem, reg, id))
    case CancelReg(reg, next) => Exec(next, Cancel(s, IdIn(mem, reg)), mem)
    case RemoveReg(reg, next) => Exec(next, Remove(s, IdIn(mem, reg)), mem)
    case IfExpired(reg, yes, no) => Exec(if IsExpired(s, IdIn(mem, reg)) then yes else no, s, mem)
    case IfDelayBelow(reg, bound, yes, no) =>
      Exec(if GetDelayLeft(s, IdIn(mem, reg)) < bound then yes else no, s, mem)
    case StopRun(next) => Exec(next, Stop(s), mem)
    case Store(data, next) => Exec(next, s, mem.(data := data))
  }

  function InsertAll(s: Sim): Sim
    decreases |s.handedOver|
  {
    if s.handedOver == [] then s else InsertAll(InsertHandedOver(s))
  }

  /** Move the events of other threads into the queue. */
  function Drain(s: Sim): Sim {
    if s.sharedEmpty then s else InsertAll(TakeShared(s))
  }

  /** The event at the head becomes the current one and is notified, unless its object is cancelled. */
  function Notified(h: Handler, w: World): World
    requires w.sim.queue != []
  {
    var next := w.sim.queue[0];
    var s := Pop(w.sim);
    if next.impl in s.cancelled then w.(sim := s)
    else
      var (s', mem') := Exec(h(next.impl, s.currentTs, s.currentContext, w.mem), s, w.mem);
      World(s', mem', w.log + [Note(next.impl, next.key.ts, next.key.context)])
  }

  /** Process one event, then take over what other threads have pushed meanwhile. */
  function ProcessOne(h: Handler, others: Others, w: World): World
    requires w.sim.queue != []
  {
    var w' := Notified(h, w);
    w'.(sim := Drain(PushAll(w'.sim, others(w.sim.eventCount))))
  }

  /** Nothing of other threads is on its way. */
  predicate SingleThread(s: Sim) {
    s.shared == [] && s.sharedEmpty && s.handedOver == []
  }

  lemma NothingToDrain(s: Sim)
    requires SingleThread(s)
    ensures Drain(PushAll(s, [])) == s && Drain(s) == s
  {
  }

  /** The condition that ends the loop of Run. */
  predicate Over(s: Sim) {
    s.queue == [] || s.stop
  }

  /** The loop of Run, for at most `fuel` events. */
  function RunLoop(h: Handler, others: Others, w: World, fuel: nat): World
    decreases fuel
  {
    if fuel == 0 || Over(w.sim) then w else RunLoop(h, others, ProcessOne(h, others, w), fuel - 1)
  }

  // ---------------------------------------------------------------- handlers take only simulator steps

  /** The steps a handler takes from this state, in order: one for each of its calls that changes anything. */
  function Calls(p: Prog, s: Sim, mem: Memory): seq<Step> {
    match p
    case Done => []
    case ScheduleIn(delay, impl, reg, next) =>
      var (s', id) := Schedule(s, delay, impl);
      [DoSchedule(delay, impl)] + Calls(next, s', mem.(ids := mem.ids[reg := id]))
    case ScheduleInContext(context, delay, impl, next) =>
      var step := DoScheduleWithContext(context, delay, impl);
      [step] + Calls(next, AfterStep(s, step), mem)
    case ScheduleAtDestroy(impl, reg, next) =>
      var (s', id) := ScheduleDestroy(s, impl);
      [DoScheduleDestroy(impl)] + Calls(next, s', mem.(ids := mem.ids[reg := id]))
    case CancelReg(reg, next) =>
      var step := DoCancel(if reg in mem.ids then mem.ids[reg] else NEVER);
      [step] + Calls(next, AfterStep(s, step), mem)
    case RemoveReg(reg, next) =>
      var step := DoRemove(if reg in mem.ids then mem.ids[reg] else NEVER);
      [step] + Calls(next, AfterStep(s, step), mem)
    case IfExpired(reg, yes, no) =>
      Calls(if reg !in mem.ids || IsExpired(s, mem.ids[reg]) then yes else no, s, mem)
    case IfDelayBelow(reg, bound, yes, no) =>
      Calls(if (if reg in mem.ids then GetDelayLeft(s, mem.ids[reg]) else 0) < bound then yes else no, s, mem)
    case StopRun(next) => [DoStop] + Calls(next, AfterStep(s, DoStop), mem)
    case Store(data, next) => Calls(next, s, mem.(data := data))
  }

  ghost predicate MemOk(mem: Memory, issued: set<EventId>) {
    forall reg :: reg in mem.ids ==>
      mem.ids[reg] in issued || mem.ids[reg].impl.None? || mem.ids[reg].key.uid == UID_DESTROY
  }

  lemma KnownReg(r: Run, mem: Memory, reg: nat)
    requires MemOk(mem, r.issued)
    ensures KnownId(r, IdIn(mem, reg))
  {
  }

  lemma KeepKnown(mem: Memory, issued: set<EventId>, reg: nat, id: EventId, issued': set<EventId>)
    requires MemOk(mem, issued) && issued <= issued'
    requires id in issued' || id.impl.None? || id.key.uid == UID_DESTROY
    ensures MemOk(Keep(mem, reg, id), issued') && MemOk(mem, issued')
  {
  }

  lemma DataKnown(mem: Memory, data: int, issued: set<EventId>)
    requires MemOk(mem, issued)
    ensures MemOk(mem.(data := data), issued)
  {
  }

  /** The steps can be taken, and lead there. */
  ghost predicate RunsTo(r: Run, steps: seq<Step>, r': Run) {
    CanRun(r, steps) && RunAll(r, steps) == r'
  }

  /** Nothing was processed, pushed or drained in between. */
  ghost predicate SameEvent(r: Run, r': Run) {
    && r'.processed == r.processed && r'.live == r.live && r'.pushed == r.pushed && r'.drainTimes == r.drainTimes
    && r'.sim.currentTs == r.sim.currentTs && r'.sim.handedOver == r.sim.handedOver && r'.sim.shared == r.sim.shared
  }

  lemma NoStep(r: Run)
    ensures RunsTo(r, [], r)
  {
  }

  lemma FirstStep(r: Run, step: Step, r1: Run, steps: seq<Step>, r2: Run)
    requires Took(r, step, r1) && RunsTo(r1, steps, r2)
    ensures RunsTo(r, [step] + steps, r2)
  {
    hide Enabled, Apply;
    assert ([step] + steps)[1..] == steps;
  }

  lemma {:induction false} StepsJoin(r: Run, first: seq<Step>, r1: Run, second: seq<Step>, r2: Run)
    requires RunsTo(r, first, r1) && RunsTo(r1, second, r2)
    ensures RunsTo(r, first + second, r2)
    decreases |first|
  {
    hide Enabled, Apply;
    if first == [] {
      assert first + second == second;
    } else {
      StepsJoin(Apply(r, first[0]), first[1..], r1, second, r2);
      assert (first + second)[1..] == first[1..] + second;
    }
  }

  /**
   * Whatever a handler does, the simulator gets where the handler's calls take it, step by step, and its history
   * satisfies the invariants.
   */
  lemma {:induction false} ExecKeepsInv(p: Prog, r: Run, mem: Memory) returns (r': Run)
    requires Inv(r) && r.sim.handedOver == [] && MemOk(mem, r.issued)
    ensures Inv(r') && r'.sim == Exec(p, r.sim, mem).0 && MemOk(Exec(p, r.sim, mem).1, r'.issued)
    ensures RunsTo(r, Calls(p, r.sim, mem), r') && SameEvent(r, r')
    decreases p, 0
  {
    hide Inv, Took, IsExpired, GetDelayLeft, Enqueue, Cancel, Remove, Stop, RunsTo, SameEvent, Enabled, KnownId,
         MemOk;
    CallEnabled(r);
    match p {
      case Done => r' := r; NoStep(r);
      case ScheduleIn(delay, impl, reg, next) =>
        var id := Schedule(r.sim, delay, impl).1;
        KeepKnown(mem, r.issued, reg, id, r.issued + {id});
        r' := CallKeepsInv(r, DoSchedule(delay, impl), next, mem.(ids := mem.ids[reg := id]));
      case ScheduleInContext(context, delay, impl, next) =>
        r' := CallKeepsInv(r, DoScheduleWithContext(context, delay, impl), next, mem);
      case ScheduleAtDestroy(impl, reg, next) =>
        var id := ScheduleDestroy(r.sim, impl).1;
        KeepKnown(mem, r.issued, reg, id, r.issued);
        r' := CallKeepsInv(r, DoScheduleDestroy(impl), next, mem.(ids := mem.ids[reg := id]));
      case CancelReg(reg, next) =>
        KnownReg(r, mem, reg);
        r' := CallKeepsInv(r, DoCancel(IdIn(mem, reg)), next, mem);
      case RemoveReg(reg, next) =>
        KnownReg(r, mem, reg);
        r' := CallKeepsInv(r, DoRemove(IdIn(mem, reg)), next, mem);
      case IfExpired(reg, yes, no) =>
        NeverExpires(r.sim);
        r' := ExecKeepsInv(if IsExpired(r.sim, IdIn(mem, reg)) then yes else no, r, mem);
      case IfDelayBelow(reg, bound, yes, no) =>
        NeverExpires(r.sim);
        r' := ExecKeepsInv(if GetDelayLeft(r.sim, IdIn(mem, reg)) < bound then yes else no, r, mem);
      case StopRun(next) =>
        r' := CallKeepsInv(r, DoStop, next, mem);
      case Store(data, next) =>
        DataKnown(mem, data, r.issued);
        r' := ExecKeepsInv(next, r, mem.(data := data));
    }
  }

  /** Between steps of the loop every call can be made, with an identifier the handler can know. */
  lemma CallEnabled(r: Run)
    requires r.sim.handedOver == []
    ensures SameEvent(r, r) && Enabled(r, DoStop)
    ensures forall delay, impl :: Enabled(r, DoSchedule(delay, impl))
    ensures forall context, delay, impl :: Enabled(r, DoScheduleWithContext(context, delay, impl))
    ensures forall impl :: Enabled(r, DoScheduleDestroy(impl))
    ensures forall id :: KnownId(r, id) ==> Enabled(r, DoCancel(id)) && Enabled(r, DoRemove(id))
  {
  }

  /** A register that was never set names an expired event. */
  lemma NeverExpires(s: Sim)
    ensures IsExpired(s, NEVER) && GetDelayLeft(s, NEVER) == 0
  {
  }

  /** Neither a step of the loop of Run nor one of another thread. */
  predicate IsCall(step: Step) {
    !step.DoPop? && !step.DoPush? && !step.DoTakeShared? && !step.DoInsertHandedOver?
  }

  lemma CallKeepsEvent(s: Sim, step: Step)
    requires IsCall(step)
    ensures var s' := AfterStep(s, step);
            s'.currentTs == s.currentTs && s'.handedOver == s.handedOver && s'.shared == s.shared
  {
    hide InsertOrdered, IsExpired, WithoutUid, WithoutId;
  }

  /** One call, and the rest of the handler. */
  lemma {:induction false} CallKeepsInv(r: Run, step: Step, next: Prog, mem: Memory) returns (r': Run)
    requires Inv(r) && r.sim.handedOver == [] && Enabled(r, step) && IsCall(step)
    requires MemOk(mem, if step.DoSchedule? then r.issued + {Schedule(r.sim, step.delay, step.impl).1} else r.issued)
    ensures var s := AfterStep(r.sim, step);
            && Inv(r') && r'.sim == Exec(next, s, mem).0 && MemOk(Exec(next, s, mem).1, r'.issued)
            && RunsTo(r, [step] + Calls(next, s, mem), r') && SameEvent(r, r')
    decreases next, 1
  {
    hide Inv, Took, AfterStep, RunsTo, MemOk, Enabled;
    CallKeepsEvent(r.sim, step);
    var r1 := TakeStep(r, step);
    r' := ExecKeepsInv(next, r1, mem);
    FirstStep(r, step, r1, Calls(next, r1.sim, mem), r');
  }

  lemma {:induction false} InsertAllKeepsInv(r: Run) returns (r': Run, steps: seq<Step>)
    requires Inv(r)
    ensures RunsTo(r, steps, r') && forall step :: step in steps ==> step.DoInsertHandedOver?
    ensures Inv(r') && r'.sim == InsertAll(r.sim) && r'.sim.handedOver == [] && r'.sim.shared == r.sim.shared
    ensures r.issued <= r'.issued && DrainedOnly(r, r')
    decreases |r.sim.handedOver|
  {
    hide Inv, InsertOrdered, Took, RunsTo;
    if r.sim.handedOver == [] {
      r', steps := r, [];
      NoStep(r);
    } else {
      var r1 := TakeStep(r, DoInsertHandedOver);
      r', steps := InsertAllKeepsInv(r1);
      FirstStep(r, DoInsertHandedOver, r1, steps, r');
      steps := [DoInsertHandedOver] + steps;
    }
  }

  /** Nothing was processed or pushed in between, and all that was drained was drained at one time. */
  ghost predicate DrainedOnly(r: Run, r': Run) {
    && r'.processed == r.processed && r'.live == r.live && r'.pushed == r.pushed
    && r'.sim.currentTs == r.sim.currentTs
    && r.drainTimes <= r'.drainTimes
    && forall i :: |r.drainTimes| <= i < |r'.drainTimes| ==> r'.drainTimes[i] == r.sim.currentTs
  }

  /** A step the main thread takes to move the events of other threads. */
  predicate IsDrainStep(step: Step) {
    step.DoTakeShared? || step.DoInsertHandedOver?
  }

  lemma DrainKeepsInv(r: Run) returns (r': Run, steps: seq<Step>)
    requires Inv(r) && r.sim.handedOver == []
    ensures RunsTo(r, steps, r') && forall step :: step in steps ==> IsDrainStep(step)
    ensures Inv(r') && r'.sim == Drain(r.sim) && r'.sim.handedOver == [] && r'.sim.shared == []
    ensures r.issued <= r'.issued && DrainedOnly(r, r')
  {
    hide Inv, InsertAll, Took, RunsTo;
    if r.sim.sharedEmpty {
      r', steps := r, [];
      FlagIsExact(r);
      NoStep(r);
    } else {
      var r1 := TakeStep(r, DoTakeShared);
      r', steps := InsertAllKeepsInv(r1);
      FirstStep(r, DoTakeShared, r1, steps, r');
      steps := [DoTakeShared] + steps;
    }
  }

  lemma FlagIsExact(r: Run)
    requires Inv(r)
    ensures r.sim.sharedEmpty <==> r.sim.shared == []
  {
    hide QueueOk, IdsOk, OrderOk, Conserved, HistoryOk, DestroyOk;
  }

  function Pushes(evs: seq<EventWithContext>): seq<Step> {
    seq(|evs|, i requires 0 <= i < |evs| => DoPush(evs[i]))
  }

  lemma {:induction false} PushAllKeepsInv(r: Run, evs: seq<EventWithContext>) returns (r': Run)
    requires Inv(r)
    ensures RunsTo(r, Pushes(evs), r')
    ensures Inv(r') && r'.sim == PushAll(r.sim, evs) && r'.sim.handedOver == r.sim.handedOver
    ensures r.issued <= r'.issued && r'.processed == r.processed && r'.live == r.live
    ensures r'.pushed == r.pushed + evs && r'.drainTimes == r.drainTimes && r'.sim.currentTs == r.sim.currentTs
    decreases |evs|
  {
    hide Inv, Took, RunsTo;
    if evs == [] {
      r' := r;
      NoStep(r);
      assert Pushes(evs) == [];
    } else {
      var r1 := TakeStep(r, DoPush(evs[0]));
      r' := PushAllKeepsInv(r1, evs[1..]);
      FirstStep(r, DoPush(evs[0]), r1, Pushes(evs[1..]), r');
      assert Pushes(evs) == [DoPush(evs[0])] + Pushes(evs[1..]);
      assert r.pushed + evs == r.pushed + [evs[0]] + evs[1..];
    }
  }

  /** The steps of notifying the next event: it leaves the queue, and its handler makes its calls. */
  function NotifySteps(h: Handler, w: World): seq<Step>
    requires w.sim.queue != []
  {
    var next, s := w.sim.queue[0], Pop(w.sim);
    [DoPop] + if next.impl in w.sim.cancelled then []
              else Calls(h(next.impl, next.key.ts, next.key.context, w.mem), s, w.mem)
  }

  lemma NotifiedKeepsInv(h: Handler, w: World, r: Run) returns (r': Run)
    requires Inv(r) && r.sim == w.sim && w.sim.handedOver == [] && MemOk(w.mem, r.issued) && w.sim.queue != []
    ensures Inv(r') && r'.sim == Notified(h, w).sim && MemOk(Notified(h, w).mem, r'.issued)
    ensures RunsTo(r, NotifySteps(h, w), r') && OneProcessed(r, r')
    ensures Notified(h, w).log == w.log + HeadNote(w.sim)
  {
    hide Inv, Exec, Took, RunsTo, Calls;
    var next := w.sim.queue[0];
    var r1 := TakeStep(r, DoPop);
    r' := r1;
    var s := r1.sim;
    NoStep(r1);
    if next.impl !in s.cancelled {
      var p := h(next.impl, s.currentTs, s.currentContext, w.mem);
      r' := ExecKeepsInv(p, r1, w.mem);
      FirstStep(r, DoPop, r1, Calls(p, s, w.mem), r');
    } else {
      FirstStep(r, DoPop, r1, [], r');
    }
  }

  /** What the next event leaves in the log: nothing, if its object is cancelled. */
  function HeadNote(s: Sim): seq<Note>
    requires s.queue != []
  {
    var next := s.queue[0];
    if next.impl in s.cancelled then [] else [Note(next.impl, next.key.ts, next.key.context)]
  }

  /** The next event and nothing else was processed; the clock stands at its time. */
  ghost predicate OneProcessed(r: Run, r': Run) {
    && r.sim.queue != []
    && r'.processed == r.processed + [r.sim.queue[0]] && r'.live == r.live + [r.sim.queue[0].impl !in r.sim.cancelled]
    && r'.pushed == r.pushed && r'.drainTimes == r.drainTimes && r'.sim.currentTs == r.sim.queue[0].key.ts
    && r'.sim.handedOver == [] && r'.sim.shared == r.sim.shared
  }

  /**
   * One event is processed, and what other threads pushed meanwhile joins what they have pushed before: none of it is
   * left behind, and all that was drained was drained at the time of that event.
   */
  ghost predicate OneMore(r: Run, pushed: seq<EventWithContext>, r': Run) {
    && r.sim.queue != []
    && r'.processed == r.processed + [r.sim.queue[0]] && r'.live == r.live + [r.sim.queue[0].impl !in r.sim.cancelled]
    && r'.pushed == r.pushed + pushed && r'.sim.handedOver == [] && r'.sim.shared == []
    && r.drainTimes <= r'.drainTimes
    && forall i :: |r.drainTimes| <= i < |r'.drainTimes| ==> r'.drainTimes[i] == r.sim.queue[0].key.ts
  }

  /** The steps of processing one event: it is notified, other threads push, and what they pushed is drained. */
  ghost predicate EventSteps(h: Handler, w: World, pushed: seq<EventWithContext>, steps: seq<Step>)
    requires w.sim.queue != []
  {
    var front := NotifySteps(h, w) + Pushes(pushed);
    front <= steps && forall i :: |front| <= i < |steps| ==> IsDrainStep(steps[i])
  }

  lemma ProcessOneKeepsInv(h: Handler, others: Others, w: World, r: Run) returns (r': Run, steps: seq<Step>)
    requires Inv(r) && r.sim == w.sim && w.sim.handedOver == [] && MemOk(w.mem, r.issued) && w.sim.queue != []
    ensures RunsTo(r, steps, r') && EventSteps(h, w, others(w.sim.eventCount), steps)
    ensures Inv(r') && r'.sim == ProcessOne(h, others, w).sim && MemOk(ProcessOne(h, others, w).mem, r'.issued)
    ensures OneMore(r, others(w.sim.eventCount), r') && ProcessOne(h, others, w).log == w.log + HeadNote(w.sim)
  {
    hide Inv, Notified, Drain, PushAll, NotifySteps, Pushes, RunsTo, HeadNote;
    var pushed := others(w.sim.eventCount);
    var r1 := NotifiedKeepsInv(h, w, r);
    var r2 := PushAllKeepsInv(r1, pushed);
    StepsJoin(r, NotifySteps(h, w), r1, Pushes(pushed), r2);
    r', steps := DrainKeepsInv(r2);
    StepsJoin(r, NotifySteps(h, w) + Pushes(pushed), r2, steps, r');
    steps := NotifySteps(h, w) + Pushes(pushed) + steps;
  }

  /** Events are notified in order of time, none of them in the future. */
  ghost predicate LogOk(log: seq<Note>, now: nat) {
    && (forall i, j :: 0 <= i < j < |log| ==> log[i].ts <= log[j].ts)
    && (forall i :: 0 <= i < |log| ==> log[i].ts <= now)
  }

  /** The notes of events in the order of their processing, without those passed over. */
  function Notes(events: seq<Event>, live: seq<bool>): seq<Note>
    requires |events| == |live|
  {
    if events == [] then []
    else
      (if live[0] then [Note(events[0].impl, events[0].key.ts, events[0].key.context)] else [])
      + Notes(events[1..], live[1..])
  }

  /** From `r` to `r'` at most `fuel` events were processed, fewer only if none was left or Stop was called. */
  ghost predicate Processed(r: Run, fuel: nat, r': Run) {
    && r.processed <= r'.processed && r.live <= r'.live && |r.live| == |r.processed| && |r'.live| == |r'.processed|
    && |r'.processed| <= |r.processed| + fuel
    && (|r'.processed| == |r.processed| + fuel || r'.sim.queue == [] || r'.sim.stop)
  }

  /** What other threads push while `n` events are processed, the first of them being the event with that number. */
  function Arrivals(others: Others, first: nat, n: nat): seq<EventWithContext>
    decreases n
  {
    if n == 0 then [] else others(first) + Arrivals(others, first + 1, n - 1)
  }

  /** All of it has arrived, and none of it is still waiting. */
  ghost predicate Arrived(others: Others, r: Run, r': Run) {
    && |r.processed| <= |r'.processed|
    && r'.pushed == r.pushed + Arrivals(others, |r.processed|, |r'.processed| - |r.processed|)
    && r'.sim.shared == [] && r'.sim.handedOver == []
  }

  function NewNotes(r: Run, r': Run): seq<Note>
    requires |r.live| == |r.processed| <= |r'.processed| == |r'.live|
  {
    Notes(r'.processed[|r.processed|..], r'.live[|r.live|..])
  }

  lemma NothingNew(others: Others, r: Run)
    requires Inv(r) && r.sim.handedOver == [] && r.sim.shared == []
    ensures |r.live| == |r.processed| && NewNotes(r, r) == [] && Arrived(others, r, r)
  {
    assert r.pushed + [] == r.pushed;
  }

  lemma ArrivedFirst(others: Others, r: Run, r1: Run, r2: Run)
    requires Inv(r) && OneMore(r, others(r.sim.eventCount), r1) && Arrived(others, r1, r2)
    ensures Arrived(others, r, r2)
  {
    hide EventsOk, DestroyOk, DestroyListOk, LiveOk;
    var n := |r2.processed| - |r1.processed|;
    var later := Arrivals(others, |r1.processed|, n);
    assert Arrivals(others, |r.processed|, n + 1) == others(|r.processed|) + later;
    assert r.pushed + others(|r.processed|) + later == r.pushed + (others(|r.processed|) + later);
  }

  /** One event, and those processed after it. */
  lemma NotesOfFirst(r: Run, r1: Run, r2: Run, fuel: nat)
    requires Inv(r) && r.sim.queue != [] && Processed(r1, fuel, r2)
    requires r1.processed == r.processed + [r.sim.queue[0]]
    requires r1.live == r.live + [r.sim.queue[0].impl !in r.sim.cancelled]
    ensures Processed(r, fuel + 1, r2) && NewNotes(r, r2) == HeadNote(r.sim) + NewNotes(r1, r2)
  {
    hide EventsOk, DestroyOk, DestroyListOk, CountsOk;
    var n := |r.processed|;
    var events, live := r2.processed[n..], r2.live[n..];
    assert r1.processed[n] == r2.processed[n] && r1.live[n] == r2.live[n];
    assert events[0] == r.sim.queue[0] && events[1..] == r2.processed[n + 1..];
    assert live[0] == (r.sim.queue[0].impl !in r.sim.cancelled) && live[1..] == r2.live[n + 1..];
  }

  /**
   * Whatever the handlers do and other threads push, the loop keeps the invariants and notifies in order of time: of
   * the events it processes, in their order, those whose object is not cancelled when they leave the queue. All that
   * other threads push meanwhile is taken over.
   */
  lemma {:induction false} RunLoopKeepsInv(h: Handler, others: Others, w: World, r: Run, fuel: nat)
    returns (r': Run, steps: seq<Step>)
    requires Inv(r) && r.sim == w.sim && w.sim.handedOver == [] && MemOk(w.mem, r.issued)
    requires LogOk(w.log, w.sim.currentTs) && w.sim.shared == []
    ensures var w' := RunLoop(h, others, w, fuel);
            && Inv(r') && r'.sim == w'.sim && r'.sim.handedOver == [] && LogOk(w'.log, w'.sim.currentTs)
            && Processed(r, fuel, r') && w'.log == w.log + NewNotes(r, r')
            && RunsTo(r, steps, r') && Arrived(others, r, r')
    decreases fuel
  {
    hide Inv, ProcessOne, LogOk, NewNotes, HeadNote, RunsTo, EventSteps, Arrived;
    if fuel == 0 || Over(w.sim) {
      r', steps := r, [];
      NoStep(r);
      NothingNew(others, r);
      assert w.log + [] == w.log;
    } else {
      var r1, first := ProcessOneKeepsInv(h, others, w, r);
      ProcessOneKeepsLog(h, others, w, r);
      r', steps := RunLoopKeepsInv(h, others, ProcessOne(h, others, w), r1, fuel - 1);
      StepsJoin(r, first, r1, steps, r');
      steps := first + steps;
      NotesOfFirst(r, r1, r', fuel - 1);
      ArrivedFirst(others, r, r1, r');
      assert w.log + (HeadNote(w.sim) + NewNotes(r1, r')) == w.log + HeadNote(w.sim) + NewNotes(r1, r');
    }
  }

  /** The clock stands at the time of the event just processed, which was not before it. */
  lemma ProcessOneKeepsLog(h: Handler, others: Others, w: World, r: Run)
    requires Inv(r) && r.sim == w.sim && w.sim.queue != [] && LogOk(w.log, w.sim.currentTs)
    ensures LogOk(ProcessOne(h, others, w).log, ProcessOne(h, others, w).sim.currentTs)
  {
    hide Inv, Notified, Drain, PushAll, LogOk;
    HeadIsAhead(r);
    NotifiedClock(h, w);
    var s := Notified(h, w).sim;
    PushAllKeepsClock(s, others(w.sim.eventCount));
    DrainKeepsClock(PushAll(s, others(w.sim.eventCount)));
    LogGrows(w.log, w.sim.currentTs, w.sim.queue[0].key.ts, Notified(h, w).log);
  }

  lemma NotifiedClock(h: Handler, w: World)
    requires w.sim.queue != []
    ensures var next, w' := w.sim.queue[0], Notified(h, w);
            && w'.sim.currentTs == next.key.ts
            && (w'.log == w.log || w'.log == w.log + [Note(next.impl, next.key.ts, next.key.context)])
  {
    hide Exec;
    var s := Pop(w.sim);
    ExecKeepsClock(h(w.sim.queue[0].impl, s.currentTs, s.currentContext, w.mem), s, w.mem);
  }

  lemma LogGrows(log: seq<Note>, now: nat, ts: nat, log': seq<Note>)
    requires LogOk(log, now) && now <= ts
    requires log' == log || (|log'| == |log| + 1 && log'[..|log|] == log && log'[|log|].ts == ts)
    ensures LogOk(log', ts)
  {
    assert forall i :: 0 <= i < |log| && |log'| > |log| ==> log'[i] == log'[..|log|][i];
  }

  lemma {:induction false} ExecKeepsClock(p: Prog, s: Sim, mem: Memory)
    ensures Exec(p, s, mem).0.currentTs == s.currentTs
    decreases p
  {
    hide IsExpired, GetDelayLeft, InsertOrdered, WithoutUid;
    match p {
      case Done =>
      case ScheduleIn(delay, impl, reg, next) =>
        ExecKeepsClock(next, Schedule(s, delay, impl).0, Keep(mem, reg, Schedule(s, delay, impl).1));
      case ScheduleInContext(context, delay, impl, next) =>
        ExecKeepsClock(next, ScheduleWithContext(s, context, delay, impl), mem);
      case ScheduleAtDestroy(impl, reg, next) =>
        ExecKeepsClock(next, ScheduleDestroy(s, impl).0, Keep(mem, reg, ScheduleDestroy(s, impl).1));
      case CancelReg(reg, next) => ExecKeepsClock(next, Cancel(s, IdIn(mem, reg)), mem);
      case RemoveReg(reg, next) => ExecKeepsClock(next, Remove(s, IdIn(mem, reg)), mem);
      case IfExpired(reg, yes, no) =>
        ExecKeepsClock(if IsExpired(s, IdIn(mem, reg)) then yes else no, s, mem);
      case IfDelayBelow(reg, bound, yes, no) =>
        ExecKeepsClock(if GetDelayLeft(s, IdIn(mem, reg)) < bound then yes else no, s, mem);
      case StopRun(next) => ExecKeepsClock(next, Stop(s), mem);
      case Store(data, next) => ExecKeepsClock(next, s, mem.(data := data));
    }
  }

  lemma {:induction false} PushAllKeepsClock(s: Sim, evs: seq<EventWithContext>)
    ensures PushAll(s, evs).currentTs == s.currentTs
    decreases |evs|
  {
    if evs != [] { PushAllKeepsClock(Push(s, evs[0]), evs[1..]); }
  }

  lemma {:induction false} InsertAllKeepsClock(s: Sim)
    ensures InsertAll(s).currentTs == s.currentTs
    decreases |s.handedOver|
  {
    hide InsertOrdered;
    if s.handedOver != [] { InsertAllKeepsClock(InsertHandedOver(s)); }
  }

  lemma DrainKeepsClock(s: Sim)
    ensures Drain(s).currentTs == s.currentTs
  {
    hide InsertAll;
    if !s.sharedEmpty { InsertAllKeepsClock(TakeShared(s)); }
  }

  /** Run, for at most `fuel` events. */
  function RunFrom(h: Handler, others: Others, s: Sim, mem: Memory, fuel: nat): World {
    RunLoop(h, others, World(ClearStop(Drain(s)), mem, []), fuel)
  }

  /**
   * Run from any state with a history: it takes only steps of the model, and its log tells, in order of time, which
   * events those steps processed, all but those whose object was cancelled by then. What other threads push while
   * these events are processed has been taken over when the run ends.
   */
  lemma RunKeepsHistory(h: Handler, others: Others, r: Run, mem: Memory, fuel: nat) returns (r': Run, steps: seq<Step>)
    requires Inv(r) && r.sim.handedOver == [] && MemOk(mem, r.issued)
    ensures var w := RunFrom(h, others, r.sim, mem, fuel);
            && RunsTo(r, steps, r') && Inv(r') && r'.sim == w.sim && r'.sim.handedOver == []
            && Processed(r, fuel, r') && w.log == NewNotes(r, r') && LogOk(w.log, w.sim.currentTs)
            && Arrived(others, r, r')
  {
    hide Inv, Drain, RunLoop, RunsTo, Took, NewNotes, Arrivals;
    var r1, drain := DrainKeepsInv(r);
    var r2 := TakeStep(r1, DoClearStop);
    NoStep(r2);
    FirstStep(r1, DoClearStop, r2, [], r2);
    StepsJoin(r, drain, r1, [DoClearStop] + [], r2);
    r', steps := RunLoopKeepsInv(h, others, World(ClearStop(Drain(r.sim)), mem, []), r2, fuel);
    StepsJoin(r, drain + ([DoClearStop] + []), r2, steps, r');
    steps := drain + ([DoClearStop] + []) + steps;
    SameNotes(r, r2, r');
    assert [] + NewNotes(r2, r') == NewNotes(r, r');
  }

  lemma SameNotes(r: Run, r1: Run, r': Run)
    requires r1.processed == r.processed && r1.live == r.live
    requires |r.live| == |r.processed| <= |r'.processed| == |r'.live|
    ensures NewNotes(r1, r') == NewNotes(r, r')
  {
  }

  /** Run's closing assertion holds however the loop ends, from any state with a history, and time never goes back. */
  lemma ClosingAssertion(h: Handler, others: Others, r: Run, mem: Memory, fuel: nat)
    requires Inv(r) && r.sim.handedOver == [] && MemOk(mem, r.issued)
    ensures var w := RunFrom(h, others, r.sim, mem, fuel);
            && (w.sim.queue == [] ==> w.sim.unscheduled == 0)
            && (forall i, j :: 0 <= i < j < |w.log| ==> w.log[i].ts <= w.log[j].ts)
  {
    hide RunFrom, NewNotes, RunsTo, IdsOk, OrderOk, Conserved, HandOffOk, HistoryOk, DestroyOk;
    var r', steps := RunKeepsHistory(h, others, r, mem, fuel);
  }
}
