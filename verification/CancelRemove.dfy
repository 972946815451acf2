/** Cancelling events and removing them lead to the same notifications. */
module CancelRemove {
  import opened Wrappers
  import opened Scheduler
  import opened Simulator
  import opened SimulatorInvariants
  import opened Handlers

  // ---------------------------------------------------------------- a state that lacks cancelled events

  /** The states agree except for the clock, and except that `b` lacks the events `gone`, all of them cancelled. */
  ghost predicate Lacks(a: Sim, b: Sim, gone: multiset<Event>) {
    && QueueOk(a) && QueueOk(b) && SingleThread(a) && SingleThread(b)
    && a.uid == b.uid && a.stop == b.stop && a.cancelled == b.cancelled && a.destroyEvents == b.destroyEvents
    && multiset(a.queue) == multiset(b.queue) + gone
    && forall e :: e in gone ==> e.impl in a.cancelled
  }

  /** They agree on the clock as well, as they do whenever a handler runs. */
  ghost predicate Alike(a: Sim, b: Sim, gone: multiset<Event>) {
    Lacks(a, b, gone) && CurrentKey(a) == CurrentKey(b)
  }

  lemma AlikeParts(a: Sim, b: Sim, gone: multiset<Event>)
    requires Alike(a, b, gone)
    ensures QueueOk(a) && a.currentTs == b.currentTs && a.currentContext == b.currentContext && a.uid == b.uid
  {
  }

  lemma QueuedInBoth(a: Sim, b: Sim, gone: multiset<Event>, f: Event)
    requires Lacks(a, b, gone) && f in a.queue && f !in gone
    ensures f in b.queue && f in multiset(a.queue) && f in multiset(b.queue)
  {
    assert f in multiset(a.queue);
  }

  lemma EnqueueBoth(a: Sim, b: Sim, gone: multiset<Event>, ts: nat, context: nat, impl: nat)
    requires Alike(a, b, gone) && ts >= a.currentTs
    ensures Alike(Enqueue(a, ts, context, impl), Enqueue(b, ts, context, impl), gone)
  {
    hide QueueOk, InsertOrdered;
    EnqueueKeepsQueue(a, ts, context, impl);
    EnqueueKeepsQueue(b, ts, context, impl);
  }

  lemma SameExpiry(a: Sim, b: Sim, gone: multiset<Event>, id: EventId)
    requires Alike(a, b, gone)
    ensures IsExpired(a, id) <==> IsExpired(b, id)
    ensures GetDelayLeft(a, id) == GetDelayLeft(b, id)
  {
  }

  lemma CancelBoth(a: Sim, b: Sim, gone: multiset<Event>, id: EventId)
    requires Alike(a, b, gone)
    ensures Alike(Cancel(a, id), Cancel(b, id), gone)
  {
    hide QueueOk, IsExpired;
    SameExpiry(a, b, gone, id);
    QueueOkCancelled(a, Cancel(a, id));
    QueueOkCancelled(b, Cancel(b, id));
  }

  /** An unexpired identifier's event is still in both queues, since it is not cancelled. */
  lemma UnexpiredInBoth(a: Sim, b: Sim, gone: multiset<Event>, id: EventId, issued: set<EventId>)
    requires Alike(a, b, gone) && IdsOk(a, issued) && !IsExpired(a, id) && id.key.uid != UID_DESTROY
    requires id in issued || id.impl.None? || id.key.uid == UID_DESTROY
    ensures id.impl.Some? && EventOf(id) in a.queue && EventOf(id) in b.queue && id.impl.value !in a.cancelled
    ensures EventOf(id) in multiset(a.queue) && EventOf(id) in multiset(b.queue)
  {
    hide IdsOk, QueueOk;
    NotExpiredHasObject(a, id);
    ExpiredExactly(a, issued, id);
    QueuedInBoth(a, b, gone, EventOf(id));
  }

  /** The queue without the event, and its object cancelled. */
  lemma RemovedQueueOk(s: Sim, id: EventId)
    requires QueueOk(s) && !IsExpired(s, id) && id.key.uid != UID_DESTROY && id.impl.Some? && EventOf(id) in s.queue
    ensures QueueOk(Remove(s, id)) && multiset(Remove(s, id).queue) == multiset(s.queue) - multiset{EventOf(id)}
  {
    hide QueueOk, IsExpired, WithoutUid;
    EraseKeepsQueue(s, EventOf(id));
    QueueOkCancelled(s.(queue := Remove(s, id).queue, unscheduled := s.unscheduled - 1), Remove(s, id));
  }

  /** Any other event is removed from both; those that `b` lacks are expired and removed from neither. */
  lemma RemoveBoth(a: Sim, b: Sim, gone: multiset<Event>, id: EventId, issued: set<EventId>)
    requires Alike(a, b, gone) && IdsOk(a, issued)
    requires id in issued || id.impl.None? || id.key.uid == UID_DESTROY
    ensures Alike(Remove(a, id), Remove(b, id), gone)
  {
    hide QueueOk, IdsOk, IsExpired, WithoutUid, WithoutId;
    SameExpiry(a, b, gone, id);
    var a', b' := Remove(a, id), Remove(b, id);
    if id.key.uid == UID_DESTROY || IsExpired(a, id) {
      QueueOkCancelled(a, a');
      QueueOkCancelled(b, b');
    } else {
      UnexpiredInBoth(a, b, gone, id, issued);
      RemovedQueueOk(a, id);
      RemovedQueueOk(b, id);
    }
  }

  /** Cancelling in the one and removing in the other makes one more event the other lacks. */
  lemma CancelOneRemoveOther(a: Sim, b: Sim, gone: multiset<Event>, id: EventId, issued: set<EventId>)
    returns (gone': multiset<Event>)
    requires Alike(a, b, gone) && IdsOk(a, issued) && id.key.uid != UID_DESTROY && (id in issued || id.impl.None?)
    ensures Alike(Cancel(a, id), Remove(b, id), gone') && |gone'| <= |gone| + 1
  {
    hide QueueOk, IdsOk, IsExpired, WithoutUid;
    SameExpiry(a, b, gone, id);
    gone' := gone;
    if !IsExpired(a, id) {
      UnexpiredInBoth(a, b, gone, id, issued);
      gone' := gone + multiset{EventOf(id)};
      QueueOkCancelled(a, Cancel(a, id));
      RemovedQueueOk(b, id);
    }
  }

  lemma DestroyBoth(a: Sim, b: Sim, gone: multiset<Event>, impl: nat)
    requires Alike(a, b, gone)
    ensures Alike(ScheduleDestroy(a, impl).0, ScheduleDestroy(b, impl).0, gone)
  {
    hide QueueOk;
    QueueOkCancelled(a, ScheduleDestroy(a, impl).0);
    QueueOkCancelled(b, ScheduleDestroy(b, impl).0);
  }

  lemma StopBoth(a: Sim, b: Sim, gone: multiset<Event>)
    requires Alike(a, b, gone)
    ensures Alike(Stop(a), Stop(b), gone)
  {
    hide QueueOk;
    QueueOkCancelled(a, Stop(a));
    QueueOkCancelled(b, Stop(b));
  }

  // ---------------------------------------------------------------- the identifiers a handler can name

  ghost predicate Named(a: Sim, mem: Memory, issued: set<EventId>) {
    IdsOk(a, issued) && MemOk(mem, issued)
  }

  lemma ScheduleNames(a: Sim, mem: Memory, issued: set<EventId>, delay: nat, impl: nat, reg: nat)
    requires QueueOk(a) && Named(a, mem, issued)
    ensures var (a', id) := Schedule(a, delay, impl);
            Named(a', Keep(mem, reg, id), issued + {id})
  {
    hide QueueOk, IdsOk, InsertOrdered;
    EnqueueKeepsIds(a, a.currentTs + delay, a.currentContext, impl, issued, Schedule(a, delay, impl).1);
  }

  lemma EnqueueNames(a: Sim, mem: Memory, issued: set<EventId>, ts: nat, context: nat, impl: nat)
    requires QueueOk(a) && Named(a, mem, issued) && ts >= a.currentTs
    ensures Named(Enqueue(a, ts, context, impl), mem, issued)
  {
    hide QueueOk, IdsOk, InsertOrdered;
    EnqueueKeepsIds(a, ts, context, impl, issued, EventId(Some(impl), EventKey(ts, a.uid, context)));
  }

  lemma RemoveNames(a: Sim, mem: Memory, issued: set<EventId>, reg: nat)
    requires QueueOk(a) && Named(a, mem, issued)
    ensures Named(Remove(a, IdIn(mem, reg)), mem, issued)
  {
    hide QueueOk, IdsOk, IsExpired, WithoutUid;
    var id := IdIn(mem, reg);
    if id.key.uid == UID_DESTROY || IsExpired(a, id) {
      IdsOkCong(a, Remove(a, id), issued);
    } else {
      NotExpiredHasObject(a, id);
      RemoveKeepsIds(a, issued, id);
    }
  }

  lemma CancelNames(a: Sim, mem: Memory, issued: set<EventId>, reg: nat)
    requires Named(a, mem, issued)
    ensures Named(Cancel(a, IdIn(mem, reg)), mem, issued)
  {
    CancelKeepsIds(a, issued, IdIn(mem, reg));
  }

  lemma DestroyNames(a: Sim, mem: Memory, issued: set<EventId>, impl: nat, reg: nat)
    requires Named(a, mem, issued)
    ensures var (a', id) := ScheduleDestroy(a, impl);
            Named(a', Keep(mem, reg, id), issued)
  {
    hide IdsOk;
    IdsOkCong(a, ScheduleDestroy(a, impl).0, issued);
  }

  lemma StopNames(a: Sim, mem: Memory, issued: set<EventId>)
    requires Named(a, mem, issued)
    ensures Named(Stop(a), mem, issued)
  {
    hide IdsOk;
    IdsOkCong(a, Stop(a), issued);
  }

  lemma KnownName(a: Sim, mem: Memory, issued: set<EventId>, reg: nat)
    requires Named(a, mem, issued)
    ensures IdsOk(a, issued)
    ensures var id := IdIn(mem, reg);
            id in issued || id.impl.None? || id.key.uid == UID_DESTROY
  {
  }

  lemma StoreNames(a: Sim, mem: Memory, issued: set<EventId>, data: int)
    requires Named(a, mem, issued)
    ensures Named(a, mem.(data := data), issued)
  {
  }

  // ---------------------------------------------------------------- handlers that remove where others cancel

  /**
   * `q` is `p` with any number of its Cancel calls turned into Remove calls, as far as `p` gets from this state: an
   * identifier so removed is not a destroy event's.
   */
  ghost predicate Turned(p: Prog, q: Prog, s: Sim, mem: Memory)
    decreases p
  {
    match p
    case Done => q.Done?
    case ScheduleIn(delay, impl, reg, next) =>
      && q.ScheduleIn? && q.delay == delay && q.impl == impl && q.reg == reg
      && Turned(next, q.next, Schedule(s, delay, impl).0, Keep(mem, reg, Schedule(s, delay, impl).1))
    case ScheduleInContext(context, delay, impl, next) =>
      && q.ScheduleInContext? && q.context == context && q.delay == delay && q.impl == impl
      && Turned(next, q.next, ScheduleWithContext(s, context, delay, impl), mem)
    case ScheduleAtDestroy(impl, reg, next) =>
      && q.ScheduleAtDestroy? && q.impl == impl && q.reg == reg
      && Turned(next, q.next, ScheduleDestroy(s, impl).0, Keep(mem, reg, ScheduleDestroy(s, impl).1))
    case CancelReg(reg, next) =>
      && (q.CancelReg? || (q.RemoveReg? && IdIn(mem, reg).key.uid != UID_DESTROY)) && q.reg == reg
      && Turned(next, q.next, Cancel(s, IdIn(mem, reg)), mem)
    case RemoveReg(reg, next) =>
      q.RemoveReg? && q.reg == reg && Turned(next, q.next, Remove(s, IdIn(mem, reg)), mem)
    case IfExpired(reg, yes, no) =>
      && q.IfExpired? && q.reg == reg
      && if IsExpired(s, IdIn(mem, reg)) then Turned(yes, q.yes, s, mem) else Turned(no, q.no, s, mem)
    case IfDelayBelow(reg, bound, yes, no) =>
      && q.IfDelayBelow? && q.reg == reg && q.bound == bound
      && if GetDelayLeft(s, IdIn(mem, reg)) < bound then Turned(yes, q.yes, s, mem) else Turned(no, q.no, s, mem)
    case StopRun(next) => q.StopRun? && Turned(next, q.next, Stop(s), mem)
    case Store(data, next) => q.Store? && q.data == data && Turned(next, q.next, s, mem.(data := data))
  }

  lemma {:induction false} SameIsTurned(p: Prog, s: Sim, mem: Memory)
    ensures Turned(p, p, s, mem)
    decreases p
  {
    hide IsExpired, GetDelayLeft, Schedule, ScheduleWithContext, ScheduleDestroy, Cancel, Remove;
    match p {
      case Done =>
      case ScheduleIn(delay, impl, reg, next) =>
        SameIsTurned(next, Schedule(s, delay, impl).0, Keep(mem, reg, Schedule(s, delay, impl).1));
      case ScheduleInContext(context, delay, impl, next) =>
        SameIsTurned(next, ScheduleWithContext(s, context, delay, impl), mem);
      case ScheduleAtDestroy(impl, reg, next) =>
        SameIsTurned(next, ScheduleDestroy(s, impl).0, Keep(mem, reg, ScheduleDestroy(s, impl).1));
      case CancelReg(reg, next) => SameIsTurned(next, Cancel(s, IdIn(mem, reg)), mem);
      case RemoveReg(reg, next) => SameIsTurned(next, Remove(s, IdIn(mem, reg)), mem);
      case IfExpired(reg, yes, no) => SameIsTurned(yes, s, mem); SameIsTurned(no, s, mem);
      case IfDelayBelow(reg, bound, yes, no) => SameIsTurned(yes, s, mem); SameIsTurned(no, s, mem);
      case StopRun(next) => SameIsTurned(next, Stop(s), mem);
      case Store(data, next) => SameIsTurned(next, s, mem.(data := data));
    }
  }

  /** Neither handler can tell its state from the other's: both end with the same memory, in states still alike. */
  lemma {:induction false} ExecBoth(p: Prog, q: Prog, a: Sim, b: Sim, gone: multiset<Event>, mem: Memory,
                                    issued: set<EventId>)
    returns (gone': multiset<Event>, issued': set<EventId>)
    requires Alike(a, b, gone) && Named(a, mem, issued) && Turned(p, q, a, mem)
    ensures Alike(Exec(p, a, mem).0, Exec(q, b, mem).0, gone') && Exec(p, a, mem).1 == Exec(q, b, mem).1
    ensures Named(Exec(p, a, mem).0, Exec(p, a, mem).1, issued')
    ensures p == q ==> gone' == gone
    decreases p
  {
    hide Alike, Named, Enqueue, Cancel, Remove, IsExpired, GetDelayLeft, Stop;
    AlikeParts(a, b, gone);
    match p {
      case Done => gone', issued' := gone, issued;
      case ScheduleIn(delay, impl, reg, next) =>
        EnqueueBoth(a, b, gone, a.currentTs + delay, a.currentContext, impl);
        ScheduleNames(a, mem, issued, delay, impl, reg);
        var (a', id) := Schedule(a, delay, impl);
        gone', issued' := ExecBoth(next, q.next, a', Schedule(b, delay, impl).0, gone, Keep(mem, reg, id),
                                   issued + {id});
      case ScheduleInContext(context, delay, impl, next) =>
        EnqueueBoth(a, b, gone, a.currentTs + delay, context, impl);
        EnqueueNames(a, mem, issued, a.currentTs + delay, context, impl);
        gone', issued' := ExecBoth(next, q.next, ScheduleWithContext(a, context, delay, impl),
                                   ScheduleWithContext(b, context, delay, impl), gone, mem, issued);
      case ScheduleAtDestroy(impl, reg, next) =>
        DestroyBoth(a, b, gone, impl);
        DestroyNames(a, mem, issued, impl, reg);
        var (a', id) := ScheduleDestroy(a, impl);
        gone', issued' := ExecBoth(next, q.next, a', ScheduleDestroy(b, impl).0, gone, Keep(mem, reg, id), issued);
      case CancelReg(reg, next) =>
        var id := IdIn(mem, reg);
        gone' := gone;
        KnownName(a, mem, issued, reg);
        if q.CancelReg? {
          CancelBoth(a, b, gone, id);
        } else {
          gone' := CancelOneRemoveOther(a, b, gone, id, issued);
        }
        CancelNames(a, mem, issued, reg);
        gone', issued' := ExecBoth(next, q.next, Cancel(a, id), if q.CancelReg? then Cancel(b, id) else Remove(b, id),
                                   gone', mem, issued);
      case RemoveReg(reg, next) =>
        KnownName(a, mem, issued, reg);
        RemoveBoth(a, b, gone, IdIn(mem, reg), issued);
        RemoveNames(a, mem, issued, reg);
        gone', issued' := ExecBoth(next, q.next, Remove(a, IdIn(mem, reg)), Remove(b, IdIn(mem, reg)), gone, mem,
                                   issued);
      case IfExpired(reg, yes, no) =>
        SameExpiry(a, b, gone, IdIn(mem, reg));
        var expired := IsExpired(a, IdIn(mem, reg));
        gone', issued' := ExecBoth(if expired then yes else no, if expired then q.yes else q.no, a, b, gone, mem,
                                   issued);
      case IfDelayBelow(reg, bound, yes, no) =>
        SameExpiry(a, b, gone, IdIn(mem, reg));
        var below := GetDelayLeft(a, IdIn(mem, reg)) < bound;
        gone', issued' := ExecBoth(if below then yes else no, if below then q.yes else q.no, a, b, gone, mem, issued);
      case StopRun(next) =>
        StopBoth(a, b, gone);
        StopNames(a, mem, issued);
        gone', issued' := ExecBoth(next, q.next, Stop(a), Stop(b), gone, mem, issued);
      case Store(data, next) =>
        StoreNames(a, mem, issued, data);
        gone', issued' := ExecBoth(next, q.next, a, b, gone, mem.(data := data), issued);
    }
  }

  // ---------------------------------------------------------------- taking events out of both queues

  lemma {:induction false} SortedUnique(s: seq<Event>, t: seq<Event>)
    requires Sorted(s) && Sorted(t) && multiset(s) == multiset(t) && DistinctUids(multiset(s))
    ensures s == t
    decreases |s|
  {
    hide SortedBy, DistinctUids, Least;
    assert |s| == |multiset(s)| == |multiset(t)| == |t|;
    if s != [] {
      SortedHeadIsLeast(s);
      SortedHeadIsLeast(t);
      LeastIsUnique(s[0], t[0], multiset(s));
      DistinctAfterRemove(multiset(s), s[0]);
      SortedUnique(s[1..], t[1..]);
      assert s == [s[0]] + s[1..] && t == [t[0]] + t[1..];
    }
  }

  lemma EmptyTogether(a: Sim, b: Sim, gone: multiset<Event>)
    requires Lacks(a, b, gone)
    ensures a.stop == b.stop && (a.queue == [] ==> b.queue == [] && gone == multiset{})
    ensures b.queue == [] && gone == multiset{} ==> a.queue == []
  {
    assert |a.queue| == |multiset(a.queue)| == |b.queue| + |gone|;
  }

  /** The first event of the longer queue is one the other lacks, or the first of both. */
  lemma SameHead(a: Sim, b: Sim, gone: multiset<Event>)
    requires Lacks(a, b, gone) && a.queue != [] && a.queue[0] !in gone
    ensures b.queue != [] && b.queue[0] == a.queue[0]
  {
    hide SortedBy, DistinctUids, AfterCurrent;
    var f := a.queue[0];
    QueuedInBoth(a, b, gone, f);
    SortedHeadIsLeast(a.queue);
    SortedHeadIsLeast(b.queue);
    LeastOfPart(f, multiset(a.queue), multiset(b.queue));
    LeastIsUnique(f, b.queue[0], multiset(b.queue));
  }

  lemma LeastOfPart(f: Event, whole: multiset<Event>, part: multiset<Event>)
    requires Least(f, whole) && f in part && part <= whole
    ensures Least(f, part)
  {
  }

  lemma PopBoth(a: Sim, b: Sim, gone: multiset<Event>, mem: Memory, issued: set<EventId>)
    requires Lacks(a, b, gone) && Named(a, mem, issued) && a.queue != [] && a.queue[0] !in gone
    ensures b.queue != [] && b.queue[0] == a.queue[0]
    ensures Alike(Pop(a), Pop(b), gone) && Named(Pop(a), mem, issued)
  {
    hide QueueOk, IdsOk;
    SameHead(a, b, gone);
    PopKeepsQueue(a);
    PopKeepsQueue(b);
    PopKeepsIds(a, issued);
  }

  /** Popping a cancelled event notifies nothing and leaves the other state lacking one event less. */
  lemma PopCancelled(h: Handler, v: World, b: Sim, gone: multiset<Event>, issued: set<EventId>)
    requires Lacks(v.sim, b, gone) && Named(v.sim, v.mem, issued) && v.sim.queue != [] && v.sim.queue[0] in gone
    ensures var v' := ProcessOne(h, QUIET, v);
            && Lacks(v'.sim, b, gone - multiset{v.sim.queue[0]}) && Named(v'.sim, v'.mem, issued)
            && v'.mem == v.mem && v'.log == v.log && |v'.sim.queue| == |v.sim.queue| - 1
  {
    hide QueueOk, IdsOk, Exec, Drain, PushAll;
    PopKeepsQueue(v.sim);
    PopKeepsIds(v.sim, issued);
    NothingToDrain(Pop(v.sim));
  }

  /** What turning Cancel into Remove asks of the handler about to run. */
  ghost predicate HeadTurned(h: Handler, g: Handler, w: World)
    requires w.sim.queue != []
  {
    var next, s := w.sim.queue[0], Pop(w.sim);
    next.impl in s.cancelled || Turned(h(next.impl, s.currentTs, s.currentContext, w.mem),
                                       g(next.impl, s.currentTs, s.currentContext, w.mem), s, w.mem)
  }

  /** One event that both queues hold, processed from both states. */
  lemma ProcessBoth(h: Handler, g: Handler, v: World, w: World, gone: multiset<Event>, issued: set<EventId>)
    returns (gone': multiset<Event>, issued': set<EventId>)
    requires Lacks(v.sim, w.sim, gone) && Named(v.sim, v.mem, issued) && v.mem == w.mem && v.log == w.log
    requires v.sim.queue != [] && v.sim.queue[0] !in gone && HeadTurned(h, g, v)
    ensures w.sim.queue != []
    ensures var v', w' := ProcessOne(h, QUIET, v), ProcessOne(g, QUIET, w);
            && Lacks(v'.sim, w'.sim, gone') && Named(v'.sim, v'.mem, issued') && v'.mem == w'.mem && v'.log == w'.log
    ensures h == g ==> gone' == gone
  {
    hide Exec, Drain, PushAll, Named, QueueOk, Turned;
    PopBoth(v.sim, w.sim, gone, v.mem, issued);
    var s, t := Pop(v.sim), Pop(w.sim);
    var f := v.sim.queue[0];
    gone', issued' := gone, issued;
    if f.impl !in s.cancelled {
      var p, q := h(f.impl, s.currentTs, s.currentContext, v.mem), g(f.impl, s.currentTs, s.currentContext, v.mem);
      gone', issued' := ExecBoth(p, q, s, t, gone, v.mem, issued);
      s, t := Exec(p, s, v.mem).0, Exec(q, t, v.mem).0;
    }
    NothingToDrain(s);
    NothingToDrain(t);
  }

  // ---------------------------------------------------------------- whole runs

  /** Along a run of `h`, every handler started is turned into what `g` does in its place. */
  ghost predicate TurnedRun(h: Handler, g: Handler, w: World, fuel: nat)
    decreases fuel
  {
    fuel == 0 || Over(w.sim) || (HeadTurned(h, g, w) && TurnedRun(h, g, ProcessOne(h, QUIET, w), fuel - 1))
  }

  ghost predicate AlwaysTurned(h: Handler, g: Handler, w: World) {
    forall fuel: nat :: TurnedRun(h, g, w, fuel)
  }

  lemma TurnedStep(h: Handler, g: Handler, w: World)
    requires AlwaysTurned(h, g, w) && !Over(w.sim)
    ensures HeadTurned(h, g, w) && AlwaysTurned(h, g, ProcessOne(h, QUIET, w))
  {
    hide ProcessOne, HeadTurned;
    assert TurnedRun(h, g, w, 1);
    forall fuel: nat
      ensures TurnedRun(h, g, ProcessOne(h, QUIET, w), fuel)
    {
      assert TurnedRun(h, g, w, fuel + 1);
    }
  }

  lemma {:induction false} SameRunTurned(h: Handler, w: World, fuel: nat)
    ensures TurnedRun(h, h, w, fuel)
    decreases fuel
  {
    hide ProcessOne, Turned;
    if fuel > 0 && !Over(w.sim) {
      var next, s := w.sim.queue[0], Pop(w.sim);
      SameIsTurned(h(next.impl, s.currentTs, s.currentContext, w.mem), s, w.mem);
      SameRunTurned(h, ProcessOne(h, QUIET, w), fuel - 1);
    }
  }

  function After(h: Handler, w: World, n: nat): World {
    RunLoop(h, QUIET, w, n)
  }

  ghost predicate Related(h: Handler, g: Handler, v: World, w: World, gone: multiset<Event>, issued: set<EventId>) {
    && Lacks(v.sim, w.sim, gone) && Named(v.sim, v.mem, issued) && v.mem == w.mem && v.log == w.log
    && AlwaysTurned(h, g, v)
  }

  /** One event of `v`'s run: either only `v` pops it, or both do. */
  lemma Advance(h: Handler, g: Handler, v: World, w: World, gone: multiset<Event>, issued: set<EventId>)
    returns (both: bool, w': World, gone': multiset<Event>, issued': set<EventId>)
    requires Related(h, g, v, w, gone, issued) && !Over(v.sim)
    ensures Related(h, g, ProcessOne(h, QUIET, v), w', gone', issued')
    ensures both ==> !Over(w.sim) && w' == ProcessOne(g, QUIET, w) && (h == g ==> gone' == gone)
    ensures !both ==> w' == w && |gone'| == |gone| - 1
    ensures !both ==> |ProcessOne(h, QUIET, v).sim.queue| < |v.sim.queue|
  {
    hide ProcessOne, Lacks, Named, AlwaysTurned, HeadTurned;
    TurnedStep(h, g, v);
    EmptyTogether(v.sim, w.sim, gone);
    var f := v.sim.queue[0];
    both, w', gone', issued' := f !in gone, w, gone, issued;
    if both {
      gone', issued' := ProcessBoth(h, g, v, w, gone, issued);
      w' := ProcessOne(g, QUIET, w);
    } else {
      PopCancelled(h, v, w.sim, gone, issued);
      gone' := gone - multiset{f};
    }
  }

  lemma BothOver(h: Handler, g: Handler, v: World, w: World, gone: multiset<Event>, issued: set<EventId>)
    requires Related(h, g, v, w, gone, issued)
    ensures v.log == w.log && (Over(v.sim) ==> Over(w.sim)) && (w.sim.stop ==> Over(v.sim))
    ensures Over(w.sim) && |v.sim.queue| == 0 ==> Over(v.sim)
  {
    hide Lacks, Named, AlwaysTurned;
    EmptyTogether(v.sim, w.sim, gone);
  }

  /** What the shorter run has notified after `n` events, the longer has after some `m`; it has ended if that has. */
  lemma {:induction false} Catches(h: Handler, g: Handler, v: World, w: World, gone: multiset<Event>,
                                   issued: set<EventId>, n: nat)
    returns (m: nat)
    requires Related(h, g, v, w, gone, issued)
    ensures n <= m && After(h, v, m).log == After(g, w, n).log
    ensures Over(After(g, w, n).sim) ==> Over(After(h, v, m).sim)
    ensures h == g ==> m <= n + |gone|
    decreases n, |v.sim.queue|
  {
    hide ProcessOne, Related;
    BothOver(h, g, v, w, gone, issued);
    m := n;
    if !Over(v.sim) && !(n == 0 && !Over(w.sim)) {
      var both, w', gone', issued' := Advance(h, g, v, w, gone, issued);
      var k := Catches(h, g, ProcessOne(h, QUIET, v), w', gone', issued', if both then n - 1 else n);
      m := k + 1;
    }
  }

  /** And the other way round. */
  lemma {:induction false} IsCaught(h: Handler, g: Handler, v: World, w: World, gone: multiset<Event>,
                                    issued: set<EventId>, m: nat)
    returns (n: nat)
    requires Related(h, g, v, w, gone, issued)
    ensures n <= m && After(h, v, m).log == After(g, w, n).log
    ensures Over(After(h, v, m).sim) ==> Over(After(g, w, n).sim)
    ensures h == g ==> m <= n + |gone|
    decreases m
  {
    hide ProcessOne, Related;
    BothOver(h, g, v, w, gone, issued);
    n := m;
    if m > 0 && !Over(v.sim) {
      var both, w', gone', issued' := Advance(h, g, v, w, gone, issued);
      var k := IsCaught(h, g, ProcessOne(h, QUIET, v), w', gone', issued', m - 1);
      n := if both then k + 1 else k;
    }
  }

  // ---------------------------------------------------------------- the theorems

  /** What `w` has notified after `n` events, `v` has after some number of its own, and it has ended if `w` has. */
  ghost predicate Matched(h: Handler, v: World, g: Handler, w: World, n: nat) {
    exists m: nat :: n <= m && After(h, v, m).log == After(g, w, n).log
                     && (Over(After(g, w, n).sim) ==> Over(After(h, v, m).sim))
  }

  /** And what `v` has notified after `m` events, `w` has after some number of its own. */
  ghost predicate MatchedBack(h: Handler, v: World, g: Handler, w: World, m: nat) {
    exists n: nat :: n <= m && After(h, v, m).log == After(g, w, n).log
                     && (Over(After(h, v, m).sim) ==> Over(After(g, w, n).sim))
  }

  /**
   * The two runs notify the same events at the same times: whatever one has notified after some number of events the
   * other notifies too, after as many or more (or fewer), and when one has ended so does the other.
   */
  ghost predicate SameNotifications(h: Handler, v: World, g: Handler, w: World) {
    && (forall n: nat :: Matched(h, v, g, w, n))
    && (forall m: nat :: MatchedBack(h, v, g, w, m))
  }

  lemma RelatedNotifyTheSame(h: Handler, g: Handler, v: World, w: World, gone: multiset<Event>, issued: set<EventId>)
    requires Related(h, g, v, w, gone, issued)
    ensures SameNotifications(h, v, g, w)
  {
    hide Related, RunLoop;
    forall n: nat
      ensures Matched(h, v, g, w, n)
    {
      var m := Catches(h, g, v, w, gone, issued, n);
    }
    forall m: nat
      ensures MatchedBack(h, v, g, w, m)
    {
      var n := IsCaught(h, g, v, w, gone, issued, m);
    }
  }

  /**
   * Model code in which any Cancel calls are turned into Remove calls, in any handlers, notifies the same events at
   * the same times, from any state the simulator can be in while no other thread is pushing.
   */
  lemma CancelsBecomeRemoves(h: Handler, g: Handler, r: Run, mem: Memory, log: seq<Note>)
    requires Inv(r) && SingleThread(r.sim) && MemOk(mem, r.issued) && AlwaysTurned(h, g, World(r.sim, mem, log))
    ensures SameNotifications(h, World(r.sim, mem, log), g, World(r.sim, mem, log))
  {
    hide QueueOk, IdsOk, OrderOk, Conserved, HandOffOk, SameNotifications, AlwaysTurned;
    assert multiset(r.sim.queue) == multiset(r.sim.queue) + multiset{};
    RelatedNotifyTheSame(h, g, World(r.sim, mem, log), World(r.sim, mem, log), multiset{}, r.issued);
  }

  // ---------------------------------------------------------------- the transformation itself

  /** Remove in the place of every Cancel. */
  function Removing(p: Prog): Prog {
    match p
    case Done => Done
    case ScheduleIn(delay, impl, reg, next) => ScheduleIn(delay, impl, reg, Removing(next))
    case ScheduleInContext(context, delay, impl, next) => ScheduleInContext(context, delay, impl, Removing(next))
    case ScheduleAtDestroy(impl, reg, next) => ScheduleAtDestroy(impl, reg, Removing(next))
    case CancelReg(reg, next) => RemoveReg(reg, Removing(next))
    case RemoveReg(reg, next) => RemoveReg(reg, Removing(next))
    case IfExpired(reg, yes, no) => IfExpired(reg, Removing(yes), Removing(no))
    case IfDelayBelow(reg, bound, yes, no) => IfDelayBelow(reg, bound, Removing(yes), Removing(no))
    case StopRun(next) => StopRun(Removing(next))
    case Store(data, next) => Store(data, Removing(next))
  }

  function RemovingHandler(h: Handler): Handler {
    (impl: nat, ts: nat, context: nat, mem: Memory) => Removing(h(impl, ts, context, mem))
  }

  /** The program schedules no destroy events, so all the identifiers it can cancel are those of queued events. */
  predicate NoDestroy(p: Prog) {
    match p
    case Done => true
    case ScheduleIn(_, _, _, next) => NoDestroy(next)
    case ScheduleInContext(_, _, _, next) => NoDestroy(next)
    case ScheduleAtDestroy(_, _, _) => false
    case CancelReg(_, next) => NoDestroy(next)
    case RemoveReg(_, next) => NoDestroy(next)
    case IfExpired(_, yes, no) => NoDestroy(yes) && NoDestroy(no)
    case IfDelayBelow(_, _, yes, no) => NoDestroy(yes) && NoDestroy(no)
    case StopRun(next) => NoDestroy(next)
    case Store(_, next) => NoDestroy(next)
  }

  ghost predicate EventsOnly(s: Sim, mem: Memory) {
    SingleThread(s) && s.uid >= UID_VALID && forall reg :: reg in mem.ids ==> mem.ids[reg].key.uid != UID_DESTROY
  }

  lemma {:induction false} RemovingIsTurned(p: Prog, s: Sim, mem: Memory)
    requires NoDestroy(p) && EventsOnly(s, mem)
    ensures Turned(p, Removing(p), s, mem) && EventsOnly(Exec(p, s, mem).0, Exec(p, s, mem).1)
    decreases p
  {
    hide IsExpired, GetDelayLeft, InsertOrdered, WithoutUid, WithoutId;
    match p {
      case Done =>
      case ScheduleIn(delay, impl, reg, next) =>
        RemovingIsTurned(next, Schedule(s, delay, impl).0, Keep(mem, reg, Schedule(s, delay, impl).1));
      case ScheduleInContext(context, delay, impl, next) =>
        RemovingIsTurned(next, ScheduleWithContext(s, context, delay, impl), mem);
      case CancelReg(reg, next) => RemovingIsTurned(next, Cancel(s, IdIn(mem, reg)), mem);
      case RemoveReg(reg, next) => RemovingIsTurned(next, Remove(s, IdIn(mem, reg)), mem);
      case IfExpired(reg, yes, no) => RemovingIsTurned(if IsExpired(s, IdIn(mem, reg)) then yes else no, s, mem);
      case IfDelayBelow(reg, bound, yes, no) =>
        RemovingIsTurned(if GetDelayLeft(s, IdIn(mem, reg)) < bound then yes else no, s, mem);
      case StopRun(next) => RemovingIsTurned(next, Stop(s), mem);
      case Store(data, next) => RemovingIsTurned(next, s, mem.(data := data));
    }
  }

  ghost predicate NoDestroyHandler(h: Handler) {
    forall impl: nat, ts: nat, context: nat, mem: Memory :: NoDestroy(h(impl, ts, context, mem))
  }

  lemma {:induction false} RemovingRunTurned(h: Handler, w: World, fuel: nat)
    requires NoDestroyHandler(h) && EventsOnly(w.sim, w.mem)
    ensures TurnedRun(h, RemovingHandler(h), w, fuel)
    decreases fuel
  {
    hide Turned, Exec, Drain, PushAll, Removing, EventsOnly;
    if fuel > 0 && !Over(w.sim) {
      var next, s := w.sim.queue[0], Pop(w.sim);
      var p := h(next.impl, s.currentTs, s.currentContext, w.mem);
      PopKeepsEventsOnly(w.sim, w.mem);
      RemovingIsTurned(p, s, w.mem);
      EventsOnlyDrains(s, w.mem);
      EventsOnlyDrains(Exec(p, s, w.mem).0, Exec(p, s, w.mem).1);
      RemovingRunTurned(h, ProcessOne(h, QUIET, w), fuel - 1);
    }
  }

  lemma PopKeepsEventsOnly(s: Sim, mem: Memory)
    requires EventsOnly(s, mem) && s.queue != []
    ensures EventsOnly(Pop(s), mem)
  {
  }

  lemma EventsOnlyDrains(s: Sim, mem: Memory)
    requires EventsOnly(s, mem)
    ensures Drain(PushAll(s, [])) == s
  {
    NothingToDrain(s);
  }

  /** Handlers without destroy events can remove wherever they cancel, all through the run. */
  lemma RemoveInsteadOfCancel(h: Handler, r: Run, mem: Memory, log: seq<Note>)
    requires Inv(r) && MemOk(mem, r.issued) && EventsOnly(r.sim, mem) && NoDestroyHandler(h)
    ensures SameNotifications(h, World(r.sim, mem, log), RemovingHandler(h), World(r.sim, mem, log))
  {
    hide Inv, SameNotifications, NoDestroyHandler, TurnedRun, MemOk, RemovingHandler;
    forall fuel: nat
      ensures TurnedRun(h, RemovingHandler(h), World(r.sim, mem, log), fuel)
    {
      RemovingRunTurned(h, World(r.sim, mem, log), fuel);
    }
    CancelsBecomeRemoves(h, RemovingHandler(h), r, mem, log);
  }

  // ---------------------------------------------------------------- one Cancel turned

  /** With a single Cancel turned, the counts of events differ by one at most. */
  ghost predicate OneApart(h: Handler, v: World, w: World, n: nat) {
    && (After(h, w, n).log == After(h, v, n).log || After(h, w, n).log == After(h, v, n + 1).log)
    && (After(h, v, n).log == After(h, w, n).log || (n > 0 && After(h, v, n).log == After(h, w, n - 1).log))
    && (Over(After(h, w, n).sim) ==> Over(After(h, v, n + 1).sim) && After(h, v, n + 1).log == After(h, w, n).log)
    && (Over(After(h, v, n).sim) ==> Over(After(h, w, n).sim) && After(h, v, n).log == After(h, w, n).log)
  }

  lemma {:induction false} OverStays(h: Handler, w: World, n: nat)
    requires Over(After(h, w, n).sim)
    ensures After(h, w, n + 1) == After(h, w, n)
    decreases n
  {
    hide ProcessOne;
    if n > 0 && !Over(w.sim) {
      OverStays(h, ProcessOne(h, QUIET, w), n - 1);
    }
  }

  lemma RelatedOneApart(h: Handler, v: World, w: World, gone: multiset<Event>, issued: set<EventId>, n: nat)
    requires Related(h, h, v, w, gone, issued) && |gone| <= 1
    ensures OneApart(h, v, w, n)
  {
    hide Related, RunLoop;
    var m := Catches(h, h, v, w, gone, issued, n);
    var k := IsCaught(h, h, v, w, gone, issued, n);
    if Over(After(h, w, n).sim) && m == n { OverStays(h, v, n); }
    if Over(After(h, v, n).sim) && k == n - 1 { OverStays(h, w, k); }
  }

  /** The handlers stay the same, and one cancelled event is missing at most. */
  lemma AlikeRelated(h: Handler, a: Sim, b: Sim, gone: multiset<Event>, mem: Memory, log: seq<Note>,
                     issued: set<EventId>)
    requires Alike(a, b, gone) && Named(a, mem, issued)
    ensures Related(h, h, World(a, mem, log), World(b, mem, log), gone, issued)
  {
    hide Lacks, Named, TurnedRun;
    forall fuel: nat
      ensures TurnedRun(h, h, World(a, mem, log), fuel)
    {
      SameRunTurned(h, World(a, mem, log), fuel);
    }
  }

  /**
   * A handler that cancels a scheduled event, and the one that removes it there, whatever it does before or after: it
   * ends with the same memory, and the same events are notified at the same times afterwards.
   */
  lemma CancelLikeRemove(h: Handler, r: Run, mem: Memory, log: seq<Note>, reg: nat, rest: Prog, n: nat)
    requires Inv(r) && SingleThread(r.sim) && MemOk(mem, r.issued) && IdIn(mem, reg) in r.issued
    ensures var (a, memA) := Exec(CancelReg(reg, rest), r.sim, mem);
            var (b, memB) := Exec(RemoveReg(reg, rest), r.sim, mem);
            memA == memB && OneApart(h, World(Drain(a), memA, log), World(Drain(b), memB, log), n)
  {
    hide QueueOk, IdsOk, OrderOk, Conserved, HandOffOk, OneApart, Exec, Drain, MemOk, Cancel, Remove, PushAll;
    var s, id := r.sim, IdIn(mem, reg);
    IssuedIsNoDestroy(s, r.issued, id);
    assert multiset(s.queue) == multiset(s.queue) + multiset{};
    var gone := CancelOneRemoveOther(s, s, multiset{}, id, r.issued);
    CancelNames(s, mem, r.issued, reg);
    var a, b := Cancel(s, id), Remove(s, id);
    SameIsTurned(rest, a, mem);
    var gone', issued' := ExecBoth(rest, rest, a, b, gone, mem, r.issued);
    ExecCancelRemove(reg, rest, s, mem);
    a, b := Exec(rest, a, mem).0, Exec(rest, b, mem).0;
    NothingToDrain(a);
    NothingToDrain(b);
    AlikeRelated(h, a, b, gone', Exec(CancelReg(reg, rest), s, mem).1, log, issued');
    RelatedOneApart(h, World(a, Exec(CancelReg(reg, rest), s, mem).1, log),
                    World(b, Exec(CancelReg(reg, rest), s, mem).1, log), gone', issued', n);
  }

  lemma ExecCancelRemove(reg: nat, rest: Prog, s: Sim, mem: Memory)
    ensures Exec(CancelReg(reg, rest), s, mem) == Exec(rest, Cancel(s, IdIn(mem, reg)), mem)
    ensures Exec(RemoveReg(reg, rest), s, mem) == Exec(rest, Remove(s, IdIn(mem, reg)), mem)
  {
  }

  lemma IssuedIsNoDestroy(s: Sim, issued: set<EventId>, id: EventId)
    requires IdsOk(s, issued) && id in issued
    ensures id.key.uid != UID_DESTROY
  {
    assert IdOk(s, id);
  }

  /** The same for a call between two events, the identifier being known to the caller alone. */
  lemma CancelBetweenEvents(h: Handler, r: Run, mem: Memory, log: seq<Note>, id: EventId, n: nat)
    requires Inv(r) && SingleThread(r.sim) && MemOk(mem, r.issued) && id in r.issued
    ensures OneApart(h, World(Cancel(r.sim, id), mem, log), World(Remove(r.sim, id), mem, log), n)
  {
    hide QueueOk, IdsOk, OrderOk, Conserved, HandOffOk, OneApart, MemOk, Cancel, Remove;
    IssuedIsNoDestroy(r.sim, r.issued, id);
    assert multiset(r.sim.queue) == multiset(r.sim.queue) + multiset{};
    var gone := CancelOneRemoveOther(r.sim, r.sim, multiset{}, id, r.issued);
    CancelKeepsIds(r.sim, r.issued, id);
    AlikeRelated(h, Cancel(r.sim, id), Remove(r.sim, id), gone, mem, log, r.issued);
    RelatedOneApart(h, World(Cancel(r.sim, id), mem, log), World(Remove(r.sim, id), mem, log), gone, r.issued, n);
  }
}
