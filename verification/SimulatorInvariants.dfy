/** What holds after any sequence of simulator steps: order, expiry, counting, conservation and the hand-off. */
module SimulatorInvariants {
  import opened Wrappers
  import opened Scheduler
  import opened Simulator

  function CurrentKey(s: Sim): EventKey {
    EventKey(s.currentTs, s.currentUid, s.currentContext)
  }

  // ---------------------------------------------------------------- the queue

  /** Everything queued lies strictly after the current event and has a uid already given out. */
  ghost predicate AfterCurrent(s: Sim, e: Event) {
    KeyLess(CurrentKey(s), e.key) && UID_VALID <= e.key.uid < s.uid
  }

  ghost predicate QueueOk(s: Sim) {
    && Sorted(s.queue) && DistinctUids(multiset(s.queue))
    && (forall e :: e in s.queue ==> AfterCurrent(s, e))
    && s.currentUid < s.uid && UID_VALID <= s.uid
    && s.unscheduled == |s.queue|
  }

  lemma EnqueueKeepsQueue(s: Sim, ts: nat, context: nat, impl: nat)
    requires QueueOk(s) && ts >= s.currentTs
    ensures QueueOk(Enqueue(s, ts, context, impl))
    ensures multiset(Enqueue(s, ts, context, impl).queue)
         == multiset(s.queue) + multiset{NewEvent(s, ts, context, impl)}
  {
    hide InsertOrdered, SortedBy;
    var ev := NewEvent(s, ts, context, impl);
    var q := InsertOrdered(false, s.queue, ev);
    InsertOrderedSorted(false, s.queue, ev);
    InsertOrderedContents(false, s.queue, ev);
    forall e | e in multiset(s.queue)
      ensures e.key.uid != ev.key.uid
    {
      assert AfterCurrent(s, e);
    }
    DistinctAfterInsert(multiset(s.queue), ev);
    assert |q| == |multiset(q)| == |multiset(s.queue)| + 1;
    forall e | e in q
      ensures e == ev || e in s.queue
    {
      assert e in multiset(q);
    }
  }

  /** A new event keeps the queue ahead of the clock exactly when it is not in the past. */
  lemma OnlyTheFutureKeepsOrder(s: Sim, ts: nat, context: nat, impl: nat)
    requires QueueOk(s)
    ensures QueueOk(Enqueue(s, ts, context, impl)) <==> ts >= s.currentTs
  {
    hide InsertOrdered, SortedBy, DistinctUids;
    if ts >= s.currentTs {
      EnqueueKeepsQueue(s, ts, context, impl);
    } else {
      var e := NewEvent(s, ts, context, impl);
      InsertOrderedContents(false, s.queue, e);
      assert e in multiset(Enqueue(s, ts, context, impl).queue);
      assert e in Enqueue(s, ts, context, impl).queue && !AfterCurrent(Enqueue(s, ts, context, impl), e);
    }
  }

  lemma PopKeepsQueue(s: Sim)
    requires QueueOk(s) && s.queue != []
    ensures QueueOk(Pop(s))
    ensures multiset(Pop(s).queue) == multiset(s.queue) - multiset{s.queue[0]} && s.queue[0] in multiset(s.queue)
  {
    hide SortedBy, DistinctUids, AfterCurrent;
    SortedHeadIsLeast(s.queue);
    DistinctAfterRemove(multiset(s.queue), s.queue[0]);
    HeadBecomesCurrent(s);
  }

  lemma HeadBecomesCurrent(s: Sim)
    requires QueueOk(s) && s.queue != []
    ensures s.queue[0].key.uid < s.uid && s.queue[0] in multiset(s.queue)
    ensures forall e :: e in s.queue[1..] ==> AfterCurrent(Pop(s), e)
  {
    hide DistinctUids;
    assert AfterCurrent(s, s.queue[0]);
    forall e | e in s.queue[1..]
      ensures AfterCurrent(Pop(s), e)
    {
      var k :| 0 <= k < |s.queue[1..]| && s.queue[1..][k] == e;
      assert AfterCurrent(s, e);
      assert !Before(s.queue[k + 1], s.queue[0]);
      DistinctPositions(s.queue, 0, k + 1);
    }
  }

  lemma EraseKeepsQueue(s: Sim, e: Event)
    requires QueueOk(s) && e in s.queue
    ensures var q := WithoutUid(s.queue, e.key.uid);
            && multiset(q) == multiset(s.queue) - multiset{e}
            && QueueOk(s.(queue := q, unscheduled := s.unscheduled - 1))
  {
    hide SortedBy, AfterCurrent, DistinctUids, WithoutIndex, IndexOfUid;
    UidFindsEvent(s.queue, e);
    var i := IndexOfUid(s.queue, e.key.uid);
    var q := WithoutIndex(s.queue, i);
    var s' := s.(queue := q, unscheduled := s.unscheduled - 1);
    WithoutIndexSorted(false, s.queue, i);
    WithoutIndexContents(s.queue, i);
    DistinctAfterRemove(multiset(s.queue), e);
    SizeOfRest(s.queue, q, e);
    forall f | f in q
      ensures AfterCurrent(s', f)
    {
      assert f in multiset(q) && f in multiset(s.queue);
      SameCurrent(s, s', f);
    }
  }

  lemma SizeOfRest(q: seq<Event>, rest: seq<Event>, e: Event)
    requires e in q && multiset(rest) == multiset(q) - multiset{e}
    ensures |rest| == |q| - 1
  {
    assert e in multiset(q);
    assert |rest| == |multiset(rest)| && |q| == |multiset(q)|;
  }

  lemma SameCurrent(s: Sim, t: Sim, e: Event)
    requires CurrentKey(s) == CurrentKey(t) && s.uid <= t.uid
    ensures AfterCurrent(s, e) ==> AfterCurrent(t, e)
  {
  }

  // ---------------------------------------------------------------- expiry

  function EventOf(id: EventId): Event
    requires id.impl.Some?
  {
    Event(id.impl.value, id.key)
  }

  /** An identifier is accounted for: its event is queued, has been reached, or is cancelled. */
  ghost predicate IdOk(s: Sim, id: EventId) {
    && id.impl.Some? && UID_VALID <= id.key.uid < s.uid
    && (EventOf(id) in s.queue || !KeyLess(CurrentKey(s), id.key) || id.impl.value in s.cancelled)
  }

  ghost predicate IdsOk(s: Sim, issued: set<EventId>) {
    && (forall id :: id in issued ==> IdOk(s, id))
    && (forall i, j :: i in issued && j in issued && i.key.uid == j.key.uid ==> i == j)
  }

  /** The test that never looks at the queue says exactly whether the event is queued and not cancelled. */
  lemma ExpiredExactly(s: Sim, issued: set<EventId>, id: EventId)
    requires QueueOk(s) && IdsOk(s, issued) && id in issued
    ensures !IsExpired(s, id) <==> EventOf(id) in s.queue && id.impl.value !in s.cancelled
  {
    assert IdOk(s, id);
    if EventOf(id) in s.queue { assert AfterCurrent(s, EventOf(id)); }
  }

  // ---------------------------------------------------------------- order and conservation

  ghost predicate Increasing(es: seq<Event>) {
    forall i, j :: 0 <= i < j < |es| ==> Before(es[i], es[j])
  }

  /** Events were processed in strictly increasing key order, and none after the current key. */
  ghost predicate OrderOk(r: Run) {
    && Increasing(r.processed)
    && (r.processed != [] ==> r.processed[|r.processed| - 1].key == CurrentKey(r.sim))
    && (forall e :: e in r.processed ==> !KeyLess(CurrentKey(r.sim), e.key))
  }

  /** Every event ever inserted is queued, was processed, or was removed; never two of these, never twice. */
  ghost predicate Conserved(r: Run) {
    && r.inserted == multiset(r.sim.queue) + multiset(r.processed) + r.removed
    && DistinctUids(r.inserted)
    && forall e :: e in r.inserted ==> e.key.uid < r.sim.uid
  }

  // ---------------------------------------------------------------- the hand-off

  ghost predicate DrainedFrom(e: Event, ev: EventWithContext, now: nat) {
    e.impl == ev.impl && e.key.context == ev.context && e.key.ts == now + ev.timestamp
  }

  /** The first pushed events became the drained ones, in order, under increasing uids; the rest are still to come. */
  ghost predicate Handed(pushed: seq<EventWithContext>, drained: seq<Event>, times: seq<nat>,
                         rest: seq<EventWithContext>)
  {
    var n := |drained|;
    && n <= |pushed| && |times| == n && pushed[n..] == rest
    && (forall i :: 0 <= i < n ==> DrainedFrom(drained[i], pushed[i], times[i]))
    && (forall i, j :: 0 <= i < j < n ==> drained[i].key.uid < drained[j].key.uid)
  }

  lemma HandedSnoc(pushed: seq<EventWithContext>, drained: seq<Event>, times: seq<nat>, rest: seq<EventWithContext>,
                   e: Event, now: nat)
    requires Handed(pushed, drained, times, rest) && rest != [] && DrainedFrom(e, rest[0], now)
    requires forall d :: d in drained ==> d.key.uid < e.key.uid
    ensures Handed(pushed, drained + [e], times + [now], rest[1..])
  {
    hide DrainedFrom;
    assert pushed[|drained|] == pushed[|drained|..][0];
    assert pushed[|drained| + 1..] == pushed[|drained|..][1..];
  }

  /**
   * What other threads pushed is, in push order, what was inserted, what has been taken over and what is still
   * shared; each was inserted once, at the time of the drain plus its own delay. The flag tells whether the shared
   * list is empty.
   */
  ghost predicate HandOffOk(r: Run) {
    && Handed(r.pushed, r.drained, r.drainTimes, r.sim.handedOver + r.sim.shared)
    && (r.sim.sharedEmpty <==> r.sim.shared == [])
    && (forall e :: e in r.drained ==> e in r.inserted)
    && (forall t :: t in r.drainTimes ==> t <= r.sim.currentTs)
  }

  // ---------------------------------------------------------------- every step keeps them

  ghost predicate EventsOk(r: Run) {
    QueueOk(r.sim) && IdsOk(r.sim, r.issued) && OrderOk(r) && Conserved(r) && HandOffOk(r)
  }

  /** The destroy events were scheduled at a time that has been reached. */
  ghost predicate DestroyOk(s: Sim) {
    forall id :: id in s.destroyEvents ==> id.key.ts <= s.currentTs
  }

  /** `a` is `b` with some elements left out. */
  ghost predicate PartInOrder(a: seq<EventId>, b: seq<EventId>) {
    a == [] || (b != [] && ((a[0] == b[0] && PartInOrder(a[1..], b[1..])) || PartInOrder(a, b[1..])))
  }

  /** The destroy events not removed yet are listed in the order in which they were scheduled. */
  ghost predicate DestroyListOk(r: Run) {
    && multiset(r.destroyIssued) == multiset(r.sim.destroyEvents) + r.destroyRemoved
    && PartInOrder(r.sim.destroyEvents, r.destroyIssued)
  }

  /** The events passed over without a notification are events of cancelled objects. */
  ghost predicate LiveOk(r: Run) {
    |r.live| == |r.processed| && forall i :: 0 <= i < |r.live| ==> r.live[i] || r.processed[i].impl in r.sim.cancelled
  }

  ghost predicate CountsOk(r: Run) {
    && r.sim.eventCount == |r.processed|
    && r.sim.uid == UID_VALID + |r.inserted| + |r.destroyIssued|
  }

  ghost predicate HistoryOk(r: Run) {
    DestroyListOk(r) && LiveOk(r) && CountsOk(r)
  }

  ghost predicate Inv(r: Run) {
    EventsOk(r) && DestroyOk(r.sim) && HistoryOk(r)
  }

  lemma StartInv()
    ensures Inv(START)
  {
  }

  lemma EnqueueKeepsIds(s: Sim, ts: nat, context: nat, impl: nat, issued: set<EventId>, id: EventId)
    requires QueueOk(s) && IdsOk(s, issued) && ts >= s.currentTs
    requires id == EventId(Some(impl), EventKey(ts, s.uid, context))
    ensures IdsOk(Enqueue(s, ts, context, impl), issued) && IdsOk(Enqueue(s, ts, context, impl), issued + {id})
  {
    assert UID_VALID <= s.uid;
    hide InsertOrdered, QueueOk;
    var s' := Enqueue(s, ts, context, impl);
    EnqueueKeepsQueue(s, ts, context, impl);
    forall e
      ensures e in s'.queue <==> e in s.queue || e == NewEvent(s, ts, context, impl)
    {
      assert e in s'.queue <==> e in multiset(s'.queue);
    }
    forall i | i in issued
      ensures IdOk(s', i) && i.key.uid != id.key.uid
    {
      assert IdOk(s, i);
    }
    assert IdOk(s', id);
  }

  lemma PopKeepsIds(s: Sim, issued: set<EventId>)
    requires QueueOk(s) && IdsOk(s, issued) && s.queue != []
    ensures IdsOk(Pop(s), issued)
  {
    assert AfterCurrent(s, s.queue[0]);
    forall id | id in issued
      ensures IdOk(Pop(s), id)
    {
      assert IdOk(s, id);
      assert s.queue == [s.queue[0]] + s.queue[1..];
    }
  }

  lemma RemoveKeepsIds(s: Sim, issued: set<EventId>, id: EventId)
    requires QueueOk(s) && IdsOk(s, issued) && id in issued && !IsExpired(s, id)
    ensures IdsOk(Remove(s, id), issued)
  {
    hide WithoutUid, SortedBy;
    ExpiredExactly(s, issued, id);
    EraseKeepsQueue(s, EventOf(id));
    var s' := Remove(s, id);
    forall i | i in issued
      ensures IdOk(s', i)
    {
      assert IdOk(s, i);
      if i != id && EventOf(i) in s.queue {
        assert EventOf(i) in multiset(s.queue) && EventOf(i) != EventOf(id);
        assert EventOf(i) in multiset(s'.queue);
      }
    }
  }

  lemma CancelKeepsIds(s: Sim, issued: set<EventId>, id: EventId)
    requires IdsOk(s, issued)
    ensures IdsOk(Cancel(s, id), issued)
  {
    forall i | i in issued
      ensures IdOk(Cancel(s, id), i)
    {
      assert IdOk(s, i);
    }
  }

  lemma PopKeepsOrder(r: Run, r': Run)
    requires QueueOk(r.sim) && OrderOk(r) && r.sim.queue != []
    requires r'.sim == Pop(r.sim) && r'.processed == r.processed + [r.sim.queue[0]]
    ensures OrderOk(r')
  {
    assert AfterCurrent(r.sim, r.sim.queue[0]);
  }

  lemma EnqueueKeepsHistory(r: Run, ts: nat, context: nat, impl: nat)
    requires Inv(r) && ts >= r.sim.currentTs
    ensures var s' := Enqueue(r.sim, ts, context, impl);
            var r' := r.(sim := s', inserted := r.inserted + multiset{NewEvent(r.sim, ts, context, impl)});
            QueueOk(s') && OrderOk(r') && Conserved(r') && IdsOk(s', r.issued)
  {
    hide InsertOrdered, QueueOk, IdsOk, OrderOk, Conserved, HandOffOk, DestroyOk, HistoryOk;
    var e, s' := NewEvent(r.sim, ts, context, impl), Enqueue(r.sim, ts, context, impl);
    var r' := r.(sim := s', inserted := r.inserted + multiset{e});
    EnqueueKeepsQueue(r.sim, ts, context, impl);
    OrderCong(r, r');
    InsertConserves(r, r', e);
    EnqueueKeepsIds(r.sim, ts, context, impl, r.issued, EventId(Some(impl), EventKey(ts, r.sim.uid, context)));
  }

  lemma OrderCong(r: Run, r': Run)
    requires OrderOk(r) && CurrentKey(r.sim) == CurrentKey(r'.sim) && r'.processed == r.processed
    ensures OrderOk(r')
  {
    hide Increasing, KeyLess;
  }

  lemma InsertConserves(r: Run, r': Run, e: Event)
    requires Conserved(r) && e.key.uid == r.sim.uid && r'.sim.uid == r.sim.uid + 1
    requires multiset(r'.sim.queue) == multiset(r.sim.queue) + multiset{e} && r'.inserted == r.inserted + multiset{e}
    requires r'.processed == r.processed && r'.removed == r.removed
    ensures Conserved(r')
  {
    hide DistinctUids;
    DistinctAfterInsert(r.inserted, e);
  }

  lemma IdsOkCong(s: Sim, t: Sim, issued: set<EventId>)
    requires IdsOk(s, issued)
    requires CurrentKey(s) == CurrentKey(t) && s.queue == t.queue && s.uid <= t.uid && s.cancelled == t.cancelled
    ensures IdsOk(t, issued)
  {
    forall id | id in issued
      ensures IdOk(t, id)
    {
      assert IdOk(s, id);
    }
  }

  /** The hand-off is untouched by steps that move no hand-off list and only move time forward. */
  lemma HandOffCong(r: Run, r': Run)
    requires HandOffOk(r)
    requires r'.pushed == r.pushed && r'.drained == r.drained && r'.drainTimes == r.drainTimes
    requires r'.sim.shared == r.sim.shared && r'.sim.handedOver == r.sim.handedOver
    requires r'.sim.sharedEmpty == r.sim.sharedEmpty && r.sim.currentTs <= r'.sim.currentTs
    requires forall e :: e in r.inserted ==> e in r'.inserted
    ensures HandOffOk(r')
  {
  }

  lemma InsertHandedOverKeepsHandOff(r: Run)
    requires Inv(r) && r.sim.handedOver != []
    ensures HandOffOk(Apply(r, DoInsertHandedOver))
  {
    hide InsertOrdered, QueueOk, IdsOk, OrderOk, Conserved, Handed;
    var s := r.sim;
    var ev := s.handedOver[0];
    var e := NewEvent(s, s.currentTs + ev.timestamp, ev.context, ev.impl);
    DrainedUids(r);
    HandedSnoc(r.pushed, r.drained, r.drainTimes, s.handedOver + s.shared, e, s.currentTs);
    assert (s.handedOver + s.shared)[1..] == s.handedOver[1..] + s.shared;
  }

  lemma DrainedUids(r: Run)
    requires Conserved(r) && HandOffOk(r)
    ensures forall e :: e in r.drained ==> e.key.uid < r.sim.uid
  {
    hide Handed, DistinctUids;
  }

  lemma PushKeepsHandOff(r: Run, ev: EventWithContext)
    requires HandOffOk(r)
    ensures HandOffOk(Apply(r, DoPush(ev)))
  {
    var n := |r.drained|;
    assert (r.pushed + [ev])[n..] == r.pushed[n..] + [ev];
    assert r.sim.handedOver + (r.sim.shared + [ev]) == r.sim.handedOver + r.sim.shared + [ev];
  }

  lemma TakeSharedKeepsHandOff(r: Run)
    requires HandOffOk(r) && r.sim.handedOver == []
    ensures HandOffOk(r.(sim := TakeShared(r.sim)))
  {
    assert r.sim.handedOver + r.sim.shared == r.sim.shared + [];
  }

  /** The steps that only touch the queue, one case at a time. */
  lemma ScheduleKeeps(r: Run, step: Step)
    requires Inv(r) && Enabled(r, step) && (step.DoSchedule? || step.DoScheduleWithContext?)
    ensures EventsOk(Apply(r, step))
  {
    hide QueueOk, IdsOk, OrderOk, Conserved, HandOffOk, InsertOrdered;
    var s, r' := r.sim, Apply(r, step);
    var context := if step.DoSchedule? then s.currentContext else step.context;
    EnqueueKeepsHistory(r, s.currentTs + step.delay, context, step.impl);
    HandOffCong(r, r');
    if step.DoSchedule? {
      ScheduledId(r, step.delay, step.impl);
    }
    SameQueueCong(r.(sim := r'.sim, inserted := r'.inserted), r');
  }

  lemma ScheduledId(r: Run, delay: nat, impl: nat)
    requires Inv(r)
    ensures var (s', id) := Schedule(r.sim, delay, impl);
            IdsOk(s', r.issued + {id})
  {
    hide InsertOrdered, IdsOk, QueueOk;
    EnqueueKeepsIds(r.sim, r.sim.currentTs + delay, r.sim.currentContext, impl, r.issued,
                    Schedule(r.sim, delay, impl).1);
  }

  lemma InsertHandedOverKeeps(r: Run)
    requires Inv(r) && r.sim.handedOver != []
    ensures EventsOk(Apply(r, DoInsertHandedOver))
  {
    InsertHandedOverKeepsHandOff(r);
    InsertKeepsRest(r, r.sim.handedOver[0]);
  }

  lemma InsertKeepsRest(r: Run, ev: EventWithContext)
    requires Inv(r) && r.sim.handedOver != [] && ev == r.sim.handedOver[0]
    ensures var r' := Apply(r, DoInsertHandedOver);
            QueueOk(r'.sim) && IdsOk(r'.sim, r'.issued) && OrderOk(r') && Conserved(r')
  {
    hide QueueOk, IdsOk, OrderOk, Conserved, HandOffOk, NewEvent, InsertOrdered;
    var s, r' := r.sim, Apply(r, DoInsertHandedOver);
    var ts := s.currentTs + ev.timestamp;
    EnqueueKeepsHistory(r, ts, ev.context, ev.impl);
    var s1 := Enqueue(s, ts, ev.context, ev.impl);
    QueueOkCancelled(s1, r'.sim);
    IdsOkCong(s1, r'.sim, r.issued);
    SameQueueCong(r.(sim := s1, inserted := r.inserted + multiset{NewEvent(s, ts, ev.context, ev.impl)}), r');
  }

  lemma PopKeeps(r: Run)
    requires Inv(r) && Enabled(r, DoPop)
    ensures EventsOk(Apply(r, DoPop))
  {
    hide HistoryOk, DestroyOk, QueueOk, IdsOk, OrderOk, Conserved, HandOffOk;
    var r' := Apply(r, DoPop);
    HeadNotBefore(r.sim);
    HandOffCong(r, r');
    PopKeepsQueue(r.sim);
    PopKeepsIds(r.sim, r.issued);
    PopKeepsOrder(r, r');
    PopConserves(r, r');
  }

  lemma HeadNotBefore(s: Sim)
    requires QueueOk(s) && s.queue != []
    ensures s.currentTs <= s.queue[0].key.ts
  {
    assert AfterCurrent(s, s.queue[0]);
  }

  lemma PopConserves(r: Run, r': Run)
    requires Conserved(r) && r.sim.queue != []
    requires r'.sim == Pop(r.sim) && r'.processed == r.processed + [r.sim.queue[0]]
    requires r'.inserted == r.inserted && r'.removed == r.removed
    ensures Conserved(r')
  {
    assert r.sim.queue == [r.sim.queue[0]] + r.sim.queue[1..];
  }

  lemma RemoveKeeps(r: Run, id: EventId)
    requires Inv(r) && Enabled(r, DoRemove(id))
    ensures EventsOk(Apply(r, DoRemove(id)))
  {
    hide QueueOk, IdsOk, OrderOk, Conserved, HandOffOk, IsExpired, WithoutUid;
    var s, r' := r.sim, Apply(r, DoRemove(id));
    HandOffCong(r, r');
    if id.key.uid != UID_DESTROY && !IsExpired(s, id) {
      NotExpiredHasObject(s, id);
      RemoveQueued(r, id);
    } else {
      QueueOkCancelled(s, r'.sim);
      IdsOkCong(s, r'.sim, r.issued);
      SameQueueCong(r, r');
    }
  }

  lemma NotExpiredHasObject(s: Sim, id: EventId)
    requires !IsExpired(s, id)
    ensures id.impl.Some?
  {
  }

  lemma RemoveQueued(r: Run, id: EventId)
    requires Inv(r) && Enabled(r, DoRemove(id)) && id.key.uid != UID_DESTROY && !IsExpired(r.sim, id) && id.impl.Some?
    ensures var r' := Apply(r, DoRemove(id));
            QueueOk(r'.sim) && IdsOk(r'.sim, r.issued) && OrderOk(r') && Conserved(r')
  {
    hide QueueOk, IdsOk, OrderOk, Conserved, HandOffOk, IsExpired, WithoutUid;
    var s, r' := r.sim, Apply(r, DoRemove(id));
    ExpiredExactly(s, r.issued, id);
    RemoveKeepsIds(s, r.issued, id);
    EraseKeepsQueue(s, EventOf(id));
    QueueOkCancelled(s.(queue := r'.sim.queue, unscheduled := s.unscheduled - 1), r'.sim);
    RemoveConserves(r, id);
  }

  lemma RemoveConserves(r: Run, id: EventId)
    requires QueueOk(r.sim) && Conserved(r) && OrderOk(r) && id.impl.Some? && EventOf(id) in r.sim.queue
    requires id.key.uid != UID_DESTROY && !IsExpired(r.sim, id) && KnownId(r, id) && r.sim.handedOver == []
    ensures OrderOk(Apply(r, DoRemove(id))) && Conserved(Apply(r, DoRemove(id)))
  {
    hide QueueOk, WithoutUid, OrderOk, Conserved, IsExpired;
    EraseKeepsQueue(r.sim, EventOf(id));
    RemovedIsConserved(r, Apply(r, DoRemove(id)), EventOf(id));
  }

  lemma RemovedIsConserved(r: Run, r': Run, e: Event)
    requires OrderOk(r) && Conserved(r) && e in r.sim.queue && CurrentKey(r'.sim) == CurrentKey(r.sim)
    requires multiset(r'.sim.queue) == multiset(r.sim.queue) - multiset{e} && r'.removed == r.removed + multiset{e}
    requires r'.processed == r.processed && r'.inserted == r.inserted && r'.sim.uid == r.sim.uid
    ensures OrderOk(r') && Conserved(r')
  {
    hide Increasing, DistinctUids;
    assert e in multiset(r.sim.queue);
    MoveToRemoved(multiset(r.sim.queue), multiset(r.processed), r.removed, e);
  }

  lemma MoveToRemoved(q: multiset<Event>, processed: multiset<Event>, removed: multiset<Event>, e: Event)
    requires e in q
    ensures q - multiset{e} + processed + (removed + multiset{e}) == q + processed + removed
  {
  }

  lemma QueueOkCancelled(s: Sim, t: Sim)
    requires QueueOk(s) && CurrentKey(s) == CurrentKey(t) && s.queue == t.queue && s.uid <= t.uid
    requires s.unscheduled == t.unscheduled
    ensures QueueOk(t)
  {
    forall e | e in t.queue
      ensures AfterCurrent(t, e)
    {
      assert AfterCurrent(s, e);
    }
  }

  lemma SameQueueCong(r: Run, r': Run)
    requires OrderOk(r) && Conserved(r)
    requires CurrentKey(r'.sim) == CurrentKey(r.sim) && r'.sim.queue == r.sim.queue && r.sim.uid <= r'.sim.uid
    requires r'.processed == r.processed && r'.inserted == r.inserted && r'.removed == r.removed
    ensures OrderOk(r') && Conserved(r')
  {
  }

  /** Steps that leave queue and clock alone. */
  lemma QuietStepKeeps(r: Run, r': Run)
    requires Inv(r) && IdsOk(r'.sim, r'.issued) && HandOffOk(r')
    requires CurrentKey(r.sim) == CurrentKey(r'.sim) && r.sim.queue == r'.sim.queue && r.sim.uid <= r'.sim.uid
    requires r.sim.unscheduled == r'.sim.unscheduled
    requires r'.processed == r.processed && r'.inserted == r.inserted && r'.removed == r.removed
    ensures EventsOk(r')
  {
    hide QueueOk, IdsOk, OrderOk, Conserved, HandOffOk;
    QueueOkCancelled(r.sim, r'.sim);
    SameQueueCong(r, r');
  }

  lemma PushKeeps(r: Run, ev: EventWithContext)
    requires Inv(r)
    ensures EventsOk(Apply(r, DoPush(ev)))
  {
    hide QueueOk, IdsOk, OrderOk, Conserved, HandOffOk;
    var r' := Apply(r, DoPush(ev));
    PushKeepsHandOff(r, ev);
    IdsOkCong(r.sim, r'.sim, r.issued);
    QuietStepKeeps(r, r');
  }

  lemma TakeSharedKeeps(r: Run)
    requires Inv(r) && Enabled(r, DoTakeShared)
    ensures EventsOk(Apply(r, DoTakeShared))
  {
    hide QueueOk, IdsOk, OrderOk, Conserved, HandOffOk;
    var r' := Apply(r, DoTakeShared);
    TakeSharedKeepsHandOff(r);
    IdsOkCong(r.sim, r'.sim, r.issued);
    QuietStepKeeps(r, r');
  }

  lemma CancelKeeps(r: Run, id: EventId)
    requires Inv(r) && Enabled(r, DoCancel(id))
    ensures EventsOk(Apply(r, DoCancel(id)))
  {
    hide QueueOk, IdsOk, OrderOk, Conserved, HandOffOk, IsExpired;
    var r' := Apply(r, DoCancel(id));
    CancelKeepsIds(r.sim, r.issued, id);
    HandOffCong(r, r');
    QuietStepKeeps(r, r');
  }

  lemma OtherKeeps(r: Run, step: Step)
    requires Inv(r) && Enabled(r, step) && (step.DoScheduleDestroy? || step.DoStop? || step.DoClearStop?)
    ensures EventsOk(Apply(r, step))
  {
    hide QueueOk, IdsOk, OrderOk, Conserved, HandOffOk;
    var r' := Apply(r, step);
    HandOffCong(r, r');
    IdsOkCong(r.sim, r'.sim, r.issued);
    QuietStepKeeps(r, r');
  }

  lemma StepKeepsInv(r: Run, step: Step)
    requires Inv(r) && Enabled(r, step)
    ensures Inv(Apply(r, step))
  {
    hide Inv, EventsOk, DestroyOk, HistoryOk, Apply, Enabled;
    DestroyStep(r, step);
    HistoryStep(r, step);
    match step {
      case DoSchedule(_, _) => ScheduleKeeps(r, step);
      case DoScheduleWithContext(_, _, _) => ScheduleKeeps(r, step);
      case DoInsertHandedOver => HandedOverToInsert(r); InsertHandedOverKeeps(r);
      case DoPop => PopKeeps(r);
      case DoRemove(id) => RemoveKeeps(r, id);
      case DoPush(ev) => PushKeeps(r, ev);
      case DoTakeShared => TakeSharedKeeps(r);
      case DoCancel(id) => CancelKeeps(r, id);
      case _ => OtherKeeps(r, step);
    }
    AllMakeInv(Apply(r, step));
  }

  lemma AllMakeInv(r: Run)
    requires EventsOk(r) && DestroyOk(r.sim) && HistoryOk(r)
    ensures Inv(r)
  {
  }

  lemma DestroyStep(r: Run, step: Step)
    requires Inv(r) && Enabled(r, step)
    ensures DestroyOk(Apply(r, step).sim)
  {
    hide EventsOk, DestroyOk, HistoryOk, InsertOrdered, IsExpired, WithoutUid, WithoutId, KnownId;
    var s, t := r.sim, Apply(r, step).sim;
    match step {
      case DoPop => HeadIsAhead(r);
      case DoRemove(id) => WithoutIdSubset(s.destroyEvents, id);
      case _ =>
    }
    DestroyOkCong(s, t);
  }

  lemma HeadIsAhead(r: Run)
    requires Inv(r) && r.sim.queue != []
    ensures r.sim.currentTs <= r.sim.queue[0].key.ts
  {
    hide QueueOk, IdsOk, OrderOk, Conserved, HandOffOk, DestroyOk, HistoryOk;
    HeadNotBefore(r.sim);
  }

  lemma DestroyOkCong(s: Sim, t: Sim)
    requires DestroyOk(s) && s.currentTs <= t.currentTs
    requires forall id :: id in t.destroyEvents ==> id in s.destroyEvents || id.key.ts <= t.currentTs
    ensures DestroyOk(t)
  {
  }

  lemma HistoryStep(r: Run, step: Step)
    requires Inv(r) && Enabled(r, step)
    ensures HistoryOk(Apply(r, step))
  {
    hide EventsOk, DestroyOk, Apply, Enabled, DestroyListOk, LiveOk, CountsOk;
    DestroyListStep(r, step);
    LiveStep(r, step);
    CountsStep(r, step);
  }

  lemma DestroyListStep(r: Run, step: Step)
    requires DestroyListOk(r) && Enabled(r, step)
    ensures DestroyListOk(Apply(r, step))
  {
    hide DestroyListOk, InsertOrdered, IsExpired, WithoutUid, WithoutId, KnownId;
    var r' := Apply(r, step);
    match step {
      case DoScheduleDestroy(impl) => DestroyListed(r, r', ScheduleDestroy(r.sim, impl).1);
      case DoRemove(id) =>
        if id.key.uid == UID_DESTROY { DestroyUnlisted(r, r', id); } else { DestroyCong(r, r'); }
      case _ => DestroyCong(r, r');
    }
  }

  lemma DestroyCong(r: Run, r': Run)
    requires DestroyListOk(r) && r'.sim.destroyEvents == r.sim.destroyEvents
    requires r'.destroyIssued == r.destroyIssued && r'.destroyRemoved == r.destroyRemoved
    ensures DestroyListOk(r')
  {
  }

  lemma DestroyListed(r: Run, r': Run, id: EventId)
    requires DestroyListOk(r) && r'.sim.destroyEvents == r.sim.destroyEvents + [id]
    requires r'.destroyIssued == r.destroyIssued + [id] && r'.destroyRemoved == r.destroyRemoved
    ensures DestroyListOk(r')
  {
    hide PartInOrder;
    PartSnoc(r.sim.destroyEvents, r.destroyIssued, id);
  }

  lemma DestroyUnlisted(r: Run, r': Run, id: EventId)
    requires DestroyListOk(r) && r'.sim.destroyEvents == WithoutId(r.sim.destroyEvents, id)
    requires r'.destroyIssued == r.destroyIssued
    requires r'.destroyRemoved == r.destroyRemoved + if id in r.sim.destroyEvents then multiset{id} else multiset{}
    ensures DestroyListOk(r')
  {
    hide PartInOrder, WithoutId;
    WithoutIdContents(r.sim.destroyEvents, id);
    PartWithoutId(r.sim.destroyEvents, r.destroyIssued, id);
    assert id in r.sim.destroyEvents <==> id in multiset(r.sim.destroyEvents);
  }

  lemma LiveStep(r: Run, step: Step)
    requires LiveOk(r) && Enabled(r, step)
    ensures LiveOk(Apply(r, step))
  {
    hide InsertOrdered, IsExpired, WithoutUid, WithoutId, KnownId;
  }

  lemma CountsStep(r: Run, step: Step)
    requires CountsOk(r) && Enabled(r, step)
    ensures CountsOk(Apply(r, step))
  {
    hide InsertOrdered, IsExpired, WithoutUid, WithoutId, KnownId;
  }

  lemma {:induction false} PartSnoc(a: seq<EventId>, b: seq<EventId>, id: EventId)
    requires PartInOrder(a, b)
    ensures PartInOrder(a + [id], b + [id])
    decreases |b|
  {
    if b == [] {
      assert PartInOrder([], []);
    } else {
      assert (b + [id])[1..] == b[1..] + [id];
      if a == [] {
        PartSnoc(a, b[1..], id);
      } else if a[0] == b[0] && PartInOrder(a[1..], b[1..]) {
        assert (a + [id])[1..] == a[1..] + [id];
        PartSnoc(a[1..], b[1..], id);
      } else {
        PartSnoc(a, b[1..], id);
      }
    }
  }

  lemma {:induction false} PartTail(a: seq<EventId>, b: seq<EventId>)
    requires a != [] && PartInOrder(a, b)
    ensures PartInOrder(a[1..], b)
    decreases |b|
  {
    if !(a[0] == b[0] && PartInOrder(a[1..], b[1..])) { PartTail(a, b[1..]); }
  }

  lemma {:induction false} PartWithoutId(a: seq<EventId>, b: seq<EventId>, id: EventId)
    requires PartInOrder(a, b)
    ensures PartInOrder(WithoutId(a, id), b)
    decreases |b|
  {
    if a != [] {
      if a[0] == id {
        PartTail(a, b);
      } else if a[0] == b[0] && PartInOrder(a[1..], b[1..]) {
        PartWithoutId(a[1..], b[1..], id);
        assert ([a[0]] + WithoutId(a[1..], id))[1..] == WithoutId(a[1..], id);
      } else {
        PartWithoutId(a, b[1..], id);
      }
    }
  }

  lemma {:induction false} WithoutIdContents(ids: seq<EventId>, id: EventId)
    ensures multiset(WithoutId(ids, id)) == multiset(ids) - multiset{id}
  {
    if ids != [] {
      assert ids == [ids[0]] + ids[1..];
      if ids[0] != id { WithoutIdContents(ids[1..], id); }
    }
  }

  lemma {:induction false} WithoutIdSubset(ids: seq<EventId>, id: EventId)
    ensures forall i :: i in WithoutId(ids, id) ==> i in ids
  {
    if ids != [] { WithoutIdSubset(ids[1..], id); }
  }

  lemma HandedOverToInsert(r: Run)
    requires Enabled(r, DoInsertHandedOver)
    ensures r.sim.handedOver != []
  {
  }

  /** One step of the model, possible and taken. */
  ghost predicate Took(r: Run, step: Step, r': Run) {
    Enabled(r, step) && r' == Apply(r, step)
  }

  /** What one step does to the state and to the parts of the history that matter to handlers. */
  ghost predicate Stepped(r: Run, step: Step, r': Run) {
    && Enabled(r, step) && r'.sim == AfterStep(r.sim, step)
    && r'.issued == (if step.DoSchedule? then r.issued + {Schedule(r.sim, step.delay, step.impl).1} else r.issued)
    && r'.processed == (if step.DoPop? then r.processed + [r.sim.queue[0]] else r.processed)
    && r'.live == (if step.DoPop? then r.live + [r.sim.queue[0].impl !in r.sim.cancelled] else r.live)
    && r'.pushed == (if step.DoPush? then r.pushed + [step.ev] else r.pushed)
    && r'.drainTimes == (if step.DoInsertHandedOver? then r.drainTimes + [r.sim.currentTs] else r.drainTimes)
  }

  lemma TakeStep(r: Run, step: Step) returns (r': Run)
    requires Inv(r) && Enabled(r, step)
    ensures Inv(r') && Took(r, step, r') && Stepped(r, step, r')
  {
    hide Inv, AfterStep;
    StepKeepsInv(r, step);
    r' := Apply(r, step);
  }

  /** The time left until a queued event is not negative, and a destroy event's time is never still to come. */
  lemma DelayLeftBounds(r: Run, id: EventId)
    requires Inv(r)
    ensures id in r.issued ==> GetDelayLeft(r.sim, id) >= 0
    ensures id.key.uid == UID_DESTROY ==> GetDelayLeft(r.sim, id) <= 0
  {
    hide QueueOk, OrderOk, Conserved, HandOffOk;
    if id in r.issued { assert IdOk(r.sim, id); }
  }

  // ---------------------------------------------------------------- whole runs

  /** `steps` can be taken one after the other from `r`. */
  ghost predicate CanRun(r: Run, steps: seq<Step>)
    decreases steps
  {
    steps == [] || (Enabled(r, steps[0]) && CanRun(Apply(r, steps[0]), steps[1..]))
  }

  ghost function RunAll(r: Run, steps: seq<Step>): Run
    requires CanRun(r, steps)
    decreases steps
  {
    if steps == [] then r else RunAll(Apply(r, steps[0]), steps[1..])
  }

  lemma {:induction false} RunKeepsInv(r: Run, steps: seq<Step>)
    requires Inv(r) && CanRun(r, steps)
    ensures Inv(RunAll(r, steps))
    decreases steps
  {
    hide Inv, Apply;
    if steps != [] {
      StepKeepsInv(r, steps[0]);
      RunKeepsInv(Apply(r, steps[0]), steps[1..]);
    }
  }

  /** In every reachable state the expiry test is exact for every identifier Schedule has returned. */
  lemma ReachableExpiry(steps: seq<Step>, id: EventId)
    requires CanRun(START, steps) && id in RunAll(START, steps).issued
    ensures var s := RunAll(START, steps).sim;
            id.impl.Some? && (!IsExpired(s, id) <==> EventOf(id) in s.queue && id.impl.value !in s.cancelled)
  {
    hide QueueOk, IdsOk, IsExpired, Apply, OrderOk, Conserved, HandOffOk;
    StartInv();
    RunKeepsInv(START, steps);
    var r := RunAll(START, steps);
    IssuedHasObject(r.sim, r.issued, id);
    ExpiredExactly(r.sim, r.issued, id);
  }

  /**
   * In every reachable state an identifier of a destroy event is unexpired exactly while ScheduleDestroy has returned
   * it more often than it was removed and its object is not cancelled.
   */
  lemma ReachableDestroyExpiry(steps: seq<Step>, id: EventId)
    requires CanRun(START, steps) && id.key.uid == UID_DESTROY && id.impl.Some?
    ensures var r := RunAll(START, steps);
            !IsExpired(r.sim, id)
            <==> multiset(r.destroyIssued)[id] > r.destroyRemoved[id] && id.impl.value !in r.sim.cancelled
  {
    hide EventsOk, DestroyOk, PartInOrder, LiveOk, CountsOk, Apply;
    StartInv();
    RunKeepsInv(START, steps);
    var r := RunAll(START, steps);
    assert id in r.sim.destroyEvents <==> multiset(r.sim.destroyEvents)[id] > 0;
  }

  /** Its identifier is made for it, in the present, and lives unless the object is cancelled already. */
  lemma DestroyEventLives(r: Run, impl: nat)
    requires Inv(r)
    ensures var (s, id) := ScheduleDestroy(r.sim, impl);
            && id == EventId(Some(impl), EventKey(r.sim.currentTs, 2, 0xFFFF_FFFF))
            && (IsExpired(s, id) <==> impl in r.sim.cancelled)
            && s.destroyEvents == r.sim.destroyEvents + [id] && s.queue == r.sim.queue
  {
  }

  /** Removing a destroy event's identifier expires it exactly when it was listed once. */
  lemma RemovedDestroyEvent(r: Run, id: EventId)
    requires Inv(r) && id.key.uid == UID_DESTROY && !IsExpired(r.sim, id)
    ensures IsExpired(Remove(r.sim, id), id) <==> multiset(r.destroyIssued)[id] == r.destroyRemoved[id] + 1
  {
    hide EventsOk, DestroyOk, PartInOrder, LiveOk, CountsOk, WithoutId;
    var ids := r.sim.destroyEvents;
    WithoutIdContents(ids, id);
    assert id in WithoutId(ids, id) <==> multiset(WithoutId(ids, id))[id] > 0;
    assert id in ids && multiset(ids)[id] > 0;
  }

  /** Cancelling or removing an event expires its identifier, and none that names another object. */
  lemma OnlyThatObjectExpires(r: Run, id: EventId, other: EventId)
    requires Inv(r) && KnownId(r, id)
    ensures IsExpired(Cancel(r.sim, id), id) && (id.key.uid != UID_DESTROY ==> IsExpired(Remove(r.sim, id), id))
    ensures other.impl != id.impl ==>
              && (IsExpired(Cancel(r.sim, id), other) <==> IsExpired(r.sim, other))
              && (IsExpired(Remove(r.sim, id), other) <==> IsExpired(r.sim, other))
  {
    hide Inv, WithoutUid, WithoutId;
    WithoutIdOthers(r.sim.destroyEvents, id, other);
  }

  lemma {:induction false} WithoutIdOthers(ids: seq<EventId>, id: EventId, other: EventId)
    ensures other != id ==> (other in WithoutId(ids, id) <==> other in ids)
  {
    if ids != [] && ids[0] != id { WithoutIdOthers(ids[1..], id, other); }
    if ids != [] { assert ids == [ids[0]] + ids[1..]; }
  }

  lemma {:induction false} IssuedGrows(r: Run, steps: seq<Step>)
    requires CanRun(r, steps)
    ensures r.issued <= RunAll(r, steps).issued
    decreases steps
  {
    hide AfterStep, KnownId;
    if steps != [] { IssuedGrows(Apply(r, steps[0]), steps[1..]); }
  }

  /**
   * From the call of Schedule on, through whatever steps: as long as the event is queued and not cancelled, what is
   * left is the delay less the time that has passed, and afterwards nothing.
   */
  lemma DelayRunsDown(r: Run, delay: nat, impl: nat, steps: seq<Step>)
    requires Inv(r) && Enabled(r, DoSchedule(delay, impl)) && CanRun(Apply(r, DoSchedule(delay, impl)), steps)
    ensures var id, s := Schedule(r.sim, delay, impl).1, RunAll(Apply(r, DoSchedule(delay, impl)), steps).sim;
            && id.impl == Some(impl)
            && GetDelayLeft(s, id) == if Event(impl, id.key) in s.queue && impl !in s.cancelled
                                      then delay - (s.currentTs - r.sim.currentTs) else 0
  {
    hide QueueOk, IdsOk, OrderOk, Conserved, HandOffOk, DestroyOk, HistoryOk, IsExpired, InsertOrdered, RunAll, CanRun;
    var id, r1 := Schedule(r.sim, delay, impl).1, Apply(r, DoSchedule(delay, impl));
    StepKeepsInv(r, DoSchedule(delay, impl));
    RunKeepsInv(r1, steps);
    IssuedGrows(r1, steps);
    var r2 := RunAll(r1, steps);
    ExpiredExactly(r2.sim, r2.issued, id);
  }

  lemma IssuedHasObject(s: Sim, issued: set<EventId>, id: EventId)
    requires IdsOk(s, issued) && id in issued
    ensures id.impl.Some?
  {
    assert IdOk(s, id);
  }

  /** In every reachable state the processed events are in strictly increasing order and all queued ones come after. */
  lemma ReachableOrder(steps: seq<Step>)
    requires CanRun(START, steps)
    ensures var r := RunAll(START, steps);
            && (forall i, j :: 0 <= i < j < |r.processed| ==>
                  var a, b := r.processed[i].key, r.processed[j].key;
                  a.ts < b.ts || (a.ts == b.ts && a.uid < b.uid))
            && (forall p, e :: p in r.processed && e in r.sim.queue ==> Before(p, e))
            && (forall e :: e in r.sim.queue ==> KeyLess(CurrentKey(r.sim), e.key))
            && (r.processed != [] ==> r.processed[|r.processed| - 1].key == CurrentKey(r.sim))
  {
    hide IdsOk, Apply, Conserved, HandOffOk;
    StartInv();
    RunKeepsInv(START, steps);
    var r := RunAll(START, steps);
    forall e | e in r.sim.queue
      ensures AfterCurrent(r.sim, e)
    {
    }
  }

  /** In every reachable state the counter is the size of the queue, and no event is lost or used twice. */
  lemma ReachableCounts(steps: seq<Step>)
    requires CanRun(START, steps)
    ensures var r := RunAll(START, steps);
            && r.sim.unscheduled == |r.sim.queue|
            && r.inserted == multiset(r.sim.queue) + multiset(r.processed) + r.removed
            && DistinctUids(r.inserted)
            && r.sim.eventCount == |r.processed|
            && r.sim.uid == 4 + |r.inserted| + |r.destroyIssued|
  {
    hide IdsOk, Apply, OrderOk, HandOffOk;
    StartInv();
    RunKeepsInv(START, steps);
  }

  /** Under any interleaving each pushed event is inserted at most once, in push order, and none is lost. */
  lemma ReachableHandOff(steps: seq<Step>)
    requires CanRun(START, steps)
    ensures HandOffOk(RunAll(START, steps))
  {
    hide QueueOk, IdsOk, Apply, OrderOk, Conserved;
    StartInv();
    RunKeepsInv(START, steps);
  }
}
