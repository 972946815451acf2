/** A queue as its user sees it: which kind it is does not show, only the sorted list it stands for. */
module AnyQueue {
  import opened Scheduler
  import opened ListQueue
  import opened HeapQueue
  import opened CalendarQueue
  import CalendarBuckets

  const MAX_TS: nat := CalendarBuckets.MAX_TS

  datatype Kind = ListKind | CalendarKind(reverse: bool) | HeapKind

  datatype Queue = List(list: ListScheduler) | Calendar(calendar: CalendarScheduler) | Heap(heap: HeapScheduler)

  /** What every queue stands for: a sorted list of distinct events with timestamps a queue can hold. */
  ghost predicate Listed(s: seq<Event>) {
    Sorted(s) && DistinctUids(multiset(s)) && forall e :: e in s ==> e.key.ts < MAX_TS
  }

  class AnyScheduler {
    const queue: Queue
    ghost var events: seq<Event>
    ghost var Repr: set<object>

    ghost predicate Valid()
      reads this, Repr
    {
      && this in Repr && Listed(events)
      && match queue
         case List(l) => l in Repr && Repr == {this, l} && l.Valid() && l.events == events
         case Calendar(c) =>
           && c in Repr && c.buckets in Repr && Repr == {this, c, c.buckets}
           && c.Valid() && c.Contents() == multiset(events)
         case Heap(h) => h in Repr && Repr == {this, h} && h.Valid() && h.Contents() == multiset(events)
    }

    predicate IsHeap() {
      queue.Heap?
    }

    /** A calendar queue takes no event earlier than this. */
    ghost function Floor(): nat
      reads this, Repr
      requires Valid()
    {
      match queue
      case List(_) => 0
      case Calendar(c) => c.lastPrio
      case Heap(_) => 0
    }

    /** A heap keeps its order only through some removals; the other kinds allow all of them. */
    predicate CanRemove(uid: nat)
      reads this, Repr
      requires Valid()
    {
      IsHeap() ==> SafeToRemove(queue.heap.heap, uid)
    }

    lemma NotHeapCanRemove(uid: nat)
      requires Valid()
      ensures !IsHeap() ==> CanRemove(uid)
    {
    }

    constructor (kind: Kind)
      ensures Valid() && fresh(Repr) && events == [] && Floor() == 0
      ensures IsHeap() <==> kind.HeapKind?
    {
      match kind {
        case ListKind =>
          var l := new ListScheduler();
          queue := List(l);
          Repr := {this, l};
        case CalendarKind(reverse) =>
          var c := new CalendarScheduler(reverse);
          queue := Calendar(c);
          Repr := {this, c, c.buckets};
        case HeapKind =>
          var h := new HeapScheduler();
          queue := Heap(h);
          Repr := {this, h};
      }
      events := [];
    }

    method Insert(ev: Event)
      requires Valid() && Floor() <= ev.key.ts < MAX_TS && FreshUid(multiset(events), ev.key.uid)
      modifies Repr
      ensures Valid() && fresh(Repr - old(Repr)) && Floor() == old(Floor())
      ensures events == InsertOrdered(false, old(events), ev)
    {
      hide Listed, DistinctUids, Least, HeapOrdered, Stored, ListScheduler.Valid, CalendarScheduler.Valid,
           CalendarScheduler.Contents, InsertOrdered, FreshUid;
      ListedInsert(events, ev);
      match queue {
        case List(l) =>
          l.Insert(ev);
        case Calendar(c) =>
          c.Insert(ev);
          Repr := {this, c, c.buckets};
        case Heap(h) =>
          h.Insert(ev);
      }
      events := InsertOrdered(false, events, ev);
    }

    method IsEmpty() returns (empty: bool)
      requires Valid()
      ensures empty <==> events == []
    {
      hide Listed;
      assert events != [] ==> events[0] in multiset(events);
      match queue {
        case List(l) => empty := l.IsEmpty();
        case Calendar(c) => empty := c.IsEmpty();
        case Heap(h) => empty := h.IsEmpty();
      }
    }

    method RemoveNext() returns (next: Event)
      requires Valid() && events != []
      modifies Repr
      ensures Valid() && fresh(Repr - old(Repr)) && Floor() <= next.key.ts < MAX_TS
      ensures [next] + events == old(events)
    {
      match queue {
        case List(l) => next := RemoveFromList(l);
        case Calendar(c) => next := RemoveFromCalendar(c);
        case Heap(h) => next := RemoveFromHeap(h);
      }
    }

    method RemoveFromList(l: ListScheduler) returns (next: Event)
      requires Valid() && queue == List(l) && events != []
      modifies Repr
      ensures Valid() && fresh(Repr - old(Repr)) && Floor() <= next.key.ts < MAX_TS
      ensures [next] + events == old(events)
    {
      hide Listed, DistinctUids, Least, HeapOrdered, Stored, ListScheduler.Valid, CalendarScheduler.Valid,
           CalendarScheduler.Contents;
      ListedTail(events);
      next := l.RemoveNext();
      TailIsRest(next, l.events, events);
      events := l.events;
    }

    method RemoveFromCalendar(c: CalendarScheduler) returns (next: Event)
      requires Valid() && queue == Calendar(c) && events != []
      modifies Repr
      ensures Valid() && fresh(Repr - old(Repr)) && Floor() <= next.key.ts < MAX_TS
      ensures [next] + events == old(events)
    {
      hide Listed, DistinctUids, Least, HeapOrdered, Stored, ListScheduler.Valid, CalendarScheduler.Valid,
           CalendarScheduler.Contents;
      ListedTail(events);
      next := c.RemoveNext();
      LeastIsFirst(events, next, c.Contents());
      Reflect(c, events[1..]);
    }

    method RemoveFromHeap(h: HeapScheduler) returns (next: Event)
      requires Valid() && queue == Heap(h) && events != []
      modifies Repr
      ensures Valid() && fresh(Repr - old(Repr)) && Floor() <= next.key.ts < MAX_TS
      ensures [next] + events == old(events)
    {
      hide Listed, DistinctUids, Least, HeapOrdered, Stored, ListScheduler.Valid, CalendarScheduler.Valid,
           CalendarScheduler.Contents;
      ListedTail(events);
      NonEmptyHeap(h.heap);
      next := h.RemoveNext();
      LeastIsFirst(events, next, h.Contents());
      events := events[1..];
    }

    /** Note what a calendar queue now stands for, and the bucket array it may have replaced. */
    ghost method Reflect(c: CalendarScheduler, s: seq<Event>)
      modifies `Repr, `events
      ensures Repr == {this, c, c.buckets} && events == s
    {
      Repr := {this, c, c.buckets};
      events := s;
    }

    method Remove(ev: Event)
      requires Valid() && ev in events && CanRemove(ev.key.uid)
      modifies Repr
      ensures Valid() && fresh(Repr - old(Repr)) && Floor() == old(Floor())
      ensures events == WithoutUid(old(events), ev.key.uid)
    {
      match queue {
        case List(l) => TakeFromList(l, ev);
        case Calendar(c) => TakeFromCalendar(c, ev);
        case Heap(h) => TakeFromHeap(h, ev);
      }
    }

    method TakeFromList(l: ListScheduler, ev: Event)
      requires Valid() && queue == List(l) && ev in events
      modifies Repr
      ensures Valid() && fresh(Repr - old(Repr)) && Floor() == old(Floor())
      ensures events == WithoutUid(old(events), ev.key.uid)
    {
      hide Listed, DistinctUids, Least, ListScheduler.Valid, WithoutUid;
      ListedRemove(events, ev);
      var found := l.Remove(ev);
      events := l.events;
    }

    method TakeFromCalendar(c: CalendarScheduler, ev: Event)
      requires Valid() && queue == Calendar(c) && ev in events
      modifies Repr
      ensures Valid() && fresh(Repr - old(Repr)) && Floor() == old(Floor())
      ensures events == WithoutUid(old(events), ev.key.uid)
    {
      hide Listed, DistinctUids, Least, CalendarScheduler.Valid, CalendarScheduler.Contents, WithoutUid;
      ListedRemove(events, ev);
      ghost var rest := WithoutUid(events, ev.key.uid);
      var found := c.Remove(ev);
      assert c.Contents() == multiset(rest);
      Reflect(c, rest);
    }

    method TakeFromHeap(h: HeapScheduler, ev: Event)
      requires Valid() && queue == Heap(h) && ev in events && CanRemove(ev.key.uid)
      modifies Repr
      ensures Valid() && fresh(Repr - old(Repr)) && Floor() == old(Floor())
      ensures events == WithoutUid(old(events), ev.key.uid)
    {
      hide Listed, DistinctUids, Least, HeapOrdered, Stored, WithoutUid;
      ListedRemove(events, ev);
      EntryOf(h.heap, ev);
      var found := h.Remove(ev);
      events := WithoutUid(events, ev.key.uid);
    }

    /** Both queues are sound and apart, and together they hold the sorted list `all`, this one its beginning. */
    ghost predicate TakingFrom(other: AnyScheduler, all: seq<Event>)
      reads this, Repr, other, other.Repr
    {
      && Valid() && other.Valid() && Repr !! other.Repr && this in Repr && other in other.Repr
      && Floor() == 0 && events + other.events == all
    }

    /** Move everything out of another queue into this empty one. */
    method TakeAll(other: AnyScheduler)
      requires Valid() && other.Valid() && Repr !! other.Repr && events == [] && Floor() == 0
      modifies Repr, other.Repr
      ensures Valid() && fresh(Repr - old(Repr)) && Floor() == 0 && events == old(other.events)
    {
      hide Listed, Valid, Floor;
      ghost var all := other.events;
      ValidIsListed(this);
      ValidIsListed(other);
      var empty := other.IsEmpty();
      while !empty
        invariant TakingFrom(other, all) && (empty <==> other.events == [])
        invariant fresh(Repr - old(Repr)) && fresh(other.Repr - old(other.Repr))
        decreases |other.events|
      {
        TakeNext(other, all);
        empty := other.IsEmpty();
      }
    }

    method TakeNext(other: AnyScheduler, ghost all: seq<Event>)
      requires TakingFrom(other, all) && other.events != []
      requires Listed(all)
      modifies Repr, other.Repr
      ensures TakingFrom(other, all) && |other.events| < old(|other.events|)
      ensures fresh(Repr - old(Repr)) && fresh(other.Repr - old(other.Repr))
    {
      hide Listed, InsertOrdered, FreshUid, Valid, Floor;
      var next := other.RemoveNext();
      NextFollows(all, events, next, other.events);
      Insert(next);
      ValidIsListed(this);
      ValidIsListed(other);
    }
  }

  // ---------------------------------------------------------------- small facts

  lemma ValidIsListed(q: AnyScheduler)
    requires q.Valid()
    ensures q in q.Repr && Listed(q.events)
  {
  }

  lemma NextFollows(all: seq<Event>, moved: seq<Event>, next: Event, rest: seq<Event>)
    requires Listed(all) && moved + ([next] + rest) == all
    ensures InsertOrdered(false, moved, next) == moved + [next] && moved + [next] + rest == all
    ensures FreshUid(multiset(moved), next.key.uid) && next.key.ts < MAX_TS
  {
    hide Listed, InsertOrdered;
    var n := |moved|;
    ListedAt(all, n);
    assert all[n] == next && all[..n] == moved;
    InsertOrderedAt(false, moved, next, n);
    assert moved[..n] == moved && moved[n..] == [];
  }

  lemma ListedAt(all: seq<Event>, n: nat)
    requires Listed(all) && n < |all|
    ensures forall k :: 0 <= k < n ==> !Order(false, all[n], all[..n][k])
    ensures FreshUid(multiset(all[..n]), all[n].key.uid) && all[n].key.ts < MAX_TS
  {
    hide DistinctUids;
    forall e | e in multiset(all[..n])
      ensures e.key.uid != all[n].key.uid
    {
      var k :| 0 <= k < n && all[..n][k] == e;
      DistinctPositions(all, k, n);
    }
  }

  lemma ListedInsert(s: seq<Event>, ev: Event)
    requires Listed(s) && ev.key.ts < MAX_TS && FreshUid(multiset(s), ev.key.uid)
    ensures var t := InsertOrdered(false, s, ev);
            Listed(t) && multiset(t) == multiset(s) + multiset{ev}
  {
    hide InsertOrdered, SortedBy;
    InsertOrderedSorted(false, s, ev);
    InsertOrderedContents(false, s, ev);
    DistinctAfterInsert(multiset(s), ev);
    forall e | e in InsertOrdered(false, s, ev)
      ensures e.key.ts < MAX_TS
    {
      assert e in multiset(InsertOrdered(false, s, ev));
    }
  }

  lemma ListedRemove(s: seq<Event>, ev: Event)
    requires Listed(s) && ev in s
    ensures var t := WithoutUid(s, ev.key.uid);
            Listed(t) && multiset(t) == multiset(s) - multiset{ev}
    ensures DistinctUids(multiset(s)) && ev in multiset(s)
  {
    hide SortedBy;
    UidFindsEvent(s, ev);
    var i := IndexOfUid(s, ev.key.uid);
    WithoutIndexSorted(false, s, i);
    WithoutIndexContents(s, i);
    DistinctAfterRemove(multiset(s), ev);
  }

  lemma ListedTail(s: seq<Event>)
    requires Listed(s) && s != []
    ensures Listed(s[1..]) && s[0].key.ts < MAX_TS && s[0] in multiset(s)
  {
    SortedHeadIsLeast(s);
    DistinctAfterRemove(multiset(s), s[0]);
  }

  lemma TailIsRest(next: Event, rest: seq<Event>, s: seq<Event>)
    requires [next] + rest == s
    ensures rest == s[1..] && next == s[0]
  {
  }

  lemma LeastIsFirst(s: seq<Event>, next: Event, m: multiset<Event>)
    requires Listed(s) && s != [] && Least(next, multiset(s)) && m == multiset(s) - multiset{next}
    ensures [next] + s[1..] == s && m == multiset(s[1..])
  {
    hide SortedBy, Least;
    SortedHeadIsLeast(s);
    LeastIsUnique(next, s[0], multiset(s));
  }
}
