/** The event list kept sorted by linear insertion. */
module ListQueue {
  import opened Scheduler

  class ListScheduler {
    var events: seq<Event>

    ghost predicate Valid()
      reads this
    {
      Sorted(events)
    }

    constructor ()
      ensures Valid() && events == []
    {
      events := [];
    }

    method Insert(ev: Event)
      requires Valid()
      modifies this
      ensures Valid() && events == InsertOrdered(false, old(events), ev)
    {
      InsertOrderedSorted(false, events, ev);
      var i := 0;
      while i < |events|
        invariant 0 <= i <= |events| && events == old(events)
        invariant forall k :: 0 <= k < i ==> !Order(false, ev, events[k])
      {
        if KeyLess(ev.key, events[i].key) {
          InsertOrderedAt(false, events, ev, i);
          events := events[..i] + [ev] + events[i..];
          return;
        }
        i := i + 1;
      }
      InsertOrderedAt(false, events, ev, i);
      assert events[..i] == events && events[i..] == [];
      events := events + [ev];
    }

    method IsEmpty() returns (empty: bool)
      ensures empty <==> events == []
    {
      empty := |events| == 0;
    }

    method PeekNext() returns (next: Event)
      requires Valid() && events != []
      ensures next == events[0] && Least(next, multiset(events))
    {
      SortedHeadIsLeast(events);
      next := events[0];
    }

    method RemoveNext() returns (next: Event)
      requires Valid() && events != []
      modifies this
      ensures Valid() && [next] + events == old(events)
      ensures Least(next, multiset(old(events))) && multiset(events) == multiset(old(events)) - multiset{next}
    {
      SortedHeadIsLeast(events);
      next := events[0];
      events := events[1..];
    }

    /** False where the source fails an assertion because no stored event has the uid. */
    method Remove(ev: Event) returns (found: bool)
      requires Valid()
      modifies this
      ensures Valid() && events == WithoutUid(old(events), ev.key.uid)
      ensures found <==> exists e :: e in old(events) && e.key.uid == ev.key.uid
    {
      var i := 0;
      ghost var at := IndexOfUid(events, ev.key.uid);
      while i < |events|
        invariant 0 <= i <= at && events == old(events)
      {
        if events[i].key.uid == ev.key.uid {
          WithoutIndexSorted(false, events, i);
          assert events[i] in old(events);
          events := WithoutIndex(events, i);
          return true;
        }
        i := i + 1;
      }
      found := false;
    }
  }
}
