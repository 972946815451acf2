/** The event queue as a binary heap whose entries start at index one. */
module HeapQueue {
  import opened Scheduler

  const DUMMY := Event(0, EventKey(0, 0, 0))

  /** Every entry below the root is not before its parent. */
  ghost predicate HeapOrdered(h: seq<Event>) {
    forall i :: 2 <= i < |h| ==> !Before(h[i], h[i / 2])
  }

  ghost function Stored(h: seq<Event>): multiset<Event>
    requires |h| >= 1
  {
    multiset(h[1..])
  }

  lemma {:induction false} RootNotAfter(h: seq<Event>, i: nat)
    requires HeapOrdered(h) && 1 <= i < |h|
    ensures !Before(h[i], h[1])
  {
    if i > 1 {
      RootNotAfter(h, i / 2);
    }
  }

  lemma RootIsLeast(h: seq<Event>)
    requires HeapOrdered(h) && |h| > 1
    ensures Least(h[1], Stored(h))
  {
    assert h[1] == h[1..][0];
    forall e | e in Stored(h)
      ensures !Before(e, h[1])
    {
      assert e in h[1..];
      var k :| 0 <= k < |h[1..]| && h[1..][k] == e;
      RootNotAfter(h, k + 1);
    }
  }

  lemma SwapKeepsStored(h: seq<Event>, a: nat, b: nat)
    requires 1 <= a < |h| && 1 <= b < |h|
    ensures Stored(h[a := h[b]][b := h[a]]) == Stored(h)
  {
    var t := h[1..];
    assert h[a := h[b]][b := h[a]][1..] == t[a - 1 := t[b - 1]][b - 1 := t[a - 1]];
  }

  /** Order holds everywhere except between `index` and its parent. */
  ghost predicate OrderedUpTo(h: seq<Event>, index: nat) {
    && (forall i :: 2 <= i < |h| && i != index ==> !Before(h[i], h[i / 2]))
    && (forall i :: 2 <= i < |h| && i / 2 == index && index >= 2 ==> !Before(h[i], h[index / 2]))
  }

  lemma SwapUp(h: seq<Event>, index: nat)
    requires 2 <= index < |h| && OrderedUpTo(h, index) && Before(h[index], h[index / 2])
    ensures OrderedUpTo(h[index := h[index / 2]][index / 2 := h[index]], index / 2)
  {
    var g := h[index := h[index / 2]][index / 2 := h[index]];
    forall i | 2 <= i < |g| && i != index / 2
      ensures !Before(g[i], g[i / 2])
    {
      assert !Before(h[i], h[i / 2]) || i == index;
    }
    forall i | 2 <= i < |g| && i / 2 == index / 2 && index / 2 >= 2
      ensures !Before(g[i], g[index / 2 / 2])
    {
      assert !Before(h[index / 2], h[index / 2 / 2]);
      assert !Before(h[i], h[i / 2]) || i == index;
    }
  }

  /** Order holds everywhere except around `index`, and the entry at `start` may be before its parent. */
  ghost predicate OrderedDownTo(h: seq<Event>, start: nat, index: nat) {
    && (forall i :: 2 <= i < |h| && i / 2 != index && i != start ==> !Before(h[i], h[i / 2]))
    && (forall i :: 2 <= i < |h| && i / 2 == index && index >= 2 ==> !Before(h[i], h[index / 2]))
  }

  predicate IsSmallestChild(h: seq<Event>, index: nat, child: nat) {
    && 1 <= index < child < |h| && child / 2 == index
    && forall i :: 2 <= i < |h| && i / 2 == index ==> !Before(h[i], h[child])
  }

  lemma SwapDown(h: seq<Event>, start: nat, index: nat, child: nat)
    requires 1 <= start <= index && OrderedDownTo(h, start, index)
    requires IsSmallestChild(h, index, child) && !Before(h[index], h[child])
    ensures OrderedDownTo(h[index := h[child]][child := h[index]], start, child)
  {
    var g := h[index := h[child]][child := h[index]];
    forall i | 2 <= i < |g| && i / 2 != child && i != start
      ensures !Before(g[i], g[i / 2])
    {
      if i / 2 == index {
        assert !Before(h[i], h[child]);
      } else if i == index {
        assert !Before(h[child], h[index / 2]);
      } else {
        assert !Before(h[i], h[i / 2]);
      }
    }
    forall i | 2 <= i < |g| && i / 2 == child
      ensures !Before(g[i], g[child / 2])
    {
      assert i != start && !Before(h[i], h[i / 2]);
    }
  }

  /** The entry at `start`, if there is one, is not before its parent. */
  predicate FitsBelowParent(h: seq<Event>, start: nat) {
    start <= 1 || start >= |h| || !Before(h[start], h[start / 2])
  }

  lemma OrderRestored(h: seq<Event>, start: nat, index: nat)
    requires 1 <= start <= index && OrderedDownTo(h, start, index)
    requires forall i :: 2 <= i < |h| && i / 2 == index ==> !Before(h[i], h[index])
    ensures HeapOrdered(h) <==> FitsBelowParent(h, start)
  {
  }

  /** Moving a child up cannot change whether the entry at `start` fits: if it was before its parent, nothing moves. */
  lemma SwapDownFits(h: seq<Event>, start: nat, index: nat, child: nat)
    requires 1 <= start <= index && OrderedDownTo(h, start, index)
    requires IsSmallestChild(h, index, child) && !Before(h[index], h[child])
    ensures FitsBelowParent(h[index := h[child]][child := h[index]], start) <==> FitsBelowParent(h, start)
  {
  }

  lemma SmallestIsSmallest(h: seq<Event>, index: nat)
    requires 1 <= index && 2 * index + 1 < |h|
    ensures IsSmallestChild(h, index, if Before(h[2 * index], h[2 * index + 1]) then 2 * index else 2 * index + 1)
  {
  }

  lemma OnlyChildIsSmallest(h: seq<Event>, index: nat)
    requires 1 <= index && 2 * index + 1 == |h|
    ensures IsSmallestChild(h, index, 2 * index)
  {
  }

  lemma StopHere(h: seq<Event>, start: nat, index: nat, child: nat)
    requires 1 <= start <= index && OrderedDownTo(h, start, index)
    requires IsSmallestChild(h, index, child) && Before(h[index], h[child])
    ensures HeapOrdered(h) <==> FitsBelowParent(h, start)
  {
    OrderRestored(h, start, index);
  }

  class HeapScheduler {
    var heap: seq<Event>

    ghost predicate Shape()
      reads this
    {
      |heap| >= 1
    }

    ghost predicate Valid()
      reads this
    {
      Shape() && HeapOrdered(heap)
    }

    ghost function Contents(): multiset<Event>
      requires Shape()
      reads this
    {
      Stored(heap)
    }

    constructor ()
      ensures Valid() && Contents() == multiset{}
    {
      heap := [DUMMY];
    }

    predicate IsBottom(id: nat)
      reads this
    {
      id >= |heap|
    }

    function Smallest(a: nat, b: nat): nat
      requires a < |heap| && b < |heap|
      reads this
    {
      if Before(heap[a], heap[b]) then a else b
    }

    method Exch(a: nat, b: nat)
      requires 1 <= a < |heap| && 1 <= b < |heap|
      modifies this
      ensures heap == old(heap)[a := old(heap)[b]][b := old(heap)[a]]
      ensures Stored(heap) == Stored(old(heap))
    {
      SwapKeepsStored(heap, a, b);
      var tmp := heap[a];
      heap := heap[a := heap[b]];
      heap := heap[b := tmp];
    }

    method BottomUp()
      requires |heap| >= 2 && HeapOrdered(heap[..|heap| - 1])
      modifies this
      ensures Valid() && |heap| == |old(heap)| && Contents() == Stored(old(heap))
    {
      var index := |heap| - 1;
      assert OrderedUpTo(heap, index) by {
        forall i | 2 <= i < |heap| && i != index
          ensures !Before(heap[i], heap[i / 2])
        {
          assert heap[..index][i] == heap[i] && heap[..index][i / 2] == heap[i / 2];
        }
      }
      while index != 1 && Before(heap[index], heap[index / 2])
        invariant |heap| == |old(heap)| && 1 <= index < |heap|
        invariant OrderedUpTo(heap, index)
        invariant Stored(heap) == Stored(old(heap))
      {
        SwapUp(heap, index);
        Exch(index, index / 2);
        index := index / 2;
      }
    }

    /**
     * Sift the entry at `start` down. Nothing is ever moved above `start`, so order is restored if and only if
     * that entry was not before its parent to begin with.
     */
    method TopDown(start: nat)
      requires Shape() && start >= 1 && OrderedDownTo(heap, start, start)
      modifies this
      ensures Shape() && |heap| == |old(heap)| && Contents() == Stored(old(heap))
      ensures HeapOrdered(heap) <==> FitsBelowParent(old(heap), start)
    {
      hide HeapOrdered, OrderedDownTo, Stored, FitsBelowParent, IsSmallestChild, Before;
      var index := start;
      var right := index * 2 + 1;
      while !IsBottom(right)
        invariant right == 2 * index + 1 && start <= index
        invariant |heap| == |old(heap)| && Stored(heap) == Stored(old(heap))
        invariant OrderedDownTo(heap, start, index)
        invariant FitsBelowParent(heap, start) <==> FitsBelowParent(old(heap), start)
        decreases |heap| - index
      {
        var left := index * 2;
        var tmp := Smallest(left, right);
        SmallestIsSmallest(heap, index);
        if Before(heap[index], heap[tmp]) {
          StopHere(heap, start, index, tmp);
          return;
        }
        SwapDownFits(heap, start, index, tmp);
        SwapDown(heap, start, index, tmp);
        Exch(index, tmp);
        index := tmp;
        right := index * 2 + 1;
      }
      if IsBottom(index) {
        OrderRestored(heap, start, index);
        return;
      }
      var left := index * 2;
      if IsBottom(left) {
        OrderRestored(heap, start, index);
        return;
      }
      OnlyChildIsSmallest(heap, index);
      if Before(heap[index], heap[left]) {
        StopHere(heap, start, index, left);
        return;
      }
      SwapDownFits(heap, start, index, left);
      SwapDown(heap, start, index, left);
      Exch(index, left);
      OrderRestored(heap, start, left);
    }

    method Insert(ev: Event)
      requires Valid()
      modifies this
      ensures Valid() && Contents() == old(Contents()) + multiset{ev}
    {
      ghost var before := heap;
      heap := heap + [ev];
      assert heap[1..] == before[1..] + [ev] && heap[..|heap| - 1] == before;
      BottomUp();
    }

    method IsEmpty() returns (empty: bool)
      requires Shape()
      ensures empty <==> Contents() == multiset{}
    {
      empty := |heap| == 1;
      assert |heap| > 1 ==> heap[1] in heap[1..];
    }

    method PeekNext() returns (next: Event)
      requires Valid() && |heap| > 1
      ensures Least(next, Contents())
    {
      RootIsLeast(heap);
      next := heap[1];
    }

    method RemoveNext() returns (next: Event)
      requires Valid() && |heap| > 1
      modifies this
      ensures Valid() && |heap| == |old(heap)| - 1
      ensures Least(next, old(Contents())) && Contents() == old(Contents()) - multiset{next}
    {
      hide HeapOrdered, OrderedDownTo, Stored, Before;
      RootIsLeast(heap);
      RootVacated(heap);
      next := heap[1];
      var last := |heap| - 1;
      Exch(1, last);
      PopLast(heap);
      heap := heap[..last];
      TopDown(1);
    }

    /**
     * Erase the event with the uid. The last entry takes its place and is only ever sifted down, so heap order
     * survives exactly when that entry is not before the parent of the vacated place.
     */
    method Remove(ev: Event) returns (found: bool)
      requires Valid()
      modifies this
      ensures Shape()
      ensures !found ==> heap == old(heap) && FreshUid(Contents(), ev.key.uid)
      ensures found ==>
                var i := IndexOfUid(old(heap)[1..], ev.key.uid) + 1;
                && i < |old(heap)|
                && Contents() == Stored(old(heap)) - multiset{old(heap)[i]}
                && (Valid() <==> SafeToVacate(old(heap), i))
    {
      hide HeapOrdered, OrderedDownTo, Stored, FitsBelowParent, SafeToVacate;
      ghost var at := IndexOfUid(heap[1..], ev.key.uid) + 1;
      var i := 1;
      while i < |heap|
        invariant 1 <= i <= at && heap == old(heap)
      {
        assert heap[1..][i - 1] == heap[i];
        if ev.key.uid == heap[i].key.uid {
          assert i == at;
          var last := |heap| - 1;
          Exch(i, last);
          PopLast(heap);
          heap := heap[..last];
          Vacated(old(heap), heap, i);
          TopDown(i);
          return true;
        }
        i := i + 1;
      }
      NotStored(heap, ev.key.uid);
      found := false;
    }
  }

  /** Whether removing the event with this uid would keep a heap in order; it does if there is none. */
  predicate SafeToRemove(h: seq<Event>, uid: nat)
    requires |h| >= 1
  {
    var i := IndexOfUid(h[1..], uid) + 1;
    i < |h| ==> SafeToVacate(h, i)
  }

  /** The uid of a stored event leads to its entry. */
  lemma EntryOf(h: seq<Event>, ev: Event)
    requires |h| >= 1 && DistinctUids(Stored(h)) && ev in Stored(h)
    ensures var i := IndexOfUid(h[1..], ev.key.uid) + 1;
            i < |h| && h[i] == ev && !FreshUid(Stored(h), ev.key.uid)
  {
    hide DistinctUids;
    assert ev in h[1..];
    UidFindsEvent(h[1..], ev);
  }

  lemma NotStored(h: seq<Event>, uid: nat)
    requires |h| >= 1 && IndexOfUid(h[1..], uid) == |h| - 1
    ensures FreshUid(Stored(h), uid)
  {
  }

  /** What decides whether removing entry `i` keeps the heap ordered. */
  predicate SafeToVacate(h: seq<Event>, i: nat)
    requires 1 <= i < |h|
  {
    i == 1 || i == |h| - 1 || !Before(h[|h| - 1], h[i / 2])
  }

  function EventAt(ts: nat): Event {
    Event(ts, EventKey(ts, ts, 0))
  }

  /** A heap and an entry whose removal leaves a child before its parent: the last leaf lies in another branch. */
  lemma RemoveCanBreakOrder()
    ensures var h := [EventAt(0), EventAt(1), EventAt(10), EventAt(2), EventAt(11), EventAt(12), EventAt(3)];
            HeapOrdered(h) && !SafeToVacate(h, 4)
  {
    var h := [EventAt(0), EventAt(1), EventAt(10), EventAt(2), EventAt(11), EventAt(12), EventAt(3)];
    assert forall i :: 2 <= i < 7 ==> i / 2 == if i < 4 then 1 else if i < 6 then 2 else 3;
  }

  /** With the last entry in the place of the root, only the root can be out of order. */
  lemma RootVacated(h: seq<Event>)
    requires HeapOrdered(h) && |h| > 1
    ensures var last := |h| - 1;
            OrderedDownTo(h[1 := h[last]][last := h[1]][..last], 1, 1)
  {
    var g := h[1 := h[|h| - 1]][|h| - 1 := h[1]][..|h| - 1];
    forall i | 2 <= i < |g| && i / 2 != 1
      ensures !Before(g[i], g[i / 2])
    {
      assert !Before(h[i], h[i / 2]);
    }
  }

  lemma PopLast(h: seq<Event>)
    requires |h| > 1
    ensures Stored(h[..|h| - 1]) == Stored(h) - multiset{h[|h| - 1]}
  {
    assert h[1..] == h[..|h| - 1][1..] + [h[|h| - 1]];
  }

  lemma Vacated(h: seq<Event>, g: seq<Event>, i: nat)
    requires HeapOrdered(h) && 1 <= i < |h| && |g| == |h| - 1
    requires g == h[i := h[|h| - 1]][|h| - 1 := h[i]][..|h| - 1]
    ensures OrderedDownTo(g, i, i)
    ensures FitsBelowParent(g, i) <==> SafeToVacate(h, i)
  {
    forall j | 2 <= j < |g| && j / 2 == i && i >= 2
      ensures !Before(g[j], g[i / 2])
    {
      assert !Before(h[j], h[i]) && !Before(h[i], h[i / 2]);
    }
    if i < |g| && i > 1 {
      assert g[i] == h[|h| - 1] && g[i / 2] == h[i / 2];
    }
  }

  /** Emptying a heap yields a sorted permutation of what it held. */
  method Drain(q: HeapScheduler) returns (out: seq<Event>)
    requires q.Valid()
    modifies q
    ensures q.Valid() && q.Contents() == multiset{}
    ensures Sorted(out) && multiset(out) == old(q.Contents())
  {
    hide HeapOrdered, SortedBy, Precedes, Stored, Least;
    out := [];
    NothingTaken(q.Contents());
    var empty := q.IsEmpty();
    while !empty
      invariant q.Valid() && (empty <==> q.Contents() == multiset{})
      invariant multiset(out) + q.Contents() == old(q.Contents())
      invariant Sorted(out) && Precedes(out, q.Contents())
      decreases |q.heap|
    {
      NonEmptyHeap(q.heap);
      ghost var m := q.Contents();
      var next := q.RemoveNext();
      AppendLeast(out, m, next);
      out := out + [next];
      empty := q.IsEmpty();
    }
  }

  lemma NonEmptyHeap(h: seq<Event>)
    requires |h| >= 1 && Stored(h) != multiset{}
    ensures |h| > 1
  {
  }
}
