/** Events, their order, and the insertion that keeps a list of them sorted. */
module Scheduler {

  datatype EventKey = EventKey(ts: nat, uid: nat, context: nat)

  /** `impl` names the event object; its cancellation flag belongs to the simulator. */
  datatype Event = Event(impl: nat, key: EventKey)

  predicate KeyLess(a: EventKey, b: EventKey) {
    a.ts < b.ts || (a.ts == b.ts && a.uid < b.uid)
  }

  predicate Before(a: Event, b: Event) {
    KeyLess(a.key, b.key)
  }

  /** Insertion order of a bucket: ascending, or descending when reversed. */
  predicate Order(reverse: bool, a: Event, b: Event) {
    if reverse then Before(b, a) else Before(a, b)
  }

  ghost predicate SortedBy(reverse: bool, s: seq<Event>) {
    forall i, j :: 0 <= i < j < |s| ==> !Order(reverse, s[j], s[i])
  }

  ghost predicate Sorted(s: seq<Event>) {
    SortedBy(false, s)
  }

  /** No two stored events share a uid, and none is stored twice. */
  ghost predicate DistinctUids(m: multiset<Event>) {
    && (forall e :: e in m ==> m[e] == 1)
    && (forall e, f :: e in m && f in m && e.key.uid == f.key.uid ==> e == f)
  }

  ghost predicate FreshUid(m: multiset<Event>, uid: nat) {
    forall e :: e in m ==> e.key.uid != uid
  }

  /** No event of `m` comes before `e`. */
  ghost predicate Least(e: Event, m: multiset<Event>) {
    e in m && forall f :: f in m ==> !Before(f, e)
  }

  lemma LeastIsUnique(e: Event, f: Event, m: multiset<Event>)
    requires DistinctUids(m) && Least(e, m) && Least(f, m)
    ensures e == f
  {
    assert !Before(e, f) && !Before(f, e);
  }

  lemma DistinctAfterInsert(m: multiset<Event>, ev: Event)
    requires DistinctUids(m) && FreshUid(m, ev.key.uid)
    ensures DistinctUids(m + multiset{ev})
  {
    assert ev !in m;
  }

  lemma DistinctAfterRemove(m: multiset<Event>, ev: Event)
    requires DistinctUids(m)
    ensures DistinctUids(m - multiset{ev})
  {
  }

  lemma DistinctPositions(q: seq<Event>, i: nat, j: nat)
    requires i < j < |q| && DistinctUids(multiset(q))
    ensures q[i].key.uid != q[j].key.uid
  {
    var a, b := q[..j], q[j..];
    assert q == a + b;
    assert a[i] == q[i] && b[0] == q[j];
    assert q[i] in multiset(a) && q[j] in multiset(b);
    assert multiset(q)[q[i]] >= 1 && multiset(q)[q[j]] >= 1;
  }

  // ---------------------------------------------------------------- sorted insertion

  /** Put `ev` in front of the first element it has to precede. */
  function InsertOrdered(reverse: bool, s: seq<Event>, ev: Event): seq<Event> {
    if s == [] then [ev]
    else if Order(reverse, ev, s[0]) then [ev] + s
    else [s[0]] + InsertOrdered(reverse, s[1..], ev)
  }

  lemma {:induction false} InsertOrderedAt(reverse: bool, s: seq<Event>, ev: Event, i: nat)
    requires i <= |s| && (forall k :: 0 <= k < i ==> !Order(reverse, ev, s[k]))
    requires i < |s| ==> Order(reverse, ev, s[i])
    ensures InsertOrdered(reverse, s, ev) == s[..i] + [ev] + s[i..]
  {
    if i > 0 {
      assert s[1..][..i - 1] == s[1..i] && s[1..][i - 1..] == s[i..];
      InsertOrderedAt(reverse, s[1..], ev, i - 1);
      assert s[..i] == [s[0]] + s[1..i];
    }
  }

  lemma {:induction false} InsertOrderedContents(reverse: bool, s: seq<Event>, ev: Event)
    ensures multiset(InsertOrdered(reverse, s, ev)) == multiset(s) + multiset{ev}
  {
    hide Order, InsertOrdered;
    InsertOrderedStep(reverse, s, ev);
    if s == [] {
    } else if Order(reverse, ev, s[0]) {
      ContentsOfCons(ev, s);
    } else {
      var t := InsertOrdered(reverse, s[1..], ev);
      InsertOrderedContents(reverse, s[1..], ev);
      ContentsOfTail(s);
      ContentsOfCons(s[0], t);
    }
  }

  lemma InsertOrderedStep(reverse: bool, s: seq<Event>, ev: Event)
    ensures InsertOrdered(reverse, s, ev) == if s == [] then [ev] else if Order(reverse, ev, s[0]) then [ev] + s
                                             else [s[0]] + InsertOrdered(reverse, s[1..], ev)
  {
  }

  lemma ContentsOfTail(s: seq<Event>)
    requires s != []
    ensures multiset(s) == multiset{s[0]} + multiset(s[1..])
  {
    assert s == [s[0]] + s[1..];
  }

  lemma ContentsOfCons(e: Event, s: seq<Event>)
    ensures multiset([e] + s) == multiset{e} + multiset(s)
  {
  }

  lemma {:induction false} InsertOrderedSorted(reverse: bool, s: seq<Event>, ev: Event)
    requires SortedBy(reverse, s)
    ensures SortedBy(reverse, InsertOrdered(reverse, s, ev))
  {
    if s != [] && !Order(reverse, ev, s[0]) {
      InsertOrderedSorted(reverse, s[1..], ev);
      InsertOrderedContents(reverse, s[1..], ev);
      var t := InsertOrdered(reverse, s[1..], ev);
      forall j | 0 <= j < |t|
        ensures !Order(reverse, t[j], s[0])
      {
        assert t[j] in multiset(t);
        if t[j] != ev {
          assert t[j] in s[1..];
        }
      }
    }
  }

  /** Position of the first event with a uid, or the length of the list. */
  function IndexOfUid(s: seq<Event>, uid: nat): (i: nat)
    ensures i <= |s|
    ensures forall k :: 0 <= k < i ==> s[k].key.uid != uid
    ensures i < |s| ==> s[i].key.uid == uid
  {
    if s == [] then 0 else if s[0].key.uid == uid then 0 else 1 + IndexOfUid(s[1..], uid)
  }

  function WithoutIndex(s: seq<Event>, i: nat): seq<Event>
    requires i < |s|
  {
    s[..i] + s[i + 1..]
  }

  /** Erase the first event with the uid, if there is one. */
  function WithoutUid(s: seq<Event>, uid: nat): seq<Event> {
    var i := IndexOfUid(s, uid);
    if i < |s| then WithoutIndex(s, i) else s
  }

  lemma WithoutIndexContents(s: seq<Event>, i: nat)
    requires i < |s|
    ensures multiset(WithoutIndex(s, i)) == multiset(s) - multiset{s[i]}
  {
    assert s == s[..i] + [s[i]] + s[i + 1..];
  }

  lemma WithoutIndexSorted(reverse: bool, s: seq<Event>, i: nat)
    requires i < |s| && SortedBy(reverse, s)
    ensures SortedBy(reverse, WithoutIndex(s, i))
  {
  }

  /** Erasing an event just inserted leaves the list as it was. */
  lemma {:induction false} EraseUndoesInsert(reverse: bool, s: seq<Event>, ev: Event)
    requires FreshUid(multiset(s), ev.key.uid)
    ensures WithoutUid(InsertOrdered(reverse, s, ev), ev.key.uid) == s
  {
    if s != [] {
      assert s[0] in multiset(s) && s == [s[0]] + s[1..];
      if !Order(reverse, ev, s[0]) {
        EraseUndoesInsert(reverse, s[1..], ev);
        WithoutUidBehind(s[0], InsertOrdered(reverse, s[1..], ev), ev.key.uid);
      }
    }
  }

  lemma WithoutUidBehind(first: Event, rest: seq<Event>, uid: nat)
    requires first.key.uid != uid
    ensures WithoutUid([first] + rest, uid) == [first] + WithoutUid(rest, uid)
  {
    hide WithoutIndex;
    var s, i := [first] + rest, IndexOfUid(rest, uid);
    assert s[1..] == rest && IndexOfUid(s, uid) == 1 + i;
    if i < |rest| { WithoutIndexBehind(first, rest, i); }
  }

  lemma WithoutIndexBehind(first: Event, rest: seq<Event>, i: nat)
    requires i < |rest|
    ensures WithoutIndex([first] + rest, 1 + i) == [first] + WithoutIndex(rest, i)
  {
    var s := [first] + rest;
    assert s[..1 + i] == [first] + rest[..i];
    assert s[2 + i..] == rest[1 + i..];
  }

  lemma SortedHeadIsLeast(s: seq<Event>)
    requires Sorted(s) && s != []
    ensures Least(s[0], multiset(s))
    ensures Sorted(s[1..]) && multiset(s[1..]) == multiset(s) - multiset{s[0]}
  {
    assert s == [s[0]] + s[1..];
  }

  /** The uid of a stored event leads to that event. */
  lemma UidFindsEvent(s: seq<Event>, ev: Event)
    requires DistinctUids(multiset(s)) && ev in s
    ensures IndexOfUid(s, ev.key.uid) < |s| && s[IndexOfUid(s, ev.key.uid)] == ev
  {
    var k :| 0 <= k < |s| && s[k] == ev;
    var i := IndexOfUid(s, ev.key.uid);
    assert s[i] in multiset(s) && ev in multiset(s);
  }

  // ---------------------------------------------------------------- taking events out in order

  /** No event still stored comes before one already taken out. */
  ghost predicate Precedes(out: seq<Event>, m: multiset<Event>) {
    forall i, f :: 0 <= i < |out| && f in m ==> !Before(f, out[i])
  }

  lemma AppendLeast(out: seq<Event>, m: multiset<Event>, next: Event)
    requires Sorted(out) && Precedes(out, m) && Least(next, m)
    ensures Sorted(out + [next]) && Precedes(out + [next], m - multiset{next})
    ensures multiset(out + [next]) + (m - multiset{next}) == multiset(out) + m
  {
  }

  lemma NothingTaken(m: multiset<Event>)
    ensures Sorted([]) && Precedes([], m)
  {
  }
}
