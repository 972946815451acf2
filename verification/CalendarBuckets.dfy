/** Buckets of a calendar queue as values: which bucket an event belongs in, and what a search through them finds. */
module CalendarBuckets {
  import opened Arithmetic
  import opened Scheduler

  type Bucket = seq<Event>

  /** The search sentinel; an event with this timestamp could not be told from it. */
  const MAX_TS: nat := 0xFFFF_FFFF_FFFF_FFFF

  // ---------------------------------------------------------------- contents

  ghost function Flat(bs: seq<Bucket>): multiset<Event> {
    if bs == [] then multiset{} else multiset(bs[0]) + Flat(bs[1..])
  }

  lemma {:induction false} FlatUpdate(bs: seq<Bucket>, i: nat, b: Bucket)
    requires i < |bs|
    ensures Flat(bs[i := b]) + multiset(bs[i]) == Flat(bs) + multiset(b)
  {
    if i > 0 {
      var t := bs[1..];
      FlatUpdate(t, i - 1, b);
      assert bs[i := b][1..] == t[i - 1 := b] && t[i - 1] == bs[i];
      assert Flat(bs[i := b]) + multiset(bs[i]) == multiset(bs[0]) + (Flat(t[i - 1 := b]) + multiset(t[i - 1]));
      assert Flat(bs) + multiset(b) == multiset(bs[0]) + (Flat(t) + multiset(b));
    } else {
      assert bs[0 := b][1..] == bs[1..];
    }
  }

  lemma {:induction false} FlatMember(bs: seq<Bucket>, e: Event) returns (i: nat)
    requires e in Flat(bs)
    ensures i < |bs| && e in bs[i]
  {
    if e in bs[0] {
      i := 0;
    } else {
      i := FlatMember(bs[1..], e);
      i := i + 1;
    }
  }

  lemma {:induction false} FlatContains(bs: seq<Bucket>, i: nat, e: Event)
    requires i < |bs| && e in bs[i]
    ensures e in Flat(bs)
  {
    if i > 0 {
      FlatContains(bs[1..], i - 1, e);
    } else {
      assert e in multiset(bs[0]);
    }
  }

  lemma {:induction false} FlatOfEmpty(bs: seq<Bucket>)
    requires forall i :: 0 <= i < |bs| ==> bs[i] == []
    ensures Flat(bs) == multiset{}
  {
    if bs != [] {
      FlatOfEmpty(bs[1..]);
    }
  }

  lemma {:induction false} FlatSnoc(bs: seq<Bucket>, i: nat)
    requires i < |bs|
    ensures Flat(bs[..i + 1]) == Flat(bs[..i]) + multiset(bs[i])
  {
    if i > 0 {
      FlatSnoc(bs[1..], i - 1);
      assert bs[..i + 1][1..] == bs[1..][..i] && bs[..i][1..] == bs[1..][..i - 1];
    } else {
      assert bs[..1][1..] == [] && bs[..0] == [];
    }
  }

  // ---------------------------------------------------------------- days

  /** The number of the window of length `width` that a timestamp falls in. */
  function Day(ts: nat, width: nat): nat
    requires width >= 1
  {
    ts / width
  }

  /** The end of a window. */
  function Top(day: nat, width: nat): int {
    (day + 1) * width
  }

  function HashOf(ts: nat, width: nat, n: nat): (i: nat)
    requires width >= 1 && n >= 1
    ensures i < n
  {
    Day(ts, width) % n
  }

  /** All timestamps of a window share a bucket; one window after the other, the buckets are used in turn. */
  lemma WindowsAreBuckets(day: nat, offset: nat, width: nat, n: nat)
    requires offset < width && n >= 1
    ensures day * width + offset >= 0 && HashOf(day * width + offset, width, n) == day % n
    ensures Top(Day(day * width + offset, width), width) == day * width + width
  {
    MulMonotone(0, day, width);
    DivModUnique(day * width + offset, width, day, offset);
    TopStep(day, width);
  }

  lemma DayBelowTop(ts: nat, width: nat, day: nat)
    requires width >= 1
    ensures ts < Top(day, width) <==> Day(ts, width) <= day
  {
    var q := ts / width;
    assert ts == q * width + ts % width;
    if q <= day {
      assert q * width <= day * width by { MulMonotone(q, day, width); }
      assert (day + 1) * width == day * width + width;
    } else {
      assert (day + 1) * width <= q * width by { MulMonotone(day + 1, q, width); }
    }
  }

  lemma TopStep(day: nat, width: nat)
    ensures Top(day + 1, width) == Top(day, width) + width
  {
  }

  lemma HashStep(day: nat, n: nat)
    requires n >= 1
    ensures (day + 1) % n == (day % n + 1) % n
  {
    var q, r := day / n, day % n;
    assert day == q * n + r;
    if r + 1 < n {
      DivModUnique(day + 1, n, q, r + 1);
      DivModUnique(r + 1, n, 0, r + 1);
    } else {
      assert (q + 1) * n == q * n + n;
      DivModUnique(day + 1, n, q + 1, 0);
      DivModUnique(n, n, 1, 0);
    }
  }

  // ---------------------------------------------------------------- well-formed buckets

  ghost predicate BucketOk(b: Bucket, i: nat, width: nat, n: nat, reverse: bool)
    requires width >= 1 && n >= 1
  {
    && SortedBy(reverse, b)
    && forall e :: e in b ==> HashOf(e.key.ts, width, n) == i && e.key.ts < MAX_TS
  }

  /** Every event is in its hashed bucket, every bucket is sorted, and no timestamp is the sentinel. */
  ghost predicate WellFormed(bs: seq<Bucket>, width: nat, reverse: bool) {
    && width >= 1 && |bs| >= 1
    && forall i :: 0 <= i < |bs| ==> BucketOk(bs[i], i, width, |bs|, reverse)
  }

  lemma StoredInHashedBucket(bs: seq<Bucket>, width: nat, reverse: bool, e: Event)
    requires WellFormed(bs, width, reverse) && e in Flat(bs)
    ensures e in bs[HashOf(e.key.ts, width, |bs|)] && e.key.ts < MAX_TS
  {
    var i := FlatMember(bs, e);
    assert BucketOk(bs[i], i, width, |bs|, reverse);
  }

  lemma UpdateKeepsWellFormed(bs: seq<Bucket>, width: nat, reverse: bool, i: nat, b: Bucket)
    requires WellFormed(bs, width, reverse) && i < |bs| && BucketOk(b, i, width, |bs|, reverse)
    ensures WellFormed(bs[i := b], width, reverse)
  {
    hide BucketOk;
  }

  lemma Cancel(x: multiset<Event>, y: multiset<Event>, z: multiset<Event>)
    requires x + z == y + z
    ensures x == y
  {
    assert x == (x + z) - z;
  }

  lemma InsertKeepsWellFormed(bs: seq<Bucket>, width: nat, reverse: bool, ev: Event)
    requires WellFormed(bs, width, reverse) && ev.key.ts < MAX_TS
    ensures var i := HashOf(ev.key.ts, width, |bs|);
            var bs' := bs[i := InsertOrdered(reverse, bs[i], ev)];
            WellFormed(bs', width, reverse) && Flat(bs') == Flat(bs) + multiset{ev}
  {
    hide HashOf, BucketOk, InsertOrdered;
    var i := HashOf(ev.key.ts, width, |bs|);
    var b := InsertOrdered(reverse, bs[i], ev);
    InsertedBucketOk(bs[i], i, width, |bs|, reverse, ev);
    UpdateKeepsWellFormed(bs, width, reverse, i, b);
    FlatUpdate(bs, i, b);
    InsertOrderedContents(reverse, bs[i], ev);
    Cancel(Flat(bs[i := b]), Flat(bs) + multiset{ev}, multiset(bs[i]));
  }

  lemma InsertedBucketOk(b: Bucket, i: nat, width: nat, n: nat, reverse: bool, ev: Event)
    requires width >= 1 && n >= 1 && BucketOk(b, i, width, n, reverse)
    requires HashOf(ev.key.ts, width, n) == i && ev.key.ts < MAX_TS
    ensures BucketOk(InsertOrdered(reverse, b, ev), i, width, n, reverse)
  {
    hide HashOf, InsertOrdered;
    InsertOrderedSorted(reverse, b, ev);
    InsertOrderedContents(reverse, b, ev);
    var c := InsertOrdered(reverse, b, ev);
    forall e | e in c
      ensures e == ev || e in b
    {
      assert e in multiset(c);
    }
  }

  lemma EraseKeepsWellFormed(bs: seq<Bucket>, width: nat, reverse: bool, i: nat, j: nat)
    requires WellFormed(bs, width, reverse) && i < |bs| && j < |bs[i]|
    ensures var bs' := bs[i := WithoutIndex(bs[i], j)];
            WellFormed(bs', width, reverse) && Flat(bs') == Flat(bs) - multiset{bs[i][j]} && bs[i][j] in Flat(bs)
  {
    hide HashOf, BucketOk, WithoutIndex;
    var b, e := WithoutIndex(bs[i], j), bs[i][j];
    ErasedBucketOk(bs[i], i, width, |bs|, reverse, j);
    UpdateKeepsWellFormed(bs, width, reverse, i, b);
    WithoutIndexContents(bs[i], j);
    FlatContains(bs, i, e);
    FlatUpdate(bs, i, b);
    assert multiset(bs[i]) == multiset(b) + multiset{e};
    Cancel(Flat(bs[i := b]) + multiset{e}, Flat(bs), multiset(b));
  }

  lemma ErasedBucketOk(b: Bucket, i: nat, width: nat, n: nat, reverse: bool, j: nat)
    requires width >= 1 && n >= 1 && BucketOk(b, i, width, n, reverse) && j < |b|
    ensures BucketOk(WithoutIndex(b, j), i, width, n, reverse)
  {
    hide HashOf;
    WithoutIndexSorted(reverse, b, j);
  }

  // ---------------------------------------------------------------- the search

  /** Position of the event of a bucket that is next in time. */
  function HeadIndex(b: Bucket, reverse: bool): (i: nat)
    requires b != []
    ensures i < |b|
  {
    if reverse then |b| - 1 else 0
  }

  function Head(b: Bucket, reverse: bool): Event
    requires b != []
  {
    b[HeadIndex(b, reverse)]
  }

  lemma HeadIsLeast(b: Bucket, reverse: bool, e: Event)
    requires SortedBy(reverse, b) && e in b
    ensures !Before(e, Head(b, reverse))
  {
    var k :| 0 <= k < |b| && b[k] == e;
  }

  /** No stored event is earlier than the given day. */
  ghost predicate NoneBefore(bs: seq<Bucket>, width: nat, day: nat)
    requires width >= 1
  {
    forall e :: e in Flat(bs) ==> Day(e.key.ts, width) >= day
  }

  /** The bucket of the current day has an event of that day: it is the least of the whole queue. */
  lemma InWindow(bs: seq<Bucket>, width: nat, reverse: bool, day: nat)
    requires WellFormed(bs, width, reverse) && NoneBefore(bs, width, day)
    requires bs[day % |bs|] != [] && Head(bs[day % |bs|], reverse).key.ts < Top(day, width)
    ensures Least(Head(bs[day % |bs|], reverse), Flat(bs))
    ensures Day(Head(bs[day % |bs|], reverse).key.ts, width) == day
  {
    hide Top, Day, Head;
    var i := day % |bs|;
    var head := Head(bs[i], reverse);
    assert head in bs[i] by { HeadStored(bs[i], reverse); }
    FlatContains(bs, i, head);
    DayBelowTop(head.key.ts, width, day);
    forall e | e in Flat(bs)
      ensures !Before(e, head)
    {
      DayBelowTop(e.key.ts, width, day);
      StoredInHashedBucket(bs, width, reverse, e);
      if Day(e.key.ts, width) == day {
        assert BucketOk(bs[i], i, width, |bs|, reverse);
        HeadIsLeast(bs[i], reverse, e);
      }
    }
  }

  lemma HeadStored(b: Bucket, reverse: bool)
    requires b != []
    ensures Head(b, reverse) in b
  {
  }

  /** The bucket of the current day has no event of that day: nothing is left in the queue for that day. */
  lemma WindowPassed(bs: seq<Bucket>, width: nat, reverse: bool, day: nat)
    requires WellFormed(bs, width, reverse) && NoneBefore(bs, width, day)
    requires bs[day % |bs|] == [] || Head(bs[day % |bs|], reverse).key.ts >= Top(day, width)
    ensures NoneBefore(bs, width, day + 1)
  {
    hide Top, Day, Head;
    var i := day % |bs|;
    forall e | e in Flat(bs)
      ensures Day(e.key.ts, width) >= day + 1
    {
      StoredInHashedBucket(bs, width, reverse, e);
      if Day(e.key.ts, width) == day {
        assert BucketOk(bs[i], i, width, |bs|, reverse);
        HeadIsLeast(bs[i], reverse, e);
        DayBelowTop(e.key.ts, width, day);
      }
    }
  }

  /** Which buckets a search that started at `start` has looked at after `k` steps. */
  predicate Visited(b: nat, start: nat, k: nat, n: nat) {
    start <= b < start + k || b + n < start + k
  }

  /** `min` is the bucket with the least head among those visited, or -1 if all of them were empty. */
  ghost predicate Candidate(bs: seq<Bucket>, reverse: bool, start: nat, k: nat, min: int) {
    && -1 <= min < |bs|
    && (min >= 0 ==> bs[min] != [])
    && forall b :: 0 <= b < |bs| && Visited(b, start, k, |bs|) && bs[b] != [] ==>
         min >= 0 && !Before(Head(bs[b], reverse), Head(bs[min], reverse))
  }

  /** After a full lap the candidate is the least event of the whole queue. */
  lemma FullLap(bs: seq<Bucket>, width: nat, reverse: bool, start: nat, min: int)
    requires WellFormed(bs, width, reverse) && start < |bs| && Flat(bs) != multiset{}
    requires Candidate(bs, reverse, start, |bs|, min)
    ensures min >= 0 && Least(Head(bs[min], reverse), Flat(bs))
  {
    hide Head;
    var e0 :| e0 in Flat(bs);
    var i0 := FlatMember(bs, e0);
    assert Visited(i0, start, |bs|, |bs|);
    HeadStored(bs[min], reverse);
    FlatContains(bs, min, Head(bs[min], reverse));
    forall e | e in Flat(bs)
      ensures !Before(e, Head(bs[min], reverse))
    {
      var i := FlatMember(bs, e);
      assert Visited(i, start, |bs|, |bs|);
      assert BucketOk(bs[i], i, width, |bs|, reverse);
      HeadIsLeast(bs[i], reverse, e);
    }
  }

  /** One more bucket looked at, the candidate replaced if its head comes earlier. */
  lemma CandidateStep(bs: seq<Bucket>, reverse: bool, start: nat, k: nat, i: nat, min: int)
    requires start < |bs| && k < |bs| && i == (if start + k < |bs| then start + k else start + k - |bs|)
    requires Candidate(bs, reverse, start, k, min)
    ensures Candidate(bs, reverse, start, k + 1,
                      if bs[i] != [] && (min < 0 || Before(Head(bs[i], reverse), Head(bs[min], reverse)))
                      then i else min)
  {
    hide Head;
    forall b | 0 <= b < |bs| && Visited(b, start, k + 1, |bs|)
      ensures b == i || Visited(b, start, k, |bs|)
    {
    }
  }

  /** Where a search stands after `k` steps: at bucket `i`, whose window ends at `top`, with candidate `min`. */
  ghost predicate Searching(bs: seq<Bucket>, width: nat, reverse: bool, day: nat, k: nat, i: nat, top: int, min: int) {
    && WellFormed(bs, width, reverse) && k < |bs|
    && i == (day + k) % |bs| && top == Top(day + k, width)
    && i == (if day % |bs| + k < |bs| then day % |bs| + k else day % |bs| + k - |bs|)
    && NoneBefore(bs, width, day + k)
    && Candidate(bs, reverse, day % |bs|, k, min)
  }

  /** The key a search compares against: the candidate's, or the sentinel. */
  ghost predicate CandidateKey(bs: seq<Bucket>, reverse: bool, min: int, key: EventKey) {
    && -1 <= min < |bs|
    && (min >= 0 ==> bs[min] != [] && key == Head(bs[min], reverse).key)
    && (min < 0 ==> key.ts == MAX_TS)
  }

  lemma SearchStarts(bs: seq<Bucket>, width: nat, reverse: bool, lastPrio: nat)
    requires WellFormed(bs, width, reverse)
    requires forall e :: e in Flat(bs) ==> e.key.ts >= lastPrio
    ensures Searching(bs, width, reverse, Day(lastPrio, width), 0, HashOf(lastPrio, width, |bs|),
                      Top(Day(lastPrio, width), width), -1)
  {
    assert width >= 1;
    hide WellFormed;
    forall e | e in Flat(bs)
      ensures Day(e.key.ts, width) >= Day(lastPrio, width)
    {
      DayMonotone(lastPrio, e.key.ts, width);
    }
  }

  lemma DayMonotone(t: nat, u: nat, width: nat)
    requires width >= 1 && t <= u
    ensures Day(t, width) <= Day(u, width)
  {
    DayBelowTop(t, width, Day(u, width));
    DayBelowTop(u, width, Day(u, width));
  }

  lemma SearchFinds(bs: seq<Bucket>, width: nat, reverse: bool, day: nat, k: nat, i: nat, top: int, min: int)
    requires Searching(bs, width, reverse, day, k, i, top, min)
    ensures i < |bs|
    ensures bs[i] != [] && Head(bs[i], reverse).key.ts < top ==>
              var head := Head(bs[i], reverse);
              && Least(head, Flat(bs)) && i == HashOf(head.key.ts, width, |bs|)
              && top == Top(Day(head.key.ts, width), width)
  {
    hide Top, Day, Head, WellFormed, Candidate, NoneBefore;
    if bs[i] != [] && Head(bs[i], reverse).key.ts < top {
      InWindow(bs, width, reverse, day + k);
    }
  }

  /** Comparing keys decides as comparing heads does, the sentinel coming after every stored event. */
  lemma CandidateChoice(bs: seq<Bucket>, width: nat, reverse: bool, i: nat, min: int, key: EventKey)
    requires WellFormed(bs, width, reverse) && i < |bs| && bs[i] != [] && CandidateKey(bs, reverse, min, key)
    ensures KeyLess(Head(bs[i], reverse).key, key)
            <==> min < 0 || Before(Head(bs[i], reverse), Head(bs[min], reverse))
    ensures CandidateKey(bs, reverse, i, Head(bs[i], reverse).key)
  {
    hide Head;
    HeadStored(bs[i], reverse);
    assert BucketOk(bs[i], i, width, |bs|, reverse);
  }

  lemma SearchGoesOn(bs: seq<Bucket>, width: nat, reverse: bool, day: nat, k: nat, i: nat, top: int, min: int)
    requires Searching(bs, width, reverse, day, k, i, top, min)
    requires bs[i] == [] || Head(bs[i], reverse).key.ts >= top
    ensures var min' := if bs[i] != [] && (min < 0 || Before(Head(bs[i], reverse), Head(bs[min], reverse)))
                        then i else min;
            var i' := (i + 1) % |bs|;
            && (i' == day % |bs| <==> k + 1 == |bs|)
            && (k + 1 < |bs| ==> Searching(bs, width, reverse, day, k + 1, i', top + width, min'))
            && (k + 1 == |bs| ==> Candidate(bs, reverse, day % |bs|, |bs|, min'))
  {
    hide Top, Day, Head, WellFormed, Candidate, NoneBefore;
    WindowPassed(bs, width, reverse, day + k);
    TopStep(day + k, width);
    HashStep(day + k, |bs|);
    CandidateStep(bs, reverse, day % |bs|, k, i, min);
    NextIndex(i, |bs|);
    assert day + k + 1 == day + (k + 1);
  }

  lemma NextIndex(i: nat, n: nat)
    requires i < n
    ensures (i + 1) % n == if i + 1 < n then i + 1 else 0
  {
    if i + 1 < n { DivModUnique(i + 1, n, 0, i + 1); } else { DivModUnique(n, n, 1, 0); }
  }
}
