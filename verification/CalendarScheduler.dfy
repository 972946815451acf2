/** The calendar queue: an array of sorted buckets searched window by window, resized from samples of its own events. */
module CalendarQueue {
  import opened Arithmetic
  import opened Scheduler
  import opened CalendarBuckets

  const MAX_BUCKETS: nat := 32768

  /** The bucket counts that doubling and halving from two can reach. */
  predicate BucketCount(n: nat) {
    n in {1, 2, 4, 8, 16, 32, 64, 128, 256, 512, 1024, 2048, 4096, 8192, 16384, 32768}
  }

  ghost predicate NoneEarlier(m: multiset<Event>, ts: nat) {
    forall e :: e in m ==> e.key.ts >= ts
  }

  lemma NoneEarlierSubset(m: multiset<Event>, e: Event, ts: nat)
    requires NoneEarlier(m, ts)
    ensures NoneEarlier(m - multiset{e}, ts)
    ensures e.key.ts >= ts ==> NoneEarlier(m + multiset{e}, ts)
  {
  }

  /** Two events a bucket at most, unless there are no more buckets, and one for two of them at least, or none yet. */
  predicate Balance(size: nat, n: nat) {
    (size <= 2 * n || n == 32768) && (n / 2 <= size || n == 2)
  }

  lemma BalanceKept(size: nat, n: nat)
    requires Balance(size, n) && BucketCount(n)
    ensures Balance(size + 1, if size + 1 > 2 * n && n < 32768 then 2 * n else n)
    ensures size > 0 ==> Balance(size - 1, if size - 1 < n / 2 then n / 2 else n)
  {
  }

  class CalendarScheduler {
    var buckets: array<Bucket>
    var nBuckets: nat
    var width: nat
    var lastBucket: nat
    var bucketTop: int
    var lastPrio: nat
    var qSize: nat
    const reverse: bool

    ghost predicate Shape()
      reads this, buckets
    {
      && nBuckets == buckets.Length && BucketCount(nBuckets) && width >= 1
      && WellFormed(buckets[..], width, reverse)
    }

    ghost function Contents(): multiset<Event>
      reads this, buckets
    {
      Flat(buckets[..])
    }

    /** The search position belongs to `lastPrio`, and nothing stored is earlier. */
    ghost predicate Positioned()
      requires Shape()
      reads this, buckets
    {
      && lastBucket == HashOf(lastPrio, width, nBuckets)
      && bucketTop == Top(Day(lastPrio, width), width)
      && NoneEarlier(Contents(), lastPrio)
    }

    ghost predicate Valid()
      reads this, buckets
    {
      Shape() && Positioned() && qSize == |Contents()|
    }

    /** The number of buckets follows the number of events. */
    ghost predicate Balanced()
      reads this
    {
      Balance(qSize, nBuckets)
    }

    function Hash(ts: nat): nat
      requires width >= 1 && nBuckets >= 1
      reads this
    {
      HashOf(ts, width, nBuckets)
    }

    /** Walk a bucket to the first event the new one has to precede. */
    method InsertInList(list: Bucket, ev: Event) returns (r: Bucket)
      ensures r == InsertOrdered(reverse, list, ev)
    {
      var i := 0;
      while i < |list|
        invariant 0 <= i <= |list|
        invariant forall k :: 0 <= k < i ==> !Order(reverse, ev, list[k])
      {
        if Order(reverse, ev, list[i]) {
          InsertOrderedAt(reverse, list, ev, i);
          return list[..i] + [ev] + list[i..];
        }
        i := i + 1;
      }
      InsertOrderedAt(reverse, list, ev, i);
      assert list[..i] == list && list[i..] == [];
      r := list + [ev];
    }

    method DoInsert(ev: Event)
      requires Shape() && ev.key.ts < MAX_TS
      modifies buckets
      ensures Shape() && Contents() == old(Contents()) + multiset{ev}
    {
      hide WellFormed, Flat, InsertOrdered, HashOf;
      var bucket := Hash(ev.key.ts);
      InsertKeepsWellFormed(buckets[..], width, reverse, ev);
      ghost var before := buckets[..];
      var list := InsertInList(buckets[bucket], ev);
      buckets[bucket] := list;
      assert buckets[..] == before[bucket := list];
    }

    /** Take the event next in time off its bucket. */
    method Pop(i: nat)
      requires Shape() && i < nBuckets && buckets[i] != []
      modifies buckets
      ensures Shape() && Head(old(buckets[i]), reverse) in old(Contents())
      ensures Contents() == old(Contents()) - multiset{Head(old(buckets[i]), reverse)}
    {
      hide WellFormed, Flat;
      var list := buckets[i];
      ghost var before := buckets[..];
      EraseKeepsWellFormed(before, width, reverse, i, HeadIndex(list, reverse));
      assert WithoutIndex(list, HeadIndex(list, reverse)) == if reverse then list[..|list| - 1] else list[1..];
      buckets[i] := if reverse then list[..|list| - 1] else list[1..];
      assert buckets[..] == before[i := WithoutIndex(list, HeadIndex(list, reverse))];
    }

    method PeekNext() returns (next: Event)
      requires Valid() && Contents() != multiset{}
      ensures Least(next, Contents())
    {
      hide WellFormed, Flat, Head, HashOf, Day, Top, Searching, Candidate, CandidateKey, Least;
      ghost var bs, day := buckets[..], Day(lastPrio, width);
      ghost var k: nat, min: int := 0, -1;
      var i: nat := lastBucket;
      var top := bucketTop;
      var minEvent := Event(0, EventKey(MAX_TS, 0xFFFF_FFFF, 0));
      SearchStarts(bs, width, reverse, lastPrio);
      NoCandidate(bs, reverse, minEvent.key);
      HashIsDay(lastPrio, width, nBuckets);
      while true
        invariant Searching(bs, width, reverse, day, k, i, top, min) && k < nBuckets
        invariant CandidateKey(bs, reverse, min, minEvent.key) && (min >= 0 ==> IsHead(bs, reverse, min, minEvent))
        decreases nBuckets - k
      {
        SearchFinds(bs, width, reverse, day, k, i, top, min);
        if buckets[i] != [] {
          next := Head(buckets[i], reverse);
          if next.key.ts < top {
            return;
          }
          CandidateChoice(bs, width, reverse, i, min, minEvent.key);
        }
        SearchGoesOn(bs, width, reverse, day, k, i, top, min);
        if buckets[i] != [] && KeyLess(next.key, minEvent.key) {
          minEvent := next;
          min := i;
        }
        i := (i + 1) % nBuckets;
        top := top + width;
        k := k + 1;
        if i == lastBucket {
          break;
        }
      }
      FullLap(bs, width, reverse, lastBucket, min);
      next := minEvent;
    }

    method DoRemoveNext() returns (next: Event)
      requires Shape() && Positioned() && Contents() != multiset{}
      modifies `lastBucket, `bucketTop, `lastPrio, buckets
      ensures Shape() && Positioned() && lastPrio == next.key.ts < MAX_TS
      ensures Least(next, old(Contents())) && Contents() == old(Contents()) - multiset{next}
    {
      hide WellFormed, Flat, Head, HashOf, Day, Top, Searching, Candidate, CandidateKey, Least;
      ghost var bs, day := buckets[..], Day(lastPrio, width);
      ghost var k: nat := 0;
      var i: nat := lastBucket;
      var top := bucketTop;
      var minBucket: int := -1;
      var minKey := EventKey(MAX_TS, 0, 0xFFFF_FFFF);
      SearchStarts(bs, width, reverse, lastPrio);
      NoCandidate(bs, reverse, minKey);
      HashIsDay(lastPrio, width, nBuckets);
      while true
        invariant buckets[..] == bs && unchanged(this)
        invariant Searching(bs, width, reverse, day, k, i, top, minBucket) && k < nBuckets
        invariant CandidateKey(bs, reverse, minBucket, minKey)
        decreases nBuckets - k
      {
        SearchFinds(bs, width, reverse, day, k, i, top, minBucket);
        ghost var best := minBucket;
        if buckets[i] != [] {
          next := Head(buckets[i], reverse);
          if next.key.ts < top {
            lastBucket := i;
            lastPrio := next.key.ts;
            bucketTop := top;
            PopLeast(i, next);
            return;
          }
          CandidateChoice(bs, width, reverse, i, minBucket, minKey);
          if KeyLess(next.key, minKey) {
            minKey := next.key;
            minBucket := i;
          }
        }
        SearchGoesOn(bs, width, reverse, day, k, i, top, best);
        i := (i + 1) % nBuckets;
        top := top + width;
        k := k + 1;
        if i == lastBucket {
          break;
        }
      }
      FullLap(bs, width, reverse, lastBucket, minBucket);
      CandidateIsHead(bs, reverse, minBucket, minKey);
      lastPrio := minKey.ts;
      lastBucket := Hash(minKey.ts);
      bucketTop := (minKey.ts / width + 1) * width;
      TopIs(minKey.ts, width);
      next := Head(buckets[minBucket], reverse);
      PopLeast(minBucket, next);
    }

    /** Pop an event known to be the least, the search position having been moved to it. */
    method PopLeast(i: nat, next: Event)
      requires Shape() && i < nBuckets && buckets[i] != [] && next == Head(buckets[i], reverse)
      requires Least(next, Contents()) && lastPrio == next.key.ts
      requires lastBucket == HashOf(lastPrio, width, nBuckets) && bucketTop == Top(Day(lastPrio, width), width)
      modifies buckets
      ensures Shape() && Positioned() && next.key.ts < MAX_TS
      ensures Contents() == old(Contents()) - multiset{next}
    {
      hide WellFormed, Flat, Head, HashOf, Day, Top, Least, NoneEarlier;
      LeastIsFloor(next, Contents());
      LeastBelowSentinel(next, buckets[..], width, reverse);
      Pop(i);
    }

    constructor (reverse: bool)
      ensures Valid() && Contents() == multiset{} && lastPrio == 0 && fresh(buckets)
      ensures this.reverse == reverse && Balanced()
    {
      this.reverse := reverse;
      nBuckets, width, lastPrio := 2, 1, 0;
      lastBucket := HashOf(0, 1, 2);
      bucketTop := (0 / 1 + 1) * 1;
      buckets := new Bucket[2](_ => []);
      qSize := 0;
      new;
      EmptyWellFormed(buckets[..], width, reverse);
    }

    /** Fresh empty buckets, with the search position of `startPrio`. */
    method Init(nBuckets: nat, width: nat, startPrio: nat)
      requires BucketCount(nBuckets) && width >= 1
      modifies this
      ensures Shape() && fresh(buckets) && Contents() == multiset{}
      ensures this.nBuckets == nBuckets && this.width == width && lastPrio == startPrio && qSize == old(qSize)
      ensures lastBucket == HashOf(startPrio, width, nBuckets) && bucketTop == Top(Day(startPrio, width), width)
    {
      buckets := new Bucket[nBuckets](_ => []);
      this.nBuckets := nBuckets;
      this.width := width;
      lastPrio := startPrio;
      lastBucket := Hash(startPrio);
      bucketTop := (startPrio / width + 1) * width;
      EmptyWellFormed(buckets[..], width, reverse);
    }

    method Insert(ev: Event)
      requires Valid() && lastPrio <= ev.key.ts < MAX_TS
      modifies this, buckets
      ensures Valid() && Contents() == old(Contents()) + multiset{ev} && (old(Balanced()) ==> Balanced())
      ensures lastPrio == old(lastPrio) && (buckets == old(buckets) || fresh(buckets))
    {
      hide WellFormed, Flat, HashOf, Day, Top, NoneEarlier, SampledWidth, Balance;
      if Balanced() { BalanceKept(qSize, nBuckets); }
      NoneEarlierSubset(Contents(), ev, lastPrio);
      DoInsert(ev);
      qSize := qSize + 1;
      ResizeUp();
    }

    method IsEmpty() returns (empty: bool)
      requires Valid()
      ensures empty <==> Contents() == multiset{}
    {
      empty := qSize == 0;
    }

    method RemoveNext() returns (next: Event)
      requires Valid() && Contents() != multiset{}
      modifies this, buckets
      ensures Valid() && Least(next, old(Contents())) && Contents() == old(Contents()) - multiset{next}
      ensures lastPrio == next.key.ts && (buckets == old(buckets) || fresh(buckets))
      ensures old(Balanced()) ==> Balanced()
    {
      hide WellFormed, Flat, HashOf, Day, Top, NoneEarlier, BucketCount, SampledWidth, Balance;
      if Balanced() { BalanceKept(qSize, nBuckets); }
      next := DoRemoveNext();
      qSize := qSize - 1;
      ResizeDown();
    }

    /** Looks only in the bucket the timestamp hashes to; false where the source then fails an assertion. */
    method Remove(ev: Event) returns (found: bool)
      requires Valid()
      modifies this, buckets
      ensures Valid() && lastPrio == old(lastPrio) && (buckets == old(buckets) || fresh(buckets))
      ensures old(Balanced()) ==> Balanced()
      ensures if found
              then exists e :: e in old(Contents()) && e.key.uid == ev.key.uid
                               && Contents() == old(Contents()) - multiset{e}
              else Contents() == old(Contents())
      ensures ev in old(Contents()) ==> found
      ensures DistinctUids(old(Contents())) && ev in old(Contents()) ==> Contents() == old(Contents()) - multiset{ev}
    {
      hide WellFormed, Flat, HashOf, Day, Top, NoneEarlier, BucketCount, Balance;
      var bucket := Hash(ev.key.ts);
      if ev in Contents() { StoredInHashedBucket(buckets[..], width, reverse, ev); }
      var j := 0;
      while j < |buckets[bucket]|
        invariant 0 <= j <= |buckets[bucket]| && unchanged(this) && unchanged(buckets)
        invariant forall k :: 0 <= k < j ==> buckets[bucket][k].key.uid != ev.key.uid
      {
        if buckets[bucket][j].key.uid == ev.key.uid {
          Erase(bucket, j);
          return true;
        }
        j := j + 1;
      }
      found := false;
    }

    method Erase(bucket: nat, j: nat)
      requires Valid() && bucket < nBuckets && j < |buckets[bucket]|
      modifies this, buckets
      ensures Valid() && lastPrio == old(lastPrio) && (buckets == old(buckets) || fresh(buckets))
      ensures old(Balanced()) ==> Balanced()
      ensures old(buckets[bucket][j]) in old(Contents())
      ensures Contents() == old(Contents()) - multiset{old(buckets[bucket][j])}
    {
      hide WellFormed, Flat, HashOf, Day, Top, WithoutIndex, NoneEarlier, BucketCount, SampledWidth, Balance;
      ghost var before, e := buckets[..], buckets[bucket][j];
      EraseKeepsWellFormed(before, width, reverse, bucket, j);
      NoneEarlierSubset(Contents(), e, lastPrio);
      if Balanced() { BalanceKept(qSize, nBuckets); }
      buckets[bucket] := WithoutIndex(buckets[bucket], j);
      assert buckets[..] == before[bucket := WithoutIndex(before[bucket], j)];
      qSize := qSize - 1;
      ResizeDown();
    }

    method ResizeUp()
      requires Valid()
      modifies this, buckets
      ensures Valid() && Contents() == old(Contents())
      ensures lastPrio == old(lastPrio) && qSize == old(qSize)
      ensures if old(qSize > 2 * nBuckets && nBuckets < 32768)
              then nBuckets == 2 * old(nBuckets) && fresh(buckets) && SampledWidth(width, Contents())
              else nBuckets == old(nBuckets) && buckets == old(buckets) && width == old(width)
    {
      if qSize > nBuckets * 2 && nBuckets < MAX_BUCKETS {
        Resize(nBuckets * 2);
      }
    }

    method ResizeDown()
      requires Valid()
      modifies this, buckets
      ensures Valid() && Contents() == old(Contents())
      ensures lastPrio == old(lastPrio) && qSize == old(qSize)
      ensures if old(qSize < nBuckets / 2)
              then nBuckets == old(nBuckets) / 2 && fresh(buckets) && SampledWidth(width, Contents())
              else nBuckets == old(nBuckets) && buckets == old(buckets) && width == old(width)
    {
      if qSize < nBuckets / 2 {
        Resize(nBuckets / 2);
      }
    }

    /** The contents under a new number of buckets and a width sampled from them. */
    method Resize(newSize: nat)
      requires Valid() && BucketCount(newSize)
      modifies this, buckets
      ensures Valid() && Contents() == old(Contents()) && qSize == old(qSize)
      ensures nBuckets == newSize && lastPrio == old(lastPrio) && fresh(buckets)
      ensures SampledWidth(width, Contents())
    {
      hide SampledWidth;
      var newWidth := CalculateNewWidth();
      DoResize(newSize, newWidth);
    }

    /** Remove the first events in order, put all of them back, restore the search position, and average their gaps. */
    method CalculateNewWidth() returns (newWidth: nat)
      requires Valid()
      modifies `lastBucket, `bucketTop, `lastPrio, buckets
      ensures Valid() && Contents() == old(Contents())
      ensures lastBucket == old(lastBucket) && bucketTop == old(bucketTop) && lastPrio == old(lastPrio)
      ensures newWidth >= 1 && SampledWidth(newWidth, Contents())
    {
      hide Flat, HashOf, Day, Top, WellFormed, FirstInOrder, WidthOf, NoneEarlier, BucketCount, SampledWidth,
           WrappedWidth;
      if qSize < 2 {
        FewSamples(Contents());
        return 1;
      }
      var nSamples := if qSize <= 5 then qSize else 5 + qSize / 10;
      if nSamples > 25 {
        nSamples := 25;
      }
      var savedBucket, savedTop, savedPrio := lastBucket, bucketTop, lastPrio;
      var samples := GatherSamples(nSamples);
      PutBack(samples);
      lastBucket, bucketTop, lastPrio := savedBucket, savedTop, savedPrio;
      assert Contents() == old(Contents());
      SamplesSorted(samples, Contents());
      newWidth := AverageGaps(samples);
      WidthIsSampled(samples, Contents());
    }

    method GatherSamples(nSamples: nat) returns (samples: seq<Event>)
      requires Shape() && Positioned() && nSamples <= |Contents()|
      modifies `lastBucket, `bucketTop, `lastPrio, buckets
      ensures Shape() && |samples| == nSamples && forall e :: e in samples ==> e.key.ts < MAX_TS
      ensures multiset(samples) + Contents() == old(Contents()) && FirstInOrder(samples, old(Contents()))
    {
      hide WellFormed, Flat, HashOf, Day, Top, SortedBy, Precedes, Least;
      samples := [];
      ghost var all := Contents();
      NothingTaken(all);
      while |samples| < nSamples
        invariant Shape() && Positioned() && |samples| <= nSamples
        invariant multiset(samples) + Contents() == all
        invariant Sorted(samples) && Precedes(samples, Contents())
        invariant forall e :: e in samples ==> e.key.ts < MAX_TS
      {
        ghost var m := Contents();
        var next := DoRemoveNext();
        AppendLeast(samples, m, next);
        samples := samples + [next];
      }
      assert Contents() == all - multiset(samples);
    }

    method PutBack(samples: seq<Event>)
      requires Shape() && forall e :: e in samples ==> e.key.ts < MAX_TS
      modifies buckets
      ensures Shape() && Contents() == multiset(samples) + old(Contents())
    {
      hide WellFormed, Flat;
      var i := 0;
      assert samples[..0] == [];
      while i < |samples|
        invariant 0 <= i <= |samples| && Shape()
        invariant Contents() == multiset(samples[..i]) + old(Contents())
      {
        assert samples[..i + 1] == samples[..i] + [samples[i]];
        DoInsert(samples[i]);
        i := i + 1;
      }
      assert samples[..|samples|] == samples;
    }

    method DoResize(newSize: nat, newWidth: nat)
      requires Valid() && BucketCount(newSize) && newWidth >= 1
      modifies this
      ensures Valid() && fresh(buckets) && Contents() == old(Contents())
      ensures nBuckets == newSize && width == newWidth && lastPrio == old(lastPrio) && qSize == old(qSize)
    {
      hide WellFormed, Flat, HashOf, Day, Top;
      var oldBuckets, oldNBuckets := buckets, nBuckets;
      ghost var bs, w := buckets[..], width;
      Init(newSize, newWidth, lastPrio);
      var i := 0;
      FlatOfEmpty(bs[..0]);
      while i < oldNBuckets
        invariant 0 <= i <= oldNBuckets == |bs| && oldBuckets[..] == bs
        invariant Shape() && fresh(buckets) && Contents() == Flat(bs[..i])
        invariant Repositioned(newSize, newWidth, old(lastPrio), old(qSize))
      {
        ListBelowSentinel(bs, w, reverse, i);
        PutBack(oldBuckets[i]);
        FlatSnoc(bs, i);
        i := i + 1;
      }
      assert bs[..|bs|] == bs;
    }

    ghost predicate Repositioned(n: nat, w: nat, prio: nat, size: nat)
      requires n >= 1 && w >= 1
      reads this
    {
      && nBuckets == n && width == w && lastPrio == prio && qSize == size
      && lastBucket == HashOf(prio, w, n) && bucketTop == Top(Day(prio, w), w)
    }
  }

  // ---------------------------------------------------------------- samples

  /** `samples` are events of `m` in order, none of the others coming before any of them. */
  ghost predicate FirstInOrder(samples: seq<Event>, m: multiset<Event>) {
    multiset(samples) <= m && Sorted(samples) && Precedes(samples, m - multiset(samples))
  }

  /**
   * The width comes from the first events in order: from all of them up to five, else from five and a tenth of their
   * number, but never more than 25; with fewer than two it is one.
   */
  ghost predicate SampledWidth(width: nat, m: multiset<Event>) {
    exists samples ::
      && FirstInOrder(samples, m)
      && |samples| == (if |m| <= 5 then |m| else if |m| < 210 then 5 + |m| / 10 else 25)
      && width == if |m| < 2 then 1 else WidthOf(samples)
  }

  lemma WidthIsSampled(samples: seq<Event>, m: multiset<Event>)
    requires FirstInOrder(samples, m) && |m| >= 2
    requires |samples| == if |m| <= 5 then |m| else if |m| < 210 then 5 + |m| / 10 else 25
    ensures WidthOf(samples) >= 1 && SampledWidth(WidthOf(samples), m)
  {
    hide FirstInOrder, GapSum, AverageGap;
  }

  lemma SamplesSorted(samples: seq<Event>, m: multiset<Event>)
    requires FirstInOrder(samples, m)
    ensures Sorted(samples)
  {
  }

  lemma FewSamples(m: multiset<Event>)
    requires |m| < 2
    ensures SampledWidth(1, m)
  {
    if |m| == 0 {
      assert FirstInOrder([], m);
    } else {
      var e :| e in m;
      assert |m - multiset{e}| == 0;
      assert FirstInOrder([e], m) by { assert multiset([e]) == multiset{e}; }
    }
  }

  /** Sum of the gaps between the first `n` samples, leaving out those above the limit if there is one. */
  function GapSum(s: seq<Event>, n: nat, limited: bool, limit: int): int
    requires n <= |s|
  {
    if n < 2 then 0
    else
      var gap := s[n - 1].key.ts - s[n - 2].key.ts;
      GapSum(s, n - 1, limited, limit) + if limited && gap > limit then 0 else gap
  }

  const WORD: int := MAX_TS + 1

  function AverageGap(samples: seq<Event>): int
    requires |samples| >= 2
  {
    GapSum(samples, |samples|, false, 0) / (|samples| - 1)
  }

  /** Three times the sum of the gaps that are at most twice the average gap, in 64 bits, and at least one. */
  function WidthOf(samples: seq<Event>): int
    requires |samples| >= 2
  {
    var total := GapSum(samples, |samples|, true, AverageGap(samples) * 2 % WORD) * 3 % WORD;
    if total > 1 then total else 1
  }

  lemma GapNotNegative(s: seq<Event>, i: nat)
    requires Sorted(s) && 1 <= i < |s|
    ensures s[i].key.ts >= s[i - 1].key.ts
  {
    assert !Before(s[i], s[i - 1]);
  }

  /** Without a limit the gaps add up to the span; with one they never add up to more. */
  lemma {:induction false} GapSumBounds(s: seq<Event>, n: nat, limit: int)
    requires Sorted(s) && 1 <= n <= |s|
    ensures GapSum(s, n, false, limit) == s[n - 1].key.ts - s[0].key.ts
    ensures 0 <= GapSum(s, n, true, limit) <= GapSum(s, n, false, limit)
  {
    if n >= 2 {
      GapNotNegative(s, n - 1);
      GapSumBounds(s, n - 1, limit);
    }
  }

  /**
   * The two averaging passes over the samples. No difference of timestamps is ever negative, and the sums never exceed
   * the span; doubling the average and tripling the total wrap around.
   */
  method AverageGaps(samples: seq<Event>) returns (width: nat)
    requires Sorted(samples) && |samples| >= 2
    ensures width == WidthOf(samples) >= 1 && width == WrappedWidth(samples)
  {
    hide SortedBy, WrappedWidth;
    WidthFromGaps(samples);
    var totalSeparation: nat := 0;
    var cur := 0;
    while cur + 1 < |samples|
      invariant 0 <= cur < |samples|
      invariant totalSeparation == GapSum(samples, cur + 1, false, 0)
    {
      GapNotNegative(samples, cur + 1);
      totalSeparation := totalSeparation + (samples[cur + 1].key.ts - samples[cur].key.ts);
      cur := cur + 1;
    }
    var twiceAvg := totalSeparation / (|samples| - 1) * 2 % WORD;
    totalSeparation := 0;
    cur := 0;
    while cur + 1 < |samples|
      invariant 0 <= cur < |samples|
      invariant totalSeparation == GapSum(samples, cur + 1, true, twiceAvg)
    {
      GapNotNegative(samples, cur + 1);
      var diff := samples[cur + 1].key.ts - samples[cur].key.ts;
      if diff <= twiceAvg {
        totalSeparation := totalSeparation + diff;
      }
      cur := cur + 1;
    }
    totalSeparation := totalSeparation * 3 % WORD;
    width := if totalSeparation > 1 then totalSeparation else 1;
  }

  /** The width chosen never exceeds three times the span of the samples. */
  lemma WidthBounded(samples: seq<Event>)
    requires Sorted(samples) && |samples| >= 2
    ensures var span := samples[|samples| - 1].key.ts - samples[0].key.ts;
            1 <= WidthOf(samples) <= if span == 0 then 1 else 3 * span
  {
    hide GapSum, AverageGap;
    GapSumBounds(samples, |samples|, AverageGap(samples) * 2 % WORD);
    WrapNotAbove(GapSum(samples, |samples|, true, AverageGap(samples) * 2 % WORD) * 3);
  }

  lemma WrapNotAbove(x: nat)
    ensures 0 <= x % WORD <= x && x % WORD < WORD && (x < WORD ==> x % WORD == x)
  {
  }

  // ---------------------------------------------------------------- the width from the differences

  /** The differences of neighbouring timestamps. */
  function Gaps(samples: seq<Event>): seq<int>
    requires |samples| >= 1
  {
    seq(|samples| - 1, i requires 0 <= i < |samples| - 1 => samples[i + 1].key.ts - samples[i].key.ts)
  }

  function Sum(g: seq<int>): int {
    if g == [] then 0 else Sum(g[..|g| - 1]) + g[|g| - 1]
  }

  /** Those above a limit. */
  function Above(g: seq<int>, limit: int): seq<int> {
    if g == [] then []
    else Above(g[..|g| - 1], limit) + if g[|g| - 1] > limit then [g[|g| - 1]] else []
  }

  function Span(samples: seq<Event>): int
    requires |samples| >= 1
  {
    samples[|samples| - 1].key.ts - samples[0].key.ts
  }

  function AtLeastOne(x: int): int {
    if x > 1 then x else 1
  }

  /** Three times the span without the gaps above twice the average gap, and at least one. */
  function IntendedWidth(samples: seq<Event>): int
    requires |samples| >= 2
  {
    var g := Gaps(samples);
    AtLeastOne(3 * (Span(samples) - Sum(Above(g, 2 * (Span(samples) / |g|)))))
  }

  /** The same with doubling and tripling in 64 bits. */
  function WrappedWidth(samples: seq<Event>): int
    requires |samples| >= 2
  {
    var g := Gaps(samples);
    var limit := 2 * (Span(samples) / |g|) % 0x1_0000_0000_0000_0000;
    AtLeastOne(3 * (Span(samples) - Sum(Above(g, limit))) % 0x1_0000_0000_0000_0000)
  }

  lemma SumSnoc(g: seq<int>, x: int, limit: int)
    ensures Sum(g + [x]) == Sum(g) + x
    ensures Sum(Above(g + [x], limit)) == Sum(Above(g, limit)) + if x > limit then x else 0
  {
    assert (g + [x])[..|g|] == g;
    if x > limit {
      var long := Above(g, limit);
      assert (long + [x])[..|long|] == long;
    } else {
      assert Above(g, limit) + [] == Above(g, limit);
    }
  }

  /** What the loops add up, from the sequence of differences. */
  lemma {:induction false} GapSumIsSum(s: seq<Event>, n: nat, limit: int)
    requires 1 <= n <= |s|
    ensures GapSum(s, n, false, limit) == Sum(Gaps(s[..n]))
    ensures GapSum(s, n, true, limit) == Sum(Gaps(s[..n])) - Sum(Above(Gaps(s[..n]), limit))
  {
    if n == 1 {
      assert Gaps(s[..n]) == [];
    } else {
      GapSumIsSum(s, n - 1, limit);
      var x := s[n - 1].key.ts - s[n - 2].key.ts;
      assert Gaps(s[..n]) == Gaps(s[..n - 1]) + [x];
      SumSnoc(Gaps(s[..n - 1]), x, limit);
    }
  }

  /** The limited sum is the span without the gaps above the limit. */
  lemma LimitedIsSpanWithout(samples: seq<Event>, limit: int)
    requires Sorted(samples) && |samples| >= 2
    ensures GapSum(samples, |samples|, true, limit) == Span(samples) - Sum(Above(Gaps(samples), limit))
    ensures GapSum(samples, |samples|, false, limit) == Span(samples)
  {
    hide GapSum, Gaps, Sum, Above, SortedBy;
    GapSumIsSum(samples, |samples|, limit);
    GapSumBounds(samples, |samples|, limit);
    assert samples[..|samples|] == samples;
  }

  /**
   * The width from the timestamps alone: three times their span without the gaps above twice the average gap, where
   * doubling and tripling wrap around at 2^64.
   */
  lemma WidthFromGaps(samples: seq<Event>)
    requires Sorted(samples) && |samples| >= 2
    ensures WidthOf(samples) == WrappedWidth(samples)
  {
    hide GapSum, Sum, Above, SortedBy, Span;
    LimitedIsSpanWithout(samples, 2 * (Span(samples) / |Gaps(samples)|) % WORD);
    LimitedIsSpanWithout(samples, 0);
  }

  /** Samples at 0, 1, 2, 3 and 13: the average gap is 3, so the gap of 10 is left out, and the width is 9. */
  lemma LongGapLeftOut(s: seq<Event>)
    requires Sorted(s) && |s| == 5 && s[0].key.ts == 0 && s[1].key.ts == 1 && s[2].key.ts == 2 && s[3].key.ts == 3
    requires s[4].key.ts == 13
    ensures WidthOf(s) == 9
  {
    hide WidthOf, Gaps, Sum, Above, SortedBy;
    GapsOfFive(s);
    WidthFromGaps(s);
    OneLongGap();
  }

  lemma GapsOfFive(s: seq<Event>)
    requires |s| == 5 && s[0].key.ts == 0 && s[1].key.ts == 1 && s[2].key.ts == 2 && s[3].key.ts == 3
    requires s[4].key.ts == 13
    ensures Gaps(s) == [1, 1, 1, 10]
  {
  }

  lemma OneLongGap()
    ensures Sum(Above([1, 1, 1, 10], 6)) == 10
  {
    hide Sum, Above;
    SumOfNone(6);
    assert [] + [1] == [1] && [1] + [1] == [1, 1] && [1, 1] + [1] == [1, 1, 1] && [1, 1, 1] + [10] == [1, 1, 1, 10];
    SumSnoc([], 1, 6);
    SumSnoc([1], 1, 6);
    SumSnoc([1, 1], 1, 6);
    SumSnoc([1, 1, 1], 10, 6);
  }

  lemma SumOfNone(limit: int)
    ensures Sum(Above([], limit)) == 0
  {
  }

  /** A limit that no gap exceeds leaves none out. */
  lemma {:induction false} GapSumAll(s: seq<Event>, n: nat, limit: int)
    requires Sorted(s) && 1 <= n <= |s| && s[n - 1].key.ts - s[0].key.ts <= limit
    ensures GapSum(s, n, true, limit) == GapSum(s, n, false, limit)
  {
    if n >= 2 {
      GapNotNegative(s, n - 1);
      GapSumBounds(s, n - 1, limit);
      GapSumAll(s, n - 1, limit);
    }
  }

  /** The width is the intended one exactly when that fits in 64 bits. */
  lemma WidthIsIntended(samples: seq<Event>)
    requires Sorted(samples) && |samples| >= 2 && forall e :: e in samples ==> e.key.ts < MAX_TS
    ensures WidthOf(samples) == IntendedWidth(samples) <==> IntendedWidth(samples) < 0x1_0000_0000_0000_0000
  {
    hide GapSum, SortedBy, AverageGap, IntendedWidth;
    var n, average := |samples|, AverageGap(samples);
    assert samples[n - 1] in samples;
    AverageAtMost(samples);
    GapSumBounds(samples, n, average * 2);
    GapSumBounds(samples, n, average * 2 % WORD);
    IntendedIsLimited(samples);
    if average * 2 >= WORD { GapSumAll(samples, n, average * 2); }
    WidthsDiffer(Span(samples), average, GapSum(samples, n, true, average * 2 % WORD),
                 GapSum(samples, n, true, average * 2));
  }

  lemma IntendedIsLimited(samples: seq<Event>)
    requires Sorted(samples) && |samples| >= 2
    ensures IntendedWidth(samples) == AtLeastOne(GapSum(samples, |samples|, true, AverageGap(samples) * 2) * 3)
  {
    hide GapSum, Sum, Above, SortedBy, Span;
    LimitedIsSpanWithout(samples, AverageGap(samples) * 2);
    LimitedIsSpanWithout(samples, 0);
  }

  /** Doubling wraps only when no gap would be left out, and then tripling wraps as well. */
  lemma WidthsDiffer(span: int, average: int, wrapped: int, total: int)
    requires 0 <= average <= span < WORD && wrapped >= 0 && total >= 0
    requires if average * 2 < WORD then wrapped == total else total == span
    ensures (if wrapped * 3 % WORD > 1 then wrapped * 3 % WORD else 1) == (if total * 3 > 1 then total * 3 else 1)
        <==> (if total * 3 > 1 then total * 3 else 1) < WORD
  {
    WrapNotAbove(wrapped * 3);
  }

  lemma AverageAtMost(samples: seq<Event>)
    requires Sorted(samples) && |samples| >= 2
    ensures 0 <= AverageGap(samples) <= samples[|samples| - 1].key.ts - samples[0].key.ts
  {
    hide GapSum, SortedBy;
    var n := |samples| - 1;
    GapSumBounds(samples, |samples|, 0);
    QuotientAtMost(GapSum(samples, |samples|, false, 0), n);
  }

  lemma QuotientAtMost(x: nat, n: int)
    requires n >= 1
    ensures 0 <= x / n <= x
  {
    var q := x / n;
    if q > x { MulMonotone(1, n, q); }
  }

  /** Two samples 2^63 apart: twice their average gap wraps to zero, and the width comes out as one. */
  lemma LongGapWraps()
    ensures var s := [Event(0, EventKey(0, 4, 0)), Event(1, EventKey(WORD / 2, 5, 0))];
            Sorted(s) && WidthOf(s) == 1
  {
    var s := [Event(0, EventKey(0, 4, 0)), Event(1, EventKey(WORD / 2, 5, 0))];
    GapSumBounds(s, 2, 0);
    assert GapSum(s, 1, true, 0) == 0;
    assert GapSum(s, 2, true, 0) == 0;
  }

  // ---------------------------------------------------------------- facts about buckets

  lemma EmptyWellFormed(bs: seq<Bucket>, width: nat, reverse: bool)
    requires width >= 1 && |bs| >= 1 && forall i :: 0 <= i < |bs| ==> bs[i] == []
    ensures WellFormed(bs, width, reverse) && Flat(bs) == multiset{}
  {
    FlatOfEmpty(bs);
  }

  lemma ListBelowSentinel(bs: seq<Bucket>, width: nat, reverse: bool, i: nat)
    requires WellFormed(bs, width, reverse) && i < |bs|
    ensures forall e :: e in bs[i] ==> e.key.ts < MAX_TS
  {
    assert BucketOk(bs[i], i, width, |bs|, reverse);
  }

  lemma LeastBelowSentinel(e: Event, bs: seq<Bucket>, width: nat, reverse: bool)
    requires WellFormed(bs, width, reverse) && Least(e, Flat(bs))
    ensures e.key.ts < MAX_TS
  {
    StoredInHashedBucket(bs, width, reverse, e);
  }

  ghost predicate IsHead(bs: seq<Bucket>, reverse: bool, i: nat, e: Event) {
    i < |bs| && bs[i] != [] && e == Head(bs[i], reverse)
  }

  lemma NoCandidate(bs: seq<Bucket>, reverse: bool, key: EventKey)
    requires key.ts == MAX_TS
    ensures CandidateKey(bs, reverse, -1, key)
  {
  }

  lemma HashIsDay(ts: nat, width: nat, n: nat)
    requires width >= 1 && n >= 1
    ensures HashOf(ts, width, n) == Day(ts, width) % n
  {
  }

  lemma TopIs(ts: nat, width: nat)
    requires width >= 1
    ensures (ts / width + 1) * width == Top(Day(ts, width), width)
  {
  }

  lemma CandidateIsHead(bs: seq<Bucket>, reverse: bool, min: int, key: EventKey)
    requires CandidateKey(bs, reverse, min, key) && min >= 0
    ensures min < |bs| && bs[min] != [] && key == Head(bs[min], reverse).key
  {
  }

  lemma LeastIsFloor(e: Event, m: multiset<Event>)
    requires Least(e, m)
    ensures NoneEarlier(m, e.key.ts) && NoneEarlier(m - multiset{e}, e.key.ts)
  {
    forall f | f in m
      ensures f.key.ts >= e.key.ts
    {
      assert !Before(f, e);
    }
  }
}
