/** Whole runs of queue operations: every queue returns the events the sorted list returns. */
module SchedulerRuns {
  import opened Scheduler
  import opened CalendarBuckets
  import opened ListQueue
  import opened HeapQueue
  import opened CalendarQueue

  datatype Op = Insert(ev: Event) | Peek | RemoveNext | Remove(ev: Event)

  /**
   * The uses the simulator makes of a queue: new events have new uids and are not earlier than the last one removed,
   * and only stored events are asked for.
   */
  ghost predicate Allowed(s: seq<Event>, floor: nat, op: Op) {
    match op
    case Insert(ev) => floor <= ev.key.ts && ev.key.ts < MAX_TS && FreshUid(multiset(s), ev.key.uid)
    case Peek => s != []
    case RemoveNext => s != []
    case Remove(ev) => ev in s
  }

  /** The sorted list after an operation. */
  function ListAfter(s: seq<Event>, op: Op): seq<Event> {
    match op
    case Insert(ev) => InsertOrdered(false, s, ev)
    case Peek => s
    case RemoveNext => if s == [] then s else s[1..]
    case Remove(ev) => WithoutUid(s, ev.key.uid)
  }

  /** The timestamp of the last event removed. */
  function FloorAfter(s: seq<Event>, floor: nat, op: Op): nat {
    if op.RemoveNext? && s != [] then s[0].key.ts else floor
  }

  /** What the sorted list answers: the event peeked at or taken, or nothing. */
  function Answer(s: seq<Event>, op: Op): seq<Event> {
    if (op.Peek? || op.RemoveNext?) && s != [] then [s[0]] else []
  }

  ghost predicate Legal(s: seq<Event>, floor: nat, ops: seq<Op>)
    decreases ops
  {
    ops == [] ||
    (Allowed(s, floor, ops[0]) && Legal(ListAfter(s, ops[0]), FloorAfter(s, floor, ops[0]), ops[1..]))
  }

  /** All the answers of a run. */
  function ListRun(s: seq<Event>, ops: seq<Op>): seq<Event>
    decreases ops
  {
    if ops == [] then [] else Answer(s, ops[0]) + ListRun(ListAfter(s, ops[0]), ops[1..])
  }

  /** Peeking and taking have one answer, a least event of what is stored; only stored events are removed. */
  ghost predicate Serves(m: multiset<Event>, op: Op, answer: seq<Event>) {
    match op
    case Insert(_) => answer == []
    case Peek => |answer| == 1 && Least(answer[0], m)
    case RemoveNext => |answer| == 1 && Least(answer[0], m)
    case Remove(ev) => answer == [] && ev in m
  }

  /** What is stored afterwards. */
  function ContentsAfter(m: multiset<Event>, op: Op, answer: seq<Event>): multiset<Event> {
    match op
    case Insert(ev) => m + multiset{ev}
    case Peek => m
    case RemoveNext => m - multiset(answer)
    case Remove(ev) => m - multiset{ev}
  }

  /** What a priority queue answers over a run, said without lists. */
  ghost predicate ServesAll(m: multiset<Event>, ops: seq<Op>, out: seq<Event>)
    decreases ops
  {
    if ops == [] then out == []
    else
      var n := if ops[0].Peek? || ops[0].RemoveNext? then 1 else 0;
      && n <= |out| && Serves(m, ops[0], out[..n])
      && ServesAll(ContentsAfter(m, ops[0], out[..n]), ops[1..], out[n..])
  }

  /** A queue with contents `m` stands for the sorted list `s`. */
  ghost predicate Mirrors(s: seq<Event>, m: multiset<Event>) {
    Sorted(s) && multiset(s) == m && DistinctUids(m)
  }

  lemma MirrorsInsert(s: seq<Event>, m: multiset<Event>, ev: Event)
    requires Mirrors(s, m) && FreshUid(multiset(s), ev.key.uid)
    ensures Mirrors(InsertOrdered(false, s, ev), m + multiset{ev})
  {
    InsertOrderedSorted(false, s, ev);
    InsertOrderedContents(false, s, ev);
    DistinctAfterInsert(m, ev);
  }

  lemma MirrorsLeast(s: seq<Event>, m: multiset<Event>, e: Event)
    requires Mirrors(s, m) && s != [] && Least(e, m)
    ensures e == s[0] && Mirrors(s[1..], m - multiset{e})
  {
    SortedHeadIsLeast(s);
    LeastIsUnique(e, s[0], m);
    DistinctAfterRemove(m, e);
  }

  lemma MirrorsRemove(s: seq<Event>, m: multiset<Event>, ev: Event)
    requires Mirrors(s, m) && ev in s
    ensures Mirrors(WithoutUid(s, ev.key.uid), m - multiset{ev})
  {
    UidFindsEvent(s, ev);
    var i := IndexOfUid(s, ev.key.uid);
    WithoutIndexSorted(false, s, i);
    WithoutIndexContents(s, i);
    DistinctAfterRemove(m, ev);
  }

  lemma NonEmptyMirror(s: seq<Event>, m: multiset<Event>)
    requires Mirrors(s, m)
    ensures s != [] <==> m != multiset{}
    ensures forall e :: e in s <==> e in m
  {
    if s != [] { assert s[0] in multiset(s); }
  }

  lemma ListServes(s: seq<Event>, m: multiset<Event>, floor: nat, op: Op)
    requires Mirrors(s, m) && Allowed(s, floor, op)
    ensures Serves(m, op, Answer(s, op)) && Mirrors(ListAfter(s, op), ContentsAfter(m, op, Answer(s, op)))
    ensures |Answer(s, op)| == if op.Peek? || op.RemoveNext? then 1 else 0
  {
    hide Mirrors, Least, InsertOrdered, WithoutUid, FreshUid;
    NonEmptyMirror(s, m);
    match op {
      case Insert(ev) => MirrorsInsert(s, m, ev);
      case Peek => HeadIsServed(s, m);
      case RemoveNext =>
        HeadIsServed(s, m);
        MirrorsLeast(s, m, s[0]);
      case Remove(ev) => MirrorsRemove(s, m, ev);
    }
  }

  lemma HeadIsServed(s: seq<Event>, m: multiset<Event>)
    requires Mirrors(s, m) && s != []
    ensures Least(s[0], m)
  {
    SortedHeadIsLeast(s);
  }

  /** The answers of the sorted list are those of a priority queue. */
  lemma {:induction false} ListServesAll(s: seq<Event>, m: multiset<Event>, floor: nat, ops: seq<Op>)
    requires Mirrors(s, m) && Legal(s, floor, ops)
    ensures ServesAll(m, ops, ListRun(s, ops))
    decreases ops
  {
    hide Mirrors, Serves, Allowed, ContentsAfter, ListAfter, Answer, FloorAfter;
    if ops != [] {
      var s', answer := ListAfter(s, ops[0]), Answer(s, ops[0]);
      ListServes(s, m, floor, ops[0]);
      ListServesAll(s', ContentsAfter(m, ops[0], answer), FloorAfter(s, floor, ops[0]), ops[1..]);
      var out := answer + ListRun(s', ops[1..]);
      assert out[..|answer|] == answer && out[|answer|..] == ListRun(s', ops[1..]);
    }
  }

  /** Where a run stands after some operations: what is out so far and what the rest will still produce. */
  ghost predicate Running(out: seq<Event>, s: seq<Event>, floor: nat, rest: seq<Op>, whole: seq<Event>) {
    Legal(s, floor, rest) && out + ListRun(s, rest) == whole
  }

  lemma RunStarts(s: seq<Event>, floor: nat, ops: seq<Op>)
    requires Legal(s, floor, ops)
    ensures Running([], s, floor, ops[0..], ListRun(s, ops))
  {
    assert ops[0..] == ops;
    assert [] + ListRun(s, ops) == ListRun(s, ops);
  }

  lemma RunStep(out: seq<Event>, s: seq<Event>, floor: nat, ops: seq<Op>, i: nat, whole: seq<Event>)
    requires i < |ops| && Running(out, s, floor, ops[i..], whole)
    ensures Allowed(s, floor, ops[i])
    ensures Running(out + Answer(s, ops[i]), ListAfter(s, ops[i]), FloorAfter(s, floor, ops[i]), ops[i + 1..], whole)
  {
    var rest := ops[i..];
    assert rest[0] == ops[i] && rest[1..] == ops[i + 1..];
    var tail := ListRun(ListAfter(s, ops[i]), ops[i + 1..]);
    assert out + (Answer(s, ops[i]) + tail) == out + Answer(s, ops[i]) + tail;
  }

  lemma RunEnds(out: seq<Event>, s: seq<Event>, floor: nat, ops: seq<Op>, whole: seq<Event>)
    requires Running(out, s, floor, ops[|ops|..], whole)
    ensures out == whole
  {
  }

  method DriveList(q: ListScheduler, ops: seq<Op>, ghost floor: nat) returns (out: seq<Event>)
    requires q.Valid() && Legal(q.events, floor, ops)
    modifies q
    ensures out == ListRun(old(q.events), ops)
  {
    hide Running, Legal, ListRun;
    ghost var whole := ListRun(q.events, ops);
    ghost var f := floor;
    out := [];
    var i := 0;
    RunStarts(q.events, floor, ops);
    while i < |ops|
      invariant 0 <= i <= |ops| && q.Valid()
      invariant Running(out, q.events, f, ops[i..], whole)
    {
      RunStep(out, q.events, f, ops, i, whole);
      assert out + [] == out;
      match ops[i] {
        case Insert(ev) =>
          q.Insert(ev);
        case Peek =>
          var next := q.PeekNext();
          out := out + [next];
        case RemoveNext =>
          var next := q.RemoveNext();
          assert q.events == ([next] + q.events)[1..];
          out := out + [next];
          f := next.key.ts;
        case Remove(ev) =>
          var found := q.Remove(ev);
      }
      i := i + 1;
    }
    RunEnds(out, q.events, f, ops, whole);
  }

  /** One operation on the calendar queue. */
  method StepCalendar(q: CalendarScheduler, op: Op, ghost s: seq<Event>) returns (out: seq<Event>)
    requires q.Valid() && Mirrors(s, q.Contents()) && Allowed(s, q.lastPrio, op)
    modifies q, q.buckets
    ensures q.Valid() && (q.buckets == old(q.buckets) || fresh(q.buckets))
    ensures Mirrors(ListAfter(s, op), q.Contents()) && q.lastPrio == FloorAfter(s, old(q.lastPrio), op)
    ensures out == Answer(s, op)
  {
    hide Mirrors, Least, DistinctUids, InsertOrdered, WithoutUid, FreshUid, WellFormed, Flat, HashOf, Day, Top,
         NoneEarlier;
    NonEmptyMirror(s, q.Contents());
    out := [];
    match op {
      case Insert(ev) =>
        MirrorsInsert(s, q.Contents(), ev);
        q.Insert(ev);
      case Peek =>
        var next := q.PeekNext();
        MirrorsLeast(s, q.Contents(), next);
        out := [next];
      case RemoveNext =>
        ghost var m := q.Contents();
        var next := q.RemoveNext();
        MirrorsLeast(s, m, next);
        out := [next];
      case Remove(ev) =>
        MirrorsRemove(s, q.Contents(), ev);
        MirrorsDistinct(s, q.Contents());
        var found := q.Remove(ev);
    }
  }

  /** The calendar queue, in either bucket order, answers as the sorted list does. */
  method DriveCalendar(q: CalendarScheduler, ops: seq<Op>, ghost s0: seq<Event>) returns (out: seq<Event>)
    requires q.Valid() && Mirrors(s0, q.Contents()) && Legal(s0, q.lastPrio, ops)
    modifies q, q.buckets
    ensures out == ListRun(s0, ops)
  {
    hide Running, Legal, ListRun, Mirrors, Allowed, ListAfter, FloorAfter, Answer, CalendarScheduler.Valid,
         CalendarScheduler.Contents;
    ghost var whole := ListRun(s0, ops);
    ghost var s := s0;
    out := [];
    var i := 0;
    RunStarts(s, q.lastPrio, ops);
    while i < |ops|
      invariant 0 <= i <= |ops| && q.Valid() && (q.buckets == old(q.buckets) || fresh(q.buckets))
      invariant Mirrors(s, q.Contents()) && Running(out, s, q.lastPrio, ops[i..], whole)
    {
      RunStep(out, s, q.lastPrio, ops, i, whole);
      var more := StepCalendar(q, ops[i], s);
      out := out + more;
      s := ListAfter(s, ops[i]);
      i := i + 1;
    }
    RunEnds(out, s, q.lastPrio, ops, whole);
  }

  lemma MirrorsDistinct(s: seq<Event>, m: multiset<Event>)
    requires Mirrors(s, m)
    ensures DistinctUids(m)
  {
  }

  /** One operation on the heap; a removal has to be one that keeps it in order. */
  method StepHeap(q: HeapScheduler, op: Op, ghost s: seq<Event>, ghost floor: nat) returns (out: seq<Event>)
    requires q.Valid() && Mirrors(s, q.Contents()) && Allowed(s, floor, op)
    requires op.Remove? ==> SafeToRemove(q.heap, op.ev.key.uid)
    modifies q
    ensures q.Valid() && Mirrors(ListAfter(s, op), q.Contents()) && out == Answer(s, op)
  {
    hide Mirrors, Least, DistinctUids, InsertOrdered, WithoutUid, FreshUid, HeapOrdered, Stored;
    NonEmptyMirror(s, q.Contents());
    out := [];
    match op {
      case Insert(ev) =>
        MirrorsInsert(s, q.Contents(), ev);
        q.Insert(ev);
      case Peek =>
        NonEmptyHeap(q.heap);
        var next := q.PeekNext();
        MirrorsLeast(s, q.Contents(), next);
        out := [next];
      case RemoveNext =>
        NonEmptyHeap(q.heap);
        ghost var m := q.Contents();
        var next := q.RemoveNext();
        MirrorsLeast(s, m, next);
        out := [next];
      case Remove(ev) =>
        MirrorsRemove(s, q.Contents(), ev);
        MirrorsDistinct(s, q.Contents());
        EntryOf(q.heap, ev);
        var found := q.Remove(ev);
    }
  }

  /**
   * The binary heap answers as the sorted list does, up to the first removal that would break its order; if there is
   * none, to the end.
   */
  method DriveHeap(q: HeapScheduler, ops: seq<Op>, ghost s0: seq<Event>, ghost floor: nat)
    returns (out: seq<Event>, count: nat)
    requires q.Valid() && Mirrors(s0, q.Contents()) && Legal(s0, floor, ops)
    modifies q
    ensures q.Valid() && count <= |ops| && out <= ListRun(s0, ops)
    ensures count == |ops| ==> out == ListRun(s0, ops)
    ensures count < |ops| ==> ops[count].Remove? && !SafeToRemove(q.heap, ops[count].ev.key.uid)
  {
    hide Running, Legal, ListRun, Mirrors, Allowed, ListAfter, FloorAfter, Answer, HeapOrdered, Stored, SafeToRemove;
    ghost var whole := ListRun(s0, ops);
    ghost var s, f := s0, floor;
    out, count := [], 0;
    RunStarts(s, f, ops);
    while count < |ops| && (ops[count].Remove? ==> SafeToRemove(q.heap, ops[count].ev.key.uid))
      invariant count <= |ops| && q.Valid()
      invariant Mirrors(s, q.Contents()) && Running(out, s, f, ops[count..], whole)
    {
      RunStep(out, s, f, ops, count, whole);
      var more := StepHeap(q, ops[count], s, f);
      out := out + more;
      f := FloorAfter(s, f, ops[count]);
      s := ListAfter(s, ops[count]);
      count := count + 1;
    }
    RunSoFar(out, s, f, ops[count..], whole);
    if count == |ops| { RunEnds(out, s, f, ops, whole); }
  }

  lemma RunSoFar(out: seq<Event>, s: seq<Event>, floor: nat, rest: seq<Op>, whole: seq<Event>)
    requires Running(out, s, floor, rest, whole)
    ensures out <= whole
  {
  }

  /** From empty queues, all of them give the same events for the same operations, each a least one at its time. */
  method QueuesAgree(ops: seq<Op>, reverse: bool)
    returns (list: seq<Event>, calendar: seq<Event>, heap: seq<Event>, count: nat)
    requires Legal([], 0, ops)
    ensures list == calendar == ListRun([], ops) && heap <= list && ServesAll(multiset{}, ops, list)
    ensures count == |ops| ==> heap == list
    ensures (forall i :: 0 <= i < |ops| ==> !ops[i].Remove?) ==> count == |ops|
  {
    hide Legal, ListRun, WellFormed, Flat, HeapOrdered, Stored, SafeToRemove, ServesAll;
    assert Mirrors([], multiset{});
    ListServesAll([], multiset{}, 0, ops);
    var l := new ListScheduler();
    list := DriveList(l, ops, 0);
    var c := new CalendarScheduler(reverse);
    calendar := DriveCalendar(c, ops, []);
    var h := new HeapScheduler();
    heap, count := DriveHeap(h, ops, [], 0);
  }
}
