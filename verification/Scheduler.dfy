/** The deterministic event scheduler: a binary heap with lazy cancellation.

    The ghost field `queue` holds the state of the reference scheduler of `EagerQueue`. Every
    method moves it by the reference operation and returns what that operation returns, so no
    caller can tell the two apart. */
module Scheduler {
  import opened Wrappers
  import opened Events
  import opened EntryLists
  import opened Sets
  import BinaryHeap
  import EagerQueue
  import Runs
  import Debts

  const COMPACTION_THRESHOLD := 64

  function Max(a: int, b: int): int {
    if a < b then b else a
  }

  ghost function DeadSet<E>(heap: seq<Entry<E>>, live: set<U64>): set<Entry<E>> {
    set e | e in heap && e.key.seqNo !in live
  }

  /** The heap entries that sort before the last dispatched key. */
  ghost function Backlog<E>(heap: seq<Entry<E>>, lastKey: Option<EventKey>): set<Entry<E>> {
    set e | e in heap && lastKey.Some? && e.key.Less(lastKey.value)
  }

  method PushEntry<E>(heap: seq<Entry<E>>, e: Entry<E>) returns (heap': seq<Entry<E>>)
    requires BinaryHeap.IsHeap(heap)
    ensures BinaryHeap.IsHeap(heap') && Adds(heap, e, heap')
  {
    heap' := BinaryHeap.Push(heap, e);
    AddsFromMultiset(heap, e, heap');
  }

  method PopEntry<E>(heap: seq<Entry<E>>) returns (e: Entry<E>, heap': seq<Entry<E>>)
    requires BinaryHeap.IsHeap(heap) && heap != []
    ensures forall x :: x in heap ==> e.key.AtMost(x.key)
    ensures BinaryHeap.IsHeap(heap') && Adds(heap', e, heap)
  {
    e, heap' := BinaryHeap.Pop(heap);
    AddsFromMultiset(heap', e, heap);
  }

  /** The heap, the live handles and the count of dead entries agree. */
  ghost predicate HeapOk<E>(heap: seq<Entry<E>>, live: set<U64>, dead: nat, nextSeq: U64, now: SimTime) {
    && Distinct(heap)
    && (forall e :: e in heap ==> e.key.seqNo < nextSeq && now <= e.key.time)
    && dead == |DeadSet(heap, live)|
    && |heap| == |live| + dead
  }

  /** `pending` lists, in order and once each, the heap entries that are still live. */
  ghost predicate Lists<E>(pending: seq<Entry<E>>, heap: seq<Entry<E>>, live: set<U64>) {
    && EagerQueue.Sorted(pending)
    && Distinct(pending)
    && (forall e :: e in pending ==> e in heap && e.key.seqNo in live)
    && (forall e :: e in heap && e.key.seqNo in live ==> e in pending)
    && |live| == |pending|
    && (forall h :: h in live ==> EagerQueue.Contains(pending, h))
  }

  // ---------- Adding an entry ----------

  lemma PushKeepsHeapOk<E>(heap: seq<Entry<E>>, live: set<U64>, dead: nat, nextSeq: U64, now: SimTime,
                           e: Entry<E>, heap': seq<Entry<E>>)
    requires HeapOk(heap, live, dead, nextSeq, now)
    requires nextSeq < U64_MAX && nextSeq !in live
    requires e.key.seqNo == nextSeq && now <= e.key.time && Adds(heap, e, heap')
    ensures HeapOk(heap', live + {nextSeq}, dead, nextSeq + 1, now)
  {
    AddsKeepsDistinct(heap, e, heap');
    assert DeadSet(heap', live + {nextSeq}) == DeadSet(heap, live);
  }

  lemma NextIsNotLive<E>(pending: seq<Entry<E>>, heap: seq<Entry<E>>, live: set<U64>, dead: nat, nextSeq: U64,
                         now: SimTime)
    requires Lists(pending, heap, live) && HeapOk(heap, live, dead, nextSeq, now)
    ensures nextSeq !in live && EagerQueue.Sorted(pending)
    ensures forall x :: x in pending || x in heap ==> x.key.seqNo != nextSeq
  {
    hide Distinct, EagerQueue.Sorted;
  }

  lemma AddsKeepsLists<E>(pending: seq<Entry<E>>, heap: seq<Entry<E>>, live: set<U64>, e: Entry<E>,
                          pending': seq<Entry<E>>, heap': seq<Entry<E>>)
    requires Lists(pending, heap, live) && e.key.seqNo !in live
    requires Adds(pending, e, pending') && Adds(heap, e, heap') && EagerQueue.Sorted(pending')
    requires forall x :: x in pending || x in heap ==> x.key.seqNo != e.key.seqNo
    ensures Lists(pending', heap', live + {e.key.seqNo})
  {
    hide EagerQueue.Sorted, EagerQueue.Contains, Distinct;
    AddsKeepsDistinct(pending, e, pending');
    AddsKeepsHandles(pending, live, e, pending');
  }

  lemma PushKeepsLists<E>(pending: seq<Entry<E>>, heap: seq<Entry<E>>, live: set<U64>,
                          dead: nat, now: SimTime, e: Entry<E>, heap': seq<Entry<E>>)
    requires Lists(pending, heap, live) && HeapOk(heap, live, dead, e.key.seqNo, now)
    requires Adds(heap, e, heap')
    ensures e.key.seqNo !in live
    ensures Lists(EagerQueue.Insert(pending, e), heap', live + {e.key.seqNo})
  {
    hide Lists, HeapOk, Adds, EagerQueue.Insert, EagerQueue.Sorted;
    NextIsNotLive(pending, heap, live, dead, e.key.seqNo, now);
    EagerQueue.AboutInsert(pending, e);
    AddsKeepsLists(pending, heap, live, e, EagerQueue.Insert(pending, e), heap');
  }

  lemma AddsKeepsHandles<E>(pending: seq<Entry<E>>, live: set<U64>, e: Entry<E>, pending': seq<Entry<E>>)
    requires Adds(pending, e, pending')
    requires forall h :: h in live ==> EagerQueue.Contains(pending, h)
    ensures forall h :: h in live + {e.key.seqNo} ==> EagerQueue.Contains(pending', h)
  {
    forall h | h in live + {e.key.seqNo}
      ensures EagerQueue.Contains(pending', h)
    {
      if h != e.key.seqNo {
        var i :| 0 <= i < |pending| && pending[i].key.seqNo == h;
        assert pending[i] in pending';
      }
    }
  }

  lemma AddsOne<E>(s: seq<Entry<E>>, e: Entry<E>, s': seq<Entry<E>>)
    requires Adds(s, e, s')
    ensures |s'| == |s| + 1
  {
  }

  lemma PushBacklog<E>(heap: seq<Entry<E>>, e: Entry<E>, heap': seq<Entry<E>>, lastKey: Option<EventKey>)
    requires Adds(heap, e, heap')
    ensures |Backlog(heap', lastKey)|
         <= |Backlog(heap, lastKey)| + if lastKey.Some? && e.key.Less(lastKey.value) then 1 else 0
  {
    if lastKey.Some? && e.key.Less(lastKey.value) {
      assert Backlog(heap', lastKey) == Backlog(heap, lastKey) + {e};
    } else {
      assert Backlog(heap', lastKey) == Backlog(heap, lastKey);
    }
  }

  /** A new entry sorts before the last key exactly when its time and class do: its sequence
      number is the highest so far. */
  lemma SeenEarlier<E>(at: SimTime, class_: EventClass, e: Entry<E>, lastKey: Option<EventKey>)
    requires e.key.time == at && e.key.priority == class_.Priority()
    requires lastKey.Some? ==> lastKey.value.seqNo < e.key.seqNo
    ensures lastKey.Some? ==> (e.key.Less(lastKey.value) <==> EagerQueue.BeforeInstant(at, class_, lastKey.value))
  {
  }

  // ---------- Cancelling ----------

  lemma CancelKeepsHeapOk<E>(heap: seq<Entry<E>>, live: set<U64>, dead: nat, nextSeq: U64, now: SimTime, e: Entry<E>)
    requires HeapOk(heap, live, dead, nextSeq, now) && e in heap && e.key.seqNo in live
    ensures HeapOk(heap, live - {e.key.seqNo}, dead + 1, nextSeq, now)
  {
    assert DeadSet(heap, live - {e.key.seqNo}) == DeadSet(heap, live) + {e};
  }

  lemma CancelFindsEntry<E>(pending: seq<Entry<E>>, heap: seq<Entry<E>>, live: set<U64>, h: U64) returns (e: Entry<E>)
    requires Lists(pending, heap, live) && h in live
    ensures EagerQueue.Contains(pending, h) && e in heap && e.key.seqNo == h
    ensures Adds(EagerQueue.Without(pending, h), e, pending)
  {
    hide EagerQueue.Without, EagerQueue.Sorted, Distinct;
    e := EagerQueue.WithoutRemovesOne(pending, h);
  }

  lemma CancelKeepsPending<E>(pending: seq<Entry<E>>, heap: seq<Entry<E>>, live: set<U64>, e: Entry<E>,
                              rest: seq<Entry<E>>)
    requires Lists(pending, heap, live) && e.key.seqNo in live
    requires Adds(rest, e, pending) && EagerQueue.Sorted(rest)
    ensures Lists(rest, heap, live - {e.key.seqNo})
  {
    hide EagerQueue.Sorted;
    RemovesKeepsDistinct(pending, e, rest);
    RemovesKeepsHandles(pending, live, e, rest);
    assert forall x :: x in rest ==> x.key.seqNo != e.key.seqNo;
  }

  lemma CancelKeepsLists<E>(pending: seq<Entry<E>>, heap: seq<Entry<E>>, live: set<U64>, dead: nat,
                            nextSeq: U64, now: SimTime, h: U64)
    requires HeapOk(heap, live, dead, nextSeq, now) && Lists(pending, heap, live) && h in live
    ensures EagerQueue.Contains(pending, h)
    ensures HeapOk(heap, live - {h}, dead + 1, nextSeq, now)
    ensures Lists(EagerQueue.Without(pending, h), heap, live - {h})
  {
    assert EagerQueue.Sorted(pending);
    hide HeapOk, Lists, Adds;
    var e := CancelFindsEntry(pending, heap, live, h);
    EagerQueue.WithoutKeepsOrder(pending, h);
    CancelKeepsHeapOk(heap, live, dead, nextSeq, now, e);
    CancelKeepsPending(pending, heap, live, e, EagerQueue.Without(pending, h));
  }

  lemma RemovesKeepsHandles<E>(pending: seq<Entry<E>>, live: set<U64>, e: Entry<E>, rest: seq<Entry<E>>)
    requires Adds(rest, e, pending)
    requires forall h :: h in live ==> EagerQueue.Contains(pending, h)
    ensures forall h :: h in live - {e.key.seqNo} ==> EagerQueue.Contains(rest, h)
  {
    forall h | h in live - {e.key.seqNo}
      ensures EagerQueue.Contains(rest, h)
    {
      var i :| 0 <= i < |pending| && pending[i].key.seqNo == h;
      assert pending[i] in rest;
    }
  }

  lemma NothingToCancel<E>(pending: seq<Entry<E>>, heap: seq<Entry<E>>, live: set<U64>, h: U64)
    requires Lists(pending, heap, live) && h !in live
    ensures !EagerQueue.Contains(pending, h) && EagerQueue.Without(pending, h) == pending
  {
    EagerQueue.WithoutAbsent(pending, h);
  }

  // ---------- Compaction ----------

  /** The entries of a vector that are still live, in their order. */
  function Retained<E>(s: seq<Entry<E>>, live: set<U64>): seq<Entry<E>> {
    if s == [] then []
    else if s[0].key.seqNo in live then [s[0]] + Retained(s[1..], live)
    else Retained(s[1..], live)
  }

  lemma {:induction false} RetainedMembers<E>(s: seq<Entry<E>>, live: set<U64>)
    ensures forall e :: e in Retained(s, live) ==> e in s && e.key.seqNo in live
    ensures forall e :: e in s && e.key.seqNo in live ==> e in Retained(s, live)
  {
    if s != [] {
      assert s == [s[0]] + s[1..];
      RetainedMembers(s[1..], live);
    }
  }

  lemma {:induction false} RetainedCount<E>(s: seq<Entry<E>>, live: set<U64>)
    requires Distinct(s)
    ensures |Retained(s, live)| + |DeadSet(s, live)| == |s|
  {
    if s != [] {
      assert s == [s[0]] + s[1..];
      RemovesKeepsDistinct(s, s[0], s[1..]);
      RetainedCount(s[1..], live);
      if s[0].key.seqNo in live {
        assert DeadSet(s, live) == DeadSet(s[1..], live);
      } else {
        assert DeadSet(s, live) == DeadSet(s[1..], live) + {s[0]};
      }
    }
  }

  lemma {:induction false} RetainedDistinct<E>(s: seq<Entry<E>>, live: set<U64>)
    requires Distinct(s)
    ensures Distinct(Retained(s, live))
  {
    if s != [] {
      assert s == [s[0]] + s[1..];
      RemovesKeepsDistinct(s, s[0], s[1..]);
      RetainedDistinct(s[1..], live);
      RetainedMembers(s[1..], live);
      if s[0].key.seqNo in live {
        AddsKeepsDistinct(Retained(s[1..], live), s[0], Retained(s, live));
      }
    }
  }

  /** The heap rebuilt from its live entries alone. */
  method Rebuild<E>(heap: seq<Entry<E>>, live: set<U64>) returns (heap': seq<Entry<E>>)
    requires Distinct(heap)
    ensures BinaryHeap.IsHeap(heap') && Distinct(heap')
    ensures forall e :: e in heap' ==> e in heap && e.key.seqNo in live
    ensures forall e :: e in heap && e.key.seqNo in live ==> e in heap'
    ensures |heap'| + |DeadSet(heap, live)| == |heap|
  {
    var kept := Retained(heap, live);
    RetainedMembers(heap, live);
    RetainedCount(heap, live);
    RetainedDistinct(heap, live);
    heap' := BinaryHeap.From(kept);
    SameMultiset(kept, heap');
  }

  lemma SameMultiset<E>(s: seq<Entry<E>>, s': seq<Entry<E>>)
    requires multiset(s) == multiset(s')
    ensures |s| == |s'| && SetOf(s) == SetOf(s')
    ensures forall e :: e in s <==> e in s'
  {
    assert |multiset(s)| == |multiset(s')|;
    forall e
      ensures e in s <==> e in s'
    {
      assert e in s <==> e in multiset(s);
      assert e in s' <==> e in multiset(s');
    }
  }

  lemma RebuildKeepsLists<E>(pending: seq<Entry<E>>, heap: seq<Entry<E>>, live: set<U64>, dead: nat,
                             nextSeq: U64, now: SimTime, lastKey: Option<EventKey>, heap': seq<Entry<E>>)
    requires HeapOk(heap, live, dead, nextSeq, now) && Lists(pending, heap, live)
    requires Distinct(heap') && |heap'| + |DeadSet(heap, live)| == |heap|
    requires forall e :: e in heap' ==> e in heap && e.key.seqNo in live
    requires forall e :: e in heap && e.key.seqNo in live ==> e in heap'
    ensures HeapOk(heap', live, 0, nextSeq, now) && Lists(pending, heap', live)
    ensures |Backlog(heap', lastKey)| <= |Backlog(heap, lastKey)|
  {
    assert DeadSet(heap', live) == {};
    Shrinks(Backlog(heap', lastKey), Backlog(heap, lastKey));
  }

  method WithoutDead<E>(heap: seq<Entry<E>>, live: set<U64>, ghost pending: seq<Entry<E>>, ghost dead: nat,
                        ghost nextSeq: U64, ghost now: SimTime, ghost lastKey: Option<EventKey>)
    returns (heap': seq<Entry<E>>)
    requires HeapOk(heap, live, dead, nextSeq, now) && Lists(pending, heap, live)
    ensures BinaryHeap.IsHeap(heap') && HeapOk(heap', live, 0, nextSeq, now) && Lists(pending, heap', live)
    ensures |heap'| == |live| && |Backlog(heap', lastKey)| <= |Backlog(heap, lastKey)|
  {
    heap' := Rebuild(heap, live);
    RebuildKeepsLists(pending, heap, live, dead, nextSeq, now, lastKey, heap');
  }

  lemma HeapSize<E>(heap: seq<Entry<E>>, live: set<U64>, dead: nat, nextSeq: U64, now: SimTime)
    requires HeapOk(heap, live, dead, nextSeq, now)
    ensures |heap| == |live| + dead
  {
  }

  lemma EmptyHeap<E>(pending: seq<Entry<E>>, live: set<U64>, dead: nat, nextSeq: U64, now: SimTime)
    requires HeapOk<E>([], live, dead, nextSeq, now) && Lists(pending, [], live)
    ensures pending == [] && live == {} && dead == 0
  {
    assert |live| == 0 && |pending| == 0;
  }

  // ---------- Taking out the least entry ----------

  /** A live entry at the root is the head of the reference queue. */
  lemma RootIsHead<E>(pending: seq<Entry<E>>, heap: seq<Entry<E>>, live: set<U64>, dead: nat,
                      nextSeq: U64, now: SimTime, e: Entry<E>)
    requires HeapOk(heap, live, dead, nextSeq, now) && Lists(pending, heap, live)
    requires e in heap && e.key.seqNo in live
    requires forall x :: x in heap ==> e.key.AtMost(x.key)
    ensures pending != [] && pending[0] == e
  {
    assert e in pending && pending[0] in heap;
    if pending[0] != e {
      EagerQueue.HeadIsLeast(pending, e);
    }
  }

  lemma PopLiveKeepsHeapOk<E>(heap: seq<Entry<E>>, live: set<U64>, dead: nat, nextSeq: U64, now: SimTime,
                              e: Entry<E>, heap': seq<Entry<E>>)
    requires HeapOk(heap, live, dead, nextSeq, now)
    requires e.key.seqNo in live && Adds(heap', e, heap)
    requires forall x :: x in heap ==> e.key.AtMost(x.key)
    ensures now <= e.key.time && e.key.seqNo < nextSeq && e !in heap'
    ensures HeapOk(heap', live - {e.key.seqNo}, dead, nextSeq, e.key.time)
    ensures Backlog(heap', Some(e.key)) == {}
  {
    RemovesKeepsDistinct(heap, e, heap');
    assert DeadSet(heap', live - {e.key.seqNo}) == DeadSet(heap, live);
  }

  lemma PopLiveKeepsPending<E>(pending: seq<Entry<E>>, heap: seq<Entry<E>>, live: set<U64>, e: Entry<E>,
                               heap': seq<Entry<E>>)
    requires Lists(pending, heap, live) && pending != [] && pending[0] == e
    requires Adds(heap', e, heap) && e !in heap' && e.key.seqNo in live
    ensures Lists(pending[1..], heap', live - {e.key.seqNo})
  {
    var rest := pending[1..];
    assert pending == [e] + rest;
    assert EagerQueue.Sorted(rest) && Adds(rest, e, pending);
    hide Lists, Distinct, EagerQueue.Contains;
    CancelKeepsPending(pending, heap, live, e, rest);
    DeadEntryMayGo(rest, heap, live - {e.key.seqNo}, e, heap');
  }

  lemma DeadEntryMayGo<E>(pending: seq<Entry<E>>, heap: seq<Entry<E>>, live: set<U64>, e: Entry<E>,
                          heap': seq<Entry<E>>)
    requires Lists(pending, heap, live) && e.key.seqNo !in live && Adds(heap', e, heap)
    ensures Lists(pending, heap', live)
  {
    hide EagerQueue.Sorted, Distinct, EagerQueue.Contains;
  }

  lemma PopLiveKeepsLists<E>(pending: seq<Entry<E>>, heap: seq<Entry<E>>, live: set<U64>, dead: nat,
                             nextSeq: U64, now: SimTime, e: Entry<E>, heap': seq<Entry<E>>)
    requires HeapOk(heap, live, dead, nextSeq, now) && Lists(pending, heap, live)
    requires e.key.seqNo in live && Adds(heap', e, heap)
    requires forall x :: x in heap ==> e.key.AtMost(x.key)
    ensures pending != [] && pending[0] == e
    ensures now <= e.key.time && e.key.seqNo < nextSeq
    ensures HeapOk(heap', live - {e.key.seqNo}, dead, nextSeq, e.key.time)
    ensures Lists(pending[1..], heap', live - {e.key.seqNo})
    ensures Backlog(heap', Some(e.key)) == {}
  {
    assert e in heap;
    hide HeapOk, Lists, Adds, EventKey.AtMost, Backlog;
    RootIsHead(pending, heap, live, dead, nextSeq, now, e);
    PopLiveKeepsHeapOk(heap, live, dead, nextSeq, now, e, heap');
    PopLiveKeepsPending(pending, heap, live, e, heap');
  }

  lemma PopDeadKeepsLists<E>(pending: seq<Entry<E>>, heap: seq<Entry<E>>, live: set<U64>, dead: nat,
                             nextSeq: U64, now: SimTime, lastKey: Option<EventKey>, e: Entry<E>, heap': seq<Entry<E>>)
    requires HeapOk(heap, live, dead, nextSeq, now) && Lists(pending, heap, live)
    requires e.key.seqNo !in live && Adds(heap', e, heap)
    ensures dead > 0
    ensures HeapOk(heap', live, dead - 1, nextSeq, now) && Lists(pending, heap', live)
    ensures |Backlog(heap', lastKey)| <= |Backlog(heap, lastKey)|
  {
    hide Lists;
    DeadEntryMayGo(pending, heap, live, e, heap');
    RemovesKeepsDistinct(heap, e, heap');
    assert DeadSet(heap, live) == DeadSet(heap', live) + {e};
    Shrinks(Backlog(heap', lastKey), Backlog(heap, lastKey));
  }

  class Scheduler<E> {
    var heap: seq<Entry<E>>
    /** Sequence numbers still scheduled. */
    var live: set<U64>
    /** Entries of `heap` whose sequence number is no longer in `live`. */
    var dead: nat
    var nextSeq: U64
    var now: SimTime
    var lastKey: Option<EventKey>
    var reentrantDebt: U64

    /** The reference scheduler this one stands for. */
    ghost var queue: EagerQueue.Queue<E>
    /** Successful cancellations so far, and heap entries read by compactions so far. */
    ghost var cancels: nat
    ghost var scanned: nat
    /** How many events were pending right after the last successful cancellation. */
    ghost var lenAtCancel: nat

    ghost predicate HeapInv()
      reads this
    {
      BinaryHeap.IsHeap(heap) && HeapOk(heap, live, dead, nextSeq, now)
    }

    /** The clock agrees with the last dispatched key, and every entry below that key is
        covered by a reentrant schedule not yet accounted for. */
    ghost predicate OrderInv()
      reads this
    {
      && (lastKey.Some? ==> lastKey.value.time == now && lastKey.value.seqNo < nextSeq)
      && |Backlog(heap, lastKey)| <= reentrantDebt <= nextSeq
    }

    ghost predicate Refines()
      reads this
    {
      && Lists(queue.pending, heap, live)
      && queue.nextSeq == nextSeq && queue.now == now && queue.lastKey == lastKey
    }

    /** Cancellation pays two credits; a compaction spends one for each entry it reads. */
    ghost predicate CostInv()
      reads this
    {
      && scanned + 2 * dead <= 2 * cancels
      && dead <= Max(COMPACTION_THRESHOLD, lenAtCancel)
    }

    ghost predicate Valid()
      reads this
    {
      HeapInv() && OrderInv() && Refines() && CostInv()
    }

    /** At most as many dead entries as live ones, once past the threshold. */
    ghost predicate Compact()
      reads this
    {
      |heap| <= |live| + Max(COMPACTION_THRESHOLD, |live|)
    }

    constructor ()
      ensures Valid() && Compact()
      ensures queue == EagerQueue.Empty() && cancels == 0 && scanned == 0 && lenAtCancel == 0 && reentrantDebt == 0
    {
      heap, live, dead, nextSeq, now, lastKey, reentrantDebt := [], {}, 0, 0, 0, None, 0;
      queue, cancels, scanned, lenAtCancel := EagerQueue.Empty(), 0, 0, 0;
    }

    function Len(): (n: nat)
      requires Valid()
      reads this
      ensures n == |queue.pending|
    {
      |live|
    }

    predicate IsEmpty()
      requires Valid()
      reads this
      ensures IsEmpty() <==> queue.pending == []
    {
      live == {}
    }

    function PendingEntries(): (n: nat)
      requires Valid()
      reads this
      ensures Len() <= n <= Len() + Max(COMPACTION_THRESHOLD, lenAtCancel)
    {
      |heap|
    }

    method Push(at: SimTime, class_: EventClass, payload: E) returns (r: Result<U64, EagerQueue.Panic>)
      requires HeapInv() && Refines() && CostInv() && now <= at
      requires lastKey.Some? ==> lastKey.value.seqNo < nextSeq
      modifies `heap, `live, `nextSeq, `queue
      ensures HeapInv() && Refines() && CostInv()
      ensures (queue, r) == EagerQueue.Push(old(queue), at, class_, payload)
      ensures nextSeq == old(nextSeq) + if r.Ok? then 1 else 0
      ensures r.Err? ==> old(nextSeq) == U64_MAX && heap == old(heap)
      ensures |Backlog(heap, lastKey)| <= old(|Backlog(heap, lastKey)|)
        + if lastKey.Some? && EagerQueue.BeforeInstant(at, class_, lastKey.value) then 1 else 0
      ensures old(Compact()) ==> Compact()
    {
      hide HeapOk, Lists, Backlog, BinaryHeap.IsHeap, Adds, EagerQueue.BeforeInstant, EagerQueue.Insert, Distinct;
      if nextSeq == U64_MAX {
        return Err(EagerQueue.CounterOverflow);
      }
      var seqNo := nextSeq;
      nextSeq := nextSeq + 1;
      var entry := Entry(EventKey(at, class_.Priority(), seqNo), payload);
      ghost var heap0 := heap;
      heap := PushEntry(heap, entry);
      AddsOne(heap0, entry, heap);
      PushKeepsLists(queue.pending, heap0, live, dead, now, entry, heap);
      PushKeepsHeapOk(heap0, live, dead, seqNo, now, entry, heap);
      PushBacklog(heap0, entry, heap, lastKey);
      SeenEarlier(at, class_, entry, lastKey);
      live := live + {seqNo};
      queue := EagerQueue.Push(queue, at, class_, payload).0;
      r := Ok(seqNo);
    }

    method Schedule(at: SimTime, class_: EventClass, payload: E) returns (r: Result<U64, EagerQueue.Panic>)
      requires Valid()
      modifies this
      ensures Valid()
      ensures (queue, r) == EagerQueue.Schedule(old(queue), at, class_, payload)
      ensures reentrantDebt == old(reentrantDebt)
      ensures cancels == old(cancels) && scanned == old(scanned) && lenAtCancel == old(lenAtCancel)
      ensures old(Compact()) ==> Compact()
    {
      hide HeapOk, Lists, Backlog, BinaryHeap.IsHeap;
      if at < now {
        return Err(EagerQueue.InThePast);
      }
      if lastKey.Some? && EagerQueue.BeforeInstant(at, class_, lastKey.value) {
        return Err(EagerQueue.EarlierPriority);
      }
      r := Push(at, class_, payload);
    }

    method ScheduleAfter(delay: U64, class_: EventClass, payload: E) returns (r: Result<U64, EagerQueue.Panic>)
      requires Valid()
      modifies this
      ensures Valid()
      ensures (queue, r) == EagerQueue.Schedule(old(queue), SaturatingAdd(old(now), delay), class_, payload)
      ensures reentrantDebt == old(reentrantDebt)
      ensures r != Err(EagerQueue.InThePast)
      ensures cancels == old(cancels) && scanned == old(scanned) && lenAtCancel == old(lenAtCancel)
      ensures old(Compact()) ==> Compact()
    {
      hide HeapOk, Lists, Backlog, BinaryHeap.IsHeap;
      r := Schedule(SaturatingAdd(now, delay), class_, payload);
    }

    method ScheduleReentrant(at: SimTime, class_: EventClass, payload: E) returns (r: Result<U64, EagerQueue.Panic>)
      requires Valid()
      modifies this
      ensures Valid()
      ensures (queue, r) == EagerQueue.ScheduleReentrant(old(queue), at, class_, payload)
      ensures reentrantDebt == old(reentrantDebt) +
        if r != Err(EagerQueue.InThePast) && lastKey.Some? && EagerQueue.BeforeInstant(at, class_, lastKey.value)
           && old(reentrantDebt) < U64_MAX then 1 else 0
      ensures r.Ok? ==> old(reentrantDebt) < U64_MAX
      ensures cancels == old(cancels) && scanned == old(scanned) && lenAtCancel == old(lenAtCancel)
      ensures old(Compact()) ==> Compact()
    {
      hide HeapOk, Lists, Backlog, BinaryHeap.IsHeap;
      if at < now {
        return Err(EagerQueue.InThePast);
      }
      if lastKey.Some? && EagerQueue.BeforeInstant(at, class_, lastKey.value) {
        if reentrantDebt == U64_MAX {
          return Err(EagerQueue.CounterOverflow);
        }
        reentrantDebt := reentrantDebt + 1;
      }
      r := Push(at, class_, payload);
    }

    method Cancel(h: U64) returns (wasPending: bool)
      requires Valid()
      modifies this
      ensures Valid()
      ensures (queue, wasPending) == EagerQueue.Cancel(old(queue), h)
      ensures reentrantDebt == old(reentrantDebt)
      ensures cancels == old(cancels) + if wasPending then 1 else 0
      ensures lenAtCancel == if wasPending then Len() else old(lenAtCancel)
      ensures wasPending || old(Compact()) ==> Compact()
    {
      hide HeapOk, Lists;
      if h !in live {
        NothingToCancel(queue.pending, heap, live, h);
        return false;
      }
      CancelKeepsLists(queue.pending, heap, live, dead, nextSeq, now, h);
      live := live - {h};
      queue := EagerQueue.Cancel(queue, h).0;
      dead := dead + 1;
      cancels := cancels + 1;
      CompactIfNeeded();
      wasPending := true;
    }

    method CompactIfNeeded()
      requires HeapInv() && OrderInv() && Refines()
      requires scanned + 2 * dead <= 2 * cancels
      modifies `heap, `dead, `scanned, `lenAtCancel
      ensures Valid() && Compact() && lenAtCancel == |live|
      ensures if old(dead) > COMPACTION_THRESHOLD && old(dead) > |old(heap)| / 2
              then dead == 0 && |heap| == |live| && scanned == old(scanned) + |old(heap)|
              else dead == old(dead) && heap == old(heap) && scanned == old(scanned)
    {
      hide HeapOk, Lists, Backlog, BinaryHeap.IsHeap;
      HeapSize(heap, live, dead, nextSeq, now);
      lenAtCancel := |live|;
      if dead <= COMPACTION_THRESHOLD || dead <= |heap| / 2 {
        return;
      }
      scanned := scanned + |heap|;
      heap := WithoutDead(heap, live, queue.pending, dead, nextSeq, now, lastKey);
      dead := 0;
    }

    /** Dispatches the next event. Both debug assertions of the source stand in the body. */
    method Pop() returns (r: Option<Entry<E>>)
      requires Valid()
      modifies this
      ensures Valid()
      ensures (queue, r) == EagerQueue.Pop(old(queue))
      ensures reentrantDebt == old(reentrantDebt) -
        if r.Some? && old(lastKey).Some? && r.value.key.Less(old(lastKey).value) then 1 else 0
      ensures cancels == old(cancels) && scanned == old(scanned) && lenAtCancel == old(lenAtCancel)
      ensures r == None && old(Compact()) ==> Compact()
    {
      hide HeapOk, Lists;
      while heap != []
        invariant Valid()
        invariant queue == old(queue) && live == old(live) && |heap| <= old(|heap|)
        invariant reentrantDebt == old(reentrantDebt) && lastKey == old(lastKey)
        invariant cancels == old(cancels) && scanned == old(scanned) && lenAtCancel == old(lenAtCancel)
        decreases |heap|
      {
        ghost var heap0 := heap;
        var entry;
        entry, heap := PopEntry(heap);
        if entry.key.seqNo in live {
          Dispatch(entry, heap0);
          return Some(entry);
        }
        PopDeadKeepsLists(queue.pending, heap0, live, dead, nextSeq, now, lastKey, entry, heap);
        dead := dead - 1;
      }
      EmptyHeap(queue.pending, live, dead, nextSeq, now);
      r := None;
    }

    /** Hands out `entry`, the least of the heap `from`, which is live. */
    method Dispatch(entry: Entry<E>, ghost from: seq<Entry<E>>)
      requires BinaryHeap.IsHeap(heap) && Adds(heap, entry, from)
      requires HeapOk(from, live, dead, nextSeq, now) && Lists(queue.pending, from, live)
      requires queue.nextSeq == nextSeq && CostInv() && reentrantDebt <= nextSeq
      requires |Backlog(from, lastKey)| <= reentrantDebt
      requires entry.key.seqNo in live && forall x :: x in from ==> entry.key.AtMost(x.key)
      modifies `live, `reentrantDebt, `now, `lastKey, `queue
      ensures Valid()
      ensures (queue, Some(entry)) == EagerQueue.Pop(old(queue))
      ensures reentrantDebt == old(reentrantDebt) -
        if old(lastKey).Some? && entry.key.Less(old(lastKey).value) then 1 else 0
    {
      hide HeapOk, Lists;
      PopLiveKeepsLists(queue.pending, from, live, dead, nextSeq, now, entry, heap);
      live := live - {entry.key.seqNo};
      CheckDispatchOrder(entry, from);
      now := entry.key.time;
      lastKey := Some(entry.key);
      queue := EagerQueue.Pop(queue).0;
    }

    /** An event that sorts before the last one dispatched is always paid for by a reentrant
        schedule: the debug assertions hold and the counter does not underflow. */
    method CheckDispatchOrder(entry: Entry<E>, ghost from: seq<Entry<E>>)
      requires entry in from && now <= entry.key.time
      requires |Backlog(from, lastKey)| <= reentrantDebt
      modifies `reentrantDebt
      ensures reentrantDebt ==
        old(reentrantDebt) - if lastKey.Some? && entry.key.Less(lastKey.value) then 1 else 0
    {
      assert entry.key.time >= now;
      if lastKey.Some? && entry.key.Less(lastKey.value) {
        assert entry in Backlog(from, lastKey);
        assert reentrantDebt > 0;
        reentrantDebt := reentrantDebt - 1;
      }
    }

    method PeekTime() returns (r: Option<SimTime>)
      requires Valid()
      modifies this
      ensures Valid() && queue == old(queue) && reentrantDebt == old(reentrantDebt)
      ensures r == EagerQueue.PeekTime(queue)
      ensures cancels == old(cancels) && scanned == old(scanned) && lenAtCancel == old(lenAtCancel)
      ensures old(Compact()) ==> Compact()
    {
      hide HeapOk, Lists, Backlog, BinaryHeap.IsHeap;
      PurgeHead();
      var head := BinaryHeap.Peek(heap);
      r := if head.None? then None else Some(head.value.key.time);
    }

    method PeekKey() returns (r: Option<EventKey>)
      requires Valid()
      modifies this
      ensures Valid() && queue == old(queue) && reentrantDebt == old(reentrantDebt)
      ensures r == EagerQueue.PeekKey(queue)
      ensures cancels == old(cancels) && scanned == old(scanned) && lenAtCancel == old(lenAtCancel)
      ensures old(Compact()) ==> Compact()
    {
      hide HeapOk, Lists, Backlog, BinaryHeap.IsHeap;
      PurgeHead();
      var head := BinaryHeap.Peek(heap);
      r := if head.None? then None else Some(head.value.key);
    }

    method Clear()
      requires Valid()
      modifies this
      ensures Valid() && Compact() && queue == EagerQueue.Clear(old(queue))
      ensures reentrantDebt == old(reentrantDebt)
      ensures cancels == old(cancels) && scanned == old(scanned) && lenAtCancel == old(lenAtCancel)
      ensures PendingEntries() == 0
    {
      heap, live, dead := [], {}, 0;
      queue := EagerQueue.Clear(queue);
      assert DeadSet(heap, live) == {} && Backlog(heap, lastKey) == {} && SetOf(heap) == {};
    }

    /** Afterwards the root of the heap is the head of the reference queue. */
    method PurgeHead()
      requires Valid()
      modifies `heap, `dead
      ensures Valid()
      ensures heap == [] <==> queue.pending == []
      ensures heap != [] ==> heap[0] == queue.pending[0]
      ensures old(Compact()) ==> Compact()
    {
      hide HeapOk, Lists;
      while heap != []
        invariant Valid()
        invariant |heap| <= old(|heap|)
        decreases |heap|
      {
        BinaryHeap.PeekIsLeast(heap);
        if heap[0].key.seqNo in live {
          RootIsHead(queue.pending, heap, live, dead, nextSeq, now, heap[0]);
          return;
        }
        ghost var heap0 := heap;
        var entry;
        entry, heap := PopEntry(heap);
        PopDeadKeepsLists(queue.pending, heap0, live, dead, nextSeq, now, lastKey, entry, heap);
        dead := dead - 1;
      }
      EmptyHeap(queue.pending, live, dead, nextSeq, now);
    }
  }

  // ---------- Whole runs ----------

  /** How many cancellations of a run found their event pending. */
  ghost function SuccessfulCancels<E>(outs: seq<Runs.Outcome<E>>): nat {
    if outs == [] then 0
    else SuccessfulCancels(outs[..|outs| - 1]) + if outs[|outs| - 1] == Runs.Cancelled(true) then 1 else 0
  }

  /** How many events were pending right after the last successful cancellation of a run. */
  ghost function PendingAtCancel<E>(ops: seq<Runs.Op<E>>): nat
    decreases |ops|
  {
    if ops == [] then 0
    else
      var front, op := ops[..|ops| - 1], ops[|ops| - 1];
      var (q, out) := Runs.Apply(Runs.Run(EagerQueue.Empty<E>(), front).0, op);
      if out == Runs.Cancelled(true) then |q.pending| else PendingAtCancel(front)
  }

  predicate Dispatches<E>(out: Runs.Outcome<E>) {
    out.Popped? && out.event.Some?
  }

  /** No event was dispatched since the last successful cancellation or clear of a run. */
  ghost predicate Undisturbed<E>(ops: seq<Runs.Op<E>>)
    decreases |ops|
  {
    ops != [] ==>
      var front, op := ops[..|ops| - 1], ops[|ops| - 1];
      var (_, out) := Runs.Apply(Runs.Run(EagerQueue.Empty<E>(), front).0, op);
      out == Runs.Cancelled(true) || op.DoClear? || (!Dispatches(out) && Undisturbed(front))
  }

  method Perform<E>(s: Scheduler<E>, op: Runs.Op<E>) returns (out: Runs.Outcome<E>)
    requires s.Valid()
    modifies s
    ensures s.Valid()
    ensures (s.queue, out) == Runs.Apply(old(s.queue), op)
    ensures s.cancels == old(s.cancels) + if out == Runs.Cancelled(true) then 1 else 0
    ensures s.lenAtCancel == if out == Runs.Cancelled(true) then s.Len() else old(s.lenAtCancel)
    ensures s.reentrantDebt == old(s.reentrantDebt) + Debts.DebtChange(old(s.queue), op, out, old(s.reentrantDebt))
    ensures !Dispatches(out) && old(s.Compact()) ==> s.Compact()
    ensures out == Runs.Cancelled(true) || op.DoClear? ==> s.Compact()
  {
    hide HeapOk, Lists, Backlog, BinaryHeap.IsHeap, Adds;
    match op
    case DoSchedule(at, c, p) => var h := s.Schedule(at, c, p); out := Runs.Scheduled(h);
    case DoScheduleAfter(delay, c, p) => var h := s.ScheduleAfter(delay, c, p); out := Runs.Scheduled(h);
    case DoScheduleReentrant(at, c, p) => var h := s.ScheduleReentrant(at, c, p); out := Runs.Scheduled(h);
    case DoCancel(h) => var was := s.Cancel(h); out := Runs.Cancelled(was);
    case DoPop => var e := s.Pop(); out := Runs.Popped(e);
    case DoPeekTime => var t := s.PeekTime(); out := Runs.Time(t);
    case DoPeekKey => var k := s.PeekKey(); out := Runs.Key(k);
    case DoLen => out := Runs.Length(s.Len());
    case DoClear => s.Clear(); out := Runs.Cleared;
  }

  /** What one more call does to the accounts of a run. */
  lemma OneMoreCall<E>(front: seq<Runs.Op<E>>, outs: seq<Runs.Outcome<E>>, op: Runs.Op<E>, out: Runs.Outcome<E>)
    requires Runs.Apply(Runs.Run(EagerQueue.Empty<E>(), front).0, op).1 == out
    ensures var q := Runs.Run(EagerQueue.Empty<E>(), front).0;
      var ops := front + [op];
      var cancelled := out == Runs.Cancelled(true);
      && SuccessfulCancels(outs + [out]) == SuccessfulCancels(outs) + (if cancelled then 1 else 0)
      && PendingAtCancel(ops) == (if cancelled then |Runs.Apply(q, op).0.pending| else PendingAtCancel(front))
      && (Undisturbed(ops) <==> cancelled || op.DoClear? || (!Dispatches(out) && Undisturbed(front)))
      && Debts.Books(ops).debt == Debts.Books(front).debt + Debts.DebtChange(q, op, out, Debts.Books(front).debt)
  {
    hide Runs.Apply, Runs.Run, Debts.DebtChange;
    var ops := front + [op];
    assert ops[..|ops| - 1] == front && ops[|ops| - 1] == op;
    assert (outs + [out])[..|outs|] == outs;
  }

  /** Whole-run refinement: whatever the calls, the outcomes are those of the reference
      scheduler; all compactions together read at most two heap entries for each successful
      cancellation; past the threshold, the dead entries in the heap are no more than the
      events that were pending at the last successful cancellation, and no more than those
      pending now if nothing was dispatched since; and the reentrancy counter is the one that
      `Debts` keeps the books of. */
  method Replay<E>(ops: seq<Runs.Op<E>>) returns (s: Scheduler<E>, outs: seq<Runs.Outcome<E>>)
    ensures fresh(s) && s.Valid()
    ensures (s.queue, outs) == Runs.Run(EagerQueue.Empty<E>(), ops)
    ensures s.scanned <= 2 * SuccessfulCancels(outs)
    ensures s.PendingEntries() <= s.Len() + Max(COMPACTION_THRESHOLD, PendingAtCancel(ops))
    ensures Undisturbed(ops) ==> s.PendingEntries() <= s.Len() + Max(COMPACTION_THRESHOLD, s.Len())
    ensures s.reentrantDebt == Debts.Books(ops).debt
  {
    hide HeapOk, Lists, Backlog, BinaryHeap.IsHeap, Runs.Apply, Runs.Run, Debts.DebtChange, Debts.Books,
      SuccessfulCancels, PendingAtCancel, Undisturbed, Dispatches;
    s := new Scheduler();
    outs := [];
    NothingRun<E>();
    for i := 0 to |ops|
      invariant fresh(s) && s.Valid()
      invariant (s.queue, outs) == Runs.Run(EagerQueue.Empty<E>(), ops[..i])
      invariant s.cancels == SuccessfulCancels(outs)
      invariant s.lenAtCancel == PendingAtCancel(ops[..i])
      invariant Undisturbed(ops[..i]) ==> s.Compact()
      invariant s.reentrantDebt == Debts.Books(ops[..i]).debt
    {
      var out := Perform(s, ops[i]);
      Runs.RunAppend(EagerQueue.Empty<E>(), ops[..i], ops[i]);
      OneMoreCall(ops[..i], outs, ops[i], out);
      assert ops[..i + 1] == ops[..i] + [ops[i]];
      outs := outs + [out];
    }
    assert ops[..|ops|] == ops;
  }

  lemma NothingRun<E>()
    ensures Runs.Run(EagerQueue.Empty<E>(), []) == (EagerQueue.Empty(), [])
    ensures SuccessfulCancels<E>([]) == 0 && PendingAtCancel<E>([]) == 0 && Debts.Books<E>([]).debt == 0
  {
  }

  /** The reentrancy counter only bounds the events it stands for: a reentrant event that is
      cancelled stays counted although it will never be dispatched. */
  method DebtOutlivesItsEvent<E>(at: SimTime, payload: E) returns (s: Scheduler<E>)
    ensures fresh(s) && s.Valid() && s.Len() == 0 && s.reentrantDebt == 1
  {
    hide HeapOk, Lists, Backlog, BinaryHeap.IsHeap;
    s := new Scheduler();
    var first := s.Schedule(at, PhyEnd, payload);
    var _ := s.Pop();
    assert s.lastKey.value.time == at && EagerQueue.BeforeInstant(at, Control, s.lastKey.value);
    var second := s.ScheduleReentrant(at, Control, payload);
    assert s.queue.pending[0].key.seqNo == second.value;
    var _ := s.Cancel(second.value);
  }

  /** Nothing need be cancelled for that: of two reentrant events at one instant, the second is
      dispatched after the first and so does not go back. */
  method DebtOutlivesItsDispatch<E>(at: SimTime, payload: E) returns (s: Scheduler<E>)
    ensures fresh(s) && s.Valid() && s.Len() == 0 && s.cancels == 0 && s.reentrantDebt == 1
  {
    hide HeapOk, Lists, Backlog, BinaryHeap.IsHeap;
    s := new Scheduler();
    var _ := s.Schedule(at, PhyEnd, payload);
    var _ := s.Pop();
    var last := s.lastKey.value;
    assert last.time == at && EagerQueue.BeforeInstant(at, Control, last);
    assert EagerQueue.BeforeInstant(at, MobilityStep, last);
    var _ := s.ScheduleReentrant(at, Control, payload);
    var _ := s.ScheduleReentrant(at, MobilityStep, payload);
    var first := Entry(EventKey(at, 0, 1), payload);
    var second := Entry(EventKey(at, 1, 2), payload);
    assert s.queue.pending == [first, second] by {
      assert EagerQueue.Insert([first], second) == [first] + EagerQueue.Insert([], second);
    }
    var p := s.Pop();
    assert p == Some(first) && first.key.Less(last) && s.queue.pending == [second];
    var p' := s.Pop();
    assert p' == Some(second) && !second.key.Less(first.key);
  }
}
