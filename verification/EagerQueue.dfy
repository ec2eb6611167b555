/** The reference scheduler: a sorted list that forgets a cancelled event at once and always
    dispatches its first element. It has no heap, no dead entries, no compaction and no
    reentrancy counter; `Scheduler` is proved to be indistinguishable from it. */
module EagerQueue {
  import opened Wrappers
  import opened Events
  import opened EntryLists

  /** Why a scheduling call panics. */
  datatype Panic = InThePast | EarlierPriority | CounterOverflow

  datatype Queue<E> = Queue(
    pending: seq<Entry<E>>,
    nextSeq: U64,
    now: SimTime,
    lastKey: Option<EventKey>)

  function Empty<E>(): Queue<E> {
    Queue([], 0, 0, None)
  }

  ghost predicate Sorted<E>(s: seq<Entry<E>>) {
    |s| <= 1 || (s[0].key.Less(s[1].key) && Sorted(s[1..]))
  }

  function Insert<E>(s: seq<Entry<E>>, e: Entry<E>): seq<Entry<E>> {
    if s == [] || e.key.Less(s[0].key) then [e] + s else [s[0]] + Insert(s[1..], e)
  }

  function Without<E>(s: seq<Entry<E>>, seqNo: U64): seq<Entry<E>> {
    if s == [] then []
    else if s[0].key.seqNo == seqNo then s[1..]
    else [s[0]] + Without(s[1..], seqNo)
  }

  predicate Contains<E>(s: seq<Entry<E>>, seqNo: U64) {
    exists i :: 0 <= i < |s| && s[i].key.seqNo == seqNo
  }

  // ---------- Operations ----------

  function Push<E>(q: Queue<E>, at: SimTime, class_: EventClass, payload: E)
    : (Queue<E>, Result<U64, Panic>)
  {
    if q.nextSeq == U64_MAX then (q, Err(CounterOverflow))
    else
      var e := Entry(EventKey(at, class_.Priority(), q.nextSeq), payload);
      (q.(pending := Insert(q.pending, e), nextSeq := q.nextSeq + 1), Ok(q.nextSeq))
  }

  function Schedule<E>(q: Queue<E>, at: SimTime, class_: EventClass, payload: E)
    : (Queue<E>, Result<U64, Panic>)
  {
    if at < q.now then (q, Err(InThePast))
    else if q.lastKey.Some? && BeforeInstant(at, class_, q.lastKey.value) then (q, Err(EarlierPriority))
    else Push(q, at, class_, payload)
  }

  function ScheduleReentrant<E>(q: Queue<E>, at: SimTime, class_: EventClass, payload: E)
    : (Queue<E>, Result<U64, Panic>)
  {
    if at < q.now then (q, Err(InThePast)) else Push(q, at, class_, payload)
  }

  /** Whether `(at, priority)` sorts before the key being dispatched. */
  predicate BeforeInstant(at: SimTime, class_: EventClass, key: EventKey) {
    Earlier(at, class_.Priority(), key.time, key.priority)
  }

  function Cancel<E>(q: Queue<E>, handle: U64): (Queue<E>, bool) {
    (q.(pending := Without(q.pending, handle)), Contains(q.pending, handle))
  }

  function Pop<E>(q: Queue<E>): (Queue<E>, Option<Entry<E>>) {
    if q.pending == [] then (q, None)
    else
      var e := q.pending[0];
      (q.(pending := q.pending[1..], now := e.key.time, lastKey := Some(e.key)), Some(e))
  }

  function PeekKey<E>(q: Queue<E>): Option<EventKey> {
    if q.pending == [] then None else Some(q.pending[0].key)
  }

  function PeekTime<E>(q: Queue<E>): Option<SimTime> {
    if q.pending == [] then None else Some(q.pending[0].key.time)
  }

  function Clear<E>(q: Queue<E>): Queue<E> {
    q.(pending := [])
  }

  // ---------- Facts about the list ----------

  lemma {:induction false} HeadIsLeast<E>(s: seq<Entry<E>>, x: Entry<E>)
    requires Sorted(s) && s != [] && x in s[1..]
    ensures s[0].key.Less(x.key)
  {
    if x != s[1] {
      assert s[1..] == [s[1]] + s[1..][1..];
      HeadIsLeast(s[1..], x);
    }
  }

  lemma {:induction false} AboutInsert<E>(s: seq<Entry<E>>, e: Entry<E>)
    requires Sorted(s) && forall x :: x in s ==> x.key.seqNo != e.key.seqNo
    ensures Sorted(Insert(s, e))
    ensures Adds(s, e, Insert(s, e))
  {
    if s != [] && !e.key.Less(s[0].key) {
      assert s == [s[0]] + s[1..];
      AboutInsert(s[1..], e);
    }
  }

  lemma {:induction false} WithoutKeepsOrder<E>(s: seq<Entry<E>>, seqNo: U64)
    requires Sorted(s)
    ensures Sorted(Without(s, seqNo))
  {
    if s != [] && s[0].key.seqNo != seqNo {
      WithoutKeepsOrder(s[1..], seqNo);
      var rest := Without(s[1..], seqNo);
      if rest != [] {
        assert rest[0] == s[1] || (|s| > 2 && rest[0] == s[2]);
      }
    }
  }

  /** Forgetting a pending handle removes exactly one entry, the one it names. */
  lemma {:induction false} WithoutRemovesOne<E>(s: seq<Entry<E>>, seqNo: U64) returns (e: Entry<E>)
    requires Contains(s, seqNo)
    ensures e in s && e.key.seqNo == seqNo
    ensures Adds(Without(s, seqNo), e, s)
  {
    assert s == [s[0]] + s[1..];
    if s[0].key.seqNo == seqNo {
      e := s[0];
    } else {
      var i :| 0 <= i < |s| && s[i].key.seqNo == seqNo;
      assert s[1..][i - 1].key.seqNo == seqNo;
      e := WithoutRemovesOne(s[1..], seqNo);
    }
  }

  lemma {:induction false} WithoutAbsent<E>(s: seq<Entry<E>>, seqNo: U64)
    requires !Contains(s, seqNo)
    ensures Without(s, seqNo) == s
  {
    if s != [] {
      assert s[0].key.seqNo != seqNo;
      forall i | 0 <= i < |s[1..]|
        ensures s[1..][i].key.seqNo != seqNo
      {
        assert s[1..][i] == s[i + 1];
      }
      WithoutAbsent(s[1..], seqNo);
    }
  }
}
