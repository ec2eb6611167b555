/** Whole runs of the reference scheduler: what every sequence of calls can observe. */
module Runs {
  import opened Wrappers
  import opened Events
  import opened EntryLists
  import opened EagerQueue

  datatype Op<E> =
    | DoSchedule(at: SimTime, class_: EventClass, payload: E)
    | DoScheduleAfter(delay: U64, class_: EventClass, payload: E)
    | DoScheduleReentrant(at: SimTime, class_: EventClass, payload: E)
    | DoCancel(handle: U64)
    | DoPop
    | DoPeekTime
    | DoPeekKey
    | DoLen
    | DoClear

  datatype Outcome<E> =
    | Scheduled(handle: Result<U64, Panic>)
    | Cancelled(wasPending: bool)
    | Popped(event: Option<Entry<E>>)
    | Time(time: Option<SimTime>)
    | Key(key: Option<EventKey>)
    | Length(n: nat)
    | Cleared

  function Apply<E>(q: Queue<E>, op: Op<E>): (Queue<E>, Outcome<E>) {
    match op
    case DoSchedule(at, c, p) => var (q', h) := Schedule(q, at, c, p); (q', Scheduled(h))
    case DoScheduleAfter(delay, c, p) =>
      var (q', h) := Schedule(q, SaturatingAdd(q.now, delay), c, p); (q', Scheduled(h))
    case DoScheduleReentrant(at, c, p) => var (q', h) := ScheduleReentrant(q, at, c, p); (q', Scheduled(h))
    case DoCancel(h) => var (q', was) := Cancel(q, h); (q', Cancelled(was))
    case DoPop => var (q', e) := Pop(q); (q', Popped(e))
    case DoPeekTime => (q, Time(PeekTime(q)))
    case DoPeekKey => (q, Key(PeekKey(q)))
    case DoLen => (q, Length(|q.pending|))
    case DoClear => (Clear(q), Cleared)
  }

  function Run<E>(q: Queue<E>, ops: seq<Op<E>>): (Queue<E>, seq<Outcome<E>>)
    decreases |ops|
  {
    if ops == [] then (q, [])
    else
      var (q1, out) := Apply(q, ops[0]);
      var (q2, outs) := Run(q1, ops[1..]);
      (q2, [out] + outs)
  }

  lemma {:induction false} RunAppend<E>(q: Queue<E>, ops: seq<Op<E>>, op: Op<E>)
    ensures var (q1, outs) := Run(q, ops);
            var (q2, out) := Apply(q1, op);
            Run(q, ops + [op]) == (q2, outs + [out])
    decreases |ops|
  {
    if ops == [] {
      var (q1, out) := Apply(q, op);
      assert ops + [op] == [op] && [op][1..] == ops;
      assert Run(q1, ops) == (q1, []);
      assert Run(q, [op]) == (q1, [out] + []);
      assert [out] + [] == [] + [out];
    } else {
      var (q0, out0) := Apply(q, ops[0]);
      assert (ops + [op])[1..] == ops[1..] + [op];
      RunAppend(q0, ops[1..], op);
      var (q1, outs) := Run(q0, ops[1..]);
      assert [out0] + (outs + [Apply(q1, op).1]) == ([out0] + outs) + [Apply(q1, op).1];
    }
  }

  // ---------- What a run dispatches ----------

  /** The keys handed out, in order. */
  function Dispatched<E>(outs: seq<Outcome<E>>): seq<EventKey> {
    if outs == [] then []
    else if outs[0].Popped? && outs[0].event.Some? then [outs[0].event.value.key] + Dispatched(outs[1..])
    else Dispatched(outs[1..])
  }

  /** The handles given to reentrant schedules. */
  function Reentrants<E>(ops: seq<Op<E>>, outs: seq<Outcome<E>>): set<U64>
    requires |ops| == |outs|
  {
    if ops == [] then {}
    else Reentrant(ops[0], outs[0]) + Reentrants(ops[1..], outs[1..])
  }

  function Reentrant<E>(op: Op<E>, out: Outcome<E>): set<U64> {
    if op.DoScheduleReentrant? && out.Scheduled? && out.handle.Ok? then {out.handle.value} else {}
  }

  lemma {:induction false} RunLength<E>(q: Queue<E>, ops: seq<Op<E>>)
    ensures |Run(q, ops).1| == |ops|
    decreases |ops|
  {
    if ops != [] {
      RunLength(Apply(q, ops[0]).0, ops[1..]);
    }
  }

  /** Pending events lie in the present or the future, carry issued handles, each its own, and
      sort before the last dispatched key only when they were scheduled reentrantly. */
  ghost predicate Consistent<E>(q: Queue<E>, reentrants: set<U64>) {
    && Sorted(q.pending)
    && Distinct(q.pending)
    && (q.lastKey.Some? ==> q.lastKey.value.time == q.now && q.lastKey.value.seqNo < q.nextSeq)
    && (forall e :: e in q.pending ==> q.now <= e.key.time && e.key.seqNo < q.nextSeq)
    && (forall e :: e in q.pending && q.lastKey.Some? && !q.lastKey.value.Less(e.key) ==>
         e.key.seqNo in reentrants)
  }

  lemma PushKeepsConsistent<E>(q: Queue<E>, reentrants: set<U64>, at: SimTime, class_: EventClass, payload: E)
    requires Consistent(q, reentrants) && q.now <= at
    requires q.lastKey.Some? && BeforeInstant(at, class_, q.lastKey.value) ==> q.nextSeq in reentrants
    ensures Consistent(Push(q, at, class_, payload).0, reentrants)
  {
    if q.nextSeq < U64_MAX {
      var e := Entry(EventKey(at, class_.Priority(), q.nextSeq), payload);
      AboutInsert(q.pending, e);
      AddsKeepsDistinct(q.pending, e, Insert(q.pending, e));
    }
  }

  lemma PopKeepsConsistent<E>(q: Queue<E>, reentrants: set<U64>)
    requires Consistent(q, reentrants)
    ensures Consistent(Pop(q).0, reentrants)
  {
    if q.pending != [] {
      var e, rest := q.pending[0], q.pending[1..];
      assert q.pending == [e] + rest;
      RemovesKeepsDistinct(q.pending, e, rest);
      forall x | x in rest
        ensures e.key.Less(x.key)
      {
        HeadIsLeast(q.pending, x);
      }
    }
  }

  lemma CancelKeepsConsistent<E>(q: Queue<E>, reentrants: set<U64>, h: U64)
    requires Consistent(q, reentrants)
    ensures Consistent(Cancel(q, h).0, reentrants)
  {
    if Contains(q.pending, h) {
      var e := WithoutRemovesOne(q.pending, h);
      WithoutKeepsOrder(q.pending, h);
      RemovesKeepsDistinct(q.pending, e, Without(q.pending, h));
    } else {
      WithoutAbsent(q.pending, h);
    }
  }

  lemma ClearKeepsConsistent<E>(q: Queue<E>, reentrants: set<U64>)
    requires Consistent(q, reentrants)
    ensures Consistent(Clear(q), reentrants)
  {
    assert SetOf<E>([]) == {};
  }

  lemma ReentrantsCanGrow<E>(q: Queue<E>, reentrants: set<U64>, more: set<U64>)
    requires Consistent(q, reentrants) && reentrants <= more
    ensures Consistent(q, more)
  {
  }

  lemma ApplyKeepsConsistent<E>(q: Queue<E>, reentrants: set<U64>, op: Op<E>)
    requires Consistent(q, reentrants)
    ensures Consistent(Apply(q, op).0, reentrants + Reentrant(op, Apply(q, op).1))
  {
    hide Consistent;
    var all := reentrants + Reentrant(op, Apply(q, op).1);
    ReentrantsCanGrow(q, reentrants, all);
    match op
    case DoSchedule(at, c, p) =>
      if Schedule(q, at, c, p).1.Ok? { PushKeepsConsistent(q, all, at, c, p); }
    case DoScheduleAfter(delay, c, p) =>
      if Apply(q, op).1.handle.Ok? { PushKeepsConsistent(q, all, SaturatingAdd(q.now, delay), c, p); }
    case DoScheduleReentrant(at, c, p) =>
      if Apply(q, op).1.handle.Ok? { PushKeepsConsistent(q, all, at, c, p); }
    case DoCancel(h) => CancelKeepsConsistent(q, all, h);
    case DoPop => PopKeepsConsistent(q, all);
    case DoClear => ClearKeepsConsistent(q, all);
    case _ =>
  }

  /** Keys follow one another in dispatch order, except that a reentrant event may step back,
      and then only within the instant. */
  ghost predicate InOrderBut(last: Option<EventKey>, keys: seq<EventKey>, reentrants: set<U64>)
    decreases |keys|
  {
    keys != [] ==>
      && (last.Some? ==>
           && last.value.time <= keys[0].time
           && (last.value.Less(keys[0]) || (last.value.time == keys[0].time && keys[0].seqNo in reentrants)))
      && InOrderBut(Some(keys[0]), keys[1..], reentrants)
  }

  lemma {:induction false} InOrderButMonotone(last: Option<EventKey>, keys: seq<EventKey>, a: set<U64>, b: set<U64>)
    requires InOrderBut(last, keys, a) && a <= b
    ensures InOrderBut(last, keys, b)
    decreases |keys|
  {
    if keys != [] {
      InOrderButMonotone(Some(keys[0]), keys[1..], a, b);
    }
  }

  lemma ApplyMovesLastKey<E>(q: Queue<E>, op: Op<E>)
    ensures var (q1, out) := Apply(q, op);
      if out.Popped? && out.event.Some?
      then q.pending != [] && out.event.value == q.pending[0] && q1.lastKey == Some(q.pending[0].key)
      else q1.lastKey == q.lastKey
  {
  }

  /** The next event comes after the last one dispatched, unless it is a reentrant one of the
      same instant. */
  lemma HeadInOrder<E>(q: Queue<E>, reentrants: set<U64>)
    requires Consistent(q, reentrants) && q.pending != [] && q.lastKey.Some?
    ensures var last, next := q.lastKey.value, q.pending[0].key;
      && last.time <= next.time
      && (last.Less(next) || (last.time == next.time && next.seqNo in reentrants))
  {
    assert q.pending[0] in q.pending;
  }

  /** Over every run, the dispatch order is broken only by events scheduled reentrantly. */
  lemma {:induction false} DispatchOrder<E>(q: Queue<E>, ops: seq<Op<E>>, before: set<U64>)
    requires Consistent(q, before)
    ensures |Run(q, ops).1| == |ops|
    ensures InOrderBut(q.lastKey, Dispatched(Run(q, ops).1), before + Reentrants(ops, Run(q, ops).1))
    ensures Consistent(Run(q, ops).0, before + Reentrants(ops, Run(q, ops).1))
    decreases |ops|
  {
    hide Apply, Consistent, EventKey.Less, Reentrant;
    RunLength(q, ops);
    if ops == [] {
      assert before + {} == before;
    } else {
      var (q1, out) := Apply(q, ops[0]);
      var (q2, outs) := Run(q1, ops[1..]);
      var now := before + Reentrant(ops[0], out);
      ApplyKeepsConsistent(q, before, ops[0]);
      DispatchOrder(q1, ops[1..], now);
      var all := before + Reentrants(ops, [out] + outs);
      assert ([out] + outs)[1..] == outs;
      assert all == now + Reentrants(ops[1..], outs);
      ApplyMovesLastKey(q, ops[0]);
      if out.Popped? && out.event.Some? {
        if q.lastKey.Some? {
          HeadInOrder(q, before);
        }
        var keys := Dispatched([out] + outs);
        assert keys[0] == out.event.value.key && keys[1..] == Dispatched(outs);
      } else {
        assert Dispatched([out] + outs) == Dispatched(outs);
      }
    }
  }

  /** Simulated time never goes back, whatever is scheduled. */
  lemma {:induction false} TimeNeverDecreases(last: Option<EventKey>, keys: seq<EventKey>, reentrants: set<U64>)
    requires InOrderBut(last, keys, reentrants)
    ensures forall i, j :: 0 <= i < j < |keys| ==> keys[i].time <= keys[j].time
    ensures last.Some? ==> forall i :: 0 <= i < |keys| ==> last.value.time <= keys[i].time
    decreases |keys|
  {
    if keys != [] {
      TimeNeverDecreases(Some(keys[0]), keys[1..], reentrants);
      assert forall i :: 0 < i < |keys| ==> keys[i] == keys[1..][i - 1];
    }
  }

  lemma {:induction false} StrictlyIncreasing(last: Option<EventKey>, keys: seq<EventKey>)
    requires InOrderBut(last, keys, {})
    ensures forall i, j :: 0 <= i < j < |keys| ==> keys[i].Less(keys[j])
    ensures last.Some? ==> forall i :: 0 <= i < |keys| ==> last.value.Less(keys[i])
    decreases |keys|
  {
    if keys != [] {
      StrictlyIncreasing(Some(keys[0]), keys[1..]);
      assert forall i :: 0 < i < |keys| ==> keys[i] == keys[1..][i - 1];
    }
  }

  /** The determinism contract: a run without reentrant schedules dispatches strictly
      increasing keys. Within one time and class that is first in, first out. */
  lemma RunsInKeyOrder<E>(ops: seq<Op<E>>)
    requires forall op :: op in ops ==> !op.DoScheduleReentrant?
    ensures var keys := Dispatched(Run(Empty<E>(), ops).1);
            forall i, j :: 0 <= i < j < |keys| ==> keys[i].Less(keys[j])
  {
    var outs := Run(Empty<E>(), ops).1;
    DispatchOrder(Empty<E>(), ops, {});
    NoReentrants(ops, outs);
    StrictlyIncreasing(None, Dispatched(outs));
  }

  lemma RunsInTimeOrder<E>(ops: seq<Op<E>>)
    ensures var keys := Dispatched(Run(Empty<E>(), ops).1);
            forall i, j :: 0 <= i < j < |keys| ==> keys[i].time <= keys[j].time
  {
    var outs := Run(Empty<E>(), ops).1;
    DispatchOrder(Empty<E>(), ops, {});
    TimeNeverDecreases(None, Dispatched(outs), {} + Reentrants(ops, outs));
  }

  lemma {:induction false} NoReentrants<E>(ops: seq<Op<E>>, outs: seq<Outcome<E>>)
    requires |ops| == |outs|
    requires forall op :: op in ops ==> !op.DoScheduleReentrant?
    ensures Reentrants(ops, outs) == {}
  {
    if ops != [] {
      assert ops[0] in ops;
      NoReentrants(ops[1..], outs[1..]);
    }
  }

  // ---------- Where every event goes ----------

  function Occurrences<E>(s: seq<Entry<E>>, h: U64): nat {
    if s == [] then 0 else (if s[0].key.seqNo == h then 1 else 0) + Occurrences(s[1..], h)
  }

  /** How often one call takes handle `h` off the queue: by firing it, by cancelling it, or
      by clearing everything. */
  function Leaves<E>(q: Queue<E>, op: Op<E>, out: Outcome<E>, h: U64): nat {
    match op
    case DoPop => if out.Popped? && out.event.Some? && out.event.value.key.seqNo == h then 1 else 0
    case DoCancel(gone) => if gone == h && out == Cancelled(true) then 1 else 0
    case DoClear => Occurrences(q.pending, h)
    case _ => 0
  }

  function LeavesIn<E>(q: Queue<E>, ops: seq<Op<E>>, h: U64): nat
    decreases |ops|
  {
    if ops == [] then 0
    else
      var (q1, out) := Apply(q, ops[0]);
      Leaves(q, ops[0], out, h) + LeavesIn(q1, ops[1..], h)
  }

  /** Whether handle `h` is issued between two states of one scheduler. */
  function IssuedIn<E>(q: Queue<E>, q': Queue<E>, h: U64): nat {
    if q.nextSeq <= h < q'.nextSeq then 1 else 0
  }

  lemma {:induction false} OccurrencesInsert<E>(s: seq<Entry<E>>, e: Entry<E>, h: U64)
    ensures Occurrences(Insert(s, e), h) == Occurrences(s, h) + if e.key.seqNo == h then 1 else 0
  {
    if s == [] || e.key.Less(s[0].key) {
      assert ([e] + s)[1..] == s;
    } else {
      OccurrencesInsert(s[1..], e, h);
      assert Insert(s, e)[1..] == Insert(s[1..], e);
    }
  }

  lemma {:induction false} OccurrencesWithout<E>(s: seq<Entry<E>>, gone: U64, h: U64)
    ensures Occurrences(s, h)
         == Occurrences(Without(s, gone), h) + if gone == h && Contains(s, h) then 1 else 0
  {
    if !Contains(s, gone) {
      WithoutAbsent(s, gone);
    } else if s[0].key.seqNo != gone {
      var i :| 0 <= i < |s| && s[i].key.seqNo == gone;
      assert s[1..][i - 1].key.seqNo == gone;
      OccurrencesWithout(s[1..], gone, h);
      assert Without(s, gone)[1..] == Without(s[1..], gone);
    }
  }

  ghost predicate Balances<E>(q: Queue<E>, q': Queue<E>, left: nat, h: U64) {
    && q.nextSeq <= q'.nextSeq
    && Occurrences(q.pending, h) + IssuedIn(q, q', h) == Occurrences(q'.pending, h) + left
  }

  lemma PushBalances<E>(q: Queue<E>, at: SimTime, class_: EventClass, payload: E, h: U64)
    ensures Balances(q, Push(q, at, class_, payload).0, 0, h)
  {
    if q.nextSeq < U64_MAX {
      OccurrencesInsert(q.pending, Entry(EventKey(at, class_.Priority(), q.nextSeq), payload), h);
    }
  }

  lemma ApplyBalances<E>(q: Queue<E>, op: Op<E>, h: U64)
    ensures Balances(q, Apply(q, op).0, Leaves(q, op, Apply(q, op).1, h), h)
  {
    match op
    case DoCancel(gone) => OccurrencesWithout(q.pending, gone, h);
    case DoSchedule(at, c, p) => PushBalances(q, at, c, p, h);
    case DoScheduleAfter(delay, c, p) => PushBalances(q, SaturatingAdd(q.now, delay), c, p, h);
    case DoScheduleReentrant(at, c, p) => PushBalances(q, at, c, p, h);
    case _ =>
  }

  lemma {:induction false} RunBalances<E>(q: Queue<E>, ops: seq<Op<E>>, h: U64)
    ensures Balances(q, Run(q, ops).0, LeavesIn(q, ops, h), h)
    decreases |ops|
  {
    if ops != [] {
      ApplyBalances(q, ops[0], h);
      RunBalances(Apply(q, ops[0]).0, ops[1..], h);
    }
  }

  /** Conservation: over every run from the start, `clear` included, each issued handle is
      still pending or was fired, cancelled or cleared exactly once; no other handle is seen. */
  lemma EveryHandleHasOneFate<E>(ops: seq<Op<E>>, h: U64)
    ensures var q := Run(Empty<E>(), ops).0;
            Occurrences(q.pending, h) + LeavesIn(Empty<E>(), ops, h) == if h < q.nextSeq then 1 else 0
  {
    RunBalances(Empty<E>(), ops, h);
  }
}
