/** What the reentrancy counter of the scheduler counts, over whole runs.

    A step-back is an event scheduled reentrantly before the instant being dispatched. The
    counter rises with each one and falls with each dispatched key that goes back; it is
    documented as the number of step-backs not yet dispatched. */
module Debts {
  import opened Wrappers
  import opened Events
  import opened EntryLists
  import opened EagerQueue
  import opened Runs

  /** `backs` are the step-backs issued so far, `lost` those that left the queue by anything
      but a key that goes back, `unissued` counts those that were counted before the handle
      counter turned out to be at its end, and `debt` is the counter. */
  datatype Book = Book(backs: set<U64>, lost: set<U64>, unissued: nat, debt: int)

  function NewBook(): Book {
    Book({}, {}, 0, 0)
  }

  /** Whether a call schedules a step-back. */
  predicate StepsBack<E>(q: Queue<E>, op: Op<E>, out: Outcome<E>) {
    op.DoScheduleReentrant? && out.Scheduled? && out.handle.Ok?
    && q.lastKey.Some? && BeforeInstant(op.at, op.class_, q.lastKey.value)
  }

  /** Whether a call dispatches a key that goes back. */
  predicate GoesBack<E>(q: Queue<E>, out: Outcome<E>) {
    out.Popped? && out.event.Some? && q.lastKey.Some? && out.event.value.key.Less(q.lastKey.value)
  }

  /** A step-back is counted before its handle is issued, so one that panics for want of a
      handle is counted too, unless the counter itself is at its end. */
  function Unissued<E>(q: Queue<E>, op: Op<E>, out: Outcome<E>, debt: int): nat {
    if op.DoScheduleReentrant? && out.Scheduled? && out.handle == Err(CounterOverflow)
       && q.lastKey.Some? && BeforeInstant(op.at, op.class_, q.lastKey.value) && debt < U64_MAX
    then 1 else 0
  }

  function DebtChange<E>(q: Queue<E>, op: Op<E>, out: Outcome<E>, debt: int): int {
    (if StepsBack(q, op, out) then 1 else 0) - (if GoesBack(q, out) then 1 else 0) + Unissued(q, op, out, debt)
  }

  /** The handles among `backs` that are still pending. */
  function Waiting<E>(q: Queue<E>, backs: set<U64>): set<U64> {
    set h | h in backs && Contains(q.pending, h)
  }

  /** The step-backs one call takes off the queue in any other way than by going back. */
  function Losses<E>(q: Queue<E>, op: Op<E>, out: Outcome<E>, backs: set<U64>): set<U64> {
    match op
    case DoCancel(h) => if h in Waiting(q, backs) then {h} else {}
    case DoClear => Waiting(q, backs)
    case DoPop =>
      if out.Popped? && out.event.Some? && out.event.value.key.seqNo in backs && !GoesBack(q, out)
      then {out.event.value.key.seqNo} else {}
    case _ => {}
  }

  function Enter<E>(q: Queue<E>, op: Op<E>, out: Outcome<E>, b: Book): Book {
    Book(
      b.backs + (if StepsBack(q, op, out) then {q.nextSeq} else {}),
      b.lost + Losses(q, op, out, b.backs),
      b.unissued + Unissued(q, op, out, b.debt),
      b.debt + DebtChange(q, op, out, b.debt))
  }

  /** The book of a whole run from an empty scheduler. */
  function Books<E>(ops: seq<Op<E>>): Book
    decreases |ops|
  {
    if ops == [] then NewBook()
    else
      var front, op := ops[..|ops| - 1], ops[|ops| - 1];
      var q := Run(Empty<E>(), front).0;
      Enter(q, op, Apply(q, op).1, Books(front))
  }

  /** The counter is the step-backs still pending and the lost ones, none of which is pending;
      only step-backs sort before the last dispatched key. */
  ghost predicate Balanced<E>(q: Queue<E>, b: Book) {
    && Consistent(q, b.backs)
    && b.debt == |Waiting(q, b.backs)| + |b.lost| + b.unissued
    && (forall h :: h in b.backs ==> h < q.nextSeq)
    && (forall h :: h in b.lost ==> h in b.backs && !Contains(q.pending, h))
  }

  lemma ContainsIn<E>(s: seq<Entry<E>>, e: Entry<E>)
    requires e in s
    ensures Contains(s, e.key.seqNo)
  {
    var i :| 0 <= i < |s| && s[i] == e;
    assert s[i].key.seqNo == e.key.seqNo;
  }

  /** What one more entry in a list does to the handles in it. */
  lemma ContainsAdds<E>(s: seq<Entry<E>>, e: Entry<E>, s': seq<Entry<E>>, h: U64)
    requires Adds(s, e, s')
    ensures Contains(s', h) <==> Contains(s, h) || h == e.key.seqNo
  {
    if Contains(s, h) {
      var i :| 0 <= i < |s| && s[i].key.seqNo == h;
      ContainsIn(s', s[i]);
    }
    if Contains(s', h) {
      var i :| 0 <= i < |s'| && s'[i].key.seqNo == h;
      assert s'[i] in s';
      if s'[i] != e {
        ContainsIn(s, s'[i]);
      }
    }
    ContainsIn(s', e);
  }

  lemma HandleIsGone<E>(s: seq<Entry<E>>, e: Entry<E>, s': seq<Entry<E>>)
    requires Distinct(s) && Adds(s', e, s) && e !in s'
    ensures !Contains(s', e.key.seqNo)
  {
    forall i | 0 <= i < |s'|
      ensures s'[i].key.seqNo != e.key.seqNo
    {
      assert s'[i] in s';
    }
  }

  /** Taking one entry out of a list with distinct handles takes its handle out. */
  lemma WaitingWithout<E>(q: Queue<E>, q': Queue<E>, e: Entry<E>, backs: set<U64>)
    requires Distinct(q.pending) && Adds(q'.pending, e, q.pending)
    ensures !Contains(q'.pending, e.key.seqNo) && Contains(q.pending, e.key.seqNo)
    ensures Waiting(q', backs) == Waiting(q, backs) - {e.key.seqNo}
    ensures forall h :: Contains(q'.pending, h) ==> Contains(q.pending, h)
    ensures |Waiting(q', backs)| == |Waiting(q, backs)| - if e.key.seqNo in backs then 1 else 0
  {
    var seqNo := e.key.seqNo;
    RemovesKeepsDistinct(q.pending, e, q'.pending);
    HandleIsGone(q.pending, e, q'.pending);
    ContainsIn(q.pending, e);
    forall h
      ensures Contains(q.pending, h) <==> Contains(q'.pending, h) || h == seqNo
    {
      ContainsAdds(q'.pending, e, q.pending, h);
    }
    if seqNo in backs {
      assert Waiting(q, backs) == Waiting(q', backs) + {seqNo};
    }
  }

  lemma NextIsNew<E>(q: Queue<E>, backs: set<U64>)
    requires Consistent(q, backs)
    ensures Sorted(q.pending) && !Contains(q.pending, q.nextSeq)
    ensures forall x :: x in q.pending ==> x.key.seqNo != q.nextSeq
  {
  }

  lemma PushContains<E>(q: Queue<E>, backs: set<U64>, at: SimTime, class_: EventClass, payload: E)
    requires Consistent(q, backs) && q.nextSeq < U64_MAX
    ensures var q' := Push(q, at, class_, payload).0;
      && q'.nextSeq == q.nextSeq + 1 && !Contains(q.pending, q.nextSeq)
      && forall g :: Contains(q'.pending, g) <==> Contains(q.pending, g) || g == q.nextSeq
  {
    hide Consistent, Insert, Sorted, Contains, Adds;
    NextIsNew(q, backs);
    var e := Entry(EventKey(at, class_.Priority(), q.nextSeq), payload);
    AboutInsert(q.pending, e);
    forall g
      ensures Contains(Insert(q.pending, e), g) <==> Contains(q.pending, g) || g == q.nextSeq
    {
      ContainsAdds(q.pending, e, Insert(q.pending, e), g);
    }
  }

  lemma WaitingAfterPush<E>(q: Queue<E>, q': Queue<E>, backs: set<U64>, h: U64)
    requires !Contains(q.pending, h) && h !in backs
    requires forall g :: Contains(q'.pending, g) <==> Contains(q.pending, g) || g == h
    ensures Waiting(q', backs) == Waiting(q, backs)
    ensures |Waiting(q', backs + {h})| == |Waiting(q, backs)| + 1
  {
    assert Waiting(q', backs + {h}) == Waiting(q, backs) + {h};
  }

  lemma PushBalanced<E>(q: Queue<E>, b: Book, at: SimTime, class_: EventClass, payload: E, back: bool)
    requires Balanced(q, b) && q.now <= at && q.nextSeq < U64_MAX
    requires back <==> q.lastKey.Some? && BeforeInstant(at, class_, q.lastKey.value)
    ensures var q' := Push(q, at, class_, payload).0;
      Balanced(q', if back then Book(b.backs + {q.nextSeq}, b.lost, b.unissued, b.debt + 1) else b)
  {
    hide Consistent, Waiting, Contains, BeforeInstant, Push;
    var h := q.nextSeq;
    var q' := Push(q, at, class_, payload).0;
    var backs := if back then b.backs + {h} else b.backs;
    ReentrantsCanGrow(q, b.backs, backs);
    PushKeepsConsistent(q, backs, at, class_, payload);
    PushContains(q, b.backs, at, class_, payload);
    WaitingAfterPush(q, q', b.backs, h);
  }

  lemma SizesAdd<T>(a: set<T>, b: set<T>)
    requires a !! b
    ensures |a + b| == |a| + |b|
  {
  }

  /** An event leaves the queue, by a key that goes back or in another way. */
  lemma LeaveBalanced<E>(q: Queue<E>, q': Queue<E>, b: Book, e: Entry<E>, back: bool)
    requires Balanced(q, b) && Consistent(q', b.backs) && q'.nextSeq == q.nextSeq
    requires Distinct(q.pending) && Adds(q'.pending, e, q.pending)
    requires back ==> e.key.seqNo in b.backs
    ensures Balanced(q', Book(
      b.backs,
      b.lost + (if e.key.seqNo in b.backs && !back then {e.key.seqNo} else {}),
      b.unissued,
      if back then b.debt - 1 else b.debt))
  {
    hide Consistent, Waiting, Contains, Distinct, Adds;
    WaitingWithout(q, q', e, b.backs);
    var seqNo := e.key.seqNo;
    var more: set<U64> := if seqNo in b.backs && !back then {seqNo} else {};
    assert forall h :: h in b.lost + more ==> h in b.backs && !Contains(q'.pending, h);
    assert b.lost !! more;
    SizesAdd(b.lost, more);
  }

  lemma PopTakesHead<E>(q: Queue<E>, backs: set<U64>)
    requires Consistent(q, backs) && q.pending != []
    ensures Distinct(q.pending) && Adds(Pop(q).0.pending, q.pending[0], q.pending)
  {
    assert q.pending == [q.pending[0]] + q.pending[1..];
  }

  lemma EnterPop<E>(q: Queue<E>, b: Book)
    ensures var out := Apply(q, DoPop).1;
      var lost := if q.pending != [] && q.pending[0].key.seqNo in b.backs && !GoesBack(q, out)
                  then {q.pending[0].key.seqNo} else {};
      Enter(q, DoPop, out, b)
      == Book(b.backs, b.lost + lost, b.unissued, if GoesBack(q, out) then b.debt - 1 else b.debt)
  {
    hide EventKey.Less;
    assert b.backs + {} == b.backs;
  }

  lemma PopBalanced<E>(q: Queue<E>, b: Book)
    requires Balanced(q, b)
    ensures Balanced(Apply(q, DoPop).0, Enter(q, DoPop, Apply(q, DoPop).1, b))
  {
    hide Consistent, Waiting, Contains, Distinct, Adds, EventKey.Less;
    EnterPop(q, b);
    if q.pending == [] {
      assert b.lost + {} == b.lost;
    } else {
      PopKeepsConsistent(q, b.backs);
      PopTakesHead(q, b.backs);
      HeadGoesBack(q, b.backs);
      hide Enter, Balanced;
      LeaveBalanced(q, Pop(q).0, b, q.pending[0], GoesBack(q, Apply(q, DoPop).1));
    }
  }

  /** A key that goes back is a step-back's. */
  lemma HeadGoesBack<E>(q: Queue<E>, backs: set<U64>)
    requires Consistent(q, backs) && q.pending != []
    ensures q.lastKey.Some? && q.pending[0].key.Less(q.lastKey.value) ==> q.pending[0].key.seqNo in backs
  {
    assert q.pending[0] in q.pending;
  }

  lemma CancelTakesOne<E>(q: Queue<E>, backs: set<U64>, h: U64) returns (e: Entry<E>)
    requires Consistent(q, backs) && Contains(q.pending, h)
    ensures Distinct(q.pending) && e.key.seqNo == h && Adds(Without(q.pending, h), e, q.pending)
  {
    e := WithoutRemovesOne(q.pending, h);
  }

  lemma EnterCancel<E>(q: Queue<E>, b: Book, h: U64)
    ensures var was := Contains(q.pending, h);
      Enter(q, DoCancel(h), Cancelled(was), b)
      == Book(b.backs, b.lost + (if was && h in b.backs then {h} else {}), b.unissued, b.debt)
  {
    hide Contains;
    assert b.backs + {} == b.backs;
  }

  lemma CancelBalanced<E>(q: Queue<E>, b: Book, h: U64)
    requires Balanced(q, b)
    ensures Balanced(Cancel(q, h).0, Enter(q, DoCancel(h), Cancelled(Cancel(q, h).1), b))
  {
    hide Consistent, Contains, Distinct, Adds, Without;
    CancelKeepsConsistent(q, b.backs, h);
    EnterCancel(q, b, h);
    hide Balanced, Enter;
    if Contains(q.pending, h) {
      var e := CancelTakesOne(q, b.backs, h);
      LeaveBalanced(q, Cancel(q, h).0, b, e, false);
    } else {
      assert b.lost + {} == b.lost;
      WithoutAbsent(q.pending, h);
    }
  }

  lemma NothingWaits<E>(q: Queue<E>, backs: set<U64>)
    requires q.pending == []
    ensures Waiting(q, backs) == {} && forall h :: !Contains(q.pending, h)
  {
  }

  lemma ClearBalanced<E>(q: Queue<E>, b: Book)
    requires Balanced(q, b)
    ensures Balanced(Clear(q), Enter(q, DoClear, Cleared, b))
  {
    hide Consistent, Contains;
    ClearKeepsConsistent(q, b.backs);
    NothingWaits(Clear(q), b.backs);
    assert b.backs + {} == b.backs;
    assert Waiting(q, b.backs) !! b.lost;
    SizesAdd(b.lost, Waiting(q, b.backs));
  }

  lemma UnissuedBalanced<E>(q: Queue<E>, b: Book, more: nat)
    requires Balanced(q, b)
    ensures Balanced(q, Book(b.backs, b.lost, b.unissued + more, b.debt + more))
  {
  }

  lemma ApplyBalanced<E>(q: Queue<E>, op: Op<E>, b: Book)
    requires Balanced(q, b)
    ensures Balanced(Apply(q, op).0, Enter(q, op, Apply(q, op).1, b))
  {
    hide Balanced, Waiting;
    assert b.backs + {} == b.backs && b.lost + {} == b.lost;
    var out := Apply(q, op).1;
    match op
    case DoSchedule(at, c, p) => if out.handle.Ok? { PushBalanced(q, b, at, c, p, false); }
    case DoScheduleAfter(delay, c, p) =>
      if out.handle.Ok? { PushBalanced(q, b, SaturatingAdd(q.now, delay), c, p, false); }
    case DoScheduleReentrant(at, c, p) =>
      if out.handle.Ok? {
        PushBalanced(q, b, at, c, p, StepsBack(q, op, out));
      } else {
        UnissuedBalanced(q, b, Unissued(q, op, out, b.debt));
      }
    case DoCancel(h) => CancelBalanced(q, b, h);
    case DoPop => PopBalanced(q, b);
    case DoClear => ClearBalanced(q, b);
    case _ =>
  }

  lemma NothingIsBalanced<E>()
    ensures Balanced(Empty<E>(), NewBook())
  {
    assert Waiting(Empty<E>(), {}) == {};
  }

  lemma {:induction false} BooksBalance<E>(ops: seq<Op<E>>)
    ensures Balanced(Run(Empty<E>(), ops).0, Books(ops))
    decreases |ops|
  {
    hide Balanced, Enter, Apply;
    if ops == [] {
      NothingIsBalanced<E>();
    } else {
      var front, op := ops[..|ops| - 1], ops[|ops| - 1];
      BooksBalance(front);
      ApplyBalanced(Run(Empty<E>(), front).0, op, Books(front));
      hide Run;
      RunAppend(Empty<E>(), front, op);
      assert ops == front + [op];
    }
  }

  /** Over every run the counter is the step-backs still pending, the lost ones (cancelled,
      cleared, or dispatched by a key that does not go back) and those that never got a
      handle. So it is what its documentation says if and only if there are none of these. */
  lemma DebtIsExactIff<E>(ops: seq<Op<E>>)
    ensures var q, b := Run(Empty<E>(), ops).0, Books(ops);
      && b.debt == |Waiting(q, b.backs)| + |b.lost| + b.unissued
      && (b.debt == |Waiting(q, b.backs)| <==> b.lost == {} && b.unissued == 0)
  {
    BooksBalance(ops);
  }
}
