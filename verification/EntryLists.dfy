/** Lists of heap entries seen as sets: what adding or taking out one entry changes. */
module EntryLists {
  import opened Events

  ghost function SetOf<E>(heap: seq<Entry<E>>): set<Entry<E>> {
    set e | e in heap
  }

  /** No entry occurs twice and no two entries share a sequence number. */
  ghost predicate Distinct<E>(heap: seq<Entry<E>>) {
    && |SetOf(heap)| == |heap|
    && (forall e, f :: e in heap && f in heap && e.key.seqNo == f.key.seqNo ==> e == f)
  }

  /** `s'` holds what `s` holds and one more entry, `e`. */
  ghost predicate Adds<E>(s: seq<Entry<E>>, e: Entry<E>, s': seq<Entry<E>>) {
    && |s'| == |s| + 1 && e in s'
    && (forall x :: x in s ==> x in s')
    && (forall x :: x in s' ==> x in s || x == e)
  }

  lemma AddsFromMultiset<E>(s: seq<Entry<E>>, e: Entry<E>, s': seq<Entry<E>>)
    requires multiset(s') == multiset(s) + multiset{e}
    ensures Adds(s, e, s')
  {
    assert |multiset(s')| == |multiset(s)| + 1;
    forall x
      ensures x in s' <==> x in s || x == e
    {
      assert x in s' <==> x in multiset(s');
      assert x in s <==> x in multiset(s);
    }
  }

  lemma AddsKeepsDistinct<E>(s: seq<Entry<E>>, e: Entry<E>, s': seq<Entry<E>>)
    requires Distinct(s) && Adds(s, e, s')
    requires forall x :: x in s ==> x.key.seqNo != e.key.seqNo
    ensures Distinct(s')
  {
    assert SetOf(s') == SetOf(s) + {e};
  }

  lemma {:induction false} SetOfBound<E>(s: seq<Entry<E>>)
    ensures |SetOf(s)| <= |s|
  {
    if s != [] {
      SetOfBound(s[1..]);
      assert SetOf(s) == {s[0]} + SetOf(s[1..]);
    }
  }

  /** What is left after one entry of a list without duplicates is taken out. */
  lemma RemovesKeepsDistinct<E>(s: seq<Entry<E>>, e: Entry<E>, s': seq<Entry<E>>)
    requires Distinct(s) && Adds(s', e, s)
    ensures Distinct(s') && e !in s'
  {
    SetOfBound(s');
    assert SetOf(s) == SetOf(s') + {e};
  }
}
