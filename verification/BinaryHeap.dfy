/** A binary min-heap of entries in a vector, ordered by key alone.

    The vector is a value owned by its scheduler, so a heap is a sequence and each operation
    returns the new one. Entry `i` has its children at `2 * i + 1` and `2 * i + 2`. */
module BinaryHeap {
  import opened Wrappers
  import opened Events

  predicate IsChild(p: nat, c: nat) {
    c == 2 * p + 1 || c == 2 * p + 2
  }

  /** No child is dispatched before its parent, as far as the parents from `from` on go. */
  ghost predicate HeapFrom<E>(v: seq<Entry<E>>, from: nat) {
    forall p: nat, c: nat :: from <= p < c < |v| && IsChild(p, c) ==> v[p].key.AtMost(v[c].key)
  }

  ghost predicate IsHeap<E>(v: seq<Entry<E>>) {
    HeapFrom(v, 0)
  }

  /** The entry at the root is dispatched before, or is, every other one. */
  lemma {:induction false} RootIsLeast<E>(v: seq<Entry<E>>, i: nat)
    requires IsHeap(v) && i < |v|
    ensures v[0].key.AtMost(v[i].key)
    decreases i
  {
    if i > 0 {
      RootIsLeast(v, (i - 1) / 2);
      assert IsChild((i - 1) / 2, i);
    }
  }

  function Peek<E>(v: seq<Entry<E>>): (r: Option<Entry<E>>) {
    if v == [] then None else Some(v[0])
  }

  lemma PeekIsLeast<E>(v: seq<Entry<E>>)
    requires IsHeap(v) && v != []
    ensures v[0] in v
    ensures forall e :: e in v ==> v[0].key.AtMost(e.key)
  {
    forall e | e in v
      ensures v[0].key.AtMost(e.key)
    {
      var i :| 0 <= i < |v| && v[i] == e;
      RootIsLeast(v, i);
    }
  }

  function Swap<E>(v: seq<Entry<E>>, i: nat, j: nat): (r: seq<Entry<E>>)
    requires i < |v| && j < |v|
    ensures multiset(r) == multiset(v)
  {
    v[i := v[j]][j := v[i]]
  }

  /** Heap order but for the edge above `hole`, whose children still sit below its parent. */
  ghost predicate HoleAbove<E>(v: seq<Entry<E>>, hole: nat) {
    && (forall p: nat, c: nat :: p < c < |v| && IsChild(p, c) && c != hole ==>
         v[p].key.AtMost(v[c].key))
    && (forall p: nat, c: nat :: p < hole < c < |v| && IsChild(p, hole) && IsChild(hole, c) ==>
         v[p].key.AtMost(v[c].key))
  }

  /** Heap order from `from` on but for the edges below `hole`. */
  ghost predicate HoleBelow<E>(v: seq<Entry<E>>, from: nat, hole: nat) {
    && (forall p: nat, c: nat :: from <= p < c < |v| && IsChild(p, c) && p != hole ==>
         v[p].key.AtMost(v[c].key))
    && (forall p: nat, c: nat :: from <= p < hole < c < |v| && IsChild(p, hole) && IsChild(hole, c) ==>
         v[p].key.AtMost(v[c].key))
  }

  lemma LiftHole<E>(v: seq<Entry<E>>, hole: nat)
    requires 0 < hole < |v| && HoleAbove(v, hole)
    requires v[hole].key.Less(v[(hole - 1) / 2].key)
    ensures HoleAbove(Swap(v, hole, (hole - 1) / 2), (hole - 1) / 2)
  {
    var parent := (hole - 1) / 2;
    assert IsChild(parent, hole);
    var w := Swap(v, hole, parent);
    forall p: nat, c: nat | p < c < |w| && IsChild(p, c) && c != parent
      ensures w[p].key.AtMost(w[c].key)
    {
      assert p == parent || p == hole || w[p] == v[p];
    }
  }

  lemma SinkHole<E>(v: seq<Entry<E>>, from: nat, hole: nat, child: nat)
    requires from <= hole < child < |v| && IsChild(hole, child) && HoleBelow(v, from, hole)
    requires v[child].key.Less(v[hole].key)
    requires forall c: nat :: c < |v| && IsChild(hole, c) ==> v[child].key.AtMost(v[c].key)
    ensures HoleBelow(Swap(v, hole, child), from, child)
  {
    var w := Swap(v, hole, child);
    forall p: nat, c: nat | from <= p < c < |w| && IsChild(p, c) && p != child
      ensures w[p].key.AtMost(w[c].key)
    {
      assert p == hole || c == hole || (w[p] == v[p] && w[c] == v[c]);
    }
  }

  method SiftUp<E>(v: seq<Entry<E>>, start: nat) returns (r: seq<Entry<E>>)
    requires start < |v| && HoleAbove(v, start)
    ensures IsHeap(r) && multiset(r) == multiset(v)
  {
    r := v;
    var i := start;
    while i > 0 && r[i].key.Less(r[(i - 1) / 2].key)
      invariant 0 <= i < |r| == |v|
      invariant HoleAbove(r, i)
      invariant multiset(r) == multiset(v)
    {
      LiftHole(r, i);
      r := Swap(r, i, (i - 1) / 2);
      i := (i - 1) / 2;
    }
    forall p: nat, c: nat | p < c < |r| && IsChild(p, c)
      ensures r[p].key.AtMost(r[c].key)
    {
      assert p == (c - 1) / 2;
    }
  }

  method SiftDown<E>(v: seq<Entry<E>>, start: nat) returns (r: seq<Entry<E>>)
    requires start < |v| && HoleBelow(v, start, start)
    ensures HeapFrom(r, start) && multiset(r) == multiset(v) && |r| == |v|
  {
    r := v;
    var i := start;
    while 2 * i + 1 < |r|
      invariant start <= i < |r| == |v|
      invariant HoleBelow(r, start, i)
      invariant multiset(r) == multiset(v)
    {
      var child := 2 * i + 1;
      if child + 1 < |r| && r[child + 1].key.Less(r[child].key) {
        child := child + 1;
      }
      if r[i].key.AtMost(r[child].key) {
        return;
      }
      SinkHole(r, start, i, child);
      r := Swap(r, i, child);
      i := child;
    }
  }

  method Push<E>(v: seq<Entry<E>>, e: Entry<E>) returns (r: seq<Entry<E>>)
    requires IsHeap(v)
    ensures IsHeap(r) && multiset(r) == multiset(v) + multiset{e}
  {
    r := SiftUp(v + [e], |v|);
  }

  /** Removes the root; what is left is again a heap of the other entries. */
  method Pop<E>(v: seq<Entry<E>>) returns (e: Entry<E>, r: seq<Entry<E>>)
    requires IsHeap(v) && v != []
    ensures e == v[0] && forall x :: x in v ==> e.key.AtMost(x.key)
    ensures IsHeap(r) && multiset(r) + multiset{e} == multiset(v)
  {
    PeekIsLeast(v);
    e := v[0];
    var last := v[|v| - 1];
    r := v[..|v| - 1];
    assert v == r + [last];
    if r != [] {
      assert r == [e] + r[1..];
      assert r[0 := last] == [last] + r[1..];
      r := SiftDown(r[0 := last], 0);
    }
  }

  /** Builds a heap from a vector in any order. */
  method From<E>(v: seq<Entry<E>>) returns (r: seq<Entry<E>>)
    ensures IsHeap(r) && multiset(r) == multiset(v)
  {
    r := v;
    var n := |v| / 2;
    while n > 0
      invariant 0 <= n <= |r| / 2 && |r| == |v|
      invariant HeapFrom(r, n)
      invariant multiset(r) == multiset(v)
    {
      n := n - 1;
      r := SiftDown(r, n);
    }
  }
}
