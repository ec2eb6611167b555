/** Sizes of finite sets. */
module Sets {
  lemma Shrinks<T>(a: set<T>, b: set<T>)
    requires a <= b
    ensures |a| <= |b|
  {
    assert |b| == |a| + |b - a| by {
      assert b == a + (b - a);
    }
  }

  /** What is left to find shrinks with every find. */
  lemma Remaining<T>(universe: set<T>, before: set<T>, after: set<T>)
    requires before <= after <= universe
    ensures before == after || |universe - after| < |universe - before|
  {
    assert universe - before == (universe - after) + (after - before);
    assert after == before + (after - before);
  }
}
