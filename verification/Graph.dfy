/** Undirected graphs over the nodes `0 .. n - 1`: connectedness, components and how many
    links it takes to join them. */
module Graph {
  datatype Edge = Edge(a: nat, b: nat)

  predicate Linked(es: set<Edge>, x: nat, y: nat) {
    Edge(x, y) in es || Edge(y, x) in es
  }

  predicate ValidEdges(n: nat, es: set<Edge>) {
    forall e :: e in es ==> e.a < n && e.b < n
  }

  ghost predicate IsPath(es: set<Edge>, p: seq<nat>) {
    p != [] && forall i :: 0 <= i < |p| - 1 ==> Linked(es, p[i], p[i + 1])
  }

  ghost predicate Connected(es: set<Edge>, x: nat, y: nat) {
    exists p :: IsPath(es, p) && p[0] == x && p[|p| - 1] == y
  }

  // ---------- Connectedness is an equivalence ----------

  lemma ConnectedSelf(es: set<Edge>, x: nat)
    ensures Connected(es, x, x)
  {
    assert IsPath(es, [x]) && [x][|[x]| - 1] == x;
  }

  lemma ConnectedStep(es: set<Edge>, x: nat, y: nat, z: nat)
    requires Connected(es, x, y) && Linked(es, y, z)
    ensures Connected(es, x, z)
  {
    var p :| IsPath(es, p) && p[0] == x && p[|p| - 1] == y;
    var q := p + [z];
    forall i | 0 <= i < |q| - 1
      ensures Linked(es, q[i], q[i + 1])
    {
      assert i < |p| - 1 ==> q[i] == p[i] && q[i + 1] == p[i + 1];
    }
    assert IsPath(es, q) && q[|q| - 1] == z;
  }

  /** A set closed under links holds everything connected to its members. */
  lemma {:induction false} ClosedHoldsPath(es: set<Edge>, closed: set<nat>, p: seq<nat>)
    requires IsPath(es, p) && p[0] in closed
    requires forall x, y :: x in closed && Linked(es, x, y) ==> y in closed
    ensures p[|p| - 1] in closed
    decreases |p|
  {
    if |p| > 1 {
      assert Linked(es, p[0], p[1]);
      forall i | 0 <= i < |p[1..]| - 1
        ensures Linked(es, p[1..][i], p[1..][i + 1])
      {
        assert Linked(es, p[i + 1], p[i + 2]);
      }
      ClosedHoldsPath(es, closed, p[1..]);
    }
  }

  lemma ClosedHolds(es: set<Edge>, closed: set<nat>, x: nat, y: nat)
    requires x in closed && Connected(es, x, y)
    requires forall u, v :: u in closed && Linked(es, u, v) ==> v in closed
    ensures y in closed
  {
    var p :| IsPath(es, p) && p[0] == x && p[|p| - 1] == y;
    ClosedHoldsPath(es, closed, p);
  }

  lemma {:induction false} PathExtends(es: set<Edge>, x: nat, p: seq<nat>)
    requires IsPath(es, p) && Connected(es, x, p[0])
    ensures Connected(es, x, p[|p| - 1])
    decreases |p|
  {
    if |p| > 1 {
      assert Linked(es, p[0], p[1]);
      ConnectedStep(es, x, p[0], p[1]);
      assert IsPath(es, p[1..]) by {
        forall i | 0 <= i < |p[1..]| - 1
          ensures Linked(es, p[1..][i], p[1..][i + 1])
        {
          assert Linked(es, p[i + 1], p[i + 2]);
        }
      }
      PathExtends(es, x, p[1..]);
    }
  }

  lemma ConnectedTrans(es: set<Edge>, x: nat, y: nat, z: nat)
    requires Connected(es, x, y) && Connected(es, y, z)
    ensures Connected(es, x, z)
  {
    var p :| IsPath(es, p) && p[0] == y && p[|p| - 1] == z;
    PathExtends(es, x, p);
  }

  lemma {:induction false} PathReverses(es: set<Edge>, p: seq<nat>)
    requires IsPath(es, p)
    ensures Connected(es, p[|p| - 1], p[0])
    decreases |p|
  {
    if |p| == 1 {
      ConnectedSelf(es, p[0]);
    } else {
      assert Linked(es, p[0], p[1]);
      assert IsPath(es, p[1..]) by {
        forall i | 0 <= i < |p[1..]| - 1
          ensures Linked(es, p[1..][i], p[1..][i + 1])
        {
          assert Linked(es, p[i + 1], p[i + 2]);
        }
      }
      PathReverses(es, p[1..]);
      ConnectedStep(es, p[|p| - 1], p[1], p[0]);
    }
  }

  lemma ConnectedSym(es: set<Edge>, x: nat, y: nat)
    requires Connected(es, x, y)
    ensures Connected(es, y, x)
  {
    var p :| IsPath(es, p) && p[0] == x && p[|p| - 1] == y;
    PathReverses(es, p);
  }

  /** Whatever links the same nodes connects the same nodes. */
  lemma ConnectedMonotone(es: set<Edge>, es': set<Edge>, x: nat, y: nat)
    requires forall u, v :: Linked(es, u, v) ==> Linked(es', u, v)
    requires Connected(es, x, y)
    ensures Connected(es', x, y)
  {
    var p :| IsPath(es, p) && p[0] == x && p[|p| - 1] == y;
    assert IsPath(es', p);
  }

  // ---------- Components ----------

  /** The least node of its component. */
  ghost predicate Leader(es: set<Edge>, i: nat) {
    forall j: nat :: j < i ==> !Connected(es, j, i)
  }

  /** The leaders in ascending order: one for each component. */
  ghost function Leaders(n: nat, es: set<Edge>): seq<nat> {
    if n == 0 then []
    else Leaders(n - 1, es) + if Leader(es, n - 1) then [n - 1] else []
  }

  lemma {:induction false} AboutLeaders(n: nat, es: set<Edge>)
    ensures var s := Leaders(n, es);
      && (forall k :: 0 <= k < |s| ==> s[k] < n && Leader(es, s[k]))
      && (forall k, l :: 0 <= k < l < |s| ==> s[k] < s[l])
      && (forall i: nat :: i < n && Leader(es, i) ==> i in s)
  {
    if n > 0 {
      AboutLeaders(n - 1, es);
    }
  }

  ghost function Component(n: nat, es: set<Edge>, i: nat): set<nat> {
    set x: nat | x < n && Connected(es, i, x)
  }

  lemma {:induction false} EveryNodeHasALeader(n: nat, es: set<Edge>, x: nat) returns (l: nat)
    requires x < n
    ensures l <= x && Leader(es, l) && Connected(es, l, x)
    decreases x
  {
    if Leader(es, x) {
      l := x;
      ConnectedSelf(es, x);
    } else {
      var j: nat :| j < x && Connected(es, j, x);
      l := EveryNodeHasALeader(n, es, j);
      ConnectedTrans(es, l, j, x);
    }
  }

  lemma LeadersApart(es: set<Edge>, l: nat, m: nat)
    requires Leader(es, l) && Leader(es, m) && l != m
    ensures !Connected(es, l, m)
  {
    if Connected(es, l, m) {
      ConnectedSym(es, l, m);
    }
  }

  // ---------- Joining components takes one link each ----------

  /** A path over one extra link either avoids it or can be cut at it. */
  lemma {:induction false} ExtraLinkSplits(es: set<Edge>, e: Edge, p: seq<nat>)
    requires IsPath(es + {e}, p)
    ensures var x, y := p[0], p[|p| - 1];
      || Connected(es, x, y)
      || (Connected(es, x, e.a) && Connected(es, e.b, y))
      || (Connected(es, x, e.b) && Connected(es, e.a, y))
    decreases |p|
  {
    var x := p[0];
    if |p| == 1 {
      ConnectedSelf(es, x);
    } else {
      var q, y, z := p[..|p| - 1], p[|p| - 2], p[|p| - 1];
      assert IsPath(es + {e}, q) by {
        forall i | 0 <= i < |q| - 1
          ensures Linked(es + {e}, q[i], q[i + 1])
        {
          assert Linked(es + {e}, p[i], p[i + 1]);
        }
      }
      ExtraLinkSplits(es, e, q);
      assert Linked(es + {e}, p[|p| - 2], p[|p| - 2 + 1]);
      ConnectedSelf(es, e.a);
      ConnectedSelf(es, e.b);
      if Linked(es, y, z) {
        if Connected(es, x, y) { ConnectedStep(es, x, y, z); }
        if Connected(es, e.b, y) { ConnectedStep(es, e.b, y, z); }
        if Connected(es, e.a, y) { ConnectedStep(es, e.a, y, z); }
      }
    }
  }

  /** One more link can cost at most one leader. */
  lemma OneLinkOneLeader(n: nat, es: set<Edge>, e: Edge)
    requires e.a < n && e.b < n
    ensures |Leaders(n, es)| <= |Leaders(n, es + {e})| + 1
  {
    var la := EveryNodeHasALeader(n, es, e.a);
    var lb := EveryNodeHasALeader(n, es, e.b);
    var lost := if la < lb then lb else la;
    forall r: nat | r < n && Leader(es, r) && r != lost
      ensures Leader(es + {e}, r)
    {
      forall j: nat | j < r
        ensures !Connected(es + {e}, j, r)
      {
        if Connected(es + {e}, j, r) {
          LeaderSurvives(es, e, la, lb, r, j);
        }
      }
    }
    CountLeaders(n, es, es + {e}, lost);
  }

  lemma LeaderSurvives(es: set<Edge>, e: Edge, la: nat, lb: nat, r: nat, j: nat)
    requires Leader(es, la) && Connected(es, la, e.a) && Leader(es, lb) && Connected(es, lb, e.b)
    requires Leader(es, r) && r != (if la < lb then lb else la) && j < r
    ensures !Connected(es + {e}, j, r)
  {
    if Connected(es + {e}, j, r) {
      var p :| IsPath(es + {e}, p) && p[0] == j && p[|p| - 1] == r;
      ExtraLinkSplits(es, e, p);
      assert !Connected(es, j, r);
      if Connected(es, j, e.a) && Connected(es, e.b, r) {
        CrossingIsBackwards(es, e.a, e.b, la, lb, r, j);
      } else {
        CrossingIsBackwards(es, e.b, e.a, lb, la, r, j);
      }
    }
  }

  lemma CrossingIsBackwards(es: set<Edge>, a: nat, b: nat, la: nat, lb: nat, r: nat, j: nat)
    requires Leader(es, la) && Connected(es, la, a) && Leader(es, lb) && Connected(es, lb, b)
    requires Leader(es, r) && j < r && Connected(es, j, a) && Connected(es, b, r)
    ensures r == lb && la < lb
  {
    ConnectedTrans(es, lb, b, r);
    if lb != r { LeadersApart(es, lb, r); }
    ConnectedSym(es, la, a);
    ConnectedTrans(es, j, a, la);
  }

  /** If every leader but one stays a leader, at most one is lost from the count. */
  lemma {:induction false} CountLeaders(n: nat, es: set<Edge>, es': set<Edge>, lost: nat)
    requires forall r: nat :: r < n && Leader(es, r) && r != lost ==> Leader(es', r)
    ensures |Leaders(n, es)| <= |Leaders(n, es')| + if lost < n then 1 else 0
  {
    if n > 0 {
      CountLeaders(n - 1, es, es', lost);
    }
  }

  ghost predicate AllConnected(n: nat, es: set<Edge>) {
    forall x: nat, y: nat :: x < n && y < n ==> Connected(es, x, y)
  }

  lemma {:induction false} ConnectedHasOneLeader(n: nat, es: set<Edge>)
    requires AllConnected(n, es) && n > 0
    ensures |Leaders(n, es)| == 1
  {
    var s := Leaders(n, es);
    AboutLeaders(n, es);
    assert Leader(es, 0) && 0 in s;
    if |s| > 1 {
      LeadersApart(es, s[0], s[1]);
    }
  }

  /** No way of connecting a graph uses fewer new links than it has components, less one. */
  lemma {:induction false} AdditionsNeeded(n: nat, es: set<Edge>, extra: seq<Edge>)
    requires n > 0 && forall e :: e in extra ==> e.a < n && e.b < n
    requires AllConnected(n, es + set e | e in extra)
    ensures |extra| >= |Leaders(n, es)| - 1
    decreases |extra|
  {
    if extra == [] {
      assert es + (set e | e in extra) == es;
      ConnectedHasOneLeader(n, es);
    } else {
      assert extra[0] in extra;
      assert (es + {extra[0]}) + (set e | e in extra[1..]) == es + set e | e in extra;
      AdditionsNeeded(n, es + {extra[0]}, extra[1..]);
      OneLinkOneLeader(n, es, extra[0]);
    }
  }
}
