/** Bridging the disconnected parts of a road network with the shortest links.

    Distances are a function of two node indices; nothing about them is used but that they
    can be compared. */
module Bridging {
  import opened Wrappers
  import opened Graph
  import opened Sets

  type Distance = (nat, nat) -> real

  datatype BridgeError = NoNodes

  ghost function EdgeSet(s: seq<Edge>): set<Edge> {
    set e | e in s
  }

  ghost function NodeSet(s: seq<nat>): set<nat> {
    set x | x in s
  }

  /** The order in which links are preferred: distance, then the two indices. */
  predicate Closer(dist: Distance, e: Edge, f: Edge) {
    || dist(e.a, e.b) < dist(f.a, f.b)
    || (dist(e.a, e.b) == dist(f.a, f.b) && (e.a < f.a || (e.a == f.a && e.b < f.b)))
  }

  ghost predicate LeastLink(dist: Distance, part: set<nat>, other: set<nat>, e: Edge) {
    && e.a in part && e.b in other
    && (forall a, b :: a in part && b in other ==> !Closer(dist, Edge(a, b), e))
  }

  // ---------- Adjacency ----------

  ghost predicate IsAdjacency(adj: map<nat, set<nat>>, n: nat, es: set<Edge>) {
    && (forall x: nat :: x in adj <==> x < n)
    && (forall x: nat, y: nat :: x in adj && y in adj[x] ==> Linked(es, x, y))
    && (forall x: nat, y: nat :: x in adj && Linked(es, x, y) ==> y in adj[x])
  }

  function NoLinks(n: nat): (adj: map<nat, set<nat>>)
    ensures IsAdjacency(adj, n, {})
  {
    if n == 0 then map[] else NoLinks(n - 1)[n - 1 := {}]
  }

  method Adjacency(n: nat, edges: seq<Edge>) returns (adj: map<nat, set<nat>>)
    requires ValidEdges(n, EdgeSet(edges))
    ensures IsAdjacency(adj, n, EdgeSet(edges))
  {
    adj := NoLinks(n);
    for k := 0 to |edges|
      invariant IsAdjacency(adj, n, EdgeSet(edges[..k]))
    {
      var e := edges[k];
      assert e in EdgeSet(edges);
      assert EdgeSet(edges[..k + 1]) == EdgeSet(edges[..k]) + {e};
      adj := adj[e.a := adj[e.a] + {e.b}];
      adj := adj[e.b := adj[e.b] + {e.a}];
    }
    assert edges[..|edges|] == edges;
  }

  // ---------- Finding the components ----------

  /** What the search from `start` knows: it stays inside the component, and it has looked
      behind every node it has taken off the stack. */
  ghost predicate Searching(n: nat, es: set<Edge>, start: nat, seen0: set<nat>, comp: seq<nat>, stack: seq<nat>) {
    && start in comp
    && (forall x :: x in comp ==> x < n && x !in seen0 && Connected(es, start, x))
    && (forall x :: x in stack ==> x in comp)
    && (forall x, y: nat :: x in comp && x !in stack && Linked(es, x, y) ==> y in comp)
  }

  ghost predicate Closed(es: set<Edge>, s: set<nat>) {
    forall x, y: nat :: x in s && Linked(es, x, y) ==> y in s
  }

  lemma NodeSetSnoc(s: seq<nat>, m: nat)
    ensures NodeSet(s + [m]) == NodeSet(s) + {m}
  {
  }

  /** Puts the neighbours not seen before on the list and on the stack, in any order. */
  method Visit(neighbours: set<nat>, seen: set<nat>, comp: seq<nat>, stack: seq<nat>)
    returns (seen': set<nat>, comp': seq<nat>, stack': seq<nat>, ghost news: seq<nat>)
    ensures NodeSet(news) == neighbours - seen
    ensures seen' == seen + neighbours
    ensures comp' == comp + news && stack' == stack + news
  {
    hide NodeSet;
    seen', comp', stack' := seen, comp, stack;
    news := [];
    NodeSetEmpty();
    var todo := neighbours;
    ghost var done: set<nat> := {};
    while todo != {}
      invariant done + todo == neighbours
      invariant seen' == seen + done && NodeSet(news) == done - seen
      invariant comp' == comp + news && stack' == stack + news
      decreases |todo|
    {
      var m :| m in todo;
      MoveOne(neighbours, todo, done, seen, m);
      todo := todo - {m};
      done := done + {m};
      if m !in seen' {
        NodeSetSnoc(news, m);
        seen' := seen' + {m};
        comp' := comp' + [m];
        stack' := stack' + [m];
        news := news + [m];
      }
    }
  }

  lemma MoveOne(all: set<nat>, todo: set<nat>, done: set<nat>, seen: set<nat>, m: nat)
    requires done + todo == all && m in todo
    ensures (done + {m}) + (todo - {m}) == all
    ensures seen + (done + {m}) == if m in seen + done then seen + done else seen + done + {m}
    ensures (done + {m}) - seen == if m in seen + done then done - seen else (done - seen) + {m}
  {
  }

  lemma NodeSetEmpty()
    ensures NodeSet([]) == {}
  {
  }

  lemma SomethingNew(news: seq<nat>)
    requires news != []
    ensures NodeSet(news) != {}
  {
    assert news[0] in NodeSet(news);
  }

  lemma NeighboursOf(adj: map<nat, set<nat>>, n: nat, es: set<Edge>, x: nat)
    requires IsAdjacency(adj, n, es) && x < n
    ensures x in adj && forall y: nat :: y in adj[x] <==> Linked(es, x, y)
  {
  }

  /** Each step of the search finds something new or shortens the stack. */
  lemma SearchProgress(n: nat, comp: seq<nat>, news: seq<nat>)
    requires NodeSet(news) !! NodeSet(comp) && NodeSet(comp + news) == NodeSet(comp) + NodeSet(news)
    requires NodeSet(comp + news) <= Nodes(n)
    ensures news == [] || |Nodes(n) - NodeSet(comp + news)| < |Nodes(n) - NodeSet(comp)|
  {
    if news != [] {
      SomethingNew(news);
      Remaining(Nodes(n), NodeSet(comp), NodeSet(comp + news));
    }
  }

  lemma VisitKeepsSearching(n: nat, es: set<Edge>, start: nat, seen0: set<nat>, comp: seq<nat>, rest: seq<nat>,
                            x: nat, neighbours: set<nat>, news: seq<nat>)
    requires ValidEdges(n, es) && Closed(es, seen0) && Searching(n, es, start, seen0, comp, rest + [x])
    requires forall y: nat :: y in neighbours <==> Linked(es, x, y)
    requires NodeSet(news) == neighbours - (seen0 + NodeSet(comp))
    ensures Searching(n, es, start, seen0, comp + news, rest + news)
    ensures NodeSet(comp + news) == NodeSet(comp) + NodeSet(news)
    ensures NodeSet(news) !! NodeSet(comp) && NodeSet(comp + news) <= Nodes(n)
    ensures seen0 + NodeSet(comp) + neighbours == seen0 + NodeSet(comp + news)
  {
    assert x in rest + [x];
    forall y: nat | y in neighbours
      ensures y !in seen0 && y < n && Connected(es, start, y)
    {
      assert Linked(es, y, x);
      ConnectedStep(es, start, x, y);
    }
    assert forall u :: u in news <==> u in NodeSet(news);
    assert forall u :: u in comp <==> u in NodeSet(comp);
  }

  lemma SearchedIsComponent(n: nat, es: set<Edge>, start: nat, seen0: set<nat>, comp: seq<nat>)
    requires Searching(n, es, start, seen0, comp, [])
    ensures NodeSet(comp) == Component(n, es, start)
  {
    forall y: nat | y < n && Connected(es, start, y)
      ensures y in comp
    {
      ClosedHolds(es, NodeSet(comp), start, y);
    }
  }

  function Nodes(n: nat): (s: set<nat>)
    ensures forall x: nat :: x in s <==> x < n
  {
    if n == 0 then {} else Nodes(n - 1) + {n - 1}
  }

  /** Follows links from `start`, which no search has seen before. */
  method Search(n: nat, ghost es: set<Edge>, adj: map<nat, set<nat>>, start: nat, seen: set<nat>)
    returns (comp: seq<nat>, seen': set<nat>)
    requires ValidEdges(n, es) && IsAdjacency(adj, n, es)
    requires start < n && start !in seen && Closed(es, seen)
    ensures NodeSet(comp) == Component(n, es, start)
    ensures seen' == seen + NodeSet(comp) && Closed(es, seen')
  {
    hide Searching, NodeSet, Closed, IsAdjacency, Linked, ValidEdges, Nodes, Component;
    comp := [start];
    var stack := [start];
    seen' := seen + {start};
    StartsSearching(n, es, start, seen);
    while stack != []
      invariant Searching(n, es, start, seen, comp, stack)
      invariant seen' == seen + NodeSet(comp)
      decreases |Nodes(n) - NodeSet(comp)|, |stack|
    {
      ghost var comp0 := comp;
      var x := stack[|stack| - 1];
      var rest := stack[..|stack| - 1];
      assert stack == rest + [x];
      InComponent(n, es, start, seen, comp, stack, x);
      NeighboursOf(adj, n, es, x);
      ghost var news;
      seen', comp, stack, news := Visit(adj[x], seen', comp, rest);
      VisitKeepsSearching(n, es, start, seen, comp0, rest, x, adj[x], news);
      SearchProgress(n, comp0, news);
    }
    SearchedIsComponent(n, es, start, seen, comp);
    SearchedIsClosed(n, es, start, seen, comp);
  }

  lemma StartsSearching(n: nat, es: set<Edge>, start: nat, seen: set<nat>)
    requires start < n && start !in seen
    ensures Searching(n, es, start, seen, [start], [start]) && NodeSet([start]) == {start}
  {
    ConnectedSelf(es, start);
  }

  lemma InComponent(n: nat, es: set<Edge>, start: nat, seen0: set<nat>, comp: seq<nat>, stack: seq<nat>, x: nat)
    requires Searching(n, es, start, seen0, comp, stack) && x in stack
    ensures x < n
  {
  }

  lemma SearchedIsClosed(n: nat, es: set<Edge>, start: nat, seen0: set<nat>, comp: seq<nat>)
    requires Searching(n, es, start, seen0, comp, []) && Closed(es, seen0)
    ensures Closed(es, seen0 + NodeSet(comp))
  {
  }

  function InsertNode(x: nat, s: seq<nat>): seq<nat> {
    if s == [] || x <= s[0] then [x] + s else [s[0]] + InsertNode(x, s[1..])
  }

  function SortedNodes(s: seq<nat>): seq<nat> {
    if s == [] then [] else InsertNode(s[0], SortedNodes(s[1..]))
  }

  lemma {:induction false} InsertNodeMembers(x: nat, s: seq<nat>)
    ensures NodeSet(InsertNode(x, s)) == NodeSet(s) + {x}
  {
    if s != [] && x > s[0] {
      InsertNodeMembers(x, s[1..]);
      assert NodeSet(s) == {s[0]} + NodeSet(s[1..]);
      assert NodeSet(InsertNode(x, s)) == {s[0]} + NodeSet(InsertNode(x, s[1..]));
    }
  }

  lemma {:induction false} SortedNodesMembers(s: seq<nat>)
    ensures NodeSet(SortedNodes(s)) == NodeSet(s)
  {
    if s != [] {
      SortedNodesMembers(s[1..]);
      InsertNodeMembers(s[0], SortedNodes(s[1..]));
      assert NodeSet(s) == {s[0]} + NodeSet(s[1..]);
    }
  }

  /** After the nodes below `i`: all of them are seen, what is seen is closed under links, and
      everything seen hangs on one of them. */
  ghost predicate SeenBelow(n: nat, es: set<Edge>, i: nat, seen: set<nat>) {
    && Closed(es, seen)
    && (forall j: nat :: j < i ==> j in seen)
    && (forall x :: x in seen ==> exists l: nat :: l < i && Connected(es, l, x))
  }

  /** The lists are the components, in the order of their leaders. */
  ghost predicate AreComponents(n: nat, es: set<Edge>, leaders: seq<nat>, comps: seq<seq<nat>>) {
    && |comps| == |leaders|
    && forall k :: 0 <= k < |comps| ==> NodeSet(comps[k]) == Component(n, es, leaders[k])
  }

  lemma LeaderIffUnseen(n: nat, es: set<Edge>, i: nat, seen: set<nat>)
    requires SeenBelow(n, es, i, seen)
    ensures Leader(es, i) <==> i !in seen
  {
    if i !in seen {
      forall j: nat | j < i
        ensures !Connected(es, j, i)
      {
        if Connected(es, j, i) {
          ClosedHolds(es, seen, j, i);
        }
      }
    }
  }

  lemma SeenAfter(n: nat, es: set<Edge>, i: nat, seen: set<nat>, comp: set<nat>)
    requires SeenBelow(n, es, i, seen) && i < n && comp == Component(n, es, i) && Closed(es, seen + comp)
    ensures SeenBelow(n, es, i + 1, seen + comp)
  {
    ConnectedSelf(es, i);
    forall x | x in seen + comp
      ensures exists l: nat :: l < i + 1 && Connected(es, l, x)
    {
      if x in seen {
        var l: nat :| l < i && Connected(es, l, x);
        assert l < i + 1;
      } else {
        assert i < i + 1 && Connected(es, i, x);
      }
    }
  }

  lemma SeenAnyway(n: nat, es: set<Edge>, i: nat, seen: set<nat>)
    requires SeenBelow(n, es, i, seen) && i in seen
    ensures SeenBelow(n, es, i + 1, seen)
  {
    forall x | x in seen
      ensures exists l: nat :: l < i + 1 && Connected(es, l, x)
    {
      var l: nat :| l < i && Connected(es, l, x);
      assert l < i + 1;
    }
  }

  method Components(n: nat, edges: seq<Edge>) returns (comps: seq<seq<nat>>)
    requires ValidEdges(n, EdgeSet(edges))
    ensures AreComponents(n, EdgeSet(edges), Leaders(n, EdgeSet(edges)), comps)
  {
    var adj := Adjacency(n, edges);
    ghost var es := EdgeSet(edges);
    comps := [];
    var seen: set<nat> := {};
    for i := 0 to n
      invariant SeenBelow(n, es, i, seen)
      invariant AreComponents(n, es, Leaders(i, es), comps)
    {
      LeaderIffUnseen(n, es, i, seen);
      if i in seen {
        SeenAnyway(n, es, i, seen);
      } else {
        assert Closed(es, seen);
        hide SeenBelow, Closed, IsAdjacency;
        ghost var seen0 := seen;
        var comp;
        comp, seen := Search(n, es, adj, i, seen);
        SeenAfter(n, es, i, seen0, NodeSet(comp));
        SortedNodesMembers(comp);
        comps := comps + [SortedNodes(comp)];
      }
    }
  }

  // ---------- Choosing the links ----------

  /** The shortest link from one list of nodes to another. */
  method ShortestLink(dist: Distance, part: seq<nat>, other: seq<nat>) returns (e: Edge)
    requires part != [] && other != []
    ensures LeastLink(dist, NodeSet(part), NodeSet(other), e)
  {
    var best: Option<Edge> := None;
    for i := 0 to |part|
      invariant best.None? <==> i == 0
      invariant best.Some? ==> LeastLink(dist, NodeSet(part[..i]), NodeSet(other), best.value)
    {
      for j := 0 to |other|
        invariant best.None? <==> i == 0 && j == 0
        invariant best.Some? ==> LeastSoFar(dist, part, other, i, j, best.value)
      {
        var e' := Edge(part[i], other[j]);
        if best.None? || Closer(dist, e', best.value) {
          best := Some(e');
        }
      }
    }
    assert part[..|part|] == part;
    e := best.value;
  }

  ghost predicate LeastSoFar(dist: Distance, part: seq<nat>, other: seq<nat>, i: nat, j: nat, e: Edge)
    requires i < |part| && j <= |other|
  {
    && ((e.a in part[..i] && e.b in other) || (e.a == part[i] && e.b in other[..j]))
    && (forall a, b :: a in part[..i] && b in other ==> !Closer(dist, Edge(a, b), e))
    && (forall b :: b in other[..j] ==> !Closer(dist, Edge(part[i], b), e))
  }

  /** The nodes of the first `k` components. */
  ghost function Merged(n: nat, es: set<Edge>, k: nat): set<nat>
    requires k <= |Leaders(n, es)|
  {
    if k == 0 then {} else Merged(n, es, k - 1) + Component(n, es, Leaders(n, es)[k - 1])
  }

  /** Each link is the least one from all that is joined before it to the next component. */
  ghost predicate AreLeastLinks(n: nat, dist: Distance, es: set<Edge>, added: seq<Edge>) {
    && |added| < |Leaders(n, es)|
    && forall k :: 0 <= k < |added| ==>
         LeastLink(dist, Merged(n, es, k + 1), Component(n, es, Leaders(n, es)[k + 1]), added[k])
  }

  /** One link for each component after the first: the least one from all that is joined so
      far. Only connectedness and distances are mentioned. */
  ghost predicate IsBridging(n: nat, dist: Distance, es: set<Edge>, added: seq<Edge>) {
    |added| == |Leaders(n, es)| - 1 && AreLeastLinks(n, dist, es, added)
  }

  lemma OneMoreLink(n: nat, dist: Distance, es: set<Edge>, added: seq<Edge>, e: Edge)
    requires AreLeastLinks(n, dist, es, added) && |added| + 1 < |Leaders(n, es)|
    requires LeastLink(dist, Merged(n, es, |added| + 1), Component(n, es, Leaders(n, es)[|added| + 1]), e)
    ensures AreLeastLinks(n, dist, es, added + [e])
  {
    hide Component, Leaders, Merged, LeastLink;
  }

  lemma NodeSetJoin(a: seq<nat>, b: seq<nat>)
    ensures NodeSet(a + b) == NodeSet(a) + NodeSet(b)
  {
  }

  method AutoConnect(n: nat, dist: Distance, edges: seq<Edge>)
    returns (r: Result<(seq<Edge>, seq<Edge>), BridgeError>)
    requires ValidEdges(n, EdgeSet(edges))
    ensures r.Err? <==> n == 0
    ensures r.Ok? ==> r.value.0 == edges + r.value.1
    ensures r.Ok? ==> IsBridging(n, dist, EdgeSet(edges), r.value.1)
  {
    hide Component, Leaders, Merged, LeastLink, ValidEdges, NodeSet, EdgeSet;
    var comps := Components(n, edges);
    ghost var es := EdgeSet(edges);
    LeadersExist(n, es);
    if comps == [] {
      return Err(NoNodes);
    }
    var all, added := edges, [];
    var main := comps[0];
    ComponentNotEmpty(n, es, 0, main);
    MergedStep(n, es, 0);
    assert AreLeastLinks(n, dist, es, added);
    hide AreLeastLinks;
    for k := 1 to |comps|
      invariant NodeSet(main) == Merged(n, es, k) && main != []
      invariant all == edges + added && |added| == k - 1
      invariant AreLeastLinks(n, dist, es, added)
    {
      var comp := comps[k];
      MergedStep(n, es, k);
      ComponentNotEmpty(n, es, k, comp);
      var e := ShortestLink(dist, main, comp);
      OneMoreLink(n, dist, es, added, e);
      added := added + [e];
      all := all + [e];
      NodeSetJoin(main, comp);
      main := main + comp;
    }
    r := Ok((all, added));
  }

  lemma ComponentNotEmpty(n: nat, es: set<Edge>, k: nat, comp: seq<nat>)
    requires k < |Leaders(n, es)| && NodeSet(comp) == Component(n, es, Leaders(n, es)[k])
    ensures comp != []
  {
    var l := Leaders(n, es)[k];
    AboutLeaders(n, es);
    ConnectedSelf(es, l);
    assert l in NodeSet(comp);
  }

  lemma LeadersExist(n: nat, es: set<Edge>)
    ensures Leaders(n, es) == [] <==> n == 0
  {
    if n > 0 {
      AboutLeaders(n, es);
      assert Leader(es, 0) && 0 in Leaders(n, es);
    }
  }

  // ---------- What the additions achieve ----------

  lemma LinkIsLeast(n: nat, dist: Distance, es: set<Edge>, added: seq<Edge>, k: nat)
    requires IsBridging(n, dist, es, added) && k < |added|
    ensures k + 1 < |Leaders(n, es)|
    ensures LeastLink(dist, Merged(n, es, k + 1), Component(n, es, Leaders(n, es)[k + 1]), added[k])
    ensures added[k].a in Merged(n, es, k + 1) && added[k].b in Component(n, es, Leaders(n, es)[k + 1])
  {
    hide Merged, Component, Leaders;
  }

  lemma ComponentsApart(n: nat, es: set<Edge>, k: nat, l: nat, x: nat)
    requires k < l < |Leaders(n, es)| && x in Component(n, es, Leaders(n, es)[k])
    ensures x !in Component(n, es, Leaders(n, es)[l])
  {
    var L := Leaders(n, es);
    AboutLeaders(n, es);
    LeadersApart(es, L[k], L[l]);
    if Connected(es, L[l], x) {
      ConnectedSym(es, L[l], x);
      ConnectedTrans(es, L[k], x, L[l]);
    }
  }

  lemma {:induction false} MergedApart(n: nat, es: set<Edge>, k: nat, l: nat, x: nat)
    requires k <= l < |Leaders(n, es)| && x in Merged(n, es, k)
    ensures x !in Component(n, es, Leaders(n, es)[l])
    decreases k
  {
    if x in Component(n, es, Leaders(n, es)[k - 1]) {
      ComponentsApart(n, es, k - 1, l, x);
    } else {
      MergedApart(n, es, k - 1, l, x);
    }
  }

  lemma {:induction false} MergedGrows(n: nat, es: set<Edge>, k: nat, l: nat)
    requires k <= l <= |Leaders(n, es)|
    ensures Merged(n, es, k) <= Merged(n, es, l)
    decreases l
  {
    hide Component, Leaders;
    if k < l {
      MergedGrows(n, es, k, l - 1);
    }
  }

  lemma EndsAreMerged(n: nat, dist: Distance, es: set<Edge>, added: seq<Edge>, j: nat, l: nat)
    requires IsBridging(n, dist, es, added) && j + 1 < l <= |added|
    ensures added[j].a in Merged(n, es, l) && added[j].b in Merged(n, es, l)
  {
    hide Component, Leaders, Merged, AreLeastLinks, LeastLink;
    LinkIsLeast(n, dist, es, added, j);
    MergedStep(n, es, j + 1);
    MergedGrows(n, es, j + 2, l);
  }

  /** Links among the first components leave the later ones as they were. */
  lemma LaterComponentUntouched(n: nat, dist: Distance, es: set<Edge>, added: seq<Edge>, k: nat, l: nat, x: nat)
    requires ValidEdges(n, es) && IsBridging(n, dist, es, added) && k < l <= |added|
    requires Connected(es + EdgeSet(added[..k]), Leaders(n, es)[l], x)
    ensures x in Component(n, es, Leaders(n, es)[l])
  {
    hide AreLeastLinks;
    var L := Leaders(n, es);
    AboutLeaders(n, es);
    ConnectedSelf(es, L[l]);
    assert L[l] in Component(n, es, L[l]);
    hide Connected, Leaders, Component;
    forall u, v: nat | u in Component(n, es, L[l]) && Linked(es + EdgeSet(added[..k]), u, v)
      ensures v in Component(n, es, L[l])
    {
      StaysInComponent(n, dist, es, added, k, l, u, v);
    }
    ClosedHolds(es + EdgeSet(added[..k]), Component(n, es, L[l]), L[l], x);
  }

  lemma StaysInComponent(n: nat, dist: Distance, es: set<Edge>, added: seq<Edge>, k: nat, l: nat, u: nat, v: nat)
    requires ValidEdges(n, es) && IsBridging(n, dist, es, added) && k < l <= |added|
    requires u in Component(n, es, Leaders(n, es)[l]) && Linked(es + EdgeSet(added[..k]), u, v)
    ensures v in Component(n, es, Leaders(n, es)[l])
  {
    hide AreLeastLinks;
    if Linked(es, u, v) {
      ConnectedStep(es, Leaders(n, es)[l], u, v);
    } else {
      hide Connected, Leaders, Component, Merged, ValidEdges;
      var j :| 0 <= j < k && (added[j] == Edge(u, v) || added[j] == Edge(v, u));
      EndsAreMerged(n, dist, es, added, j, l);
      MergedApart(n, es, l, l, u);
    }
  }

  /** Each added link joins two parts that the links before it leave disconnected. */
  lemma EachLinkJoinsTwoParts(n: nat, dist: Distance, es: set<Edge>, added: seq<Edge>, k: nat)
    requires ValidEdges(n, es) && IsBridging(n, dist, es, added) && k < |added|
    ensures !Connected(es + EdgeSet(added[..k]), added[k].a, added[k].b)
  {
    hide AreLeastLinks, LeastLink;
    var L := Leaders(n, es);
    var es' := es + EdgeSet(added[..k]);
    LinkIsLeast(n, dist, es, added, k);
    if Connected(es', added[k].a, added[k].b) {
      ConnectedMonotone(es, es', L[k + 1], added[k].b);
      ConnectedSym(es', added[k].a, added[k].b);
      ConnectedTrans(es', L[k + 1], added[k].b, added[k].a);
      LaterComponentUntouched(n, dist, es, added, k, k + 1, added[k].a);
      MergedApart(n, es, k + 1, k + 1, added[k].a);
    }
  }

  lemma MergedStep(n: nat, es: set<Edge>, k: nat)
    requires k < |Leaders(n, es)|
    ensures Merged(n, es, k + 1) == Merged(n, es, k) + Component(n, es, Leaders(n, es)[k])
    ensures Merged(n, es, 0) == {}
  {
  }

  lemma InComponentOf(n: nat, es: set<Edge>, l: nat, x: nat)
    requires x in Component(n, es, l)
    ensures Connected(es, l, x)
  {
  }

  /** After `k` additions the first `k + 1` components are one. */
  lemma {:induction false} MergedIsConnected(n: nat, dist: Distance, es: set<Edge>, added: seq<Edge>, k: nat, x: nat)
    requires ValidEdges(n, es) && IsBridging(n, dist, es, added) && k <= |added|
    requires x in Merged(n, es, k + 1)
    ensures Connected(es + EdgeSet(added[..k]), Leaders(n, es)[0], x)
    decreases k
  {
    hide Connected, Leaders, Merged, EdgeSet, AreLeastLinks, LeastLink, Component;
    var L := Leaders(n, es);
    MergedStep(n, es, k);
    if k == 0 {
      InComponentOf(n, es, L[0], x);
      ConnectedMonotone(es, es + EdgeSet(added[..k]), L[0], x);
    } else {
      LinkIsLeast(n, dist, es, added, k - 1);
      if x in Merged(n, es, k) {
        MergedIsConnected(n, dist, es, added, k - 1, x);
        MoreLinks(es, added, k, L[0], x);
      } else {
        MergedIsConnected(n, dist, es, added, k - 1, added[k - 1].a);
        InComponentOf(n, es, L[k], x);
        InComponentOf(n, es, L[k], added[k - 1].b);
        CrossTheLink(es, added, k, L[0], L[k], x);
      }
    }
  }

  lemma MoreLinks(es: set<Edge>, added: seq<Edge>, k: nat, x: nat, y: nat)
    requires 0 < k <= |added| && Connected(es + EdgeSet(added[..k - 1]), x, y)
    ensures Connected(es + EdgeSet(added[..k]), x, y)
  {
    assert forall f :: f in added[..k - 1] ==> f in added[..k];
    ConnectedMonotone(es + EdgeSet(added[..k - 1]), es + EdgeSet(added[..k]), x, y);
  }

  /** From `l` to the near end of the newest link, over it, and on to the far component. */
  lemma CrossTheLink(es: set<Edge>, added: seq<Edge>, k: nat, l: nat, far: nat, x: nat)
    requires 0 < k <= |added| && Connected(es + EdgeSet(added[..k - 1]), l, added[k - 1].a)
    requires Connected(es, far, added[k - 1].b) && Connected(es, far, x)
    ensures Connected(es + EdgeSet(added[..k]), l, x)
  {
    hide Connected;
    var es', e := es + EdgeSet(added[..k]), added[k - 1];
    assert e in added[..k] && Linked(es', e.a, e.b);
    MoreLinks(es, added, k, l, e.a);
    ConnectedStep(es', l, e.a, e.b);
    ConnectedSym(es, far, e.b);
    ConnectedTrans(es, e.b, far, x);
    ConnectedMonotone(es, es', e.b, x);
    ConnectedTrans(es', l, e.b, x);
  }

  lemma {:induction false} ComponentInMerged(n: nat, es: set<Edge>, k: nat, m: nat)
    requires k < m <= |Leaders(n, es)|
    ensures Component(n, es, Leaders(n, es)[k]) <= Merged(n, es, m)
    decreases m
  {
    hide Component, Leaders;
    if k < m - 1 {
      ComponentInMerged(n, es, k, m - 1);
    }
  }

  /** The result is connected, and no set of new links that connects the graph is smaller. */
  lemma BridgingConnectsWithFewest(n: nat, dist: Distance, es: set<Edge>, added: seq<Edge>)
    requires n > 0 && ValidEdges(n, es) && IsBridging(n, dist, es, added)
    ensures AllConnected(n, es + EdgeSet(added))
    ensures forall extra: seq<Edge> ::
      ValidEdges(n, EdgeSet(extra)) && AllConnected(n, es + EdgeSet(extra)) ==> |added| <= |extra|
  {
    var L := Leaders(n, es);
    var es' := es + EdgeSet(added);
    assert added[..|added|] == added;
    forall x: nat | x < n
      ensures Connected(es', L[0], x)
    {
      var l := EveryNodeHasALeader(n, es, x);
      AboutLeaders(n, es);
      var k :| 0 <= k < |L| && L[k] == l;
      ComponentInMerged(n, es, k, |L|);
      MergedIsConnected(n, dist, es, added, |added|, x);
    }
    forall x: nat, y: nat | x < n && y < n
      ensures Connected(es', x, y)
    {
      ConnectedSym(es', L[0], x);
      ConnectedTrans(es', x, L[0], y);
    }
    forall extra: seq<Edge> | ValidEdges(n, EdgeSet(extra)) && AllConnected(n, es + EdgeSet(extra))
      ensures |added| <= |extra|
    {
      forall e | e in extra
        ensures e.a < n && e.b < n
      {
        assert e in EdgeSet(extra);
      }
      assert EdgeSet(extra) == set e | e in extra;
      AdditionsNeeded(n, es, extra);
    }
  }

  // ---------- The additions depend on nothing else ----------

  lemma {:induction false} SameLeaders(n: nat, es: set<Edge>, es': set<Edge>)
    requires forall x: nat, y: nat :: Connected(es, x, y) <==> Connected(es', x, y)
    ensures Leaders(n, es) == Leaders(n, es')
  {
    if n > 0 {
      SameLeaders(n - 1, es, es');
    }
  }

  lemma {:induction false} SameMerged(n: nat, es: set<Edge>, es': set<Edge>, k: nat)
    requires forall x: nat, y: nat :: Connected(es, x, y) <==> Connected(es', x, y)
    requires Leaders(n, es) == Leaders(n, es') && k <= |Leaders(n, es)|
    ensures Merged(n, es, k) == Merged(n, es', k)
  {
    hide Leaders, Connected;
    if k > 0 {
      assert Component(n, es, Leaders(n, es)[k - 1]) == Component(n, es', Leaders(n, es)[k - 1]);
      SameMerged(n, es, es', k - 1);
    }
  }

  /** Two edge lists with the same links, in whatever order, direction or multiplicity, get
      the same additions, whatever order the search visits the nodes in. */
  lemma AdditionsAreDetermined(n: nat, dist: Distance, es: set<Edge>, es': set<Edge>, added: seq<Edge>,
                               added': seq<Edge>)
    requires forall x: nat, y: nat :: Linked(es, x, y) <==> Linked(es', x, y)
    requires IsBridging(n, dist, es, added) && IsBridging(n, dist, es', added')
    ensures added == added'
  {
    forall x: nat, y: nat
      ensures Connected(es, x, y) <==> Connected(es', x, y)
    {
      if Connected(es, x, y) { ConnectedMonotone(es, es', x, y); }
      if Connected(es', x, y) { ConnectedMonotone(es', es, x, y); }
    }
    SameLeaders(n, es, es');
    forall k | 0 <= k < |added|
      ensures added[k] == added'[k]
    {
      SameLink(n, dist, es, es', added, added', k);
    }
  }

  lemma SameLink(n: nat, dist: Distance, es: set<Edge>, es': set<Edge>, added: seq<Edge>, added': seq<Edge>, k: nat)
    requires forall x: nat, y: nat :: Connected(es, x, y) <==> Connected(es', x, y)
    requires Leaders(n, es) == Leaders(n, es') && k < |added|
    requires IsBridging(n, dist, es, added) && IsBridging(n, dist, es', added')
    ensures added[k] == added'[k]
  {
    hide Connected, Leaders, Merged, LeastLink, AreLeastLinks;
    LinkIsLeast(n, dist, es, added, k);
    LinkIsLeast(n, dist, es', added', k);
    SameMerged(n, es, es', k + 1);
    var part, other := Merged(n, es, k + 1), Component(n, es, Leaders(n, es)[k + 1]);
    assert other == Component(n, es', Leaders(n, es')[k + 1]);
    assert LeastLink(dist, part, other, added[k]) && LeastLink(dist, part, other, added'[k]);
    LeastLinkUnique(dist, part, other, added[k], added'[k]);
  }

  lemma LeastLinkUnique(dist: Distance, part: set<nat>, other: set<nat>, e: Edge, f: Edge)
    requires LeastLink(dist, part, other, e) && LeastLink(dist, part, other, f)
    ensures e == f
  {
    assert Edge(e.a, e.b) == e && Edge(f.a, f.b) == f;
    assert !Closer(dist, Edge(e.a, e.b), f) && !Closer(dist, Edge(f.a, f.b), e);
  }
}
