/** What the K-routes search has found once its heap is empty. */
module KShortestResults {
  import opened Ids = ShortestPaths
  import opened KShortestPaths
  import opened Sequences

  ghost predicate HasEdge(links: KLinkArray, u: NodeId, v: NodeId) {
    u in links && exists e :: e in links[u] && e.last == v
  }

  function Before(root: NodeId, path: Route, i: nat): NodeId
    requires i <= |path|
  {
    if i == 0 then root else path[i - 1]
  }

  /** Consecutive nodes, starting with the root, are joined by edges. */
  ghost predicate IsWalk(links: KLinkArray, root: NodeId, path: Route) {
    forall i: nat {:trigger HopsAt(links, root, path, i)} :: i < |path| ==> HopsAt(links, root, path, i)
  }

  ghost predicate HopsAt(links: KLinkArray, root: NodeId, path: Route, i: nat)
    requires i < |path|
  {
    HasEdge(links, Before(root, path, i), path[i])
  }

  /** A way from the root to `n`, another node, that passes no node twice. */
  ghost predicate IsSimpleRoute(links: KLinkArray, root: NodeId, path: Route, n: NodeId) {
    path != [] && path[|path| - 1] == n && Distinct(path) && root !in path && IsWalk(links, root, path)
  }

  // ---- what a label stands for --------------------------------------------------------------------

  /** The edges in turn, and the cost they add up to. */
  ghost predicate IsEdgeRoute(links: KLinkArray, root: NodeId, es: seq<KEdge>) {
    forall i: nat {:trigger LeavesAt(links, root, es, i)} :: i < |es| ==> LeavesAt(links, root, es, i)
  }

  ghost predicate LeavesAt(links: KLinkArray, root: NodeId, es: seq<KEdge>, i: nat)
    requires i < |es|
  {
    Leaves(links, From(root, es, i), es[i])
  }

  ghost predicate Leaves(links: KLinkArray, u: NodeId, e: KEdge) { u in links && e in links[u] }

  function From(root: NodeId, es: seq<KEdge>, i: nat): NodeId
    requires i <= |es|
  {
    if i == 0 then root else es[i - 1].last
  }

  ghost function Ends(es: seq<KEdge>): Route { seq(|es|, i requires 0 <= i < |es| => es[i].last) }

  ghost predicate Sized(es: seq<KEdge>, d: nat) { forall i :: 0 <= i < |es| ==> |es[i].cost| == d }

  ghost function TotalCost(start: CostVector, es: seq<KEdge>): CostVector
    requires Sized(es, |start|)
    ensures |TotalCost(start, es)| == |start|
  {
    if es == [] then start else AddCost(es[|es| - 1].cost, TotalCost(start, es[..|es| - 1]))
  }

  /** The edges `es` lead from the root along `path` and add up to `cost`. */
  ghost predicate Makes(links: KLinkArray, root: NodeId, start: CostVector, es: seq<KEdge>, path: Route, cost: CostVector) {
    IsEdgeRoute(links, root, es) && Ends(es) == path && Sized(es, |start|) && TotalCost(start, es) == cost
  }

  /** A label costs what the edges of its route add up to, and its route is made of real edges. */
  lemma {:induction false} LabelCost(links: KLinkArray, root: NodeId, start: CostVector, routes: KRouteMap, rank: LabRanks, l: Lab)
      returns (es: seq<KEdge>)
    requires KChains(links, root, routes, rank) && KCosts(root, start, routes) && HasLab(routes, l) && Uniform(links, |start|)
    ensures Makes(links, root, start, es, RouteTo(links, root, routes, rank, l), StateOf(routes, l).cost)
    decreases if l in rank then rank[l] else |rank|
  {
    if l.n == root {
      es := [];
    } else {
      assert KLinked(links, root, routes, rank, l);
      var p := Prev(routes, l);
      var init := LabelCost(links, root, start, routes, rank, p);
      var e := LastEdge(links, root, start, routes, rank, l);
      es := init + [e];
      MakesMore(links, root, start, init, RouteTo(links, root, routes, rank, p), StateOf(routes, p).cost, e);
    }
  }

  lemma LastEdge(links: KLinkArray, root: NodeId, start: CostVector, routes: KRouteMap, rank: LabRanks, l: Lab) returns (e: KEdge)
    requires KChains(links, root, routes, rank) && KCosts(root, start, routes) && HasLab(routes, l) && Uniform(links, |start|)
    requires l.n != root && HasLab(routes, Prev(routes, l))
    ensures var p, path := Prev(routes, l), RouteTo(links, root, routes, rank, Prev(routes, l));
            && Leaves(links, p.n, e) && |e.cost| == |start|
            && p.n == Before(root, path, |path|)
            && RouteTo(links, root, routes, rank, l) == path + [e.last]
            && StateOf(routes, l).cost == AddCost(e.cost, StateOf(routes, p).cost)
  {
    assert KLinked(links, root, routes, rank, l);
    var p := Prev(routes, l);
    e :| e in links[p.n] && e.last == l.n && |e.cost| <= |StateOf(routes, p).cost|
         && StateOf(routes, l).cost == AddCost(e.cost, StateOf(routes, p).cost);
    LastOfRoute(links, root, routes, rank, p);
  }

  lemma MakesMore(links: KLinkArray, root: NodeId, start: CostVector, init: seq<KEdge>, path: Route, cost: CostVector, e: KEdge)
    requires Makes(links, root, start, init, path, cost) && Leaves(links, Before(root, path, |path|), e) && |e.cost| == |start|
    ensures Makes(links, root, start, init + [e], path + [e.last], AddCost(e.cost, cost))
  {
    ExtendEdges(links, root, init, e);
    ExtendCost(start, init, e);
  }

  lemma ExtendCost(start: CostVector, init: seq<KEdge>, e: KEdge)
    requires Sized(init, |start|) && |e.cost| == |start|
    ensures Sized(init + [e], |start|) && TotalCost(start, init + [e]) == AddCost(e.cost, TotalCost(start, init))
  {
    assert (init + [e])[..|init|] == init;
  }

  lemma ExtendEdges(links: KLinkArray, root: NodeId, init: seq<KEdge>, e: KEdge)
    requires IsEdgeRoute(links, root, init) && Leaves(links, From(root, init, |init|), e)
    ensures IsEdgeRoute(links, root, init + [e])
    ensures Ends(init + [e]) == Ends(init) + [e.last]
  {
    var es := init + [e];
    forall i: nat | i < |es|
      ensures LeavesAt(links, root, es, i)
    {
      assert From(root, es, i) == From(root, init, i);
      if i < |init| { assert LeavesAt(links, root, init, i); }
    }
  }

  lemma LastOfRoute(links: KLinkArray, root: NodeId, routes: KRouteMap, rank: LabRanks, l: Lab)
    requires KChains(links, root, routes, rank) && HasLab(routes, l)
    ensures var path := RouteTo(links, root, routes, rank, l);
            l.n == Before(root, path, |path|) && (l.n == root <==> path == [])
  {
    if l.n != root { assert KLinked(links, root, routes, rank, l); }
  }

  lemma EdgesMakeWalk(links: KLinkArray, root: NodeId, es: seq<KEdge>)
    requires IsEdgeRoute(links, root, es)
    ensures IsWalk(links, root, Ends(es))
  {
    forall i: nat | i < |es|
      ensures HopsAt(links, root, Ends(es), i)
    {
      assert LeavesAt(links, root, es, i) && Before(root, Ends(es), i) == From(root, es, i);
    }
  }

  lemma LabelRoute(links: KLinkArray, root: NodeId, start: CostVector, routes: KRouteMap, rank: LabRanks, l: Lab)
    requires KChains(links, root, routes, rank) && KSimple(links, root, routes, rank) && KCosts(root, start, routes)
    requires HasLab(routes, l) && l.n != root && Uniform(links, |start|)
    ensures IsSimpleRoute(links, root, RouteTo(links, root, routes, rank, l), l.n)
  {
    var es := LabelCost(links, root, start, routes, rank, l);
    EdgesMakeWalk(links, root, es);
    LastOfRoute(links, root, routes, rank, l);
  }

  // ---- what is recorded ---------------------------------------------------------------------------

  /** Every recorded route is a simple one to its node; a node has at most K, all different. */
  lemma RecordsAreSimpleRoutes(links: KLinkArray, root: NodeId, k: nat, start: CostVector, routes: KRouteMap, kroutes: KRoutes,
                               heap: seq<KElem>, rank: LabRanks, n: NodeId)
    requires KInv(links, root, k, start, routes, kroutes, heap, rank) && Uniform(links, |start|) && n in kroutes
    ensures n != root && n in routes && |kroutes[n]| <= |routes[n]| <= k && Distinct(kroutes[n])
    ensures forall path :: path in kroutes[n] ==> IsSimpleRoute(links, root, path, n)
  {
    forall path | path in kroutes[n]
      ensures IsSimpleRoute(links, root, path, n)
    {
      var j :| 0 <= j < |kroutes[n]| && kroutes[n][j] == path;
      assert IsRecordOf(links, root, routes, rank, n, kroutes[n][j]);
      var l :| l in rank && HasLab(routes, l) && l.n == n && RouteTo(links, root, routes, rank, l) == path;
      LabelRoute(links, root, start, routes, rank, l);
    }
    RecordCount(links, root, k, start, routes, kroutes, heap, rank, n);
  }

  lemma RecordCount(links: KLinkArray, root: NodeId, k: nat, start: CostVector, routes: KRouteMap, kroutes: KRoutes,
                    heap: seq<KElem>, rank: LabRanks, n: NodeId)
    requires KInv(links, root, k, start, routes, kroutes, heap, rank) && n in kroutes
    ensures n in routes && |kroutes[n]| <= |routes[n]|
  {
    assert IsRecordOf(links, root, routes, rank, n, kroutes[n][0]);
    var all := LabsUpTo(n, |routes[n]|);
    assert PermLabs(rank, n) <= all;
    SubsetSize(PermLabs(rank, n), all);
  }

  // ---- nothing is missed ----------------------------------------------------------------------------

  /** The state of an unlimited search whose heap is empty. */
  ghost predicate Finished(links: KLinkArray, root: NodeId, k: nat, start: CostVector, routes: KRouteMap, kroutes: KRoutes,
                           rank: LabRanks, last: Lab, i: nat)
  {
    && KInv(links, root, k, start, routes, kroutes, [], rank) && Uniform(links, |start|) && k >= 1
    && KFollowed(links, root, k, [], routes, rank, last, i) && (last.n in links ==> |links[last.n]| <= i)
  }

  /** The expanded label behind a recorded route, or behind the empty one. */
  lemma LabelBehind(links: KLinkArray, root: NodeId, k: nat, start: CostVector, routes: KRouteMap, kroutes: KRoutes,
                    rank: LabRanks, last: Lab, i: nat, path: Route) returns (l: Lab)
    requires Finished(links, root, k, start, routes, kroutes, rank, last, i)
    requires path != [] ==> var n := path[|path| - 1]; n in kroutes && path in kroutes[n]
    ensures l in rank && HasLab(routes, l) && l.n == Before(root, path, |path|) && RouteTo(links, root, routes, rank, l) == path
  {
    if path == [] {
      l := Lab(root, 0);
      assert Served(links, root, routes, kroutes, [], rank, l);
    } else {
      var n := path[|path| - 1];
      var j :| 0 <= j < |kroutes[n]| && kroutes[n][j] == path;
      assert IsRecordOf(links, root, routes, rank, n, kroutes[n][j]);
      l :| l in rank && HasLab(routes, l) && l.n == n && RouteTo(links, root, routes, rank, l) == path;
    }
  }

  /** Unless all labels of a node were used up, every simple extension of a recorded route is recorded. */
  lemma ExtensionRecorded(links: KLinkArray, root: NodeId, k: nat, start: CostVector, routes: KRouteMap, kroutes: KRoutes,
                          rank: LabRanks, last: Lab, i: nat, path: Route, n: NodeId)
    requires Finished(links, root, k, start, routes, kroutes, rank, last, i)
    requires path != [] ==> var n := path[|path| - 1]; n in kroutes && path in kroutes[n]
    requires HasEdge(links, Before(root, path, |path|), n) && n !in path && n != root
    ensures n in routes && (|routes[n]| < k ==> n in kroutes && path + [n] in kroutes[n])
  {
    var p := LabelBehind(links, root, k, start, routes, kroutes, rank, last, i, path);
    var e :| e in links[p.n] && e.last == n;
    var j :| 0 <= j < |links[p.n]| && links[p.n][j] == e;
    assert Offered(links, root, k, [], routes, rank, p, links[p.n][j]);
    if |routes[n]| < k {
      var m :| HasLab(routes, m) && m.n == n && Prev(routes, m) == p;
      assert Served(links, root, routes, kroutes, [], rank, m);
      assert KLinked(links, root, routes, rank, m);
    }
  }

  lemma {:induction false} SimpleRouteRecorded(links: KLinkArray, root: NodeId, k: nat, start: CostVector, routes: KRouteMap,
                                               kroutes: KRoutes, rank: LabRanks, last: Lab, i: nat, n: NodeId, path: Route)
    requires Finished(links, root, k, start, routes, kroutes, rank, last, i)
    requires forall v :: v in routes && v != root ==> |routes[v]| < k
    requires IsSimpleRoute(links, root, path, n)
    ensures n in kroutes && path in kroutes[n]
    decreases |path|
  {
    var init := path[..|path| - 1];
    assert path == init + [n];
    WalkPrefix(links, root, path);
    if init != [] {
      SimplePrefix(links, root, path, n);
      SimpleRouteRecorded(links, root, k, start, routes, kroutes, rank, last, i, init[|init| - 1], init);
    }
    assert n !in init by { assert forall j :: 0 <= j < |init| ==> path[j] != path[|init|]; }
    ExtensionRecorded(links, root, k, start, routes, kroutes, rank, last, i, init, n);
  }

  /** Where no node but the root ran out of labels, exactly the simple routes are recorded, each once. */
  lemma AllSimpleRoutesRecorded(links: KLinkArray, root: NodeId, k: nat, start: CostVector, routes: KRouteMap,
                                kroutes: KRoutes, rank: LabRanks, last: Lab, i: nat, n: NodeId)
    requires Finished(links, root, k, start, routes, kroutes, rank, last, i)
    requires forall v :: v in routes && v != root ==> |routes[v]| < k
    ensures forall path :: IsSimpleRoute(links, root, path, n) <==> n in kroutes && path in kroutes[n]
    ensures n in kroutes ==> Distinct(kroutes[n])
  {
    if n in kroutes {
      RecordsAreSimpleRoutes(links, root, k, start, routes, kroutes, [], rank, n);
    }
    forall path | IsSimpleRoute(links, root, path, n)
      ensures n in kroutes && path in kroutes[n]
    {
      SimpleRouteRecorded(links, root, k, start, routes, kroutes, rank, last, i, n, path);
    }
  }

  lemma WalkPrefix(links: KLinkArray, root: NodeId, walk: Route)
    requires IsWalk(links, root, walk) && walk != []
    ensures var init := walk[..|walk| - 1];
            IsWalk(links, root, init) && HasEdge(links, Before(root, init, |init|), walk[|init|])
  {
    var init := walk[..|walk| - 1];
    forall j: nat | j < |init|
      ensures HopsAt(links, root, init, j)
    {
      assert HopsAt(links, root, walk, j);
    }
    assert HopsAt(links, root, walk, |init|);
  }

  lemma SimplePrefix(links: KLinkArray, root: NodeId, path: Route, n: NodeId)
    requires IsSimpleRoute(links, root, path, n) && |path| > 1
    ensures IsSimpleRoute(links, root, path[..|path| - 1], path[|path| - 2])
  {
    WalkPrefix(links, root, path);
  }

  // ---- which nodes are labelled ------------------------------------------------------------------------

  /** A labelled node has an expanded label. */
  lemma SomeExpanded(links: KLinkArray, root: NodeId, k: nat, start: CostVector, routes: KRouteMap, kroutes: KRoutes,
                     rank: LabRanks, last: Lab, i: nat, n: NodeId) returns (l: Lab)
    requires Finished(links, root, k, start, routes, kroutes, rank, last, i) && n in routes
    ensures l in rank && HasLab(routes, l) && l.n == n
  {
    assert Served(links, root, routes, kroutes, [], rank, Lab(n, 0));
    if n == root {
      l := Lab(root, 0);
    } else {
      assert IsRecordOf(links, root, routes, rank, n, kroutes[n][0]);
      l :| l in rank && HasLab(routes, l) && l.n == n;
    }
  }

  /** Every walk from the root, however often it crosses itself, leads to a labelled node. */
  lemma {:induction false} WalkLabelled(links: KLinkArray, root: NodeId, k: nat, start: CostVector, routes: KRouteMap, kroutes: KRoutes,
                                        rank: LabRanks, last: Lab, i: nat, walk: Route)
    requires Finished(links, root, k, start, routes, kroutes, rank, last, i) && IsWalk(links, root, walk)
    ensures Before(root, walk, |walk|) in routes
    decreases |walk|
  {
    if walk != [] {
      var init := walk[..|walk| - 1];
      WalkPrefix(links, root, walk);
      WalkLabelled(links, root, k, start, routes, kroutes, rank, last, i, init);
      NeighbourLabelled(links, root, k, start, routes, kroutes, rank, last, i, Before(root, init, |init|), walk[|init|]);
    }
  }

  lemma NeighbourLabelled(links: KLinkArray, root: NodeId, k: nat, start: CostVector, routes: KRouteMap, kroutes: KRoutes,
                          rank: LabRanks, last: Lab, i: nat, u: NodeId, v: NodeId)
    requires Finished(links, root, k, start, routes, kroutes, rank, last, i) && u in routes && HasEdge(links, u, v)
    ensures v in routes
  {
    var p := SomeExpanded(links, root, k, start, routes, kroutes, rank, last, i, u);
    var e :| e in links[u] && e.last == v;
    var j :| 0 <= j < |links[u]| && links[u][j] == e;
    assert Offered(links, root, k, [], routes, rank, p, links[p.n][j]);
  }

  /** Exactly the nodes reachable from the root have labels and, but for the root, recorded routes. */
  lemma LabelledAreReachable(links: KLinkArray, root: NodeId, k: nat, start: CostVector, routes: KRouteMap, kroutes: KRoutes,
                             rank: LabRanks, last: Lab, i: nat, n: NodeId)
    requires Finished(links, root, k, start, routes, kroutes, rank, last, i)
    ensures n in routes <==> exists walk :: IsWalk(links, root, walk) && Before(root, walk, |walk|) == n
    ensures n in kroutes <==> n in routes && n != root
  {
    forall walk | IsWalk(links, root, walk) && Before(root, walk, |walk|) == n
      ensures n in routes
    {
      WalkLabelled(links, root, k, start, routes, kroutes, rank, last, i, walk);
    }
    if n in routes {
      var l := SomeExpanded(links, root, k, start, routes, kroutes, rank, last, i, n);
      if n == root {
        assert IsWalk(links, root, []) && Before(root, [], 0) == root;
      } else {
        LabelRoute(links, root, start, routes, rank, l);
        var path := RouteTo(links, root, routes, rank, l);
        assert IsWalk(links, root, path) && Before(root, path, |path|) == n;
      }
    }
    if n in kroutes { RecordsAreSimpleRoutes(links, root, k, start, routes, kroutes, [], rank, n); }
  }
}
