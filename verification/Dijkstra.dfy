/** The label-setting search with its lazily cleaned heap, route extraction, and the search for
    links whose loss partitions the network. */
module DijkstraClass {
  import opened PartitionedLinks
  import opened Sequences
  import opened ShortestPaths

  /** How a search ends: normally, or with one of its two exceptions. */
  datatype Outcome = Returned | NodeNotFound | LinkNotFound(node: NodeId)

  /** Which of two heap entries a method extracts first. */
  predicate Preferred(m: Method, a: SetElem, b: SetElem) {
    match m
    case WidestShortest => a.cost < b.cost || (a.cost == b.cost && a.costConcave > b.costConcave)
    case ShortestWidest => a.costConcave > b.costConcave || (a.costConcave == b.costConcave && a.cost < b.cost)
    case _ => a.cost < b.cost
  }

  class Dijkstra {
    var method_: Method
    var linkArray: LinkArray
    var routeMap: RouteMap
    var rootNode: NodeId

    constructor ()
      ensures method_ == Basic && linkArray == map[] && routeMap == map[]
    {
      method_, linkArray, routeMap, rootNode := Basic, map[], map[], UndefinedAddr;
    }

    method SetRoot(n: NodeId)
      modifies `rootNode
      ensures rootNode == n
    {
      rootNode := n;
    }

    /** The first of the most preferred entries. */
    method SelectMin(heap: seq<SetElem>) returns (k: nat)
      requires heap != []
      ensures k < |heap|
      ensures forall j :: 0 <= j < |heap| ==> !Preferred(method_, heap[j], heap[k])
      ensures forall j :: 0 <= j < k ==> Preferred(method_, heap[k], heap[j])
    {
      k := 0;
      var i := 0;
      while i < |heap|
        invariant 0 <= i <= |heap| && k < |heap| && (k == 0 || k < i)
        invariant forall j :: 0 <= j < i ==> !Preferred(method_, heap[j], heap[k])
        invariant forall j :: 0 <= j < k ==> Preferred(method_, heap[k], heap[j])
      {
        if Preferred(method_, heap[i], heap[k]) {
          k := i;
        }
        i := i + 1;
      }
    }

    /** Searches from `root` until `target` is reached or everything reachable has been explored. */
    method RunUntil(target: NodeId, root: NodeId, links: LinkArray)
      returns (routes: RouteMap, outcome: Outcome, ghost rank: Ranks)
      ensures outcome == NodeNotFound <==> root !in links
      ensures outcome.LinkNotFound? ==> outcome.node !in links && outcome.node != target && Reachable(links, root, outcome.node)
      ensures outcome == Returned ==> Chains(links, root, routes, rank)
      ensures outcome == Returned ==> (target in routes <==> Reachable(links, root, target))
      ensures outcome == Returned && target in routes && Sound(method_, links) ==>
                Optimal(method_, links, root, target, routes[target])
      ensures outcome == Returned && target !in routes ==> Complete(method_, links, root, routes)
    {
      routes, rank := map[], map[];
      if root !in links {
        return routes, NodeNotFound, rank;
      }
      routes := map[root := State(0.0, MAX_WIDTH, UndefinedAddr, Perm)];
      var heap := [SetElem(root, 0.0, 0.0)];
      ghost var u: NodeId, i: nat := root, |links[root]|;
      InitialInv(method_, links, root, i);
      while heap != []
        invariant Inv(method_, links, root, routes, heap, rank, u, i) && Whole(links, u, i)
        invariant rank.Keys <= links.Keys && target !in rank
        decreases links.Keys - rank.Keys, |heap|
      {
        var k := SelectMin(heap);
        var elem := heap[k];
        assert elem.iD in routes && (Sound(method_, links) ==> forall j :: 0 <= j < |heap| ==> elem.cost <= heap[j].cost);
        FirstIsRoot(method_, links, root, routes, heap, rank, k);
        if elem.iD != root && routes[elem.iD].mark == Perm {
          DropStale(method_, links, root, routes, heap, rank, u, i, k);
          heap := Erased(heap, k);
          continue;
        }
        if target == elem.iD {
          TargetReached(method_, links, root, routes, heap, rank, u, i, k, target);
          return MadePerm(routes, target), Returned, rank;
        }
        if elem.iD !in links {
          Labelled(links, root, routes, rank, elem.iD);
          return routes, LinkNotFound(elem.iD), rank;
        }
        u := elem.iD;
        routes, heap, rank := Expand(k, root, links, routes, heap, rank, i);
        i := |links[u]|;
      }
      Exhausted(method_, links, root, routes, rank, u, i);
      outcome := Returned;
    }

    /** Makes the label of entry `k`'s node permanent and relaxes its edges. */
    method Expand(k: nat, root: NodeId, links: LinkArray, routes0: RouteMap, heap0: seq<SetElem>, ghost rank0: Ranks, ghost i: nat)
      returns (routes: RouteMap, heap: seq<SetElem>, ghost rank: Ranks)
      requires k < |heap0| && exists w :: Inv(method_, links, root, routes0, heap0, rank0, w, i) && Whole(links, w, i)
      requires heap0[k].iD in links && heap0[k].iD in routes0 && (heap0[k].iD == root || routes0[heap0[k].iD].mark == Tent)
      requires Sound(method_, links) ==> forall j :: 0 <= j < |heap0| ==> heap0[k].cost <= heap0[j].cost
      ensures Inv(method_, links, root, routes, heap, rank, heap0[k].iD, |links[heap0[k].iD]|)
      ensures heap0[k].iD !in rank0 && rank.Keys == rank0.Keys + {heap0[k].iD}
    {
      var u := heap0[k].iD;
      ghost var w :| Inv(method_, links, root, routes0, heap0, rank0, w, i) && Whole(links, w, i);
      BeginExpansion(method_, links, root, routes0, heap0, rank0, w, i, k, u);
      RankGrows(rank0, u, |rank0|);
      rank := rank0[u := |rank0|];
      routes, heap := RelaxEdges(u, root, links, MadePerm(routes0, u), Erased(heap0, k), rank);
    }

    /** Looks at every edge of the node just taken off the heap. */
    method RelaxEdges(iD: NodeId, root: NodeId, links: LinkArray, routes0: RouteMap, heap0: seq<SetElem>, ghost rank: Ranks)
      returns (routes: RouteMap, heap: seq<SetElem>)
      requires Inv(method_, links, root, routes0, heap0, rank, iD, 0) && Expanding(method_, links, routes0, rank, iD)
      ensures Inv(method_, links, root, routes, heap, rank, iD, |links[iD]|)
    {
      routes, heap := routes0, heap0;
      var edges := links[iD];
      var i := 0;
      while i < |edges|
        invariant 0 <= i <= |edges| && Inv(method_, links, root, routes, heap, rank, iD, i)
        invariant Expanding(method_, links, routes, rank, iD)
      {
        routes, heap := RelaxEdge(iD, edges[i], routes, heap, root, links, rank, i);
        i := i + 1;
      }
    }

    /** Labels the end of `edge`, the `i`-th one of `iD`, for the first time, or with a better label than
        it has. Permanent labels and those of other nodes stay; a tentative label is then as good as the
        edge makes it; a new label, and only that, comes with an entry of its cost. */
    method RelaxEdge(iD: NodeId, edge: Edge, routes0: RouteMap, heap0: seq<SetElem>,
                     ghost root: NodeId, ghost links: LinkArray, ghost rank: Ranks, ghost i: nat)
      returns (routes: RouteMap, heap: seq<SetElem>)
      requires Inv(method_, links, root, routes0, heap0, rank, iD, i) && Expanding(method_, links, routes0, rank, iD)
      requires i < |links[iD]| && edge == links[iD][i]
      ensures Inv(method_, links, root, routes, heap, rank, iD, i + 1) && Expanding(method_, links, routes, rank, iD)
      ensures forall n :: n in routes0 && (routes0[n].mark == Perm || n != edge.last) ==> n in routes && routes[n] == routes0[n]
      ensures edge.last in routes && iD in routes && (routes[edge.last].mark == Tent ==> Relaxed(method_, routes, iD, edge))
      ensures edge.last in routes0 && routes[edge.last] != routes0[edge.last] ==>
                Better(method_, routes[edge.last].cost, routes[edge.last].costConcave, routes0[edge.last])
      ensures if routes == routes0 then heap == heap0
              else heap != [] && heap[..|heap| - 1] == heap0 && heap[|heap| - 1].iD == edge.last
                   && heap[|heap| - 1].cost == routes[edge.last].cost
    {
      hide Inv, Expanding;
      RelaxKeeps(method_, links, root, routes0, heap0, rank, iD, i);
      RelaxMeans(method_, links, root, routes0, heap0, rank, iD, i);
      routes, heap := routes0, heap0;
      var cost := edge.cost + routes[iD].cost;
      var cost2 := Min(edge.costConcave, routes[iD].costConcave);
      var next := edge.last;
      if next !in routes {
        routes := routes[next := State(cost, cost2, iD, Tent)];
        heap := heap + [SetElem(next, cost, cost2)];
      } else if routes[next].mark == Tent {
        var actualize := false;
        if method_ == WidestShortest {
          actualize := cost < routes[next].cost || (cost == routes[next].cost && cost2 > routes[next].costConcave);
        } else if method_ == ShortestWidest {
          actualize := cost2 > routes[next].costConcave || (cost2 == routes[next].costConcave && cost < routes[next].cost);
        } else {
          actualize := cost < routes[next].cost;
        }
        if actualize {
          routes := routes[next := routes[next].(cost := cost, costConcave := cost2, idPrev := iD)];
          heap := heap + [SetElem(next, cost, 0.0)];
        }
      }
      assert routes == RelaxedRoutes(method_, routes0, iD, edge) && heap == RelaxedHeap(method_, routes0, heap0, iD, edge);
    }

    /** The search of the class's own graph from its root node. */
    method RunUntilTarget(target: NodeId) returns (outcome: Outcome, ghost rank: Ranks)
      modifies `routeMap
      ensures outcome == NodeNotFound <==> rootNode !in linkArray
      ensures outcome.LinkNotFound? ==>
                outcome.node !in linkArray && outcome.node != target && Reachable(linkArray, rootNode, outcome.node)
      ensures outcome == Returned ==> Chains(linkArray, rootNode, routeMap, rank)
      ensures outcome == Returned ==> (target in routeMap <==> Reachable(linkArray, rootNode, target))
      ensures outcome == Returned && target in routeMap && Sound(method_, linkArray) ==>
                Optimal(method_, linkArray, rootNode, target, routeMap[target])
      ensures outcome == Returned && target !in routeMap ==> Complete(method_, linkArray, rootNode, routeMap)
    {
      routeMap, outcome, rank := RunUntil(target, rootNode, linkArray);
    }

    /** The search without a target, which stops early only at a node of the undefined address. */
    method Run() returns (outcome: Outcome, ghost rank: Ranks)
      modifies `routeMap
      ensures outcome == NodeNotFound <==> rootNode !in linkArray
      ensures outcome.LinkNotFound? ==>
                outcome.node !in linkArray && outcome.node != UndefinedAddr && Reachable(linkArray, rootNode, outcome.node)
      ensures outcome == Returned ==> Chains(linkArray, rootNode, routeMap, rank)
      ensures outcome == Returned ==> (UndefinedAddr in routeMap <==> Reachable(linkArray, rootNode, UndefinedAddr))
      ensures outcome == Returned && UndefinedAddr in routeMap && Sound(method_, linkArray) ==>
                Optimal(method_, linkArray, rootNode, UndefinedAddr, routeMap[UndefinedAddr])
      ensures outcome == Returned && !Reachable(linkArray, rootNode, UndefinedAddr) ==>
                Complete(method_, linkArray, rootNode, routeMap) && forall v :: Reachable(linkArray, rootNode, v) ==> v in linkArray
    {
      outcome, rank := RunUntilTarget(UndefinedAddr);
    }

    /** The nodes of the route to `n`, root first; the route to the root itself is empty. */
    method GetRoute(n: NodeId, routes: RouteMap, ghost links: LinkArray, ghost rank: Ranks)
      returns (has: bool, pathNode: seq<NodeId>, ghost es: seq<Edge>)
      requires Chains(links, rootNode, routes, rank)
      ensures has == (n in routes)
      ensures has && n != rootNode ==>
                && IsRoute(links, rootNode, es) && End(rootNode, es) == n && Stations(rootNode, es) == pathNode
                && RouteCost(es) == routes[n].cost && RouteWidth(es) == routes[n].costConcave
      ensures has && n == rootNode ==> pathNode == []
    {
      pathNode, es := [], [];
      if n == rootNode {
        return true, pathNode, es;
      }
      if n !in routes {
        return false, pathNode, es;
      }
      es := RouteOf(links, rootNode, routes, rank, n);
      var path := FollowBack(n, routes, links, rank);
      pathNode := Unwind(path);
      has := true;
    }

    /** From `n` along the predecessors to the root. */
    method FollowBack(n: NodeId, routes: RouteMap, ghost links: LinkArray, ghost rank: Ranks) returns (path: seq<NodeId>)
      requires Chains(links, rootNode, routes, rank) && n in routes
      ensures Reversed(path) == ChainTo(links, rootNode, routes, rank, n)
    {
      path := [];
      var current := n;
      while current != rootNode
        invariant current in routes
        invariant ChainTo(links, rootNode, routes, rank, n) == ChainTo(links, rootNode, routes, rank, current) + Reversed(path)
        decreases if current in rank then rank[current] else |rank|
      {
        ChainStep(links, rootNode, routes, rank, n, current, path);
        path := path + [current];
        current := routes[current].idPrev;
      }
      ReversedSnoc(path, rootNode);
      path := path + [rootNode];
      assert ChainTo(links, rootNode, routes, rank, rootNode) == [rootNode];
    }

    method Unwind(path0: seq<NodeId>) returns (pathNode: seq<NodeId>)
      ensures pathNode == Reversed(path0)
    {
      pathNode := [];
      var path := path0;
      while path != []
        invariant pathNode + Reversed(path) == Reversed(path0)
      {
        ReversedLast(path);
        pathNode := pathNode + [path[|path| - 1]];
        path := path[..|path| - 1];
      }
    }

    // ---- edges and partitioned links ------------------------------------------------------------

    /** Takes the first edge from `origin` to `last` out of `links`, if there is one. */
    method RemoveEdge(origin: NodeId, last: NodeId, links: LinkArray) returns (rest: LinkArray, edge: seq<Edge>)
      modifies `routeMap
      ensures rest == CutOnce(links, origin, last)
      ensures if HasLink(links, origin, last)
              then edge == [links[origin][FirstTo(links[origin], last)]] && routeMap == map[]
              else edge == [] && routeMap == old(routeMap)
    {
      rest, edge := links, [];
      if origin in links {
        FirstToFinds(links, origin, last);
        var edges := links[origin];
        var i: nat := 0;
        while i < |edges|
          invariant i <= |edges| && routeMap == old(routeMap)
          invariant forall j :: 0 <= j < i ==> edges[j].last != last
        {
          if edges[i].last == last {
            FirstToIs(edges, last, i);
            rest := links[origin := Erased(edges, i)];
            routeMap := map[];
            return rest, [edges[i]];
          }
          i := i + 1;
        }
        FirstToIs(edges, last, i);
      }
    }

    /** Adds an edge, or gives an existing edge to the same node the new edge's cost. */
    method AddEdge(origin: NodeId, edge: Edge, links: LinkArray) returns (all: LinkArray)
      modifies `routeMap
      ensures routeMap == map[] && all == Added(links, origin, edge)
    {
      routeMap := map[];
      if origin in links {
        var edges := links[origin];
        var i: nat := 0;
        while i < |edges|
          invariant i <= |edges| && routeMap == map[]
          invariant forall j :: 0 <= j < i ==> edges[j].last != edge.last
        {
          if edge.last == edges[i].last {
            FirstToIs(edges, edge.last, i);
            return links[origin := edges[i := edges[i].(cost := edge.cost)]];
          }
          i := i + 1;
        }
        FirstToIs(edges, edge.last, i);
      }
      all := links[origin := (if origin in links then links[origin] else []) + [edge]];
    }

    /** Tests every link of `topo` from one of its ends and reports it, in both directions, if that end
        needs it to reach the other. Where links go both ways these are exactly the bridges. */
    method DiscoverAllPartitionedLinks(topo: LinkArray, links0: seq<Link>) returns (links: seq<Link>, ghost topoAux: LinkArray)
      requires Known(topo)
      modifies `rootNode, `routeMap
      ensures SameLinks(topoAux, topo) && (Simple(topo) ==> SameEdges(topoAux, topo))
      ensures links0 <= links && Distinct(links[|links0|..])
      ensures forall l :: l in links[|links0|..] ==> l.Flip() in links[|links0|..] && Possible(topo, l)
      ensures forall l: Link :: HasLink(topo, l.from, l.to) && !Dispensable(topo, l) ==> l in links[|links0|..]
      ensures Duplex(topo) ==> forall l :: l in links[|links0|..] <==> IsBridge(topo, l.from, l.to)
    {
      var aux := topo;
      var found := [];
      var tested: seq<Link> := [];
      var nodes := topo.Keys;
      while nodes != {}
        invariant nodes <= topo.Keys && Copy(aux, topo, tested) && Judged(topo, tested, found)
        invariant forall a, b :: HasLink(topo, a, b) && a !in nodes ==> Link(a, b) in tested
        decreases nodes
      {
        var node :| node in nodes;
        nodes := nodes - {node};
        SetRoot(node);
        aux, tested, found := TestNode(node, topo, aux, tested, found);
      }
      AllJudged(topo, tested, found);
      links := links0 + found;
      topoAux := aux;
      assert links[|links0|..] == found;
    }

    /** Tests the links of one node that have not been tested from their other end. */
    method TestNode(node: NodeId, topo: LinkArray, aux0: LinkArray, tested0: seq<Link>, found0: seq<Link>)
      returns (aux: LinkArray, tested: seq<Link>, found: seq<Link>)
      requires Known(topo) && Copy(aux0, topo, tested0) && node in topo && rootNode == node && Judged(topo, tested0, found0)
      modifies `routeMap
      ensures Copy(aux, topo, tested) && Judged(topo, tested, found)
      ensures Kept(tested0, tested) && forall b :: HasLink(topo, node, b) ==> Link(node, b) in tested
    {
      aux, tested, found := aux0, tested0, found0;
      var edges := topo[node];
      var i := 0;
      while i < |edges|
        invariant 0 <= i <= |edges| && Copy(aux, topo, tested) && Judged(topo, tested, found)
        invariant Kept(tested0, tested) && EdgesTestedTo(topo, node, tested, i)
      {
        assert edges[i] in topo[node];
        ghost var before := tested;
        aux, tested, found := TestOnce(Link(node, edges[i].last), topo, aux, tested, found);
        NextTested(topo, node, tested0, before, tested, i);
        i := i + 1;
      }
      EdgesTested(topo, node, tested);
    }

    /** Tests a link unless that has been done. */
    method TestOnce(l: Link, ghost topo: LinkArray, aux0: LinkArray, tested0: seq<Link>, found0: seq<Link>)
      returns (aux: LinkArray, tested: seq<Link>, found: seq<Link>)
      requires Known(topo) && Copy(aux0, topo, tested0) && HasLink(topo, l.from, l.to) && rootNode == l.from
      requires Judged(topo, tested0, found0)
      modifies `routeMap
      ensures Copy(aux, topo, tested) && Judged(topo, tested, found) && l in tested && Kept(tested0, tested)
    {
      aux, tested, found := aux0, tested0, found0;
      if l !in tested {
        var needed;
        needed, aux := Probe(l, topo, aux, tested);
        JudgedGrows(topo, tested, found, l, needed);
        found := if needed then found + [l] + [l.Flip()] else found;
        tested := tested + [l] + [l.Flip()];
      }
    }

    /** Takes the link's one direction out, looks for a detour, and puts it back. */
    method Probe(l: Link, ghost topo: LinkArray, aux0: LinkArray, ghost tested: seq<Link>) returns (needed: bool, aux: LinkArray)
      requires Known(topo) && Copy(aux0, topo, tested) && HasLink(topo, l.from, l.to) && rootNode == l.from && l !in tested
      modifies `routeMap
      ensures Copy(aux, topo, tested + [l] + [l.Flip()]) && (needed <==> Needed(topo, l.from, l.to))
    {
      NeededInCopy(aux0, topo, tested, l.from, l.to);
      PutBack(aux0, topo, tested, l.from, l.to);
      var removed;
      aux, removed := RemoveEdge(l.from, l.to, aux0);
      CutFewer(aux0, l.from, l.to);
      var has := HasDetour(l.from, l.to, topo, aux);
      needed := !has;
      aux := AddEdge(l.from, removed[0], aux);
    }

    /** Whether a search from `node` still reaches `m`. */
    method HasDetour(node: NodeId, m: NodeId, ghost topo: LinkArray, links: LinkArray) returns (has: bool)
      requires Known(topo) && node in topo && links.Keys == topo.Keys && rootNode == node
      requires forall a, b :: HasLink(links, a, b) ==> HasLink(topo, a, b)
      ensures has <==> Reachable(links, node, m)
    {
      var routes, outcome;
      ghost var rank;
      routes, outcome, rank := RunUntil(m, node, links);
      NeverFails(topo, links, node, outcome);
      var path;
      ghost var es;
      has, path, es := GetRoute(m, routes, links, rank);
    }
  }

  lemma CutFewer(links: LinkArray, u: NodeId, v: NodeId)
    ensures CutOnce(links, u, v).Keys == links.Keys
    ensures forall a, b :: HasLink(CutOnce(links, u, v), a, b) ==> HasLink(links, a, b)
  {
    forall a, b | HasLink(CutOnce(links, u, v), a, b)
      ensures HasLink(links, a, b)
    {
      CutOnceLinks(links, u, v, a, b);
    }
  }

  /** In a graph whose links lead to known nodes a search cannot run into an unknown one. */
  lemma NeverFails(topo: LinkArray, d: LinkArray, u: NodeId, outcome: Outcome)
    requires Known(topo) && u in topo && d.Keys == topo.Keys
    requires forall a, b :: HasLink(d, a, b) ==> HasLink(topo, a, b)
    requires outcome == NodeNotFound <==> u !in d
    requires outcome.LinkNotFound? ==> outcome.node !in d && Reachable(d, u, outcome.node)
    ensures outcome == Returned
  {
    if outcome.LinkNotFound? {
      var es :| IsRoute(d, u, es) && End(u, es) == outcome.node;
      StaysInside(d, u, es);
    }
  }

  lemma ChainStep(links: LinkArray, root: NodeId, routes: RouteMap, rank: Ranks, n: NodeId, current: NodeId, path: seq<NodeId>)
    requires Chains(links, root, routes, rank) && n in routes && current in routes && current != root
    requires ChainTo(links, root, routes, rank, n) == ChainTo(links, root, routes, rank, current) + Reversed(path)
    ensures var p := routes[current].idPrev;
            && p in routes && p in rank && (current in rank ==> rank[p] < rank[current]) && rank[p] < |rank|
            && ChainTo(links, root, routes, rank, n) == ChainTo(links, root, routes, rank, p) + Reversed(path + [current])
  {
    var p := routes[current].idPrev;
    assert Linked(links, routes, rank, current);
    ReversedSnoc(path, current);
    var a := ChainTo(links, root, routes, rank, p);
    Shift(a, current, Reversed(path));
  }

  lemma Shift<T>(a: seq<T>, x: T, b: seq<T>)
    ensures (a + [x]) + b == a + ([x] + b)
  {
  }
}
