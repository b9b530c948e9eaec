/** Routes through a directed graph with an additive cost and a bottleneck width, and the
    bookkeeping of a label-setting search over it. */
module ShortestPaths {
  import opened Sequences

  datatype NodeId = UndefinedAddr | Addr(id: int)

  /** Costs and widths, as exact numbers. */
  type Number = real

  /** The largest double: the width of the empty route. */
  const MAX_WIDTH: Number := 179769313486231570814527423731704356798070567525844996598917476803157260780028538760589558632766878171540458953514382464234321326889464182768467546703537516986049910576551282076245490090389328944075868508455133942304583236903222948165808559332123348274797826204144723168738177180919299881250404026184124858368.0

  datatype Edge = Edge(last: NodeId, cost: Number, costConcave: Number)

  type LinkArray = map<NodeId, seq<Edge>>

  datatype Label = Perm | Tent

  datatype State = State(cost: Number, costConcave: Number, idPrev: NodeId, mark: Label)

  type RouteMap = map<NodeId, State>

  datatype SetElem = SetElem(iD: NodeId, cost: Number, costConcave: Number)

  datatype Method = Basic | WidestShortest | ShortestWidest | OtherCost

  function Min(a: Number, b: Number): Number { if b < a then b else a }

  // ---- routes as the graph has them -----------------------------------------------------------

  function End(u: NodeId, es: seq<Edge>): NodeId { if es == [] then u else es[|es| - 1].last }

  /** The edges `es` lead from `u` on, each starting where the previous one ended. */
  ghost predicate IsRoute(links: LinkArray, u: NodeId, es: seq<Edge>) {
    es != [] ==>
      var init := es[..|es| - 1];
      IsRoute(links, u, init) && End(u, init) in links && es[|es| - 1] in links[End(u, init)]
  }

  ghost function RouteCost(es: seq<Edge>): Number {
    if es == [] then 0.0 else RouteCost(es[..|es| - 1]) + es[|es| - 1].cost
  }

  /** The bottleneck: the smallest width along the route. */
  ghost function RouteWidth(es: seq<Edge>): Number {
    if es == [] then MAX_WIDTH else Min(es[|es| - 1].costConcave, RouteWidth(es[..|es| - 1]))
  }

  ghost predicate Reachable(links: LinkArray, u: NodeId, v: NodeId) {
    exists es :: IsRoute(links, u, es) && End(u, es) == v
  }

  lemma Extend(links: LinkArray, u: NodeId, es: seq<Edge>, e: Edge)
    requires IsRoute(links, u, es) && End(u, es) in links && e in links[End(u, es)]
    ensures IsRoute(links, u, es + [e]) && End(u, es + [e]) == e.last
    ensures RouteCost(es + [e]) == RouteCost(es) + e.cost
    ensures RouteWidth(es + [e]) == Min(e.costConcave, RouteWidth(es))
  {
    assert (es + [e])[..|es|] == es;
  }

  // ---- which label is better -------------------------------------------------------------------

  /** What each method replaces a tentative label by. */
  predicate Better(m: Method, cost: Number, width: Number, s: State) {
    match m
    case WidestShortest => cost < s.cost || (cost == s.cost && width > s.costConcave)
    case ShortestWidest => width > s.costConcave || (width == s.costConcave && cost < s.cost)
    case _ => cost < s.cost
  }

  /** The methods whose labels are optimal, and the edge costs they need for it. */
  ghost predicate Sound(m: Method, links: LinkArray) {
    && m != ShortestWidest
    && forall u :: u in links ==> forall e :: e in links[u] ==> if m == WidestShortest then e.cost > 0.0 else e.cost >= 0.0
  }

  // ---- the state of the search --------------------------------------------------------------------

  /** Ranks number the expanded nodes in the order of their expansion. */
  type Ranks = map<NodeId, nat>

  /** `n`'s label is that of its predecessor extended by an edge to `n`. */
  ghost predicate FollowsFrom(links: LinkArray, routes: RouteMap, n: NodeId)
    requires n in routes
  {
    var p := routes[n].idPrev;
    && p in routes && p in links
    && exists e :: && e in links[p] && e.last == n
                   && routes[n].cost == routes[p].cost + e.cost
                   && routes[n].costConcave == Min(e.costConcave, routes[p].costConcave)
  }

  /** `n`'s label extends the label of a node expanded, if `n` is expanded too, before it. */
  ghost predicate Linked(links: LinkArray, routes: RouteMap, rank: Ranks, n: NodeId)
    requires n in routes
  {
    && FollowsFrom(links, routes, n) && routes[n].idPrev in rank
    && (n in rank ==> rank[routes[n].idPrev] < rank[n])
  }

  /** Every label but the root's extends the label of a node expanded earlier. */
  ghost predicate Chains(links: LinkArray, root: NodeId, routes: RouteMap, rank: Ranks) {
    && root in routes && routes[root].cost == 0.0 && routes[root].costConcave == MAX_WIDTH
    && (rank != map[] ==> root in rank)
    && (forall n :: n in rank ==> n in routes && n in links && rank[n] < |rank|)
    && forall n {:trigger Linked(links, routes, rank, n)} :: n in routes && n != root ==> Linked(links, routes, rank, n)
  }

  ghost predicate Labels(root: NodeId, routes: RouteMap, rank: Ranks) {
    forall n :: n in routes ==> (routes[n].mark == Perm <==> n in rank || n == root)
  }

  ghost predicate Queued(heap: seq<SetElem>, n: NodeId, cost: Number) {
    exists i :: 0 <= i < |heap| && heap[i].iD == n && heap[i].cost == cost
  }

  /** Every node still to be expanded has an entry with its current cost; older entries cost more. */
  ghost predicate Queue(m: Method, links: LinkArray, root: NodeId, routes: RouteMap, heap: seq<SetElem>, rank: Ranks) {
    && (forall i :: 0 <= i < |heap| ==>
          && heap[i].iD in routes && (rank != map[] ==> heap[i].iD != root)
          && (Sound(m, links) ==> routes[heap[i].iD].cost <= heap[i].cost))
    && (rank == map[] ==> |heap| == 1)
    && forall n :: n in routes && n !in rank ==> Queued(heap, n, routes[n].cost)
  }

  /** Edge `e` of node `u` offers nothing better than what its end has. */
  ghost predicate Relaxed(m: Method, routes: RouteMap, u: NodeId, e: Edge)
    requires u in routes
  {
    e.last in routes &&
    !Better(m, routes[u].cost + e.cost, Min(e.costConcave, routes[u].costConcave), routes[e.last])
  }

  /** The edges of all expanded nodes have been relaxed; of node `u` only the first `i`. */
  ghost predicate Settled(m: Method, links: LinkArray, routes: RouteMap, rank: Ranks, u: NodeId, i: nat) {
    forall x, j :: x in rank && x in routes && x in links && 0 <= j < |links[x]| && (x != u || j < i) ==>
      links[x][j].last in routes && (Sound(m, links) ==> Relaxed(m, routes, x, links[x][j]))
  }

  /** Expanded nodes cost no more than the others. */
  ghost predicate InOrder(routes: RouteMap, rank: Ranks) {
    forall x, v :: x in rank && x in routes && v in routes && v !in rank ==> routes[x].cost <= routes[v].cost
  }

  ghost predicate Inv(m: Method, links: LinkArray, root: NodeId, routes: RouteMap, heap: seq<SetElem>, rank: Ranks,
                      u: NodeId, i: nat)
  {
    && Chains(links, root, routes, rank) && Labels(root, routes, rank) && Queue(m, links, root, routes, heap, rank)
    && Settled(m, links, routes, rank, u, i) && (Sound(m, links) ==> InOrder(routes, rank))
  }

  ghost predicate Whole(links: LinkArray, u: NodeId, i: nat) { u in links ==> i == |links[u]| }

  lemma InitialInv(m: Method, links: LinkArray, root: NodeId, i: nat)
    ensures Inv(m, links, root, map[root := State(0.0, MAX_WIDTH, UndefinedAddr, Perm)], [SetElem(root, 0.0, 0.0)], map[], root, i)
  {
    var heap := [SetElem(root, 0.0, 0.0)];
    assert heap[0].iD == root && heap[0].cost == 0.0;
  }

  /** Dropping an entry of a node that has been expanded loses nothing. */
  lemma DropStale(m: Method, links: LinkArray, root: NodeId, routes: RouteMap, heap: seq<SetElem>, rank: Ranks,
                  u: NodeId, i: nat, k: nat)
    requires Inv(m, links, root, routes, heap, rank, u, i) && k < |heap| && heap[k].iD in rank
    ensures Inv(m, links, root, routes, Erased(heap, k), rank, u, i)
  {
    ErasedEntries(heap, k);
    forall n | n in routes && n !in rank
      ensures Queued(Erased(heap, k), n, routes[n].cost)
    {
      KeepQueued(heap, k, n, routes[n].cost);
    }
  }

  lemma KeepQueued(heap: seq<SetElem>, k: nat, n: NodeId, cost: Number)
    requires k < |heap| && Queued(heap, n, cost) && heap[k].iD != n
    ensures Queued(Erased(heap, k), n, cost)
  {
    var i :| 0 <= i < |heap| && heap[i].iD == n && heap[i].cost == cost;
    var h := Erased(heap, k);
    var j := if i < k then i else i - 1;
    assert h[j] == heap[i];
  }

  function MadePerm(routes: RouteMap, u: NodeId): RouteMap
    requires u in routes
  {
    routes[u := routes[u].(mark := Perm)]
  }

  /** Expanding the node of a cheapest entry. */
  lemma BeginExpansion(m: Method, links: LinkArray, root: NodeId, routes: RouteMap, heap: seq<SetElem>, rank: Ranks,
                       w: NodeId, i: nat, k: nat, u: NodeId)
    requires Inv(m, links, root, routes, heap, rank, w, i) && Whole(links, w, i) && k < |heap| && u == heap[k].iD
    requires u in links && u in routes && (u == root || routes[u].mark == Tent)
    requires Sound(m, links) ==> forall j :: 0 <= j < |heap| ==> heap[k].cost <= heap[j].cost
    ensures u !in rank
    ensures Inv(m, links, root, MadePerm(routes, u), Erased(heap, k), rank[u := |rank|], u, 0)
    ensures Sound(m, links) ==> forall x :: x in rank && x in routes ==> routes[x].cost <= routes[u].cost
  {
    FirstIsRoot(m, links, root, routes, heap, rank, k);
    ChainsGrow(links, root, routes, rank, u);
    QueueDrop(m, links, root, routes, heap, rank, k, u);
    if Sound(m, links) { CheapestFirst(m, links, root, routes, heap, rank, k, u); }
    assert u !in rank;
  }

  lemma FirstIsRoot(m: Method, links: LinkArray, root: NodeId, routes: RouteMap, heap: seq<SetElem>, rank: Ranks, k: nat)
    requires Queue(m, links, root, routes, heap, rank) && k < |heap| && root in routes
    ensures rank == map[] ==> |heap| == 1
    ensures rank == map[] <==> heap[k].iD == root
  {
    if rank == map[] { assert Queued(heap, root, routes[root].cost); }
  }

  lemma CheapestFirst(m: Method, links: LinkArray, root: NodeId, routes: RouteMap, heap: seq<SetElem>, rank: Ranks, k: nat, u: NodeId)
    requires Queue(m, links, root, routes, heap, rank) && k < |heap| && u == heap[k].iD && Sound(m, links)
    requires forall j :: 0 <= j < |heap| ==> heap[k].cost <= heap[j].cost
    ensures forall v :: v in routes && v !in rank ==> routes[u].cost <= routes[v].cost
  {
    forall v | v in routes && v !in rank
      ensures routes[u].cost <= routes[v].cost
    {
      assert Queued(heap, v, routes[v].cost);
    }
  }

  lemma QueueDrop(m: Method, links: LinkArray, root: NodeId, routes: RouteMap, heap: seq<SetElem>, rank: Ranks, k: nat, u: NodeId)
    requires Queue(m, links, root, routes, heap, rank) && k < |heap| && u == heap[k].iD && root in routes
    ensures Queue(m, links, root, MadePerm(routes, u), Erased(heap, k), rank[u := |rank|])
  {
    FirstIsRoot(m, links, root, routes, heap, rank, k);
    var h, r, q := Erased(heap, k), MadePerm(routes, u), rank[u := |rank|];
    ErasedEntries(heap, k);
    assert u in q;
    forall n | n in r && n !in q
      ensures Queued(h, n, r[n].cost)
    {
      KeepQueued(heap, k, n, routes[n].cost);
    }
  }

  /** A label that follows from another still does when costs and predecessors are unchanged. */
  lemma FollowsSame(links: LinkArray, routes: RouteMap, r: RouteMap, n: NodeId)
    requires n in routes && FollowsFrom(links, routes, n) && n in r && routes[n].idPrev in r
    requires r[n].cost == routes[n].cost && r[n].costConcave == routes[n].costConcave && r[n].idPrev == routes[n].idPrev
    requires var p := routes[n].idPrev; r[p].cost == routes[p].cost && r[p].costConcave == routes[p].costConcave
    ensures FollowsFrom(links, r, n)
  {
    var p := routes[n].idPrev;
    var e :| e in links[p] && e.last == n && routes[n].cost == routes[p].cost + e.cost
             && routes[n].costConcave == Min(e.costConcave, routes[p].costConcave);
    assert e in links[p];
  }

  lemma RankGrows(rank: Ranks, u: NodeId, i: nat)
    requires u !in rank
    ensures |rank[u := i]| == |rank| + 1 && rank[u := i].Keys == rank.Keys + {u}
  {
    assert rank[u := i].Keys == rank.Keys + {u} && |rank.Keys + {u}| == |rank.Keys| + 1;
  }

  lemma ChainsGrow(links: LinkArray, root: NodeId, routes: RouteMap, rank: Ranks, u: NodeId)
    requires Chains(links, root, routes, rank) && u in routes && u in links && u !in rank && (rank == map[] ==> u == root)
    ensures Chains(links, root, MadePerm(routes, u), rank[u := |rank|])
  {
    var r, q := MadePerm(routes, u), rank[u := |rank|];
    RankGrows(rank, u, |rank|);
    forall n | n in r && n != root
      ensures Linked(links, r, q, n)
    {
      assert Linked(links, routes, rank, n);
      FollowsSame(links, routes, r, n);
    }
  }

  /** The new state of the search after an edge `e` of the node `u` has been looked at. */
  function RelaxedRoutes(m: Method, routes: RouteMap, u: NodeId, e: Edge): RouteMap
    requires u in routes
  {
    var cost, width := routes[u].cost + e.cost, Min(e.costConcave, routes[u].costConcave);
    if e.last !in routes then routes[e.last := State(cost, width, u, Tent)]
    else if routes[e.last].mark == Tent && Better(m, cost, width, routes[e.last])
    then routes[e.last := routes[e.last].(cost := cost, costConcave := width, idPrev := u)]
    else routes
  }

  function RelaxedHeap(m: Method, routes: RouteMap, heap: seq<SetElem>, u: NodeId, e: Edge): seq<SetElem>
    requires u in routes
  {
    var cost, width := routes[u].cost + e.cost, Min(e.costConcave, routes[u].costConcave);
    if e.last !in routes then heap + [SetElem(e.last, cost, width)]
    else if routes[e.last].mark == Tent && Better(m, cost, width, routes[e.last])
    then heap + [SetElem(e.last, cost, 0.0)]
    else heap
  }

  /** During the expansion of `u`, the last node expanded and the dearest one so far. */
  ghost predicate Expanding(m: Method, links: LinkArray, routes: RouteMap, rank: Ranks, u: NodeId) {
    && u in rank && u in routes && u in links && rank[u] == |rank| - 1
    && (Sound(m, links) ==> forall x :: x in rank && x in routes ==> routes[x].cost <= routes[u].cost)
  }

  lemma RelaxKeeps(m: Method, links: LinkArray, root: NodeId, routes: RouteMap, heap: seq<SetElem>, rank: Ranks, u: NodeId, i: nat)
    requires Inv(m, links, root, routes, heap, rank, u, i) && Expanding(m, links, routes, rank, u) && i < |links[u]|
    ensures var e := links[u][i];
            var r, h := RelaxedRoutes(m, routes, u, e), RelaxedHeap(m, routes, heap, u, e);
            Inv(m, links, root, r, h, rank, u, i + 1) && Expanding(m, links, r, rank, u)
  {
    var e := links[u][i];
    RelaxUnchanged(m, root, routes, rank, u, e);
    RelaxChains(m, links, root, routes, rank, u, e);
    RelaxQueue(m, links, root, routes, heap, rank, u, e);
    RelaxSettled(m, links, root, routes, rank, u, i);
    if Sound(m, links) {
      assert e.cost >= 0.0;
    }
  }

  /** What relaxing an edge does to labels and heap. */
  lemma RelaxMeans(m: Method, links: LinkArray, root: NodeId, routes: RouteMap, heap: seq<SetElem>, rank: Ranks, u: NodeId, i: nat)
    requires Inv(m, links, root, routes, heap, rank, u, i) && Expanding(m, links, routes, rank, u) && i < |links[u]|
    ensures u in routes
    ensures var e := links[u][i];
            var r, h := RelaxedRoutes(m, routes, u, e), RelaxedHeap(m, routes, heap, u, e);
            && (forall n :: n in routes && (routes[n].mark == Perm || n != e.last) ==> n in r && r[n] == routes[n])
            && e.last in r && u in r && (r[e.last].mark == Tent ==> Relaxed(m, r, u, e))
            && (e.last in routes && r[e.last] != routes[e.last] ==>
                  Better(m, r[e.last].cost, r[e.last].costConcave, routes[e.last]))
            && if r == routes then h == heap
               else h != [] && h[..|h| - 1] == heap && h[|h| - 1].iD == e.last && h[|h| - 1].cost == r[e.last].cost
  {
    assert routes[u].mark == Perm;
  }

  /** Only the label of the edge's end can change, and only if it is tentative. */
  lemma RelaxUnchanged(m: Method, root: NodeId, routes: RouteMap, rank: Ranks, u: NodeId, e: Edge)
    requires u in routes && Labels(root, routes, rank)
    ensures forall n :: n in routes ==> n in RelaxedRoutes(m, routes, u, e)
    ensures forall n :: n in routes && (n in rank || n == root || n != e.last) ==> RelaxedRoutes(m, routes, u, e)[n] == routes[n]
    ensures Labels(root, RelaxedRoutes(m, routes, u, e), rank) || e.last in rank || e.last == root
    ensures RelaxedRoutes(m, routes, u, e).Keys == routes.Keys + {e.last}
  {
  }

  lemma RelaxChains(m: Method, links: LinkArray, root: NodeId, routes: RouteMap, rank: Ranks, u: NodeId, e: Edge)
    requires Chains(links, root, routes, rank) && Labels(root, routes, rank) && u in rank && u in routes && u in links && e in links[u]
    ensures Chains(links, root, RelaxedRoutes(m, routes, u, e), rank)
  {
    var r := RelaxedRoutes(m, routes, u, e);
    RelaxUnchanged(m, root, routes, rank, u, e);
    forall n | n in r && n != root
      ensures Linked(links, r, rank, n)
    {
      if n in routes && r[n] == routes[n] {
        assert Linked(links, routes, rank, n);
        FollowsSame(links, routes, r, n);
      } else {
        assert e in links[u] && n == e.last && r[u] == routes[u];
      }
    }
  }

  lemma RelaxQueue(m: Method, links: LinkArray, root: NodeId, routes: RouteMap, heap: seq<SetElem>, rank: Ranks, u: NodeId, e: Edge)
    requires Queue(m, links, root, routes, heap, rank) && Labels(root, routes, rank) && root in routes && root in rank && u in routes
    ensures Queue(m, links, root, RelaxedRoutes(m, routes, u, e), RelaxedHeap(m, routes, heap, u, e), rank)
  {
    var r, h := RelaxedRoutes(m, routes, u, e), RelaxedHeap(m, routes, heap, u, e);
    forall n | n in r && n !in rank
      ensures Queued(h, n, r[n].cost)
    {
      if n in routes && r[n] == routes[n] {
        var i :| 0 <= i < |heap| && heap[i].iD == n && heap[i].cost == routes[n].cost;
        assert h[i] == heap[i];
      } else {
        assert h[|h| - 1].iD == n && h[|h| - 1].cost == r[n].cost;
      }
    }
    assert forall i :: 0 <= i < |heap| ==> h[i] == heap[i];
  }

  lemma RelaxSettled(m: Method, links: LinkArray, root: NodeId, routes: RouteMap, rank: Ranks, u: NodeId, i: nat)
    requires Settled(m, links, routes, rank, u, i) && Labels(root, routes, rank) && Expanding(m, links, routes, rank, u) && i < |links[u]|
    requires root in rank && forall n :: n in rank ==> n in routes
    ensures Settled(m, links, RelaxedRoutes(m, routes, u, links[u][i]), rank, u, i + 1)
  {
    var e := links[u][i];
    var r := RelaxedRoutes(m, routes, u, e);
    RelaxUnchanged(m, root, routes, rank, u, e);
    forall x, j | x in rank && x in r && x in links && 0 <= j < |links[x]| && (x != u || j < i + 1)
      ensures links[x][j].last in r && (Sound(m, links) ==> Relaxed(m, r, x, links[x][j]))
    {
      if x != u || j < i {
        assert links[x][j].last in routes;
        if Sound(m, links) { RelaxImproves(m, routes, u, e, x, links[x][j]); }
      } else if Sound(m, links) {
        assert e in links[u];
      }
    }
  }

  /** A label that was good enough for an edge still is: labels only get better. */
  lemma RelaxImproves(m: Method, routes: RouteMap, u: NodeId, e: Edge, x: NodeId, f: Edge)
    requires m != ShortestWidest && u in routes && x in routes && Relaxed(m, routes, x, f)
    requires x in RelaxedRoutes(m, routes, u, e) && RelaxedRoutes(m, routes, u, e)[x] == routes[x]
    ensures Relaxed(m, RelaxedRoutes(m, routes, u, e), x, f)
  {
  }

  // ---- what the search has found ------------------------------------------------------------------

  /** Label `s` is at least as good as route `es`. */
  ghost predicate AsGood(m: Method, s: State, es: seq<Edge>) { !Better(m, RouteCost(es), RouteWidth(es), s) }

  /** Nothing the root can reach escapes a search that expanded every node it labelled. */
  lemma {:induction false} ReachesAll(m: Method, links: LinkArray, root: NodeId, routes: RouteMap, rank: Ranks, u: NodeId, i: nat, es: seq<Edge>)
    requires Chains(links, root, routes, rank) && Settled(m, links, routes, rank, u, i) && Whole(links, u, i)
    requires routes.Keys == rank.Keys && IsRoute(links, root, es)
    ensures End(root, es) in routes && (Sound(m, links) ==> AsGood(m, routes[End(root, es)], es))
    decreases |es|
  {
    if es != [] {
      var init, e := es[..|es| - 1], es[|es| - 1];
      var x := End(root, init);
      ReachesAll(m, links, root, routes, rank, u, i, init);
      var j :| 0 <= j < |links[x]| && links[x][j] == e;
      assert links[x][j].last in routes;
      if Sound(m, links) {
        assert Relaxed(m, routes, x, links[x][j]);
        assert e in links[x];
      }
    }
  }

  /** When the search stops at its target, no route to anywhere outside the expanded nodes is
      cheaper than the target's label. */
  lemma {:induction false} TargetCheapest(m: Method, links: LinkArray, root: NodeId, routes: RouteMap, rank: Ranks,
                                          u: NodeId, i: nat, t: NodeId, es: seq<Edge>)
    requires Chains(links, root, routes, rank) && Settled(m, links, routes, rank, u, i) && Whole(links, u, i) && Sound(m, links)
    requires t in routes && t !in rank && forall v :: v in routes && v !in rank ==> routes[t].cost <= routes[v].cost
    requires IsRoute(links, root, es)
    ensures (End(root, es) in routes && AsGood(m, routes[End(root, es)], es))
         || (if m == WidestShortest then routes[t].cost < RouteCost(es) else routes[t].cost <= RouteCost(es))
    decreases |es|
  {
    if es != [] {
      var init, e := es[..|es| - 1], es[|es| - 1];
      var x := End(root, init);
      TargetCheapest(m, links, root, routes, rank, u, i, t, init);
      assert e in links[x];
      if x in rank {
        var j :| 0 <= j < |links[x]| && links[x][j] == e;
        assert Relaxed(m, routes, x, links[x][j]);
      }
    }
  }

  /** The edges behind the chain of predecessors from `n` back to the root. */
  lemma {:induction false} RouteOf(links: LinkArray, root: NodeId, routes: RouteMap, rank: Ranks, n: NodeId) returns (es: seq<Edge>)
    requires Chains(links, root, routes, rank) && n in routes
    ensures IsRoute(links, root, es) && End(root, es) == n
    ensures RouteCost(es) == routes[n].cost && RouteWidth(es) == routes[n].costConcave
    ensures Stations(root, es) == ChainTo(links, root, routes, rank, n)
    decreases if n in rank then rank[n] else |rank|
  {
    if n == root {
      es := [];
    } else {
      var p := routes[n].idPrev;
      assert Linked(links, routes, rank, n);
      var e :| e in links[p] && e.last == n && routes[n].cost == routes[p].cost + e.cost
               && routes[n].costConcave == Min(e.costConcave, routes[p].costConcave);
      es := RouteOf(links, root, routes, rank, p);
      Extend(links, root, es, e);
      assert (es + [e])[..|es|] == es;
      es := es + [e];
    }
  }

  /** The nodes a route passes, from its start on. */
  ghost function Stations(u: NodeId, es: seq<Edge>): seq<NodeId> {
    if es == [] then [u] else Stations(u, es[..|es| - 1]) + [es[|es| - 1].last]
  }

  /** The nodes on the chain of predecessors from the root to `n`. */
  ghost function ChainTo(links: LinkArray, root: NodeId, routes: RouteMap, rank: Ranks, n: NodeId): seq<NodeId>
    requires Chains(links, root, routes, rank) && n in routes
    decreases if n in rank then rank[n] else |rank|
  {
    if n == root then [root]
    else
      assert Linked(links, routes, rank, n);
      ChainTo(links, root, routes, rank, routes[n].idPrev) + [n]
  }

  /** `s` is the label of a best route to `v`: some route has its cost and width, none is better. */
  ghost predicate Optimal(m: Method, links: LinkArray, root: NodeId, v: NodeId, s: State) {
    && (exists es :: IsRoute(links, root, es) && End(root, es) == v && RouteCost(es) == s.cost && RouteWidth(es) == s.costConcave)
    && forall es :: IsRoute(links, root, es) && End(root, es) == v ==> AsGood(m, s, es)
  }

  lemma Labelled(links: LinkArray, root: NodeId, routes: RouteMap, rank: Ranks, v: NodeId)
    requires Chains(links, root, routes, rank) && v in routes
    ensures Reachable(links, root, v)
    ensures exists es :: && IsRoute(links, root, es) && End(root, es) == v
                         && RouteCost(es) == routes[v].cost && RouteWidth(es) == routes[v].costConcave
  {
    var es := RouteOf(links, root, routes, rank, v);
  }

  /** Exactly what can be reached is labelled, all of it nodes with known edges, and each label is optimal. */
  ghost predicate Complete(m: Method, links: LinkArray, root: NodeId, routes: RouteMap) {
    && routes.Keys <= links.Keys && (forall v :: v in routes <==> Reachable(links, root, v))
    && (Sound(m, links) ==> forall v :: v in routes ==> Optimal(m, links, root, v, routes[v]))
  }

  /** The heap is empty: the search is complete. */
  lemma Exhausted(m: Method, links: LinkArray, root: NodeId, routes: RouteMap, rank: Ranks, u: NodeId, i: nat)
    requires Inv(m, links, root, routes, [], rank, u, i) && Whole(links, u, i)
    ensures routes.Keys == rank.Keys && Complete(m, links, root, routes)
  {
    assert forall n, c :: !Queued([], n, c);
    forall v
      ensures v in routes <==> Reachable(links, root, v)
    {
      if v in routes { Labelled(links, root, routes, rank, v); }
      if Reachable(links, root, v) {
        var es :| IsRoute(links, root, es) && End(root, es) == v;
        ReachesAll(m, links, root, routes, rank, u, i, es);
      }
    }
    if Sound(m, links) {
      forall v | v in routes
        ensures Optimal(m, links, root, v, routes[v])
      {
        Labelled(links, root, routes, rank, v);
        forall es | IsRoute(links, root, es) && End(root, es) == v
          ensures AsGood(m, routes[v], es)
        {
          ReachesAll(m, links, root, routes, rank, u, i, es);
        }
      }
    }
  }

  /** The cheapest entry is the target's: its label is final and optimal. */
  lemma TargetReached(m: Method, links: LinkArray, root: NodeId, routes: RouteMap, heap: seq<SetElem>, rank: Ranks,
                      u: NodeId, i: nat, k: nat, t: NodeId)
    requires Inv(m, links, root, routes, heap, rank, u, i) && Whole(links, u, i) && k < |heap| && t == heap[k].iD
    requires t in routes && t !in rank
    requires Sound(m, links) ==> forall j :: 0 <= j < |heap| ==> heap[k].cost <= heap[j].cost
    ensures Chains(links, root, MadePerm(routes, t), rank) && Reachable(links, root, t)
    ensures Sound(m, links) ==> Optimal(m, links, root, t, MadePerm(routes, t)[t])
  {
    Labelled(links, root, routes, rank, t);
    PermChains(links, root, routes, rank, t);
    if Sound(m, links) {
      CheapestFirst(m, links, root, routes, heap, rank, k, t);
      forall es | IsRoute(links, root, es) && End(root, es) == t
        ensures AsGood(m, routes[t], es)
      {
        TargetCheapest(m, links, root, routes, rank, u, i, t, es);
      }
    }
  }

  lemma PermChains(links: LinkArray, root: NodeId, routes: RouteMap, rank: Ranks, t: NodeId)
    requires Chains(links, root, routes, rank) && t in routes
    ensures Chains(links, root, MadePerm(routes, t), rank)
  {
    var r := MadePerm(routes, t);
    forall n | n in r && n != root
      ensures Linked(links, r, rank, n)
    {
      assert Linked(links, routes, rank, n);
      FollowsSame(links, routes, r, n);
    }
  }
}
