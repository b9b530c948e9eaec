/** The K-routes search: labels are taken off the heap in any order, their routes recorded, and
    their edges followed. */
module DijkstraKShortestClass {
  import opened Ids = ShortestPaths
  import opened KShortestPaths
  import opened KShortestResults
  import opened Sequences

  datatype KOutcome = KReturned | KNodeNotFound | KLinkNotFound(node: NodeId)

  class DijkstraKshortest {
    var linkArray: KLinkArray
    var routeMap: KRouteMap
    var kRoutesMap: KRoutes
    var rootNode: NodeId
    var kLimite: nat
    var limitsData: CostVector
    var minimumCost: CostVector
    var maximumCost: CostVector

    /** At least one route is asked for, and all cost vectors have the same components. */
    ghost predicate Ready()
      reads this
    {
      && kLimite >= 1 && Uniform(linkArray, |minimumCost|) && |maximumCost| == |minimumCost|
      && (limitsData == [] || |limitsData| == |minimumCost|)
    }

    /** The invariant; of `last`'s edges only the first `i` have been followed. */
    ghost predicate Searching(heap: seq<KElem>, rank: LabRanks, last: Lab, i: nat)
      reads this
    {
      KSearch(linkArray, rootNode, kLimite, limitsData, minimumCost, routeMap, kRoutesMap, heap, rank, last, i)
    }

    /** Searches from the root until nothing is left to expand. */
    method Run() returns (outcome: KOutcome, ghost rank: LabRanks, ghost last: Lab, ghost n: nat)
      requires Ready()
      modifies `routeMap, `kRoutesMap
      ensures outcome == KNodeNotFound <==> rootNode !in linkArray
      ensures outcome.KLinkNotFound? ==> outcome.node !in linkArray
      ensures outcome == KReturned ==> Searching([], rank, last, n) && (last.n in linkArray ==> |linkArray[last.n]| <= n)
      ensures outcome == KReturned && limitsData == [] ==>
                Finished(linkArray, rootNode, kLimite, minimumCost, routeMap, kRoutesMap, rank, last, n)
    {
      routeMap, kRoutesMap, rank := map[], map[], map[];
      last, n := Lab(rootNode, 0), 0;
      if rootNode !in linkArray {
        return KNodeNotFound, rank, last, n;
      }
      var labels := RootLabels();
      routeMap := map[rootNode := labels];
      SearchStarts(linkArray, rootNode, kLimite, limitsData, minimumCost, labels, |linkArray[rootNode]|);
      outcome, rank, last, n := Search([KElem(rootNode, 0, minimumCost)], rank, last, |linkArray[rootNode]|);
    }

    /** K permanent labels of the smallest cost. */
    method RootLabels() returns (labels: seq<KState>)
      ensures |labels| == kLimite && forall j :: 0 <= j < kLimite ==> labels[j] == KState(minimumCost, UndefinedAddr, 0, Perm)
    {
      labels := [];
      var i := 0;
      while i < kLimite
        invariant 0 <= i <= kLimite && |labels| == i
        invariant forall j :: 0 <= j < i ==> labels[j] == KState(minimumCost, UndefinedAddr, 0, Perm)
      {
        labels := labels + [KState(minimumCost, UndefinedAddr, 0, Perm)];
        i := i + 1;
      }
    }

    /** Takes entries off the heap until it is empty. */
    method Search(heap0: seq<KElem>, ghost rank0: LabRanks, ghost last0: Lab, ghost n0: nat)
      returns (outcome: KOutcome, ghost rank: LabRanks, ghost last: Lab, ghost n: nat)
      requires Ready() && Searching(heap0, rank0, last0, n0) && (last0.n in linkArray ==> |linkArray[last0.n]| <= n0)
      requires rank0 == map[]
      modifies `routeMap, `kRoutesMap
      ensures outcome != KNodeNotFound && (outcome.KLinkNotFound? ==> outcome.node !in linkArray)
      ensures outcome == KReturned ==> Searching([], rank, last, n) && (last.n in linkArray ==> |linkArray[last.n]| <= n)
    {
      hide KSearch, Stale, AllLabs;
      var heap := heap0;
      rank, last, n := rank0, last0, n0;
      ghost var all := AllLabs(linkArray.Keys, kLimite);
      while heap != []
        invariant Searching(heap, rank, last, n) && rank.Keys <= all && (last.n in linkArray ==> |linkArray[last.n]| <= n)
        decreases all - rank.Keys, |heap|
      {
        // any entry may come first: the comparison of cost vectors orders them only loosely
        var k: nat :| k < |heap|;
        ghost var l := Lab(heap[k].iD, heap[k].idx);
        EntryIsLab(linkArray, rootNode, kLimite, limitsData, minimumCost, routeMap, kRoutesMap, heap, rank, last, n, k);
        ghost var before := rank;
        outcome, heap, rank := Handle(k, heap, rank, last, n);
        if outcome.KLinkNotFound? {
          return;
        }
        if rank != before {
          last, n := l, |linkArray[l.n]|;
        }
      }
      outcome := KReturned;
    }

    /** An entry whose label is permanent, or whose route has been recorded for another label. */
    ghost predicate Stale(elem: KElem, routes: KRouteMap, kroutes: KRoutes, rank: LabRanks)
      reads `linkArray, `rootNode
    {
      var l := Lab(elem.iD, elem.idx);
      && KChains(linkArray, rootNode, routes, rank) && HasLab(routes, l) && l.n != rootNode
      && (StateOf(routes, l).mark == Perm || (l.n in kroutes && RouteTo(linkArray, rootNode, routes, rank, l) in kroutes[l.n]))
    }

    /** One entry taken off the heap: dropped if it is stale, otherwise expanded. */
    method Handle(k: nat, heap0: seq<KElem>, ghost rank0: LabRanks, ghost last: Lab, ghost n: nat)
      returns (result: KOutcome, heap: seq<KElem>, ghost rank: LabRanks)
      requires Ready() && Searching(heap0, rank0, last, n) && k < |heap0| && (last.n in linkArray ==> |linkArray[last.n]| <= n)
      modifies `routeMap, `kRoutesMap
      ensures result != KNodeNotFound && (result.KLinkNotFound? ==> result.node !in linkArray)
      ensures result == KReturned ==> (rank == rank0 <==> Stale(heap0[k], old(routeMap), old(kRoutesMap), rank0))
      ensures result == KReturned && rank == rank0 ==>
                heap == Erased(heap0, k) && routeMap == old(routeMap) && kRoutesMap == old(kRoutesMap) && Searching(heap, rank, last, n)
      ensures result == KReturned && rank != rank0 ==>
                var l := Lab(heap0[k].iD, heap0[k].idx);
                && l.n in linkArray && l !in rank0 && rank.Keys == rank0.Keys + {l}
                && Searching(heap, rank, l, |linkArray[l.n]|)
    {
      var elem := heap0[k];
      var l := Lab(elem.iD, elem.idx);
      result, heap, rank := KReturned, Erased(heap0, k), rank0;
      assert HasLab(routeMap, l) && (l in rank0 <==> (StateOf(routeMap, l).mark == Perm && l.n != rootNode));
      if elem.iD != rootNode && routeMap[elem.iD][elem.idx].mark == Perm {
        SearchDrops(linkArray, rootNode, kLimite, limitsData, minimumCost, routeMap, kRoutesMap, heap0, rank0, last, n, k);
        return;
      }
      var path := FollowBack(l, rank0);
      if path != [] && elem.iD in kRoutesMap && path in kRoutesMap[elem.iD] {
        RouteLabelled(linkArray, rootNode, routeMap, rank0, l);
        SearchDrops(linkArray, rootNode, kLimite, limitsData, minimumCost, routeMap, kRoutesMap, heap0, rank0, last, n, k);
        return;
      }
      result, heap, rank := Expand(k, l, path, heap0, rank0, last, n);
    }

    /** Records a new route, makes its label permanent and follows the edges of its node. */
    method Expand(k: nat, l: Lab, path: Route, heap0: seq<KElem>, ghost rank0: LabRanks, ghost last: Lab, ghost n: nat)
      returns (result: KOutcome, heap: seq<KElem>, ghost rank: LabRanks)
      requires Ready() && Searching(heap0, rank0, last, n) && k < |heap0| && (last.n in linkArray ==> |linkArray[last.n]| <= n)
      requires l == Lab(heap0[k].iD, heap0[k].idx) && HasLab(routeMap, l) && l !in rank0
      requires path == RouteTo(linkArray, rootNode, routeMap, rank0, l)
      requires l.n in kRoutesMap ==> path !in kRoutesMap[l.n]
      modifies `routeMap, `kRoutesMap
      ensures result != KNodeNotFound && (result.KLinkNotFound? ==> result.node !in linkArray)
      ensures result == KReturned ==>
                && l.n in linkArray && rank.Keys == rank0.Keys + {l}
                && Searching(heap, rank, l, |linkArray[l.n]|)
    {
      result, heap, rank := KReturned, Erased(heap0, k), rank0;
      ghost var routes0, kroutes0 := routeMap, kRoutesMap;
      Record(l, path, rank0);
      routeMap := MadePermAt(routeMap, l);
      if l.n !in linkArray {
        return KLinkNotFound(l.n), heap, rank;
      }
      SearchExpands(linkArray, rootNode, kLimite, limitsData, minimumCost, routes0, kroutes0, heap0, rank0, last, n, k, l);
      LabRankGrows(rank0, l);
      rank := rank0[l := |rank0|];
      heap := FollowEdges(l, path, heap, rank);
    }

    /** The route of a label, by its chain of predecessors. */
    method FollowBack(l: Lab, ghost rank: LabRanks) returns (path: Route)
      requires KChains(linkArray, rootNode, routeMap, rank) && HasLab(routeMap, l)
      ensures path == RouteTo(linkArray, rootNode, routeMap, rank, l)
    {
      var pathActive: Route := [];
      var current := l;
      ghost var route := RouteTo(linkArray, rootNode, routeMap, rank, l);
      while current.n != rootNode
        invariant HasLab(routeMap, current)
        invariant route == RouteTo(linkArray, rootNode, routeMap, rank, current) + Reversed(pathActive)
        decreases if current.n == rootNode then 0 else 1, if current in rank then rank[current] else |rank|
      {
        assert KLinked(linkArray, rootNode, routeMap, rank, current);
        ReversedSnoc(pathActive, current.n);
        pathActive := pathActive + [current.n];
        current := Lab(routeMap[current.n][current.i].idPrev, routeMap[current.n][current.i].idPrevIdx);
      }
      path := [];
      while pathActive != []
        invariant path + Reversed(pathActive) == route
        decreases |pathActive|
      {
        ReversedLast(pathActive);
        path := path + [pathActive[|pathActive| - 1]];
        pathActive := pathActive[..|pathActive| - 1];
      }
    }

    /** Adds a new route to those recorded for the node of `l`, of which there are fewer than K. */
    method Record(l: Lab, path: Route, ghost rank: LabRanks)
      requires KChains(linkArray, rootNode, routeMap, rank) && HasLab(routeMap, l) && l !in rank
      requires Recorded(linkArray, rootNode, routeMap, kRoutesMap, rank) && KMarks(rootNode, kLimite, routeMap, rank)
      requires path == RouteTo(linkArray, rootNode, routeMap, rank, l)
      modifies `kRoutesMap
      ensures kRoutesMap == RecordsAfter(linkArray, rootNode, routeMap, old(kRoutesMap), rank, l)
    {
      RouteLabelled(linkArray, rootNode, routeMap, rank, l);
      if path != [] {
        RoomLeft(linkArray, rootNode, routeMap, rank, l);
        if l.n !in kRoutesMap {
          assert [] + [path] == [path];
          kRoutesMap := kRoutesMap[l.n := [path]];
        } else if |kRoutesMap[l.n]| < kLimite {
          kRoutesMap := kRoutesMap[l.n := kRoutesMap[l.n] + [path]];
        }
      }
    }

    /** Follows the edges of the label just expanded. */
    method FollowEdges(l: Lab, path: Route, heap0: seq<KElem>, ghost rank: LabRanks) returns (heap: seq<KElem>)
      requires Ready() && Searching(heap0, rank, l, 0) && l in rank && HasLab(routeMap, l) && l.n in linkArray
      requires path == RouteTo(linkArray, rootNode, routeMap, rank, l)
      modifies `routeMap
      ensures Searching(heap, rank, l, |linkArray[l.n]|)
    {
      heap := heap0;
      var i := 0;
      while i < |linkArray[l.n]|
        invariant 0 <= i <= |linkArray[l.n]|
        invariant Searching(heap, rank, l, i) && HasLab(routeMap, l)
        invariant path == RouteTo(linkArray, rootNode, routeMap, rank, l)
      {
        heap := FollowEdge(l, i, path, heap, rank);
        i := i + 1;
      }
    }

    method FollowEdge(l: Lab, i: nat, path: Route, heap0: seq<KElem>, ghost rank: LabRanks) returns (heap: seq<KElem>)
      requires Ready() && Searching(heap0, rank, l, i) && l in rank && HasLab(routeMap, l)
      requires l.n in linkArray && i < |linkArray[l.n]|
      requires path == RouteTo(linkArray, rootNode, routeMap, rank, l)
      modifies `routeMap
      ensures Searching(heap, rank, l, i + 1) && HasLab(routeMap, l)
      ensures path == RouteTo(linkArray, rootNode, routeMap, rank, l)
    {
      heap := heap0;
      var e := linkArray[l.n][i];
      EdgeCost(linkArray, rootNode, kLimite, limitsData, minimumCost, routeMap, kRoutesMap, heap0, rank, l, i);
      if e.last in path {
        RouteLabelled(linkArray, rootNode, routeMap, rank, l);
        EdgePasses(linkArray, rootNode, kLimite, limitsData, minimumCost, routeMap, kRoutesMap, heap0, rank, l, i);
        return;
      }
      var cost := AddCost(e.cost, routeMap[l.n][l.i].cost);
      if limitsData != [] && CostLess(limitsData, cost) {
        EdgePasses(linkArray, rootNode, kLimite, limitsData, minimumCost, routeMap, kRoutesMap, heap0, rank, l, i);
        return;
      }
      if e.last !in routeMap || |routeMap[e.last]| < kLimite {
        var m := Lab(e.last, if e.last in routeMap then |routeMap[e.last]| else 0);
        heap := GiveLabel(l, i, path, m, cost, heap0, heap0, rank);
      } else {
        heap := ReplaceLabel(l, i, path, cost, heap0, rank);
      }
    }

    /** Gives the end of edge `i` of `l`, which has all its labels, a better one if it can. */
    method ReplaceLabel(l: Lab, i: nat, path: Route, cost: CostVector, heap0: seq<KElem>, ghost rank: LabRanks)
      returns (heap: seq<KElem>)
      requires Ready() && Searching(heap0, rank, l, i) && l in rank && HasLab(routeMap, l)
      requires l.n in linkArray && i < |linkArray[l.n]|
      requires path == RouteTo(linkArray, rootNode, routeMap, rank, l)
      requires var e := linkArray[l.n][i]; e.last !in path && e.last in routeMap && kLimite <= |routeMap[e.last]|
      requires |linkArray[l.n][i].cost| == |minimumCost| && |StateOf(routeMap, l).cost| == |minimumCost|
      requires cost == AddCost(linkArray[l.n][i].cost, StateOf(routeMap, l).cost)
      modifies `routeMap
      ensures Searching(heap, rank, l, i + 1) && HasLab(routeMap, l)
      ensures path == RouteTo(linkArray, rootNode, routeMap, rank, l)
    {
      heap := heap0;
      var n := linkArray[l.n][i].last;
      assert |routeMap[n]| == kLimite;
      NodeCosts(rootNode, minimumCost, routeMap, n);
      var permanent, worst, maxCost := WorstTentative(n);
      if CostLess(cost, maxCost) && !permanent {
        var h := EraseWorse(heap0, Lab(n, worst), cost);
        heap := GiveLabel(l, i, path, Lab(n, worst), cost, heap0, h, rank);
      } else {
        EdgePasses(linkArray, rootNode, kLimite, limitsData, minimumCost, routeMap, kRoutesMap, heap0, rank, l, i);
      }
    }

    /** Gives the end of edge `i` of `l` the label `m`, new or in place of a tentative one. */
    method GiveLabel(l: Lab, i: nat, path: Route, m: Lab, cost: CostVector, ghost heap0: seq<KElem>, h: seq<KElem>,
                     ghost rank: LabRanks)
      returns (heap: seq<KElem>)
      requires Searching(heap0, rank, l, i) && l in rank && HasLab(routeMap, l) && l.n in linkArray && i < |linkArray[l.n]|
      requires path == RouteTo(linkArray, rootNode, routeMap, rank, l)
      requires m.n == linkArray[l.n][i].last && m.n !in path && Free(routeMap, kLimite, m)
      requires |linkArray[l.n][i].cost| <= |StateOf(routeMap, l).cost|
      requires cost == AddCost(linkArray[l.n][i].cost, StateOf(routeMap, l).cost)
      requires (forall x :: x in h ==> x in heap0) && forall x :: Waiting(heap0, x) && x != m ==> Waiting(h, x)
      modifies `routeMap
      ensures routeMap == KShortestPaths.Labelled(old(routeMap), m, KState(cost, l.n, l.i, Tent))
      ensures Searching(heap, rank, l, i + 1) && HasLab(routeMap, l)
      ensures path == RouteTo(linkArray, rootNode, routeMap, rank, l)
    {
      hide KSearch, RouteTo, Offered;
      var s := KState(cost, l.n, l.i, Tent);
      var entry := KElem(m.n, m.i, cost);
      SearchLabels(linkArray, rootNode, kLimite, limitsData, minimumCost, routeMap, kRoutesMap, heap0, h, rank, l, i, m, s, entry);
      routeMap := KShortestPaths.Labelled(routeMap, m, s);
      heap := h + [entry];
    }

    /** The tentative label met last that costs more than those chosen before it, the first of which
        had to cost more than the maximum. */
    method WorstTentative(n: NodeId) returns (permanent: bool, worst: nat, maxCost: CostVector)
      requires n in routeMap && |maximumCost| == |minimumCost|
      requires forall j :: 0 <= j < |routeMap[n]| ==> |routeMap[n][j].cost| == |minimumCost|
      ensures permanent <==> forall j :: 0 <= j < |routeMap[n]| && routeMap[n][j].mark == Tent ==> !CostLess(maximumCost, routeMap[n][j].cost)
      ensures !permanent ==>
                && worst < |routeMap[n]| && routeMap[n][worst].mark == Tent && maxCost == routeMap[n][worst].cost
                && forall j :: worst < j < |routeMap[n]| && routeMap[n][j].mark == Tent ==> !CostLess(maxCost, routeMap[n][j].cost)
      ensures |maxCost| == |minimumCost|
    {
      permanent, worst, maxCost := true, 0, maximumCost;
      var labels := routeMap[n];
      var i := 0;
      while i < |labels|
        invariant 0 <= i <= |labels| && |maxCost| == |minimumCost|
        invariant permanent ==> maxCost == maximumCost
        invariant permanent <==> forall j :: 0 <= j < i && labels[j].mark == Tent ==> !CostLess(maximumCost, labels[j].cost)
        invariant !permanent ==>
                    && worst < i && labels[worst].mark == Tent && maxCost == labels[worst].cost
                    && forall j :: worst < j < i && labels[j].mark == Tent ==> !CostLess(maxCost, labels[j].cost)
      {
        if CostLess(maxCost, labels[i].cost) && labels[i].mark == Tent {
          permanent, worst, maxCost := false, i, labels[i].cost;
        }
        i := i + 1;
      }
    }

    /** Erases one entry of label `m` that costs more than `cost`, if there is any. */
    method EraseWorse(heap: seq<KElem>, m: Lab, cost: CostVector) returns (h: seq<KElem>)
      requires forall i :: 0 <= i < |heap| ==> |heap[i].cost| == |cost|
      ensures (forall x :: x in h ==> x in heap) && forall x :: Waiting(heap, x) && x != m ==> Waiting(h, x)
      ensures h == heap ||
              exists k: nat :: && k < |heap| && heap[k].iD == m.n && heap[k].idx == m.i && CostLess(cost, heap[k].cost)
                               && h == Erased(heap, k)
      ensures h == heap ==> forall k :: 0 <= k < |heap| && heap[k].iD == m.n && heap[k].idx == m.i ==> !CostLess(cost, heap[k].cost)
    {
      h := heap;
      var k := 0;
      while k < |heap|
        invariant 0 <= k <= |heap| && h == heap
        invariant forall j :: 0 <= j < k && heap[j].iD == m.n && heap[j].idx == m.i ==> !CostLess(cost, heap[j].cost)
      {
        if heap[k].iD == m.n && heap[k].idx == m.i && CostLess(cost, heap[k].cost) {
          StillWaiting(heap, k);
          h := Erased(heap, k);
          return;
        }
        k := k + 1;
      }
    }

    /** The `k`-th route to `n`, counted from zero. */
    method GetRoute(n: NodeId, k: nat, ghost rank: LabRanks) returns (found: bool, pathNode: Route)
      requires KChains(linkArray, rootNode, routeMap, rank)
      ensures found <==> HasLab(routeMap, Lab(n, k))
      ensures found ==> pathNode == RouteTo(linkArray, rootNode, routeMap, rank, Lab(n, k))
    {
      if n !in routeMap {
        return false, [];
      }
      if k >= |routeMap[n]| {
        return false, [];
      }
      pathNode := FollowBack(Lab(n, k), rank);
      found := true;
    }
  }
}
