/** The labels of the K-routes search: up to K labels per node, each extending a label that was
    made permanent before it. Nothing here depends on the order in which labels are extracted. */
module KShortestPaths {
  import opened Sequences
  import opened Ids = ShortestPaths

  datatype Metric = AditiveMin | ConcaveMin | AditiveMax | ConcaveMax

  datatype Cost = Cost(value: Number, metric: Metric)

  type CostVector = seq<Cost>

  datatype KEdge = KEdge(last: NodeId, cost: CostVector)

  type KLinkArray = map<NodeId, seq<KEdge>>

  datatype KState = KState(cost: CostVector, idPrev: NodeId, idPrevIdx: nat, mark: Label)

  type KRouteMap = map<NodeId, seq<KState>>

  type Route = seq<NodeId>

  type KRoutes = map<NodeId, seq<Route>>

  datatype KElem = KElem(iD: NodeId, idx: nat, cost: CostVector)

  /** One label of a node. */
  datatype Lab = Lab(n: NodeId, i: nat)

  /** The labels expanded so far, numbered in the order of their expansion. */
  type LabRanks = map<Lab, nat>

  function Combine(a: Cost, b: Cost): Cost {
    match a.metric
    case AditiveMin => a.(value := a.value + b.value)
    case AditiveMax => a.(value := a.value + b.value)
    case ConcaveMin => a.(value := if b.value < a.value then b.value else a.value)
    case ConcaveMax => a.(value := if a.value < b.value then b.value else a.value)
  }

  /** Component by component, as each component's metric says. */
  function AddCost(a: CostVector, b: CostVector): (c: CostVector)
    requires |a| <= |b|
    ensures |c| == |a|
  {
    seq(|a|, i requires 0 <= i < |a| => Combine(a[i], b[i]))
  }

  predicate ValueLess(a: Cost, b: Cost) {
    match a.metric
    case AditiveMin => a.value < b.value
    case ConcaveMin => a.value < b.value
    case AditiveMax => a.value > b.value
    case ConcaveMax => a.value > b.value
  }

  /** The comparison: better in some component, whatever the others. */
  predicate CostLess(x: CostVector, y: CostVector)
    requires |x| <= |y|
  {
    exists i :: 0 <= i < |x| && ValueLess(x[i], y[i])
  }

  /** All cost vectors have `d` components. */
  ghost predicate Uniform(links: KLinkArray, d: nat) {
    forall u, e :: u in links && e in links[u] ==> |e.cost| == d
  }

  // ---- labels --------------------------------------------------------------------------------------

  predicate HasLab(routes: KRouteMap, l: Lab) { l.n in routes && l.i < |routes[l.n]| }

  function StateOf(routes: KRouteMap, l: Lab): KState
    requires HasLab(routes, l)
  {
    routes[l.n][l.i]
  }

  function Prev(routes: KRouteMap, l: Lab): Lab
    requires HasLab(routes, l)
  {
    Lab(StateOf(routes, l).idPrev, StateOf(routes, l).idPrevIdx)
  }

  /** `l` extends its predecessor by a real edge, and costs what that edge adds. */
  ghost predicate ByEdge(links: KLinkArray, routes: KRouteMap, l: Lab)
    requires HasLab(routes, l)
  {
    var p := Prev(routes, l);
    && HasLab(routes, p) && p.n in links
    && exists e :: && e in links[p.n] && e.last == l.n && |e.cost| <= |StateOf(routes, p).cost|
                   && StateOf(routes, l).cost == AddCost(e.cost, StateOf(routes, p).cost)
  }

  ghost predicate KLinked(links: KLinkArray, root: NodeId, routes: KRouteMap, rank: LabRanks, l: Lab)
    requires HasLab(routes, l)
  {
    && l.n != root && ByEdge(links, routes, l) && Prev(routes, l) in rank
    && (l in rank ==> rank[Prev(routes, l)] < rank[l])
  }

  /** Expanded labels exist, at nodes with known edges; of the root only the first is expanded. */
  ghost predicate KRanked(links: KLinkArray, root: NodeId, routes: KRouteMap, rank: LabRanks) {
    forall l :: l in rank ==> HasLab(routes, l) && l.n in links && rank[l] < |rank| && (l.n == root ==> l.i == 0)
  }

  /** Every label of every node but the root extends a label expanded before it. */
  ghost predicate KChains(links: KLinkArray, root: NodeId, routes: KRouteMap, rank: LabRanks) {
    && KRanked(links, root, routes, rank)
    && forall l {:trigger KLinked(links, root, routes, rank, l)} ::
         HasLab(routes, l) && l.n != root ==> KLinked(links, root, routes, rank, l)
  }

  /** The nodes on the way from the root, which is left out, to label `l`. */
  ghost function RouteTo(links: KLinkArray, root: NodeId, routes: KRouteMap, rank: LabRanks, l: Lab): Route
    requires KChains(links, root, routes, rank) && HasLab(routes, l)
    decreases if l in rank then rank[l] else |rank|
  {
    if l.n == root then []
    else
      assert KLinked(links, root, routes, rank, l);
      RouteTo(links, root, routes, rank, Prev(routes, l)) + [l.n]
  }

  /** No label's route passes a node twice or comes back to the root. */
  ghost predicate KSimple(links: KLinkArray, root: NodeId, routes: KRouteMap, rank: LabRanks)
    requires KChains(links, root, routes, rank)
  {
    forall l {:trigger RouteTo(links, root, routes, rank, l)} :: HasLab(routes, l) ==>
      Distinct(RouteTo(links, root, routes, rank, l)) && root !in RouteTo(links, root, routes, rank, l)
  }

  // ---- changes that leave expanded labels alone ------------------------------------------------

  /** `r` has all of `routes`' expanded labels, unchanged. */
  ghost predicate Keeps(routes: KRouteMap, r: KRouteMap, rank: LabRanks) {
    forall l :: l in rank && HasLab(routes, l) ==> HasLab(r, l) && StateOf(r, l) == StateOf(routes, l)
  }

  lemma ByEdgeSame(links: KLinkArray, routes: KRouteMap, r: KRouteMap, l: Lab)
    requires HasLab(routes, l) && ByEdge(links, routes, l) && HasLab(r, l) && StateOf(r, l) == StateOf(routes, l)
    requires var p := Prev(routes, l); HasLab(r, p) && StateOf(r, p).cost == StateOf(routes, p).cost
    ensures ByEdge(links, r, l)
  {
    var p := Prev(routes, l);
    var e :| e in links[p.n] && e.last == l.n && |e.cost| <= |StateOf(routes, p).cost|
             && StateOf(routes, l).cost == AddCost(e.cost, StateOf(routes, p).cost);
    assert e in links[p.n];
  }

  /** Routes of expanded labels do not change with them. */
  lemma {:induction false} RouteKept(links: KLinkArray, root: NodeId, routes: KRouteMap, r: KRouteMap, rank: LabRanks, l: Lab)
    requires KChains(links, root, routes, rank) && KChains(links, root, r, rank) && Keeps(routes, r, rank)
    requires HasLab(routes, l) && HasLab(r, l) && StateOf(r, l) == StateOf(routes, l)
    ensures RouteTo(links, root, r, rank, l) == RouteTo(links, root, routes, rank, l)
    decreases if l in rank then rank[l] else |rank|
  {
    if l.n != root {
      assert KLinked(links, root, routes, rank, l);
      RouteKept(links, root, routes, r, rank, Prev(routes, l));
    }
  }

  // ---- making a label permanent -------------------------------------------------------------------

  function MadePermAt(routes: KRouteMap, l: Lab): KRouteMap
    requires HasLab(routes, l)
  {
    routes[l.n := routes[l.n][l.i := StateOf(routes, l).(mark := Perm)]]
  }

  lemma LabRankGrows(rank: LabRanks, l: Lab)
    requires l !in rank
    ensures |rank[l := |rank|]| == |rank| + 1 && rank[l := |rank|].Keys == rank.Keys + {l}
  {
    assert rank[l := |rank|].Keys == rank.Keys + {l} && |rank.Keys + {l}| == |rank.Keys| + 1;
  }

  /** Only the mark of `l` changes. */
  lemma MadePermStates(routes: KRouteMap, l: Lab)
    requires HasLab(routes, l)
    ensures var r := MadePermAt(routes, l);
            && (forall k :: HasLab(r, k) <==> HasLab(routes, k))
            && (forall k :: HasLab(routes, k) && k != l ==> StateOf(r, k) == StateOf(routes, k))
            && StateOf(r, l) == StateOf(routes, l).(mark := Perm)
  {
    assert forall k: Lab :: k != l ==> k.n != l.n || k.i != l.i;
  }

  lemma ExpandChains(links: KLinkArray, root: NodeId, routes: KRouteMap, rank: LabRanks, l: Lab)
    requires KChains(links, root, routes, rank) && HasLab(routes, l) && l !in rank && l.n in links && (l.n == root ==> l.i == 0)
    ensures KChains(links, root, MadePermAt(routes, l), rank[l := |rank|])
  {
    hide KLinked, MadePermAt, KRanked;
    var r, q := MadePermAt(routes, l), rank[l := |rank|];
    MadePermStates(routes, l);
    RankedGrows(links, root, routes, rank, l);
    forall k | HasLab(r, k) && k.n != root
      ensures KLinked(links, root, r, q, k)
    {
      RankBelow(links, root, routes, rank, l, k);
      LinkKept(links, root, routes, r, rank, l, k);
    }
  }

  lemma RankBelow(links: KLinkArray, root: NodeId, routes: KRouteMap, rank: LabRanks, l: Lab, k: Lab)
    requires KChains(links, root, routes, rank) && HasLab(routes, k) && k.n != root
    ensures KLinked(links, root, routes, rank, k) && rank[Prev(routes, k)] < |rank|
  {
    assert KLinked(links, root, routes, rank, k);
  }

  lemma LinkKept(links: KLinkArray, root: NodeId, routes: KRouteMap, r: KRouteMap, rank: LabRanks, l: Lab, k: Lab)
    requires HasLab(routes, k) && KLinked(links, root, routes, rank, k) && rank[Prev(routes, k)] < |rank| && l !in rank && HasLab(r, k)
    requires forall k :: HasLab(routes, k) ==> HasLab(r, k)
    requires forall k :: HasLab(routes, k) ==> StateOf(r, k).(mark := Tent) == StateOf(routes, k).(mark := Tent)
    ensures KLinked(links, root, r, rank[l := |rank|], k)
  {
    MarkEdge(links, routes, r, k);
    assert Prev(r, k) == Prev(routes, k) && Prev(r, k) != l;
  }

  lemma RankedGrows(links: KLinkArray, root: NodeId, routes: KRouteMap, rank: LabRanks, l: Lab)
    requires KRanked(links, root, routes, rank) && HasLab(routes, l) && l !in rank && l.n in links && (l.n == root ==> l.i == 0)
    ensures KRanked(links, root, MadePermAt(routes, l), rank[l := |rank|])
  {
    LabRankGrows(rank, l);
    MadePermStates(routes, l);
  }

  lemma MarkEdge(links: KLinkArray, routes: KRouteMap, r: KRouteMap, l: Lab)
    requires HasLab(routes, l) && ByEdge(links, routes, l)
    requires forall k :: HasLab(routes, k) ==> HasLab(r, k)
    requires forall k :: HasLab(routes, k) ==> StateOf(r, k).(mark := Tent) == StateOf(routes, k).(mark := Tent)
    ensures ByEdge(links, r, l)
  {
    var p := Prev(routes, l);
    var e :| e in links[p.n] && e.last == l.n && |e.cost| <= |StateOf(routes, p).cost|
             && StateOf(routes, l).cost == AddCost(e.cost, StateOf(routes, p).cost);
    assert e in links[p.n] && Prev(r, l) == p && HasLab(r, p) && StateOf(r, p).cost == StateOf(routes, p).cost;
  }

  /** Making `l` permanent leaves every route as it is. */
  lemma {:induction false} ExpandRoutes(links: KLinkArray, root: NodeId, routes: KRouteMap, rank: LabRanks, l: Lab, k: Lab)
    requires KChains(links, root, routes, rank) && HasLab(routes, l) && l !in rank && l.n in links && (l.n == root ==> l.i == 0)
    requires KChains(links, root, MadePermAt(routes, l), rank[l := |rank|]) && HasLab(routes, k)
    ensures HasLab(MadePermAt(routes, l), k)
    ensures RouteTo(links, root, MadePermAt(routes, l), rank[l := |rank|], k) == RouteTo(links, root, routes, rank, k)
    decreases if k in rank then rank[k] else |rank|
  {
    var r := MadePermAt(routes, l);
    MadePermStates(routes, l);
    assert StateOf(r, k).idPrev == StateOf(routes, k).idPrev && StateOf(r, k).idPrevIdx == StateOf(routes, k).idPrevIdx;
    if k.n != root {
      assert KLinked(links, root, routes, rank, k);
      ExpandRoutes(links, root, routes, rank, l, Prev(routes, k));
    }
  }

  // ---- new and replaced labels ---------------------------------------------------------------------

  /** A label for `n`, new or in place of a tentative one. */
  function Labelled(routes: KRouteMap, l: Lab, s: KState): KRouteMap
    requires l.n in routes ==> l.i <= |routes[l.n]|
    requires l.n !in routes ==> l.i == 0
  {
    var old_ := if l.n in routes then routes[l.n] else [];
    routes[l.n := if l.i < |old_| then old_[l.i := s] else old_ + [s]]
  }

  lemma LabelledStates(routes: KRouteMap, l: Lab, s: KState)
    requires l.n in routes ==> l.i <= |routes[l.n]|
    requires l.n !in routes ==> l.i == 0
    ensures var r := Labelled(routes, l, s);
            && HasLab(r, l) && StateOf(r, l) == s
            && (forall k :: HasLab(r, k) <==> HasLab(routes, k) || k == l)
            && (forall k :: HasLab(routes, k) && k != l ==> StateOf(r, k) == StateOf(routes, k))
  {
    var r := Labelled(routes, l, s);
    forall k
      ensures HasLab(r, k) <==> HasLab(routes, k) || k == l
    {
      if k.n == l.n && k.i == l.i { assert k == l; }
    }
  }

  lemma LabelChains(links: KLinkArray, root: NodeId, routes: KRouteMap, rank: LabRanks, l: Lab, s: KState, p: Lab, e: KEdge)
    requires KChains(links, root, routes, rank)
    requires (l.n in routes ==> l.i <= |routes[l.n]|) && (l.n !in routes ==> l.i == 0) && l !in rank && l.n != root
    requires p in rank && HasLab(routes, p) && e in links[p.n] && e.last == l.n && |e.cost| <= |StateOf(routes, p).cost|
    requires s.idPrev == p.n && s.idPrevIdx == p.i && s.cost == AddCost(e.cost, StateOf(routes, p).cost)
    ensures KChains(links, root, Labelled(routes, l, s), rank) && Keeps(routes, Labelled(routes, l, s), rank)
  {
    var r := Labelled(routes, l, s);
    LabelledStates(routes, l, s);
    forall k | HasLab(r, k) && k.n != root
      ensures KLinked(links, root, r, rank, k)
    {
      if k == l {
        assert Prev(r, l) == p && e in links[p.n];
        assert ByEdge(links, r, l);
      } else {
        assert KLinked(links, root, routes, rank, k);
        ByEdgeSame(links, routes, r, k);
      }
    }
  }

  // ---- routes recorded ------------------------------------------------------------------------------

  ghost function PermLabs(rank: LabRanks, n: NodeId): set<Lab> { set l | l in rank && l.n == n }

  /** The routes recorded for a node are those of its expanded labels, each once. */
  ghost predicate Recorded(links: KLinkArray, root: NodeId, routes: KRouteMap, kroutes: KRoutes, rank: LabRanks)
    requires KChains(links, root, routes, rank)
  {
    && (forall n :: n in kroutes ==> n != root && kroutes[n] != [] && Distinct(kroutes[n]) && |kroutes[n]| == |PermLabs(rank, n)|)
    && (forall n, j :: n in kroutes && 0 <= j < |kroutes[n]| ==> IsRecordOf(links, root, routes, rank, n, kroutes[n][j]))
    && (forall l :: l in rank && l.n != root ==> l.n in kroutes)
    && forall l {:trigger RouteTo(links, root, routes, rank, l)} :: l in rank && HasLab(routes, l) && l.n != root ==>
         RouteTo(links, root, routes, rank, l) in kroutes[l.n]
  }

  ghost predicate IsRecordOf(links: KLinkArray, root: NodeId, routes: KRouteMap, rank: LabRanks, n: NodeId, path: Route)
    requires KChains(links, root, routes, rank)
  {
    exists l :: l in rank && HasLab(routes, l) && l.n == n && RouteTo(links, root, routes, rank, l) == path
  }

  /** A node with a label still to be expanded has fewer expanded labels than labels. */
  lemma RoomLeft(links: KLinkArray, root: NodeId, routes: KRouteMap, rank: LabRanks, l: Lab)
    requires KRanked(links, root, routes, rank) && HasLab(routes, l) && l !in rank
    ensures |PermLabs(rank, l.n)| < |routes[l.n]|
  {
    var all := LabsUpTo(l.n, |routes[l.n]|);
    assert l in all && PermLabs(rank, l.n) <= all - {l};
    SubsetSize(PermLabs(rank, l.n), all - {l});
  }

  ghost function LabsUpTo(n: NodeId, m: nat): (s: set<Lab>)
    ensures |s| == m && forall l :: l in s <==> l.n == n && l.i < m
  {
    if m == 0 then {} else LabsUpTo(n, m - 1) + {Lab(n, m - 1)}
  }

  /** The records after the route of `l`, not recorded so far, has been added. */
  function AddRecord(kroutes: KRoutes, n: NodeId, path: Route): KRoutes {
    kroutes[n := (if n in kroutes then kroutes[n] else []) + [path]]
  }

  /** The records once `l` is expanded. */
  ghost function RecordsAfter(links: KLinkArray, root: NodeId, routes: KRouteMap, kroutes: KRoutes, rank: LabRanks, l: Lab): KRoutes
    requires KChains(links, root, routes, rank) && HasLab(routes, l)
  {
    if l.n == root then kroutes else AddRecord(kroutes, l.n, RouteTo(links, root, routes, rank, l))
  }

  lemma RecordsGrow(links: KLinkArray, root: NodeId, routes: KRouteMap, kroutes: KRoutes, rank: LabRanks, l: Lab)
    requires KChains(links, root, routes, rank) && HasLab(routes, l)
    ensures var kr := RecordsAfter(links, root, routes, kroutes, rank, l);
            && (forall n :: n in kroutes && (n != l.n || l.n == root) ==> n in kr && kr[n] == kroutes[n])
            && (forall n :: n in kr ==> n in kroutes || (n == l.n && n != root))
            && (l.n != root ==>
                  && l.n in kr && RouteTo(links, root, routes, rank, l) in kr[l.n]
                  && kr[l.n] == (if l.n in kroutes then kroutes[l.n] else []) + [RouteTo(links, root, routes, rank, l)])
  {
    if l.n != root {
      var kr := AddRecord(kroutes, l.n, RouteTo(links, root, routes, rank, l));
      assert kr[l.n][|kr[l.n]| - 1] == RouteTo(links, root, routes, rank, l);
    }
  }

  lemma ExpandRecords(links: KLinkArray, root: NodeId, routes: KRouteMap, kroutes: KRoutes, rank: LabRanks, l: Lab)
    requires KChains(links, root, routes, rank) && HasLab(routes, l) && l !in rank && l.n in links && (l.n == root ==> l.i == 0)
    requires KChains(links, root, MadePermAt(routes, l), rank[l := |rank|])
    requires Recorded(links, root, routes, kroutes, rank)
    requires l.n in kroutes ==> RouteTo(links, root, routes, rank, l) !in kroutes[l.n]
    ensures Recorded(links, root, MadePermAt(routes, l), RecordsAfter(links, root, routes, kroutes, rank, l), rank[l := |rank|])
  {
    hide KChains, IsRecordOf, RouteTo, MadePermAt;
    LabRankGrows(rank, l);
    RecordCounts(links, root, routes, kroutes, rank, l);
    RecordsSound(links, root, routes, kroutes, rank, l);
    RecordsComplete(links, root, routes, kroutes, rank, l);
  }

  lemma NewRecord(links: KLinkArray, root: NodeId, routes: KRouteMap, rank: LabRanks, l: Lab)
    requires KChains(links, root, routes, rank) && HasLab(routes, l) && l !in rank && l.n in links && (l.n == root ==> l.i == 0)
    requires KChains(links, root, MadePermAt(routes, l), rank[l := |rank|])
    ensures IsRecordOf(links, root, MadePermAt(routes, l), rank[l := |rank|], l.n, RouteTo(links, root, routes, rank, l))
  {
    ExpandRoutes(links, root, routes, rank, l, l);
    assert l in rank[l := |rank|];
  }

  lemma RecordsSound(links: KLinkArray, root: NodeId, routes: KRouteMap, kroutes: KRoutes, rank: LabRanks, l: Lab)
    requires KChains(links, root, routes, rank) && HasLab(routes, l) && l !in rank && l.n in links && (l.n == root ==> l.i == 0)
    requires KChains(links, root, MadePermAt(routes, l), rank[l := |rank|])
    requires Recorded(links, root, routes, kroutes, rank)
    ensures var kr := RecordsAfter(links, root, routes, kroutes, rank, l);
            forall n, j :: n in kr && 0 <= j < |kr[n]| ==>
              IsRecordOf(links, root, MadePermAt(routes, l), rank[l := |rank|], n, kr[n][j])
  {
    hide KChains, IsRecordOf, RouteTo, MadePermAt;
    var r, q := MadePermAt(routes, l), rank[l := |rank|];
    var kr := RecordsAfter(links, root, routes, kroutes, rank, l);
    RecordsGrow(links, root, routes, kroutes, rank, l);
    forall n, j | n in kr && 0 <= j < |kr[n]|
      ensures IsRecordOf(links, root, r, q, n, kr[n][j])
    {
      if n in kroutes && j < |kroutes[n]| {
        assert kr[n][j] == kroutes[n][j];
        RecordKept(links, root, routes, rank, l, n, kroutes[n][j]);
      } else {
        assert n == l.n && kr[n][j] == RouteTo(links, root, routes, rank, l);
        NewRecord(links, root, routes, rank, l);
      }
    }
  }

  lemma RecordsComplete(links: KLinkArray, root: NodeId, routes: KRouteMap, kroutes: KRoutes, rank: LabRanks, l: Lab)
    requires KChains(links, root, routes, rank) && HasLab(routes, l) && l !in rank && l.n in links && (l.n == root ==> l.i == 0)
    requires KChains(links, root, MadePermAt(routes, l), rank[l := |rank|])
    requires Recorded(links, root, routes, kroutes, rank)
    ensures var kr := RecordsAfter(links, root, routes, kroutes, rank, l);
            forall k {:trigger RouteTo(links, root, MadePermAt(routes, l), rank[l := |rank|], k)} ::
              k in rank[l := |rank|] && HasLab(MadePermAt(routes, l), k) && k.n != root ==>
                k.n in kr && RouteTo(links, root, MadePermAt(routes, l), rank[l := |rank|], k) in kr[k.n]
  {
    var r, q := MadePermAt(routes, l), rank[l := |rank|];
    var path := RouteTo(links, root, routes, rank, l);
    var kr := RecordsAfter(links, root, routes, kroutes, rank, l);
    MadePermStates(routes, l);
    RecordsGrow(links, root, routes, kroutes, rank, l);
    forall k | k in q && HasLab(r, k) && k.n != root
      ensures k.n in kr && RouteTo(links, root, r, q, k) in kr[k.n]
    {
      ExpandRoutes(links, root, routes, rank, l, k);
      if k != l {
        assert RouteTo(links, root, routes, rank, k) in kroutes[k.n];
      }
    }
  }

  lemma RecordKept(links: KLinkArray, root: NodeId, routes: KRouteMap, rank: LabRanks, l: Lab, n: NodeId, path: Route)
    requires KChains(links, root, routes, rank) && HasLab(routes, l) && l !in rank && l.n in links && (l.n == root ==> l.i == 0)
    requires KChains(links, root, MadePermAt(routes, l), rank[l := |rank|]) && IsRecordOf(links, root, routes, rank, n, path)
    ensures IsRecordOf(links, root, MadePermAt(routes, l), rank[l := |rank|], n, path)
  {
    var k :| k in rank && HasLab(routes, k) && k.n == n && RouteTo(links, root, routes, rank, k) == path;
    ExpandRoutes(links, root, routes, rank, l, k);
    assert k in rank[l := |rank|] && HasLab(MadePermAt(routes, l), k);
  }

  lemma RecordCounts(links: KLinkArray, root: NodeId, routes: KRouteMap, kroutes: KRoutes, rank: LabRanks, l: Lab)
    requires KChains(links, root, routes, rank) && HasLab(routes, l) && l !in rank
    requires Recorded(links, root, routes, kroutes, rank)
    requires l.n in kroutes ==> RouteTo(links, root, routes, rank, l) !in kroutes[l.n]
    ensures var kr := RecordsAfter(links, root, routes, kroutes, rank, l);
            forall n :: n in kr ==> n != root && kr[n] != [] && Distinct(kr[n]) && |kr[n]| == |PermLabs(rank[l := |rank|], n)|
  {
    var path := RouteTo(links, root, routes, rank, l);
    var kr := RecordsAfter(links, root, routes, kroutes, rank, l);
    forall n | n in kr
      ensures n != root && kr[n] != [] && Distinct(kr[n]) && |kr[n]| == |PermLabs(rank[l := |rank|], n)|
    {
      PermLabsGrow(rank, l, n);
      if n == l.n && n !in kroutes { NoneRecorded(links, root, routes, kroutes, rank, n); }
    }
  }

  lemma PermLabsGrow(rank: LabRanks, l: Lab, n: NodeId)
    requires l !in rank
    ensures |PermLabs(rank[l := |rank|], n)| == |PermLabs(rank, n)| + if n == l.n then 1 else 0
  {
    var a, b := PermLabs(rank[l := |rank|], n), PermLabs(rank, n);
    LabRankGrows(rank, l);
    if n == l.n {
      assert a == b + {l} && l !in b;
    } else {
      assert a == b;
    }
  }

  lemma NoneRecorded(links: KLinkArray, root: NodeId, routes: KRouteMap, kroutes: KRoutes, rank: LabRanks, n: NodeId)
    requires KChains(links, root, routes, rank) && Recorded(links, root, routes, kroutes, rank) && n !in kroutes && n != root
    ensures PermLabs(rank, n) == {}
  {
  }

  /** Recorded routes survive any change that keeps the expanded labels. */
  lemma KeepRecords(links: KLinkArray, root: NodeId, routes: KRouteMap, r: KRouteMap, kroutes: KRoutes, rank: LabRanks)
    requires KChains(links, root, routes, rank) && KChains(links, root, r, rank) && Keeps(routes, r, rank)
    requires Recorded(links, root, routes, kroutes, rank)
    ensures Recorded(links, root, r, kroutes, rank)
  {
    forall n, j | n in kroutes && 0 <= j < |kroutes[n]|
      ensures IsRecordOf(links, root, r, rank, n, kroutes[n][j])
    {
      assert IsRecordOf(links, root, routes, rank, n, kroutes[n][j]);
      var k :| k in rank && HasLab(routes, k) && k.n == n && RouteTo(links, root, routes, rank, k) == kroutes[n][j];
      RouteKept(links, root, routes, r, rank, k);
      assert HasLab(r, k) && RouteTo(links, root, r, rank, k) == kroutes[n][j];
    }
    forall l | l in rank && HasLab(r, l) && l.n != root
      ensures l.n in kroutes && RouteTo(links, root, r, rank, l) in kroutes[l.n]
    {
      RouteKept(links, root, routes, r, rank, l);
    }
  }

  // ---- simple routes ---------------------------------------------------------------------------------

  lemma ExpandSimple(links: KLinkArray, root: NodeId, routes: KRouteMap, rank: LabRanks, l: Lab)
    requires KChains(links, root, routes, rank) && HasLab(routes, l) && l !in rank && l.n in links && (l.n == root ==> l.i == 0)
    requires KChains(links, root, MadePermAt(routes, l), rank[l := |rank|]) && KSimple(links, root, routes, rank)
    ensures KSimple(links, root, MadePermAt(routes, l), rank[l := |rank|])
  {
    var r, q := MadePermAt(routes, l), rank[l := |rank|];
    MadePermStates(routes, l);
    forall k | HasLab(r, k)
      ensures Distinct(RouteTo(links, root, r, q, k)) && root !in RouteTo(links, root, r, q, k)
    {
      ExpandRoutes(links, root, routes, rank, l, k);
    }
  }

  lemma LabelSimple(links: KLinkArray, root: NodeId, routes: KRouteMap, rank: LabRanks, l: Lab, s: KState, p: Lab)
    requires KChains(links, root, routes, rank) && KSimple(links, root, routes, rank)
    requires (l.n in routes ==> l.i <= |routes[l.n]|) && (l.n !in routes ==> l.i == 0) && l !in rank && l.n != root
    requires p in rank && HasLab(routes, p) && s.idPrev == p.n && s.idPrevIdx == p.i
    requires KChains(links, root, Labelled(routes, l, s), rank) && Keeps(routes, Labelled(routes, l, s), rank)
    requires l.n !in RouteTo(links, root, routes, rank, p)
    ensures KSimple(links, root, Labelled(routes, l, s), rank)
  {
    var r := Labelled(routes, l, s);
    LabelledStates(routes, l, s);
    forall k | HasLab(r, k)
      ensures Distinct(RouteTo(links, root, r, rank, k)) && root !in RouteTo(links, root, r, rank, k)
    {
      if k == l {
        RouteKept(links, root, routes, r, rank, p);
        assert KLinked(links, root, r, rank, l) && Prev(r, l) == p;
        assert RouteTo(links, root, r, rank, l) == RouteTo(links, root, routes, rank, p) + [l.n];
      } else {
        RouteKept(links, root, routes, r, rank, k);
      }
    }
  }

  // ---- the state of the search -----------------------------------------------------------------------

  /** The K labels of the root are permanent from the start; other labels once they are expanded. */
  ghost predicate KMarks(root: NodeId, k: nat, routes: KRouteMap, rank: LabRanks) {
    && root in routes && |routes[root]| == k
    && (forall n :: n in routes ==> 1 <= |routes[n]| <= k)
    && forall l :: HasLab(routes, l) ==> (StateOf(routes, l).mark == Perm <==> l.n == root || l in rank)
  }

  /** All costs have the components of `start`, the cost of the root's labels. */
  ghost predicate KCosts(root: NodeId, start: CostVector, routes: KRouteMap) {
    forall l :: HasLab(routes, l) ==> |StateOf(routes, l).cost| == |start| && (l.n == root ==> StateOf(routes, l).cost == start)
  }

  /** Heap entries stand for labels; the root's entry comes first. */
  ghost predicate KQueue(root: NodeId, routes: KRouteMap, heap: seq<KElem>, rank: LabRanks) {
    && (forall i :: 0 <= i < |heap| ==>
          HasLab(routes, Lab(heap[i].iD, heap[i].idx)) && (heap[i].iD == root ==> heap[i].idx == 0 && rank == map[]))
    && (rank == map[] ==> |heap| == 1)
  }

  ghost predicate Waiting(heap: seq<KElem>, l: Lab) { exists i :: 0 <= i < |heap| && heap[i].iD == l.n && heap[i].idx == l.i }

  /** The route of `l` has been recorded, or its turn is still to come. */
  ghost predicate Served(links: KLinkArray, root: NodeId, routes: KRouteMap, kroutes: KRoutes, heap: seq<KElem>, rank: LabRanks, l: Lab)
    requires KChains(links, root, routes, rank) && HasLab(routes, l)
  {
    || Waiting(heap, l)
    || if l.n == root then l.i != 0 || l in rank
       else l.n in kroutes && RouteTo(links, root, routes, rank, l) in kroutes[l.n]
  }

  ghost predicate KServed(links: KLinkArray, root: NodeId, routes: KRouteMap, kroutes: KRoutes, heap: seq<KElem>, rank: LabRanks)
    requires KChains(links, root, routes, rank)
  {
    forall l {:trigger Served(links, root, routes, kroutes, heap, rank, l)} ::
      HasLab(routes, l) ==> Served(links, root, routes, kroutes, heap, rank, l)
  }

  ghost predicate KInv(links: KLinkArray, root: NodeId, k: nat, start: CostVector, routes: KRouteMap, kroutes: KRoutes,
                       heap: seq<KElem>, rank: LabRanks)
  {
    && KChains(links, root, routes, rank) && KSimple(links, root, routes, rank)
    && Recorded(links, root, routes, kroutes, rank)
    && KMarks(root, k, routes, rank) && KCosts(root, start, routes) && KQueue(root, routes, heap, rank)
    && KServed(links, root, routes, kroutes, heap, rank)
  }

  // ---- edges followed ---------------------------------------------------------------------------------

  predicate Exceeds(limits: CostVector, cost: CostVector) {
    limits != [] && |limits| <= |cost| && CostLess(limits, cost)
  }

  /** Edge `e` of the expanded label `p` breaks the limits, closes a cycle, leads to a node that has
      all its labels, or has given its end a label. */
  ghost predicate Offered(links: KLinkArray, root: NodeId, k: nat, limits: CostVector, routes: KRouteMap, rank: LabRanks, p: Lab, e: KEdge)
    requires KChains(links, root, routes, rank) && HasLab(routes, p)
  {
    || (|e.cost| <= |StateOf(routes, p).cost| && Exceeds(limits, AddCost(e.cost, StateOf(routes, p).cost)))
    || (&& e.last in routes
        && (|| e.last == root || e.last in RouteTo(links, root, routes, rank, p) || |routes[e.last]| == k
            || LabelledFrom(routes, p, e.last)))
  }

  ghost predicate LabelledFrom(routes: KRouteMap, p: Lab, n: NodeId) {
    exists m :: HasLab(routes, m) && m.n == n && Prev(routes, m) == p
  }

  /** The edges of all expanded labels have been followed; of `last` only the first `i`. */
  ghost predicate KFollowed(links: KLinkArray, root: NodeId, k: nat, limits: CostVector, routes: KRouteMap, rank: LabRanks,
                            last: Lab, i: nat)
    requires KChains(links, root, routes, rank)
  {
    forall p, j :: p in rank && HasLab(routes, p) && p.n in links && 0 <= j < |links[p.n]| && (p != last || j < i) ==>
      Offered(links, root, k, limits, routes, rank, p, links[p.n][j])
  }

  // ---- steps of the search ----------------------------------------------------------------------------

  lemma StillWaiting(heap: seq<KElem>, k: nat)
    requires k < |heap|
    ensures forall l :: Waiting(heap, l) && l != Lab(heap[k].iD, heap[k].idx) ==> Waiting(Erased(heap, k), l)
  {
    var h := Erased(heap, k);
    forall l | Waiting(heap, l) && l != Lab(heap[k].iD, heap[k].idx)
      ensures Waiting(h, l)
    {
      var i :| 0 <= i < |heap| && heap[i].iD == l.n && heap[i].idx == l.i;
      assert h[if i < k then i else i - 1] == heap[i];
    }
  }

  /** An entry can go once the route of its label is recorded. */
  lemma KDropStale(links: KLinkArray, root: NodeId, kk: nat, start: CostVector, routes: KRouteMap, kroutes: KRoutes, heap: seq<KElem>,
                   rank: LabRanks, k: nat)
    requires KInv(links, root, kk, start, routes, kroutes, heap, rank) && k < |heap| && heap[k].iD != root
    requires var l := Lab(heap[k].iD, heap[k].idx);
             && HasLab(routes, l)
             && l.n in kroutes && RouteTo(links, root, routes, rank, l) in kroutes[l.n]
    ensures KInv(links, root, kk, start, routes, kroutes, Erased(heap, k), rank)
  {
    hide KChains, RouteTo, IsRecordOf, KMarks;
    StillWaiting(heap, k);
    var l := Lab(heap[k].iD, heap[k].idx);
    var path := RouteTo(links, root, routes, rank, l);
    var j :| 0 <= j < |kroutes[l.n]| && kroutes[l.n][j] == path;
    assert IsRecordOf(links, root, routes, rank, l.n, kroutes[l.n][j]);
    assert rank != map[];
    forall m | HasLab(routes, m)
      ensures Served(links, root, routes, kroutes, Erased(heap, k), rank, m)
    {
      assert Served(links, root, routes, kroutes, heap, rank, m);
    }
  }

  lemma KExpand(links: KLinkArray, root: NodeId, kk: nat, start: CostVector, routes: KRouteMap, kroutes: KRoutes, heap: seq<KElem>,
                rank: LabRanks, k: nat, l: Lab)
    requires KInv(links, root, kk, start, routes, kroutes, heap, rank) && k < |heap| && l == Lab(heap[k].iD, heap[k].idx)
    requires HasLab(routes, l)
    requires l !in rank && l.n in links && (l.n in kroutes ==> RouteTo(links, root, routes, rank, l) !in kroutes[l.n])
    ensures KInv(links, root, kk, start, MadePermAt(routes, l),
                 RecordsAfter(links, root, routes, kroutes, rank, l),
                 Erased(heap, k), rank[l := |rank|])
    ensures HasLab(MadePermAt(routes, l), l)
    ensures RouteTo(links, root, MadePermAt(routes, l), rank[l := |rank|], l) == RouteTo(links, root, routes, rank, l)
  {
    ExpandChains(links, root, routes, rank, l);
    ExpandSimple(links, root, routes, rank, l);
    ExpandRecords(links, root, routes, kroutes, rank, l);
    ExpandRoutes(links, root, routes, rank, l, l);
    MadePermStates(routes, l);
    KExpandQueue(root, routes, heap, rank, k, l);
    KExpandMarks(root, kk, routes, rank, l);
    KExpandServed(links, root, routes, kroutes, heap, rank, k, l);
  }

  lemma KExpandMarks(root: NodeId, kk: nat, routes: KRouteMap, rank: LabRanks, l: Lab)
    requires KMarks(root, kk, routes, rank) && HasLab(routes, l) && l !in rank
    ensures KMarks(root, kk, MadePermAt(routes, l), rank[l := |rank|])
  {
    MadePermStates(routes, l);
  }

  lemma KExpandQueue(root: NodeId, routes: KRouteMap, heap: seq<KElem>, rank: LabRanks, k: nat, l: Lab)
    requires KQueue(root, routes, heap, rank) && k < |heap| && l == Lab(heap[k].iD, heap[k].idx) && l !in rank && HasLab(routes, l)
    ensures KQueue(root, MadePermAt(routes, l), Erased(heap, k), rank[l := |rank|])
  {
    MadePermStates(routes, l);
    StillWaiting(heap, k);
    assert l in rank[l := |rank|];
  }

  lemma KExpandServed(links: KLinkArray, root: NodeId, routes: KRouteMap, kroutes: KRoutes, heap: seq<KElem>, rank: LabRanks,
                      k: nat, l: Lab)
    requires KChains(links, root, routes, rank) && KServed(links, root, routes, kroutes, heap, rank)
    requires k < |heap| && l == Lab(heap[k].iD, heap[k].idx) && HasLab(routes, l) && l !in rank && l.n in links && (l.n == root ==> l.i == 0)
    requires KChains(links, root, MadePermAt(routes, l), rank[l := |rank|])
    ensures KServed(links, root, MadePermAt(routes, l), RecordsAfter(links, root, routes, kroutes, rank, l), Erased(heap, k), rank[l := |rank|])
  {
    var r, q, kr := MadePermAt(routes, l), rank[l := |rank|], RecordsAfter(links, root, routes, kroutes, rank, l);
    MadePermStates(routes, l);
    StillWaiting(heap, k);
    forall m | HasLab(r, m)
      ensures Served(links, root, r, kr, Erased(heap, k), q, m)
    {
      assert Served(links, root, routes, kroutes, heap, rank, m);
      ExpandRoutes(links, root, routes, rank, l, m);
      if m == l && l.n != root { assert kr[l.n][|kr[l.n]| - 1] == RouteTo(links, root, routes, rank, l); }
    }
  }

  /** Making `l` permanent leaves its own edges still to be followed. */
  lemma KExpandFollowed(links: KLinkArray, root: NodeId, k: nat, limits: CostVector, routes: KRouteMap, rank: LabRanks, l: Lab,
                        last: Lab, i: nat)
    requires KChains(links, root, routes, rank) && HasLab(routes, l) && l !in rank && l.n in links && (l.n == root ==> l.i == 0)
    requires KChains(links, root, MadePermAt(routes, l), rank[l := |rank|])
    requires KFollowed(links, root, k, limits, routes, rank, last, i) && (last.n in links ==> |links[last.n]| <= i)
    ensures KFollowed(links, root, k, limits, MadePermAt(routes, l), rank[l := |rank|], l, 0)
  {
    var r, q := MadePermAt(routes, l), rank[l := |rank|];
    MadePermStates(routes, l);
    forall p, j | p in q && HasLab(r, p) && p.n in links && 0 <= j < |links[p.n]| && p != l
      ensures Offered(links, root, k, limits, r, q, p, links[p.n][j])
    {
      assert Offered(links, root, k, limits, routes, rank, p, links[p.n][j]);
      ExpandRoutes(links, root, routes, rank, l, p);
      ExpandFrom(routes, l, p, links[p.n][j].last);
    }
  }

  lemma ExpandFrom(routes: KRouteMap, l: Lab, p: Lab, n: NodeId)
    requires HasLab(routes, l)
    ensures LabelledFrom(routes, p, n) ==> LabelledFrom(MadePermAt(routes, l), p, n)
  {
    MadePermStates(routes, l);
    if LabelledFrom(routes, p, n) {
      var m :| HasLab(routes, m) && m.n == n && Prev(routes, m) == p;
      assert HasLab(MadePermAt(routes, l), m) && Prev(MadePermAt(routes, l), m) == p;
    }
  }

  /** A new or replaced label `l` and its heap entry; `h` has lost at most entries of `l`. */
  lemma KLabel(links: KLinkArray, root: NodeId, kk: nat, start: CostVector, routes: KRouteMap, kroutes: KRoutes, heap: seq<KElem>, h: seq<KElem>,
               rank: LabRanks, p: Lab, e: KEdge, l: Lab, s: KState, entry: KElem)
    requires KInv(links, root, kk, start, routes, kroutes, heap, rank) && Uniform(links, |start|)
    requires p in rank && HasLab(routes, p) && e in links[p.n] && e.last == l.n
    requires s == KState(AddCost(e.cost, StateOf(routes, p).cost), p.n, p.i, Tent)
    requires l !in rank && l.n != root && l.n !in RouteTo(links, root, routes, rank, p) && l.i < kk
    requires (l.n in routes ==> l.i <= |routes[l.n]|) && (l.n !in routes ==> l.i == 0)
    requires entry.iD == l.n && entry.idx == l.i && (forall x :: x in h ==> x in heap)
    requires forall m :: Waiting(heap, m) && m != l ==> Waiting(h, m)
    ensures KInv(links, root, kk, start, Labelled(routes, l, s), kroutes, h + [entry], rank)
    ensures HasLab(Labelled(routes, l, s), p)
    ensures RouteTo(links, root, Labelled(routes, l, s), rank, p) == RouteTo(links, root, routes, rank, p)
  {
    LabelChains(links, root, routes, rank, l, s, p, e);
    LabelSimple(links, root, routes, rank, l, s, p);
    KeepRecords(links, root, routes, Labelled(routes, l, s), kroutes, rank);
    KLabelMarks(root, kk, start, routes, rank, l, s);
    LabelledStates(routes, l, s);
    RouteKept(links, root, routes, Labelled(routes, l, s), rank, p);
    KLabelQueue(root, routes, heap, h, rank, l, s, entry);
    KLabelServed(links, root, routes, kroutes, heap, h, rank, l, s, entry);
  }

  lemma KLabelMarks(root: NodeId, kk: nat, start: CostVector, routes: KRouteMap, rank: LabRanks, l: Lab, s: KState)
    requires KMarks(root, kk, routes, rank) && KCosts(root, start, routes) && |s.cost| == |start| && s.mark == Tent
    requires l !in rank && l.n != root && l.i < kk
    requires (l.n in routes ==> l.i <= |routes[l.n]|) && (l.n !in routes ==> l.i == 0)
    ensures KMarks(root, kk, Labelled(routes, l, s), rank) && KCosts(root, start, Labelled(routes, l, s))
  {
    LabelledStates(routes, l, s);
  }

  lemma KLabelQueue(root: NodeId, routes: KRouteMap, heap: seq<KElem>, h: seq<KElem>, rank: LabRanks, l: Lab, s: KState, entry: KElem)
    requires KQueue(root, routes, heap, rank) && rank != map[] && l.n != root
    requires (l.n in routes ==> l.i <= |routes[l.n]|) && (l.n !in routes ==> l.i == 0)
    requires entry.iD == l.n && entry.idx == l.i && (forall x :: x in h ==> x in heap)
    ensures KQueue(root, Labelled(routes, l, s), h + [entry], rank)
  {
    LabelledStates(routes, l, s);
    var g := h + [entry];
    forall i | 0 <= i < |g|
      ensures HasLab(Labelled(routes, l, s), Lab(g[i].iD, g[i].idx)) && (g[i].iD == root ==> g[i].idx == 0 && rank == map[])
    {
      if i < |h| { assert h[i] in heap; }
    }
  }

  lemma KLabelServed(links: KLinkArray, root: NodeId, routes: KRouteMap, kroutes: KRoutes, heap: seq<KElem>, h: seq<KElem>,
                     rank: LabRanks, l: Lab, s: KState, entry: KElem)
    requires KChains(links, root, routes, rank) && KServed(links, root, routes, kroutes, heap, rank)
    requires (l.n in routes ==> l.i <= |routes[l.n]|) && (l.n !in routes ==> l.i == 0)
    requires KChains(links, root, Labelled(routes, l, s), rank) && Keeps(routes, Labelled(routes, l, s), rank)
    requires entry.iD == l.n && entry.idx == l.i
    requires forall m :: Waiting(heap, m) && m != l ==> Waiting(h, m)
    ensures KServed(links, root, Labelled(routes, l, s), kroutes, h + [entry], rank)
  {
    var r, g := Labelled(routes, l, s), h + [entry];
    LabelledStates(routes, l, s);
    forall m | HasLab(r, m)
      ensures Served(links, root, r, kroutes, g, rank, m)
    {
      if m == l {
        assert g[|h|] == entry;
        assert Waiting(g, l);
      } else {
        assert Served(links, root, routes, kroutes, heap, rank, m);
        RouteKept(links, root, routes, r, rank, m);
        AppendWaiting(h, entry, m);
      }
    }
  }

  lemma AppendWaiting(h: seq<KElem>, entry: KElem, m: Lab)
    ensures Waiting(h, m) ==> Waiting(h + [entry], m)
  {
    if Waiting(h, m) {
      var i :| 0 <= i < |h| && h[i].iD == m.n && h[i].idx == m.i;
      assert (h + [entry])[i] == h[i];
    }
  }

  /** The label given to `links[p.n][i].last` follows that edge; labels are replaced only where there are K. */
  lemma KLabelFollowed(links: KLinkArray, root: NodeId, k: nat, limits: CostVector, routes: KRouteMap, rank: LabRanks,
                       p: Lab, i: nat, l: Lab, s: KState)
    requires KChains(links, root, routes, rank) && KFollowed(links, root, k, limits, routes, rank, p, i)
    requires HasLab(routes, p) && p in rank && i < |links[p.n]| && links[p.n][i].last == l.n && l !in rank
    requires (l.n in routes ==> l.i <= |routes[l.n]|) && (l.n !in routes ==> l.i == 0)
    requires (HasLab(routes, l) ==> |routes[l.n]| == k) && l.i < k
    requires s.idPrev == p.n && s.idPrevIdx == p.i
    requires KChains(links, root, Labelled(routes, l, s), rank) && Keeps(routes, Labelled(routes, l, s), rank)
    ensures KFollowed(links, root, k, limits, Labelled(routes, l, s), rank, p, i + 1)
  {
    var r := Labelled(routes, l, s);
    LabelledStates(routes, l, s);
    forall q, j | q in rank && HasLab(r, q) && q.n in links && 0 <= j < |links[q.n]| && (q != p || j < i + 1)
      ensures Offered(links, root, k, limits, r, rank, q, links[q.n][j])
    {
      if q == p && j == i {
        assert HasLab(r, l) && l.n == links[p.n][i].last && Prev(r, l) == p;
        assert LabelledFrom(r, p, l.n);
      } else {
        assert HasLab(routes, q);
        assert Offered(links, root, k, limits, routes, rank, q, links[q.n][j]);
        RouteKept(links, root, routes, r, rank, q);
        LabelFrom(routes, k, l, s, q, links[q.n][j].last);
      }
    }
  }

  lemma LabelFrom(routes: KRouteMap, k: nat, l: Lab, s: KState, q: Lab, n: NodeId)
    requires (l.n in routes ==> l.i <= |routes[l.n]|) && (l.n !in routes ==> l.i == 0)
    requires HasLab(routes, l) ==> |routes[l.n]| == k
    requires l.i < k
    ensures var r := Labelled(routes, l, s);
            && (n in routes ==> n in r && (|routes[n]| == k ==> |r[n]| == k))
            && (LabelledFrom(routes, q, n) ==> n in r && (LabelledFrom(r, q, n) || |r[n]| == k))
  {
    var r := Labelled(routes, l, s);
    LabelledStates(routes, l, s);
    if LabelledFrom(routes, q, n) {
      var m :| HasLab(routes, m) && m.n == n && Prev(routes, m) == q;
      if m != l { assert HasLab(r, m) && Prev(r, m) == q; }
    }
  }

  /** At the start the root has all its labels, all permanent, and the first one waits. */
  lemma KInitial(links: KLinkArray, root: NodeId, k: nat, start: CostVector, labels: seq<KState>, entry: KElem)
    requires k >= 1 && |labels| == k && entry.iD == root && entry.idx == 0
    requires forall j :: 0 <= j < k ==> labels[j].mark == Perm && labels[j].cost == start
    ensures KInv(links, root, k, start, map[root := labels], map[], [entry], map[])
  {
    var routes: KRouteMap := map[root := labels];
    assert forall l :: HasLab(routes, l) ==> l.n == root;
    assert KChains(links, root, routes, map[]);
    forall l | HasLab(routes, l)
      ensures RouteTo(links, root, routes, map[], l) == []
    {
    }
    forall l | HasLab(routes, l)
      ensures Served(links, root, routes, map[], [entry], map[], l)
    {
      assert [entry][0] == entry;
    }
  }

  /** Every node on a label's route has labels itself. */
  lemma {:induction false} RouteLabelled(links: KLinkArray, root: NodeId, routes: KRouteMap, rank: LabRanks, l: Lab)
    requires KChains(links, root, routes, rank) && HasLab(routes, l)
    ensures forall n :: n in RouteTo(links, root, routes, rank, l) ==> n in routes
    ensures l.n != root ==> RouteTo(links, root, routes, rank, l) != []
    decreases if l in rank then rank[l] else |rank|
  {
    if l.n != root {
      assert KLinked(links, root, routes, rank, l);
      RouteLabelled(links, root, routes, rank, Prev(routes, l));
    }
  }

  // ---- bounds and loops ------------------------------------------------------------------------------

  /** The labels nodes with known edges can have. */
  ghost function AllLabs(nodes: set<NodeId>, k: nat): set<Lab> {
    set n, i | n in nodes && 0 <= i < k :: Lab(n, i)
  }

  lemma InAllLabs(links: KLinkArray, root: NodeId, k: nat, routes: KRouteMap, rank: LabRanks, l: Lab)
    requires KMarks(root, k, routes, rank) && HasLab(routes, l)
    ensures l.n in links ==> l in AllLabs(links.Keys, k)
  {
    assert |routes[l.n]| <= k;
  }

  // ---- the whole state between two steps ---------------------------------------------------------------

  ghost predicate Costed(heap: seq<KElem>, d: nat) { forall i :: 0 <= i < |heap| ==> |heap[i].cost| == d }

  /** The invariant of the search, all edges of expanded labels but `last`'s from the `i`-th on followed. */
  ghost predicate KSearch(links: KLinkArray, root: NodeId, k: nat, limits: CostVector, start: CostVector, routes: KRouteMap,
                          kroutes: KRoutes, heap: seq<KElem>, rank: LabRanks, last: Lab, i: nat)
  {
    && KInv(links, root, k, start, routes, kroutes, heap, rank) && Costed(heap, |start|) && Uniform(links, |start|)
    && KFollowed(links, root, k, limits, routes, rank, last, i)
  }

  lemma SearchDrops(links: KLinkArray, root: NodeId, kk: nat, limits: CostVector, start: CostVector, routes: KRouteMap,
                    kroutes: KRoutes, heap: seq<KElem>, rank: LabRanks, last: Lab, i: nat, k: nat)
    requires KSearch(links, root, kk, limits, start, routes, kroutes, heap, rank, last, i) && k < |heap| && heap[k].iD != root
    requires var l := Lab(heap[k].iD, heap[k].idx);
             HasLab(routes, l) && (StateOf(routes, l).mark == Perm || (l.n in kroutes && RouteTo(links, root, routes, rank, l) in kroutes[l.n]))
    ensures KSearch(links, root, kk, limits, start, routes, kroutes, Erased(heap, k), rank, last, i)
  {
    hide KChains, KServed, KFollowed;
    KDropStale(links, root, kk, start, routes, kroutes, heap, rank, k);
  }

  lemma EntryIsLab(links: KLinkArray, root: NodeId, kk: nat, limits: CostVector, start: CostVector, routes: KRouteMap,
                   kroutes: KRoutes, heap: seq<KElem>, rank: LabRanks, last: Lab, i: nat, k: nat)
    requires KSearch(links, root, kk, limits, start, routes, kroutes, heap, rank, last, i) && k < |heap|
    ensures var l := Lab(heap[k].iD, heap[k].idx);
            HasLab(routes, l) && (l.n in links ==> l in AllLabs(links.Keys, kk))
  {
    InAllLabs(links, root, kk, routes, rank, Lab(heap[k].iD, heap[k].idx));
  }

  lemma SearchExpands(links: KLinkArray, root: NodeId, kk: nat, limits: CostVector, start: CostVector, routes: KRouteMap,
                      kroutes: KRoutes, heap: seq<KElem>, rank: LabRanks, last: Lab, i: nat, k: nat, l: Lab)
    requires KSearch(links, root, kk, limits, start, routes, kroutes, heap, rank, last, i) && (last.n in links ==> |links[last.n]| <= i)
    requires k < |heap| && l == Lab(heap[k].iD, heap[k].idx) && HasLab(routes, l)
    requires l !in rank && l.n in links && (l.n in kroutes ==> RouteTo(links, root, routes, rank, l) !in kroutes[l.n])
    ensures KSearch(links, root, kk, limits, start, MadePermAt(routes, l), RecordsAfter(links, root, routes, kroutes, rank, l),
                    Erased(heap, k), rank[l := |rank|], l, 0)
    ensures HasLab(MadePermAt(routes, l), l)
    ensures RouteTo(links, root, MadePermAt(routes, l), rank[l := |rank|], l) == RouteTo(links, root, routes, rank, l)
  {
    hide KChains, Recorded, KServed, KFollowed, RecordsAfter;
    KExpand(links, root, kk, start, routes, kroutes, heap, rank, k, l);
    KExpandFollowed(links, root, kk, limits, routes, rank, l, last, i);
  }

  lemma SearchLabels(links: KLinkArray, root: NodeId, kk: nat, limits: CostVector, start: CostVector, routes: KRouteMap,
                     kroutes: KRoutes, heap: seq<KElem>, h: seq<KElem>, rank: LabRanks, p: Lab, i: nat, l: Lab, s: KState, entry: KElem)
    requires KSearch(links, root, kk, limits, start, routes, kroutes, heap, rank, p, i)
    requires p in rank && HasLab(routes, p) && p.n in links && i < |links[p.n]| && links[p.n][i].last == l.n
    requires |links[p.n][i].cost| <= |StateOf(routes, p).cost|
    requires s == KState(AddCost(links[p.n][i].cost, StateOf(routes, p).cost), p.n, p.i, Tent)
    requires Free(routes, kk, l) && l.n !in RouteTo(links, root, routes, rank, p)
    requires entry == KElem(l.n, l.i, s.cost) && (forall x :: x in h ==> x in heap)
    requires forall m :: Waiting(heap, m) && m != l ==> Waiting(h, m)
    ensures KSearch(links, root, kk, limits, start, Labelled(routes, l, s), kroutes, h + [entry], rank, p, i + 1)
    ensures HasLab(Labelled(routes, l, s), p)
    ensures RouteTo(links, root, Labelled(routes, l, s), rank, p) == RouteTo(links, root, routes, rank, p)
  {
    assert l !in rank && l.n != root by { NotExpanded(root, kk, routes, rank, l); }
    KLabel(links, root, kk, start, routes, kroutes, heap, h, rank, p, links[p.n][i], l, s, entry);
    LabelChains(links, root, routes, rank, l, s, p, links[p.n][i]);
    KLabelFollowed(links, root, kk, limits, routes, rank, p, i, l, s);
    CostedAppend(heap, h, entry, |start|);
  }

  lemma CostedAppend(heap: seq<KElem>, h: seq<KElem>, entry: KElem, d: nat)
    requires Costed(heap, d) && (forall x :: x in h ==> x in heap) && |entry.cost| == d
    ensures Costed(h + [entry], d)
  {
    forall i | 0 <= i < |h|
      ensures |h[i].cost| == d
    {
      assert h[i] in heap;
    }
  }

  /** `l` is the next label of a node with fewer than K, or a tentative label of a node with K. */
  ghost predicate Free(routes: KRouteMap, k: nat, l: Lab) {
    && l.i < k
    && if HasLab(routes, l) then |routes[l.n]| == k && StateOf(routes, l).mark == Tent
       else l.i == if l.n in routes then |routes[l.n]| else 0
  }

  lemma NotExpanded(root: NodeId, k: nat, routes: KRouteMap, rank: LabRanks, l: Lab)
    requires KMarks(root, k, routes, rank) && Free(routes, k, l) && forall m :: m in rank ==> HasLab(routes, m)
    ensures l !in rank && l.n != root
  {
  }

  lemma EdgePasses(links: KLinkArray, root: NodeId, k: nat, limits: CostVector, start: CostVector, routes: KRouteMap,
                   kroutes: KRoutes, heap: seq<KElem>, rank: LabRanks, p: Lab, i: nat)
    requires KSearch(links, root, k, limits, start, routes, kroutes, heap, rank, p, i)
    requires HasLab(routes, p) && p.n in links && i < |links[p.n]| && Offered(links, root, k, limits, routes, rank, p, links[p.n][i])
    ensures KSearch(links, root, k, limits, start, routes, kroutes, heap, rank, p, i + 1)
  {
  }

  lemma EdgeCost(links: KLinkArray, root: NodeId, k: nat, limits: CostVector, start: CostVector, routes: KRouteMap,
                 kroutes: KRoutes, heap: seq<KElem>, rank: LabRanks, p: Lab, i: nat)
    requires KSearch(links, root, k, limits, start, routes, kroutes, heap, rank, p, i)
    requires HasLab(routes, p) && p.n in links && i < |links[p.n]|
    ensures |links[p.n][i].cost| == |start| && |StateOf(routes, p).cost| == |start|
  {
    assert links[p.n][i] in links[p.n];
  }

  lemma NodeCosts(root: NodeId, start: CostVector, routes: KRouteMap, n: NodeId)
    requires KCosts(root, start, routes) && n in routes
    ensures forall j :: 0 <= j < |routes[n]| ==> |routes[n][j].cost| == |start|
  {
    forall j: nat | j < |routes[n]|
      ensures |routes[n][j].cost| == |start|
    {
      assert HasLab(routes, Lab(n, j)) && StateOf(routes, Lab(n, j)) == routes[n][j];
    }
  }

  lemma SearchStarts(links: KLinkArray, root: NodeId, k: nat, limits: CostVector, start: CostVector, labels: seq<KState>, i: nat)
    requires k >= 1 && |labels| == k && Uniform(links, |start|)
    requires forall j :: 0 <= j < k ==> labels[j] == KState(start, UndefinedAddr, 0, Perm)
    ensures KSearch(links, root, k, limits, start, map[root := labels], map[], [KElem(root, 0, start)], map[], Lab(root, 0), i)
  {
    KInitial(links, root, k, start, labels, KElem(root, 0, start));
  }
}
