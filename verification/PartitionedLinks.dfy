/** Links of a network without which it falls apart. */
module PartitionedLinks {
  import opened Sequences
  import opened ShortestPaths

  ghost predicate HasLink(links: LinkArray, a: NodeId, b: NodeId) {
    a in links && exists e :: e in links[a] && e.last == b
  }

  /** The nodes links lead to are nodes of the graph. */
  ghost predicate Known(links: LinkArray) { forall a, b :: HasLink(links, a, b) ==> b in links }

  function Count(edges: seq<Edge>, b: NodeId): nat {
    if edges == [] then 0 else Count(edges[1..], b) + if edges[0].last == b then 1 else 0
  }

  /** More than one link leads from `a` to `b`. */
  ghost predicate Parallel(links: LinkArray, a: NodeId, b: NodeId) { a in links && Count(links[a], b) > 1 }

  ghost predicate Simple(links: LinkArray) { forall a, b :: !Parallel(links, a, b) }

  /** Every link has a link back, and only if it is doubled a doubled one. */
  ghost predicate Duplex(links: LinkArray) {
    && (forall a, b :: HasLink(links, a, b) ==> HasLink(links, b, a))
    && forall a, b :: Parallel(links, a, b) ==> Parallel(links, b, a)
  }

  /** The first link from `u` to `v` taken out, if there is one. */
  function CutOnce(links: LinkArray, u: NodeId, v: NodeId): LinkArray {
    if u in links && FirstTo(links[u], v) < |links[u]| then links[u := Erased(links[u], FirstTo(links[u], v))] else links
  }

  /** Without this link its one end no longer reaches the other. */
  ghost predicate Needed(links: LinkArray, u: NodeId, v: NodeId) {
    HasLink(links, u, v) && !Reachable(CutOnce(links, u, v), u, v)
  }

  /** A link whose two ends can no longer reach each other once it is cut, in both directions. */
  ghost predicate IsBridge(links: LinkArray, u: NodeId, v: NodeId) {
    HasLink(links, u, v) && !Reachable(CutOnce(CutOnce(links, u, v), v, u), u, v)
  }

  // ---- edges to one node ----------------------------------------------------------------------------

  /** The position of the first edge to `last`, or the number of edges. */
  function FirstTo(edges: seq<Edge>, last: NodeId): (k: nat)
    ensures k <= |edges| && (k < |edges| ==> edges[k].last == last) && forall j :: 0 <= j < k ==> edges[j].last != last
  {
    if edges == [] || edges[0].last == last then 0 else 1 + FirstTo(edges[1..], last)
  }

  lemma FirstToIs(edges: seq<Edge>, last: NodeId, k: nat)
    requires k <= |edges| && (k < |edges| ==> edges[k].last == last) && forall j :: 0 <= j < k ==> edges[j].last != last
    ensures k == FirstTo(edges, last)
  {
  }

  lemma FirstToFinds(links: LinkArray, a: NodeId, b: NodeId)
    requires a in links
    ensures HasLink(links, a, b) <==> FirstTo(links[a], b) < |links[a]|
    ensures HasLink(links, a, b) <==> Count(links[a], b) > 0
  {
    if FirstTo(links[a], b) < |links[a]| { assert links[a][FirstTo(links[a], b)] in links[a]; }
    CountPositive(links[a], b);
  }

  lemma {:induction false} CountPositive(edges: seq<Edge>, b: NodeId)
    ensures Count(edges, b) > 0 <==> exists e :: e in edges && e.last == b
  {
    if edges != [] {
      CountPositive(edges[1..], b);
      if e :| e in edges[1..] && e.last == b { assert e in edges; }
    }
  }

  lemma {:induction false} CountAppend(a: seq<Edge>, b: seq<Edge>, n: NodeId)
    ensures Count(a + b, n) == Count(a, n) + Count(b, n)
  {
    if a == [] {
      assert a + b == b;
    } else {
      assert (a + b)[1..] == a[1..] + b;
      CountAppend(a[1..], b, n);
    }
  }

  lemma CountErased(edges: seq<Edge>, k: nat, n: NodeId)
    requires k < |edges|
    ensures Count(edges, n) == Count(Erased(edges, k), n) + if edges[k].last == n then 1 else 0
  {
    var a, b := edges[..k], edges[k + 1..];
    assert edges == a + ([edges[k]] + b);
    CountAppend(a, b, n);
    CountAppend(a, [edges[k]] + b, n);
  }

  lemma CountUpdated(edges: seq<Edge>, k: nat, e: Edge, n: NodeId)
    requires k < |edges| && e.last == edges[k].last
    ensures Count(edges[k := e], n) == Count(edges, n)
  {
    CountErased(edges, k, n);
    CountErased(edges[k := e], k, n);
    assert Erased(edges[k := e], k) == Erased(edges, k);
  }

  /** Cutting takes one link out: the ends are no longer joined unless the link is doubled. */
  lemma CutOnceLinks(links: LinkArray, u: NodeId, v: NodeId, a: NodeId, b: NodeId)
    ensures HasLink(CutOnce(links, u, v), a, b) <==> HasLink(links, a, b) && (a == u && b == v ==> Parallel(links, u, v))
    ensures !(a == u && b == v) ==> (Parallel(CutOnce(links, u, v), a, b) <==> Parallel(links, a, b))
  {
    if a in links {
      FirstToFinds(links, a, b);
      FirstToFinds(CutOnce(links, u, v), a, b);
    }
    if u in links && FirstTo(links[u], v) < |links[u]| { CountErased(links[u], FirstTo(links[u], v), b); }
  }

  // ---- reachability by links ---------------------------------------------------------------------

  lemma ReachStep(links: LinkArray, u: NodeId, x: NodeId, y: NodeId)
    requires Reachable(links, u, x) && HasLink(links, x, y)
    ensures Reachable(links, u, y)
  {
    var es :| IsRoute(links, u, es) && End(u, es) == x;
    var e :| e in links[x] && e.last == y;
    Extend(links, u, es, e);
  }

  lemma ReachSelf(links: LinkArray, u: NodeId)
    ensures Reachable(links, u, u)
  {
    assert IsRoute(links, u, []) && End(u, []) == u;
  }

  lemma {:induction false} ReachTrans(links: LinkArray, u: NodeId, x: NodeId, es: seq<Edge>)
    requires Reachable(links, u, x) && IsRoute(links, x, es)
    ensures Reachable(links, u, End(x, es))
    decreases |es|
  {
    if es != [] {
      var init := es[..|es| - 1];
      ReachTrans(links, u, x, init);
      assert HasLink(links, End(x, init), End(x, es));
      ReachStep(links, u, End(x, init), End(x, es));
    }
  }

  /** Where every link has a link back, every route has a way back. */
  lemma {:induction false} ReachBack(links: LinkArray, u: NodeId, es: seq<Edge>)
    requires (forall a, b :: HasLink(links, a, b) ==> HasLink(links, b, a)) && IsRoute(links, u, es)
    ensures Reachable(links, End(u, es), u)
    decreases |es|
  {
    if es == [] {
      ReachSelf(links, u);
    } else {
      var init := es[..|es| - 1];
      var x, y := End(u, init), End(u, es);
      ReachBack(links, u, init);
      assert HasLink(links, x, y);
      ReachSelf(links, y);
      ReachStep(links, y, y, x);
      var back :| IsRoute(links, x, back) && End(x, back) == u;
      ReachTrans(links, y, x, back);
    }
  }

  /** With only the direction from `u` to `v` removed, any way from `u` to `v` can do without the
      opposite direction as well. */
  lemma {:induction false} OneDirectionEnough(c: LinkArray, d: LinkArray, u: NodeId, v: NodeId, es: seq<Edge>)
    requires forall a, b :: HasLink(d, a, b) && a != v ==> HasLink(c, a, b)
    requires IsRoute(d, u, es)
    ensures Reachable(c, u, v) || Reachable(c, u, End(u, es))
    decreases |es|
  {
    if es == [] {
      ReachSelf(c, u);
    } else {
      var init := es[..|es| - 1];
      var x, y := End(u, init), End(u, es);
      OneDirectionEnough(c, d, u, v, init);
      assert HasLink(d, x, y);
      if x != v && !Reachable(c, u, v) { ReachStep(c, u, x, y); }
    }
  }

  lemma {:induction false} MoreLinks(c: LinkArray, d: LinkArray, u: NodeId, es: seq<Edge>)
    requires (forall a, b :: HasLink(c, a, b) ==> HasLink(d, a, b)) && IsRoute(c, u, es)
    ensures Reachable(d, u, End(u, es))
    decreases |es|
  {
    if es == [] {
      ReachSelf(d, u);
    } else {
      var init := es[..|es| - 1];
      MoreLinks(c, d, u, init);
      assert HasLink(c, End(u, init), End(u, es));
      ReachStep(d, u, End(u, init), End(u, es));
    }
  }

  /** Whether there is a way depends only on which nodes are joined. */
  lemma SameReach(c: LinkArray, d: LinkArray, u: NodeId, v: NodeId)
    requires forall a, b :: HasLink(c, a, b) <==> HasLink(d, a, b)
    ensures Reachable(c, u, v) <==> Reachable(d, u, v)
  {
    if es :| IsRoute(c, u, es) && End(u, es) == v { MoreLinks(c, d, u, es); }
    if es :| IsRoute(d, u, es) && End(u, es) == v { MoreLinks(d, c, u, es); }
  }

  /** Where links go both ways it is enough to take one direction out to see whether a link is a bridge. */
  lemma OneDirection(links: LinkArray, u: NodeId, v: NodeId)
    requires Duplex(links)
    ensures IsBridge(links, u, v) <==> Needed(links, u, v)
  {
    if HasLink(links, u, v) {
      var d := CutOnce(links, u, v);
      var c := CutOnce(d, v, u);
      forall a, b
        ensures HasLink(d, a, b) <==> HasLink(links, a, b) && (a == u && b == v ==> Parallel(links, u, v))
        ensures HasLink(c, a, b) <==> HasLink(d, a, b) && (a == v && b == u ==> Parallel(d, v, u))
      {
        CutOnceLinks(links, u, v, a, b);
        CutOnceLinks(d, v, u, a, b);
      }
      CutOnceLinks(links, u, v, v, u);
      if u == v {
        ReachSelf(c, u);
        ReachSelf(d, u);
      } else if Parallel(links, u, v) {
        ReachSelf(c, u);
        ReachStep(c, u, u, v);
        ReachSelf(d, u);
        ReachStep(d, u, u, v);
      } else {
        if es :| IsRoute(d, u, es) && End(u, es) == v { OneDirectionEnough(c, d, u, v, es); }
        if es :| IsRoute(c, u, es) && End(u, es) == v { MoreLinks(c, d, u, es); }
      }
    }
  }

  /** A bridge is one in both directions. */
  lemma BridgeBothWays(links: LinkArray, u: NodeId, v: NodeId)
    requires Duplex(links)
    ensures IsBridge(links, u, v) <==> IsBridge(links, v, u)
  {
    if u != v {
      if Reachable(CutOnce(CutOnce(links, u, v), v, u), u, v) { BridgeBack(links, u, v); }
      if Reachable(CutOnce(CutOnce(links, v, u), u, v), v, u) { BridgeBack(links, v, u); }
    }
  }

  lemma BridgeBack(links: LinkArray, u: NodeId, v: NodeId)
    requires Duplex(links) && u != v && Reachable(CutOnce(CutOnce(links, u, v), v, u), u, v)
    ensures Reachable(CutOnce(CutOnce(links, v, u), u, v), v, u)
  {
    var c, d := CutOnce(CutOnce(links, u, v), v, u), CutOnce(CutOnce(links, v, u), u, v);
    forall a, b
      ensures HasLink(c, a, b) <==> HasLink(d, a, b)
      ensures HasLink(c, a, b) <==> HasLink(c, b, a)
    {
      CutTwiceLinks(links, u, v, a, b);
      CutTwiceLinks(links, v, u, a, b);
      CutTwiceLinks(links, u, v, b, a);
    }
    var es :| IsRoute(c, u, es) && End(u, es) == v;
    ReachBack(c, u, es);
    SameReach(c, d, v, u);
  }

  lemma CutTwiceLinks(links: LinkArray, u: NodeId, v: NodeId, a: NodeId, b: NodeId)
    requires Duplex(links)
    ensures u != v ==>
      (HasLink(CutOnce(CutOnce(links, u, v), v, u), a, b) <==>
       HasLink(links, a, b) && ((a == u && b == v) || (a == v && b == u) ==> Parallel(links, u, v)))
  {
    CutOnceLinks(links, u, v, a, b);
    CutOnceLinks(links, u, v, v, u);
    CutOnceLinks(CutOnce(links, u, v), v, u, a, b);
  }

  lemma {:induction false} StaysInside(links: LinkArray, u: NodeId, es: seq<Edge>)
    requires (forall a, b :: HasLink(links, a, b) ==> b in links) && u in links && IsRoute(links, u, es)
    ensures End(u, es) in links
    decreases |es|
  {
    if es != [] {
      var init := es[..|es| - 1];
      StaysInside(links, u, init);
      assert HasLink(links, End(u, init), End(u, es));
    }
  }

  // ---- the working copy of the network ---------------------------------------------------------

  /** The same nodes are joined. */
  ghost predicate SameLinks(a: LinkArray, b: LinkArray) {
    a.Keys == b.Keys && forall x, y :: HasLink(a, x, y) <==> HasLink(b, x, y)
  }

  /** The same edges at every node, in whatever order. */
  ghost predicate SameEdges(a: LinkArray, b: LinkArray) {
    a.Keys == b.Keys && forall n :: n in a ==> multiset(a[n]) == multiset(b[n])
  }

  /** The working copy: putting a link back merges it with its double, so links that have been tested
      may have lost theirs. Without doubled links all edges are there. */
  ghost predicate Copy(aux: LinkArray, topo: LinkArray, tested: seq<Link>) {
    && SameLinks(aux, topo) && (Simple(topo) ==> SameEdges(aux, topo))
    && forall a, b :: Link(a, b) !in tested ==> (Parallel(aux, a, b) <==> Parallel(topo, a, b))
  }

  /** In the working copy an untested link is needed exactly if it is in the network itself. */
  lemma NeededInCopy(aux: LinkArray, topo: LinkArray, tested: seq<Link>, u: NodeId, v: NodeId)
    requires Copy(aux, topo, tested) && Link(u, v) !in tested
    ensures Needed(aux, u, v) <==> Needed(topo, u, v)
  {
    forall a, b
      ensures HasLink(CutOnce(aux, u, v), a, b) <==> HasLink(CutOnce(topo, u, v), a, b)
    {
      CutOnceLinks(aux, u, v, a, b);
      CutOnceLinks(topo, u, v, a, b);
    }
    SameReach(CutOnce(aux, u, v), CutOnce(topo, u, v), u, v);
  }

  /** The links after an edge has been added: appended, or its cost given to the first edge to the same node. */
  function Added(links: LinkArray, u: NodeId, e: Edge): LinkArray {
    var edges := if u in links then links[u] else [];
    var k := FirstTo(edges, e.last);
    links[u := if k < |edges| then edges[k := edges[k].(cost := e.cost)] else edges + [e]]
  }

  /** A link taken out and put back: its double, if it had one, is gone. */
  lemma PutBack(aux: LinkArray, topo: LinkArray, tested: seq<Link>, u: NodeId, v: NodeId)
    requires Copy(aux, topo, tested) && Link(u, v) !in tested && HasLink(aux, u, v)
    ensures FirstTo(aux[u], v) < |aux[u]|
    ensures Copy(Added(CutOnce(aux, u, v), u, aux[u][FirstTo(aux[u], v)]), topo, tested + [Link(u, v)] + [Link(v, u)])
  {
    FirstToFinds(aux, u, v);
    var r := Added(CutOnce(aux, u, v), u, aux[u][FirstTo(aux[u], v)]);
    if Simple(topo) { PutBackEdges(aux, topo, u, v); }
    PutBackLinks(aux, u, v, u, v);
    forall a, b
      ensures HasLink(r, a, b) <==> HasLink(aux, a, b)
      ensures !(a == u && b == v) ==> (Parallel(r, a, b) <==> Parallel(aux, a, b))
    {
      hide CutOnce, Added, HasLink, Parallel;
      PutBackLinks(aux, u, v, a, b);
    }
    CopyStays(aux, r, topo, tested, u, v);
  }

  lemma CopyStays(aux: LinkArray, r: LinkArray, topo: LinkArray, tested: seq<Link>, u: NodeId, v: NodeId)
    requires Copy(aux, topo, tested) && r.Keys == aux.Keys && (Simple(topo) ==> SameEdges(r, topo))
    requires forall a, b :: HasLink(r, a, b) <==> HasLink(aux, a, b)
    requires forall a, b :: !(a == u && b == v) ==> (Parallel(r, a, b) <==> Parallel(aux, a, b))
    ensures Copy(r, topo, tested + [Link(u, v)] + [Link(v, u)])
  {
    hide HasLink, Parallel, SameEdges;
    InBoth(tested, Link(u, v), Link(v, u));
  }

  lemma PutBackLinks(aux: LinkArray, u: NodeId, v: NodeId, a: NodeId, b: NodeId)
    requires HasLink(aux, u, v) && FirstTo(aux[u], v) < |aux[u]|
    ensures var r := Added(CutOnce(aux, u, v), u, aux[u][FirstTo(aux[u], v)]);
            && r.Keys == aux.Keys && (HasLink(r, a, b) <==> HasLink(aux, a, b))
            && (!(a == u && b == v) ==> (Parallel(r, a, b) <==> Parallel(aux, a, b)))
  {
    var k, d := FirstTo(aux[u], v), CutOnce(aux, u, v);
    AddedCount(d, u, aux[u][k], b);
    CountErased(aux[u], k, b);
    if a in aux {
      FirstToFinds(Added(d, u, aux[u][k]), a, b);
      FirstToFinds(aux, a, b);
    }
  }

  lemma AddedCount(d: LinkArray, u: NodeId, e: Edge, b: NodeId)
    requires u in d
    ensures Count(Added(d, u, e)[u], b) ==
            Count(d[u], b) + if b == e.last && FirstTo(d[u], b) == |d[u]| then 1 else 0
  {
    var k := FirstTo(d[u], e.last);
    if k < |d[u]| { CountUpdated(d[u], k, d[u][k].(cost := e.cost), b); } else { CountAppend(d[u], [e], b); }
  }

  lemma PutBackEdges(aux: LinkArray, topo: LinkArray, u: NodeId, v: NodeId)
    requires u in aux && FirstTo(aux[u], v) < |aux[u]| && !Parallel(aux, u, v) && SameEdges(aux, topo)
    ensures SameEdges(Added(CutOnce(aux, u, v), u, aux[u][FirstTo(aux[u], v)]), topo)
  {
    var k := FirstTo(aux[u], v);
    CutOnceLinks(aux, u, v, u, v);
    FirstToFinds(CutOnce(aux, u, v), u, v);
    ErasedMultiset(aux[u], k);
  }

  // ---- links tested and links found ---------------------------------------------------------------

  datatype Link = Link(from: NodeId, to: NodeId) {
    function Flip(): Link { Link(to, from) }
  }

  /** Whether link `l` may have been found: one of its directions is needed; and may not: one is not. */
  ghost predicate Possible(topo: LinkArray, l: Link) { Needed(topo, l.from, l.to) || Needed(topo, l.to, l.from) }

  ghost predicate Dispensable(topo: LinkArray, l: Link) {
    (HasLink(topo, l.from, l.to) && !Needed(topo, l.from, l.to)) || (HasLink(topo, l.to, l.from) && !Needed(topo, l.to, l.from))
  }

  /** Links are tested in both directions at once, by one of them, and found in both or none. */
  ghost predicate Judged(topo: LinkArray, tested: seq<Link>, found: seq<Link>) {
    && Distinct(found) && (forall l :: l in found ==> l in tested)
    && forall l {:trigger Verdict(topo, tested, found, l)} :: l in tested ==> Verdict(topo, tested, found, l)
  }

  ghost predicate Verdict(topo: LinkArray, tested: seq<Link>, found: seq<Link>, l: Link) {
    l.Flip() in tested && (l in found <==> l.Flip() in found) && if l in found then Possible(topo, l) else Dispensable(topo, l)
  }

  lemma InBoth<T>(s: seq<T>, x: T, y: T)
    ensures forall p :: p in s + [x] + [y] <==> p in s || p == x || p == y
  {
  }

  /** One more link tested. */
  lemma JudgedGrows(topo: LinkArray, tested: seq<Link>, found: seq<Link>, l: Link, needed: bool)
    requires Judged(topo, tested, found) && l !in tested && HasLink(topo, l.from, l.to) && (needed <==> Needed(topo, l.from, l.to))
    ensures Judged(topo, tested + [l] + [l.Flip()], if needed then found + [l] + [l.Flip()] else found)
  {
    var more, f := tested + [l] + [l.Flip()], if needed then found + [l] + [l.Flip()] else found;
    InBoth(tested, l, l.Flip());
    InBoth(found, l, l.Flip());
    FlipUntested(topo, tested, found, l);
    if l == l.Flip() { ReachSelf(CutOnce(topo, l.from, l.to), l.from); }
    forall p | p in more
      ensures Verdict(topo, more, f, p)
    {
      if p in tested { assert Verdict(topo, tested, found, p); }
    }
  }

  lemma FlipUntested(topo: LinkArray, tested: seq<Link>, found: seq<Link>, l: Link)
    requires Judged(topo, tested, found) && l !in tested
    ensures l.Flip() !in tested && l.Flip().Flip() == l && l !in found && l.Flip() !in found
  {
    forall p | p in tested
      ensures p.Flip() in tested
    {
      assert Verdict(topo, tested, found, p);
    }
    assert l.Flip().Flip() == l;
  }

  ghost predicate EdgesTestedTo(topo: LinkArray, a: NodeId, tested: seq<Link>, n: nat) {
    a in topo && forall j :: 0 <= j < n && j < |topo[a]| ==> Link(a, topo[a][j].last) in tested
  }

  ghost predicate Kept(before: seq<Link>, after: seq<Link>) { forall l :: l in before ==> l in after }

  lemma NextTested(topo: LinkArray, a: NodeId, first: seq<Link>, before: seq<Link>, after: seq<Link>, n: nat)
    requires EdgesTestedTo(topo, a, before, n) && Kept(first, before) && Kept(before, after)
    requires n < |topo[a]| && Link(a, topo[a][n].last) in after
    ensures EdgesTestedTo(topo, a, after, n + 1) && Kept(first, after)
  {
  }

  /** All links of `a` have been tested once those of its edges have. */
  lemma EdgesTested(topo: LinkArray, a: NodeId, tested: seq<Link>)
    requires a in topo && EdgesTestedTo(topo, a, tested, |topo[a]|)
    ensures forall b :: HasLink(topo, a, b) ==> Link(a, b) in tested
  {
    forall b | HasLink(topo, a, b)
      ensures Link(a, b) in tested
    {
      var e :| e in topo[a] && e.last == b;
    }
  }

  /** What the links found are once all have been tested: links with a direction that is needed, all
      links needed in every direction they have, and where links go both ways exactly the bridges. */
  lemma AllJudged(topo: LinkArray, tested: seq<Link>, found: seq<Link>)
    requires Judged(topo, tested, found) && forall a, b :: HasLink(topo, a, b) ==> Link(a, b) in tested
    ensures forall l :: l in found ==> l.Flip() in found && Possible(topo, l)
    ensures forall l: Link :: HasLink(topo, l.from, l.to) && !Dispensable(topo, l) ==> l in found
    ensures Duplex(topo) ==> forall l :: l in found <==> IsBridge(topo, l.from, l.to)
  {
    forall l | l in tested ensures Verdict(topo, tested, found, l) {}
    forall l
      ensures l in found ==> l.Flip() in found && Possible(topo, l)
      ensures HasLink(topo, l.from, l.to) && !Dispensable(topo, l) ==> l in found
      ensures Duplex(topo) ==> (l in found <==> IsBridge(topo, l.from, l.to))
    {
      if l in found || HasLink(topo, l.from, l.to) {
        assert Link(l.from, l.to) == l;
        assert Verdict(topo, tested, found, l);
      }
      if Duplex(topo) {
        OneDirection(topo, l.from, l.to);
        OneDirection(topo, l.to, l.from);
        BridgeBothWays(topo, l.from, l.to);
      }
    }
  }
}
