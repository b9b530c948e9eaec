/** What a query visits, and when that is every overlapping interval. */
module IntervalQueries {
  import opened IntervalTrees
  import opened IntervalTreeNodes

  predicate Overlap(a1: SimTime, a2: SimTime, b1: SimTime, b2: SimTime) {
    if a1 <= b1 then b1 <= a2 else a1 <= b2
  }

  predicate Within(p: int, a: SimTime, b: SimTime) { a <= p <= b }

  /** For proper intervals, overlapping means having a point in common. */
  lemma OverlapMeaning(a1: SimTime, a2: SimTime, b1: SimTime, b2: SimTime)
    requires a1 <= a2 && b1 <= b2
    ensures Overlap(a1, a2, b1, b2) <==> exists p: int :: Within(p, a1, a2) && Within(p, b1, b2)
  {
    if Overlap(a1, a2, b1, b2) {
      var p := if a1 <= b1 then b1 else a1;
      assert Within(p, a1, a2) && Within(p, b1, b2);
    }
  }

  predicate Hit(iv: Interval, low: SimTime, high: SimTime) { Overlap(low, high, iv.low, iv.high) }

  /** The intervals found below a node: the left subtree is searched only if something in it ends
      late enough, and the right subtree after it only if the left search found something. */
  ghost function Visit(t: Tree, low: SimTime, high: SimTime): seq<Interval> {
    if t.Leaf? then []
    else
      (if Hit(t.iv, low, high) then [t.iv] else []) +
      if MaxHigh(t.left) >= low then
        var l := Visit(t.left, low, high);
        if l == [] then [] else l + Visit(t.right, low, high)
      else Visit(t.right, low, high)
  }

  /** Every overlapping interval, each node before its subtrees. */
  ghost function Hits(t: Tree, low: SimTime, high: SimTime): seq<Interval> {
    if t.Leaf? then []
    else (if Hit(t.iv, low, high) then [t.iv] else []) + Hits(t.left, low, high) + Hits(t.right, low, high)
  }

  /** The overlapping ones among a sequence of entries. */
  ghost function Overlapping(s: seq<Entry>, low: SimTime, high: SimTime): seq<Interval> {
    if s == [] then []
    else (if Hit(s[0].iv, low, high) then [s[0].iv] else []) + Overlapping(s[1..], low, high)
  }

  lemma RegroupHits(a: seq<Interval>, b: seq<Interval>, c: seq<Interval>)
    ensures a + b + c == a + (b + c)
  {
  }

  lemma {:induction false} OverlappingAppend(a: seq<Entry>, b: seq<Entry>, low: SimTime, high: SimTime)
    ensures Overlapping(a + b, low, high) == Overlapping(a, low, high) + Overlapping(b, low, high)
  {
    if a == [] {
      assert a + b == b;
    } else {
      assert (a + b)[1..] == a[1..] + b && (a + b)[0] == a[0];
      OverlappingAppend(a[1..], b, low, high);
      RegroupHits(if Hit(a[0].iv, low, high) then [a[0].iv] else [], Overlapping(a[1..], low, high), Overlapping(b, low, high));
    }
  }

  lemma {:induction false} HitsAreOverlapping(t: Tree, low: SimTime, high: SimTime)
    ensures multiset(Hits(t, low, high)) == multiset(Overlapping(Inorder(t), low, high))
  {
    if t.Br? {
      HitsAreOverlapping(t.left, low, high);
      HitsAreOverlapping(t.right, low, high);
      OverlappingInorder(t, low, high);
    }
  }

  lemma OverlappingInorder(t: Tree, low: SimTime, high: SimTime)
    requires t.Br?
    ensures Overlapping(Inorder(t), low, high)
         == Overlapping(Inorder(t.left), low, high) + Here(t, low, high) + Overlapping(Inorder(t.right), low, high)
  {
    var e := [Entry(t.id, t.iv)];
    OverlappingAppend(Inorder(t.left) + e, Inorder(t.right), low, high);
    OverlappingAppend(Inorder(t.left), e, low, high);
    assert e[1..] == [] && Overlapping([], low, high) == [];
    assert Here(t, low, high) + [] == Here(t, low, high);
  }

  /** Stored intervals end no earlier than they begin. */
  ghost predicate Proper(t: Tree) { t.Br? ==> t.iv.low <= t.iv.high && Proper(t.left) && Proper(t.right) }

  /** In key order, without talking about sequences. */
  ghost predicate Ordered(t: Tree) {
    t.Br? ==>
      && Ordered(t.left) && Ordered(t.right)
      && (forall e :: e in Inorder(t.left) ==> e.iv.low <= t.iv.low)
      && (forall e :: e in Inorder(t.right) ==> t.iv.low <= e.iv.low)
  }

  lemma SortedEnds(a: seq<Entry>, b: seq<Entry>, d: seq<Entry>)
    requires Sorted(a + b + d)
    ensures Sorted(a) && Sorted(d)
  {
    var s := a + b + d;
    forall i, j | 0 <= i < j < |a| ensures a[i].iv.low <= a[j].iv.low { assert a[i] == s[i] && a[j] == s[j]; }
    forall i, j | 0 <= i < j < |d|
      ensures d[i].iv.low <= d[j].iv.low
    {
      var k := |a| + |b|;
      assert d[i] == s[k + i] && d[j] == s[k + j];
    }
  }

  lemma {:induction false} SortedOrdered(t: Tree)
    requires Sorted(Inorder(t))
    ensures Ordered(t)
  {
    if t.Br? {
      var l, e, r := Inorder(t.left), [Entry(t.id, t.iv)], Inorder(t.right);
      SortedParts(l, e, r);
      SortedEnds(l, e, r);
      SortedOrdered(t.left);
      SortedOrdered(t.right);
    }
  }

  lemma {:induction false} NoHits(t: Tree, low: SimTime, high: SimTime)
    requires forall e :: e in Inorder(t) ==> !Hit(e.iv, low, high)
    ensures Hits(t, low, high) == []
  {
    if t.Br? {
      assert Entry(t.id, t.iv) in Inorder(t);
      NoHits(t.left, low, high);
      NoHits(t.right, low, high);
    }
  }

  lemma {:induction false} HitCounts(t: Tree, e: Entry, low: SimTime, high: SimTime)
    requires e in Inorder(t) && Hit(e.iv, low, high)
    ensures Hits(t, low, high) != []
  {
    if e in Inorder(t.left) {
      HitCounts(t.left, e, low, high);
    } else if e in Inorder(t.right) {
      HitCounts(t.right, e, low, high);
    }
  }

  ghost predicate AllProper(s: seq<Entry>) { forall e :: e in s ==> e.iv.low <= e.iv.high }

  lemma {:induction false} ProperEntries(t: Tree)
    ensures Proper(t) <==> AllProper(Inorder(t))
  {
    if t.Br? {
      ProperEntries(t.left);
      ProperEntries(t.right);
      assert Entry(t.id, t.iv) in Inorder(t);
      assert forall e :: e in Inorder(t.left) || e in Inorder(t.right) ==> e in Inorder(t);
    }
  }

  /** If something on the left ends late enough but nothing on the left overlaps, then nothing on
      the right overlaps either: whatever ended late enough starts too late. */
  lemma RightSkippable(t: Tree, low: SimTime, high: SimTime)
    requires Ordered(t) && MaxOk(t) && Proper(t) && t.Br? && t.left.Br? && MaxHigh(t.left) >= low
    requires Hits(t.left, low, high) == []
    ensures Hits(t.right, low, high) == []
  {
    MaxHighIsMaximum(t.left);
    var i :| i in Inorder(t.left) && i.iv.high == MaxHigh(t.left);
    if Hit(i.iv, low, high) { HitCounts(t.left, i, low, high); }
    ProperEntries(t.right);
    assert forall e :: e in Inorder(t.right) ==> i.iv.low <= t.iv.low <= e.iv.low;
    NoHits(t.right, low, high);
  }

  /** A left subtree whose intervals all end before the query begins has no answer. */
  lemma LeftSkippable(t: Tree, low: SimTime, high: SimTime)
    requires MaxOk(t) && Proper(t) && MaxHigh(t) < low
    ensures Hits(t, low, high) == []
  {
    MaxHighIsMaximum(t);
    ProperEntries(t);
    NoHits(t, low, high);
  }

  /** A query that does not begin at the sentinel's time visits exactly the overlapping intervals. */
  lemma {:induction false} VisitFindsAll(t: Tree, low: SimTime, high: SimTime)
    requires Ordered(t) && MaxOk(t) && Proper(t) && low > -MAX_TIME
    ensures Visit(t, low, high) == Hits(t, low, high)
  {
    if t.Br? {
      VisitFindsAll(t.left, low, high);
      VisitFindsAll(t.right, low, high);
      if MaxHigh(t.left) >= low {
        assert t.left.Br?;
        if Hits(t.left, low, high) == [] { RightSkippable(t, low, high); }
      } else {
        LeftSkippable(t.left, low, high);
      }
    }
  }

  /** On a good tree such a query finds each overlapping interval as often as it is stored. */
  lemma VisitExact(t: Tree, low: SimTime, high: SimTime)
    requires Good(t) && Proper(t) && low > -MAX_TIME
    ensures multiset(Visit(t, low, high)) == multiset(Overlapping(Inorder(t), low, high))
  {
    SortedOrdered(t);
    VisitFindsAll(t, low, high);
    HitsAreOverlapping(t, low, high);
  }

  // ---- queries that begin at the sentinel's time -----------------------------------------------

  /** No node without a left child has an answer in its right subtree. */
  ghost predicate NothingBehindNil(t: Tree, high: SimTime) {
    t.Br? ==>
      && NothingBehindNil(t.left, high) && NothingBehindNil(t.right, high)
      && (t.left.Leaf? ==> Hits(t.right, -MAX_TIME, high) == [])
  }

  lemma {:induction false} NothingAtAll(t: Tree, high: SimTime)
    requires Hits(t, -MAX_TIME, high) == []
    ensures NothingBehindNil(t, high)
  {
    if t.Br? {
      NothingAtAll(t.left, high);
      NothingAtAll(t.right, high);
    }
  }

  lemma {:induction false} VisitAtMost(t: Tree, low: SimTime, high: SimTime)
    ensures |Visit(t, low, high)| <= |Hits(t, low, high)|
  {
    if t.Br? {
      VisitAtMost(t.left, low, high);
      VisitAtMost(t.right, low, high);
    }
  }

  /** At the sentinel's own time an absent left child passes for one that ends late enough, and
      the right subtree behind it is lost: the query is complete exactly if none of these right
      subtrees holds an answer. */
  lemma {:induction false} VisitAtSentinelTime(t: Tree, high: SimTime)
    requires Ordered(t) && MaxOk(t) && Proper(t)
    ensures Visit(t, -MAX_TIME, high) == Hits(t, -MAX_TIME, high) <==> NothingBehindNil(t, high)
  {
    hide Hit;
    var low := -MAX_TIME;
    if t.Br? {
      var l, r := Hits(t.left, low, high), Hits(t.right, low, high);
      VisitAtSentinelTime(t.left, high);
      VisitAtSentinelTime(t.right, high);
      VisitAtMost(t.left, low, high);
      VisitAtMost(t.right, low, high);
      var v, w := Visit(t.left, low, high), Visit(t.right, low, high);
      var here := if Hit(t.iv, low, high) then [t.iv] else [];
      if t.left.Br? && l == [] {
        RightSkippable(t, low, high);
        NothingAtAll(t.left, high);
        NothingAtAll(t.right, high);
      } else if t.left.Leaf? {
        if r == [] { NothingAtAll(t.right, high); }
        assert Visit(t, low, high) == here && Hits(t, low, high) == here + r;
      } else {
        assert Hits(t, low, high) == here + l + r;
        if v == [] {
          assert |Visit(t, low, high)| < |Hits(t, low, high)|;
        } else {
          assert Visit(t, low, high) == here + v + w;
          if here + v + w == here + l + r {
            assert |v| == |l|;
            assert v == (here + v + w)[|here|..|here| + |v|] == l;
            assert w == (here + v + w)[|here| + |v|..] == r;
          }
        }
      }
    }
  }

  /** Two proper intervals and a well-formed tree for which such a query misses one of them. */
  lemma SentinelTimeMisses(n: Node, m: Node)
    requires n != m
    ensures var i, j := Interval(0, 0, 1), Interval(1, 1, 2);
            var t := Br(Leaf, n, i, false, 1, Br(Leaf, m, j, true, 1, Leaf));
            && Wf(t) && Good(t) && Proper(t)
            && Visit(t, -MAX_TIME, 1) == [i] && Hits(t, -MAX_TIME, 1) == [i, j]
  {
    var i, j := Interval(0, 0, 1), Interval(1, 1, 2);
    var u := Br(Leaf, m, j, true, 1, Leaf);
    var t := Br(Leaf, n, i, false, 1, u);
    assert Inorder(u) == [Entry(m, j)];
    assert Inorder(t) == [Entry(n, i), Entry(m, j)];
    assert Hits(u, -MAX_TIME, 1) == [j];
    assert !IsRed(u.left) && !IsRed(u.right);
    assert MaxOk(u) && Bal(u) && NoRR(u);
  }

  // ---- the search as the loop runs it --------------------------------------------------------

  /** A node whose left subtree is being searched, and whether its right one is to follow. */
  datatype Pending = Pending(t: Tree, tryRight: bool)

  ghost function Marked(p: seq<Pending>, b: bool): seq<Pending> {
    if p == [] || !b then p else p[|p| - 1 := p[|p| - 1].(tryRight := true)]
  }

  /** What is still to be found once the current subtree is done. */
  ghost function Unwind(p: seq<Pending>, low: SimTime, high: SimTime): seq<Interval>
    decreases |p|
  {
    if p == [] then []
    else
      var last, rest := p[|p| - 1], p[..|p| - 1];
      if last.tryRight && last.t.Br? then Visit(last.t.right, low, high) + Unwind(Marked(rest, true), low, high)
      else Unwind(rest, low, high)
  }

  /** What is still to be found from subtree `t` on. */
  ghost function Run(t: Tree, p: seq<Pending>, low: SimTime, high: SimTime): seq<Interval> {
    Visit(t, low, high) + Unwind(Marked(p, Visit(t, low, high) != []), low, high)
  }

  ghost function Here(t: Tree, low: SimTime, high: SimTime): seq<Interval>
    requires t.Br?
  {
    if Hit(t.iv, low, high) then [t.iv] else []
  }

  /** `found`, and what is found at the root of `t`. */
  ghost function Grown(found: seq<Interval>, t: Tree, low: SimTime, high: SimTime): seq<Interval>
    requires t.Br?
  {
    if Hit(t.iv, low, high) then found + [t.iv] else found
  }

  /** One step of the search, whichever way it goes. */
  lemma RunGrown(found: seq<Interval>, t: Tree, p: seq<Pending>, low: SimTime, high: SimTime)
    requires t.Br?
    ensures found + Run(t, p, low, high) == Grown(found, t, low, high) +
      if MaxHigh(t.left) >= low then Run(t.left, Marked(p, Hit(t.iv, low, high)) + [Pending(t, false)], low, high)
      else Run(t.right, Marked(p, Hit(t.iv, low, high)), low, high)
  {
    hide Run, Visit, Unwind;
    var rest := if MaxHigh(t.left) >= low then Run(t.left, Marked(p, Hit(t.iv, low, high)) + [Pending(t, false)], low, high)
                else Run(t.right, Marked(p, Hit(t.iv, low, high)), low, high);
    if MaxHigh(t.left) >= low { RunLeft(t, p, low, high); } else { RunRight(t, p, low, high); }
    assert found + (Here(t, low, high) + rest) == (found + Here(t, low, high)) + rest;
    assert found + Here(t, low, high) == Grown(found, t, low, high);
  }

  lemma RunLeft(t: Tree, p: seq<Pending>, low: SimTime, high: SimTime)
    requires t.Br? && MaxHigh(t.left) >= low
    ensures Run(t, p, low, high) ==
            Here(t, low, high) + Run(t.left, Marked(p, Hit(t.iv, low, high)) + [Pending(t, false)], low, high)
  {
    var hit := Hit(t.iv, low, high);
    var here := if hit then [t.iv] else [];
    var q := Marked(p, hit);
    var l, r := Visit(t.left, low, high), Visit(t.right, low, high);
    var pushed := Marked(q + [Pending(t, false)], l != []);
    assert pushed == q + [Pending(t, l != [])];
    assert pushed[..|pushed| - 1] == q;
    if l != [] {
      assert Visit(t, low, high) == here + (l + r);
      assert Marked(q, true) == Marked(p, true);
      var rest := Unwind(Marked(p, true), low, high);
      assert Unwind(pushed, low, high) == r + rest;
      assert here + (l + r) + rest == here + (l + (r + rest));
    } else {
      assert Visit(t, low, high) == here;
      assert Unwind(pushed, low, high) == Unwind(q, low, high);
      assert [] + Unwind(q, low, high) == Unwind(q, low, high);
    }
  }

  lemma RunRight(t: Tree, p: seq<Pending>, low: SimTime, high: SimTime)
    requires t.Br? && MaxHigh(t.left) < low
    ensures Run(t, p, low, high) == Here(t, low, high) + Run(t.right, Marked(p, Hit(t.iv, low, high)), low, high)
  {
    var hit := Hit(t.iv, low, high);
    var here := if hit then [t.iv] else [];
    var r := Visit(t.right, low, high);
    var q := Marked(p, Visit(t, low, high) != []);
    assert Marked(Marked(p, hit), r != []) == q;
    assert here + r + Unwind(q, low, high) == here + (r + Unwind(q, low, high));
  }

  lemma SearchStart(t: Tree, low: SimTime, high: SimTime)
    ensures [] + Run(t, [], low, high) == Visit(t, low, high) && (t.Leaf? ==> Visit(t, low, high) == [])
    ensures Subtree(t, t) && AllBelow(t, [])
  {
  }

  lemma PopStep(p: seq<Pending>, low: SimTime, high: SimTime)
    requires p != [] && p[|p| - 1].t.Br?
    ensures var last, rest := p[|p| - 1], p[..|p| - 1];
            Unwind(p, low, high) == if last.tryRight then Run(last.t.right, Marked(rest, true), low, high)
                                    else Unwind(rest, low, high)
  {
    var last, rest := p[|p| - 1], p[..|p| - 1];
    var m := Marked(rest, true);
    assert forall b :: Marked(m, b) == m;
  }

  lemma RunLeaf(p: seq<Pending>, low: SimTime, high: SimTime)
    ensures Run(Leaf, p, low, high) == Unwind(p, low, high)
  {
  }

  /** What remains to be looked at; every round of the loop makes it less. */
  ghost function Work(p: seq<Pending>): nat {
    if p == [] then 0 else Work(p[..|p| - 1]) + 1 + if p[|p| - 1].t.Br? then 2 * Size(p[|p| - 1].t.right) else 0
  }

  lemma WorkMarked(p: seq<Pending>, b: bool)
    ensures Work(Marked(p, b)) == Work(p)
  {
    if p != [] && b {
      assert Marked(p, b)[..|p| - 1] == p[..|p| - 1];
    }
  }

  lemma WorkPush(p: seq<Pending>, x: Pending)
    requires x.t.Br?
    ensures Work(p + [x]) == Work(p) + 1 + 2 * Size(x.t.right)
  {
    assert (p + [x])[..|p|] == p;
  }

  // ---- looking for a stored interval --------------------------------------------------------------

  /** Every node before its subtrees, the left before the right one. */
  ghost function Preorder(t: Tree): seq<Entry> {
    if t.Leaf? then [] else [Entry(t.id, t.iv)] + Preorder(t.left) + Preorder(t.right)
  }

  lemma {:induction false} SameEntries(t: Tree)
    ensures forall e :: e in Preorder(t) <==> e in Inorder(t)
  {
    if t.Br? {
      SameEntries(t.left);
      SameEntries(t.right);
    }
  }

  /** The first node that stores `iv`, or `none`. */
  ghost function FirstStoring(s: seq<Entry>, iv: Interval, none: Node): Node {
    if s == [] then none else if s[0].iv == iv then s[0].id else FirstStoring(s[1..], iv, none)
  }

  lemma {:induction false} FirstStoringAppend(a: seq<Entry>, b: seq<Entry>, iv: Interval, none: Node)
    ensures FirstStoring(a + b, iv, none) == FirstStoring(a, iv, FirstStoring(b, iv, none))
  {
    if a == [] {
      assert a + b == b;
    } else {
      assert (a + b)[1..] == a[1..] + b;
      FirstStoringAppend(a[1..], b, iv, none);
    }
  }

  lemma {:induction false} FirstStoringIs(s: seq<Entry>, iv: Interval, none: Node, other: Node)
    ensures (exists e :: e in s && e.iv == iv) ==>
              FirstStoring(s, iv, none) == FirstStoring(s, iv, other) && Entry(FirstStoring(s, iv, none), iv) in s
    ensures !(exists e :: e in s && e.iv == iv) ==> FirstStoring(s, iv, none) == none
  {
    if s != [] {
      FirstStoringIs(s[1..], iv, none, other);
      assert s[0] in s;
      assert forall e :: e in s[1..] ==> e in s;
    }
  }

  /** How the search goes through the node and its subtrees. */
  lemma SearchStep(t: Tree, iv: Interval, none: Node)
    requires t.Br?
    ensures t.iv == iv ==> FirstStoring(Preorder(t), iv, none) == t.id
    ensures t.iv != iv && (exists e :: e in Inorder(t.left) && e.iv == iv) ==>
              FirstStoring(Preorder(t), iv, none) == FirstStoring(Preorder(t.left), iv, none)
    ensures t.iv != iv && !(exists e :: e in Inorder(t.left) && e.iv == iv) ==>
              FirstStoring(Preorder(t), iv, none) == FirstStoring(Preorder(t.right), iv, none)
  {
    var l, r := Preorder(t.left), Preorder(t.right);
    assert Preorder(t)[1..] == l + r;
    FirstStoringAppend(l, r, iv, none);
    FirstStoringIs(l, iv, none, FirstStoring(r, iv, none));
    FirstStoringIs(l, iv, FirstStoring(r, iv, none), none);
    SameEntries(t.left);
    if e :| e in Inorder(t.left) && e.iv == iv { assert e in l; }
  }

  // ---- subtrees in memory ------------------------------------------------------------------------

  ghost predicate Subtree(t: Tree, u: Tree) {
    u == t || (t.Br? && (Subtree(t.left, u) || Subtree(t.right, u)))
  }

  ghost predicate AllBelow(t: Tree, p: seq<Pending>) { forall i :: 0 <= i < |p| ==> Subtree(t, p[i].t) }

  lemma {:induction false} SubtreeTrans(t: Tree, u: Tree, v: Tree)
    requires Subtree(t, u) && Subtree(u, v)
    ensures Subtree(t, v)
  {
    if u != t {
      if Subtree(t.left, u) { SubtreeTrans(t.left, u, v); } else { SubtreeTrans(t.right, u, v); }
    }
  }

  /** The fields of the root of any subtree. */
  lemma {:induction false} SubtreeNode(s: Sentinels, m: Memory, t: Tree, p: Node, u: Tree)
    requires Hangs(s, m, t, p) && Subtree(t, u) && u.Br? && s.nil in m && m[s.nil].maxHigh == -MAX_TIME && s.nil !in Nodes(t)
    ensures u.id in m && u.id != s.nil && m[u.id].stored == Stored(u.iv) && m[u.id].key == u.iv.low && m[u.id].high == u.iv.high
    ensures m[u.id].left == Id(s, u.left) && m[u.id].right == Id(s, u.right)
    ensures (u.left.Br? ==> u.left.id != s.nil) && (u.right.Br? ==> u.right.id != s.nil)
    ensures Id(s, u.left) in m && m[Id(s, u.left)].maxHigh == MaxHigh(u.left)
  {
    if u == t {
      assert Hangs(s, m, t.left, t.id) && Hangs(s, m, t.right, t.id);
      assert (t.left.Br? ==> t.left.id in Nodes(t)) && (t.right.Br? ==> t.right.id in Nodes(t));
    } else if Subtree(t.left, u) {
      SubtreeNode(s, m, t.left, t.id, u);
    } else {
      SubtreeNode(s, m, t.right, t.id, u);
    }
  }
}
