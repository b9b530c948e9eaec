/** Taking one node out of the tree: which contents remain, what happens to the nodes in memory,
    and that what is left can be repaired. */
module IntervalTreeRemoval {
  import opened IntervalTrees
  import opened IntervalTreeNodes
  import opened IntervalTreeRotations
  import opened RedBlackInsertion
  import opened RedBlackDeletion

  /** The entries of all nodes but `z`. */
  ghost function Without(s: seq<Entry>, z: Node): seq<Entry> {
    if s == [] then [] else (if s[0].id == z then [] else [s[0]]) + Without(s[1..], z)
  }

  lemma {:induction false} WithoutAbsent(s: seq<Entry>, z: Node)
    requires forall e :: e in s ==> e.id != z
    ensures Without(s, z) == s
  {
    if s != [] {
      assert s[0] in s;
      WithoutAbsent(s[1..], z);
    }
  }

  lemma {:induction false} WithoutAppend(a: seq<Entry>, b: seq<Entry>, z: Node)
    ensures Without(a + b, z) == Without(a, z) + Without(b, z)
  {
    if a == [] {
      assert a + b == b;
    } else {
      assert (a + b)[1..] == a[1..] + b;
      WithoutAppend(a[1..], b, z);
    }
  }

  lemma {:induction false} InorderNodes(t: Tree)
    ensures forall e :: e in Inorder(t) ==> e.id in Nodes(t)
  {
    if t.Br? {
      InorderNodes(t.left);
      InorderNodes(t.right);
    }
  }

  lemma {:induction false} ContextNodes(c: Ctx)
    ensures forall e :: e in Before(c) || e in After(c) ==> e.id in CNodes(c)
  {
    if c.Step? {
      ContextNodes(c.up);
      InorderNodes(c.sib);
    }
  }

  lemma WithoutMiddle(a: seq<Entry>, e: Entry, b: seq<Entry>)
    requires forall x :: x in a || x in b ==> x.id != e.id
    ensures Without(a + [e] + b, e.id) == a + b
  {
    WithoutAppend(a + [e], b, e.id);
    WithoutAppend(a, [e], e.id);
    WithoutAbsent(a, e.id);
    WithoutAbsent(b, e.id);
    assert a + [] == a && Without([e], e.id) == [];
  }

  /** Cutting the node in view out. */
  lemma WithoutNode(c: Ctx, t: Tree)
    requires Wf(Plug(c, t)) && t.Br?
    ensures Without(Inorder(Plug(c, t)), t.id) == Before(c) + Inorder(t.left) + (Inorder(t.right) + After(c))
  {
    PlugWf(c, t);
    PlugInorder(c, t);
    ContextNodes(c);
    InorderNodes(t.left);
    InorderNodes(t.right);
    Regroup(Before(c), Inorder(t.left), [Entry(t.id, t.iv)], Inorder(t.right), After(c));
    assert Inorder(Plug(c, t)) == Before(c) + Inorder(t.left) + [Entry(t.id, t.iv)] + (Inorder(t.right) + After(c));
    WithoutMiddle(Before(c) + Inorder(t.left), Entry(t.id, t.iv), Inorder(t.right) + After(c));
  }

  /** The context of any node of the tree. */
  lemma {:induction false} Locate(t: Tree, z: Node) returns (c: Ctx, u: Tree)
    requires z in Nodes(t)
    ensures Plug(c, u) == t && u.Br? && u.id == z
  {
    if t.id == z {
      c, u := Top, t;
    } else if z in Nodes(t.left) {
      c, u := Locate(t.left, z);
      PlugOver(c, u, DownLeft(Top, t));
      c := Over(c, DownLeft(Top, t));
    } else {
      c, u := Locate(t.right, z);
      PlugOver(c, u, DownRight(Top, t));
      c := Over(c, DownRight(Top, t));
    }
  }

  /** Context `inner` placed inside context `outer`. */
  function Over(inner: Ctx, outer: Ctx): Ctx {
    if inner.Top? then outer else inner.(up := Over(inner.up, outer))
  }

  lemma {:induction false} PlugOver(inner: Ctx, t: Tree, outer: Ctx)
    ensures Plug(Over(inner, outer), t) == Plug(outer, Plug(inner, t))
    decreases inner
  {
    if inner.Step? { PlugOver(inner.up, Join(inner, t), outer); }
  }

  lemma {:induction false} OverContents(inner: Ctx, outer: Ctx)
    ensures Before(Over(inner, outer)) == Before(outer) + Before(inner)
    ensures After(Over(inner, outer)) == After(inner) + After(outer)
  {
    if inner.Top? {
      assert Before(outer) + [] == Before(outer) && [] + After(outer) == After(outer);
    } else {
      OverContents(inner.up, outer);
      var e := [Entry(inner.id, inner.iv)];
      if inner.leftHole {
        assert e + Inorder(inner.sib) + (After(inner.up) + After(outer)) == e + Inorder(inner.sib) + After(inner.up) + After(outer);
      } else {
        assert Before(outer) + Before(inner.up) + Inorder(inner.sib) + e == Before(outer) + (Before(inner.up) + Inorder(inner.sib) + e);
      }
    }
  }

  /** Contexts that differ only in what the node below `outer` stores have the same shape. */
  lemma {:induction false} OverShape(inner: Ctx, o: Ctx, p: Ctx)
    requires o.Step? && p.Step? && o.red == p.red && o.sib == p.sib && o.up == p.up
    ensures forall h :: CBal(Over(inner, o), h) <==> CBal(Over(inner, p), h)
    ensures forall b :: CNoRR(Over(inner, o), b) <==> CNoRR(Over(inner, p), b)
    ensures TopBlack(Over(inner, o)) <==> TopBlack(Over(inner, p))
    ensures Over(inner, o).Step? && Over(inner, p).Step?
  {
    if inner.Step? { OverShape(inner.up, o, p); }
  }

  lemma {:induction false} OverSibs(inner: Ctx, o: Ctx)
    ensures SibsMaxOk(Over(inner, o)) <==> SibsMaxOk(inner) && SibsMaxOk(o)
  {
    if inner.Step? { OverSibs(inner.up, o); }
  }

  /** A context whose `outer` part is refreshed for whatever the inner part makes of `m`. */
  lemma {:induction false} RefreshOver(inner: Ctx, outer: Ctx, t: Tree)
    ensures Refresh(Over(inner, outer), MaxHigh(t))
         == Over(Refresh(inner, MaxHigh(t)), Refresh(outer, MaxHigh(Plug(Refresh(inner, MaxHigh(t)), t))))
    decreases inner
  {
    if inner.Step? {
      var k := Refresh(inner, MaxHigh(t));
      RefreshOver(inner.up, outer, Join(k, t));
    }
  }

  lemma {:induction false} NoRRWeaken(c: Ctx)
    requires CNoRR(c, true)
    ensures CNoRR(c, false)
  {
  }

  // ---- the repair problem left behind ---------------------------------------------------------

  /** The only child of a node with at most one child. */
  function OnlyChild(u: Tree): Tree
    requires u.Br?
  {
    if u.left.Leaf? then u.right else u.left
  }

  /** What remains to be repaired when node `u` of a good tree gives way to its only child, in a
      context that has been refreshed and may store other data: nothing if `u` was red. */
  ghost predicate Remaining(c: Ctx, u: Tree, x: Tree) {
    if u.Br? && u.red then RedBlack(Plug(c, x)) && MaxOk(Plug(c, x)) else DelFix(c, x)
  }

  lemma RemovalShape(k: Ctx, c: Ctx, u: Tree)
    requires Good(Plug(k, u)) && u.Br? && (u.left.Leaf? || u.right.Leaf?)
    requires forall h :: CBal(k, h) <==> CBal(c, h)
    requires forall b :: CNoRR(k, b) <==> CNoRR(c, b)
    requires (TopBlack(k) <==> TopBlack(c)) && (k.Top? <==> c.Top?)
    requires SibsMaxOk(c)
    ensures Remaining(Refresh(c, MaxHigh(OnlyChild(u))), u, OnlyChild(u))
  {
    var x := OnlyChild(u);
    var r := Refresh(c, MaxHigh(x));
    PlugBal(k, u);
    PlugNoRR(k, u);
    PlugMaxOk(k, u);
    PlugTop(k, u);
    RefreshOk(c, MaxHigh(x));
    RefreshKeeps(c, MaxHigh(x));
    assert Bal(x) && NoRR(x) && MaxOk(x) && BH(u) == BH(x) + if u.red then 0 else 1;
    assert NoRR(Blackened(x));
    if u.red {
      NoRRWeaken(c);
      PlugBal(r, x);
      PlugNoRR(r, x);
      PlugMaxOk(r, x);
      PlugTop(r, x);
    }
  }

  /** The context of the successor's child once the successor stores its interval where `t`'s
      root was: `inner` leads from `t`'s right child to the successor's old place. */
  function Promoted(c: Ctx, t: Tree, inner: Ctx, y: Node, iv: Interval, red: bool): Ctx
    requires t.Br?
  {
    Over(inner, DownRight(c, t.(id := y, iv := iv, red := red)))
  }

  function PromotedRight(inner: Ctx, x: Tree): Tree { Plug(Refresh(inner, MaxHigh(x)), x) }

  function PromotedMax(t: Tree, inner: Ctx, iv: Interval, x: Tree): SimTime
    requires t.Br?
  {
    Max(iv.high, Max(MaxHigh(PromotedRight(inner, x)), MaxHigh(t.left)))
  }

  /** The refreshed tree seen from the promoted node. */
  lemma PromotedPlace(c: Ctx, t: Tree, inner: Ctx, y: Node, iv: Interval, red: bool, x: Tree)
    requires t.Br?
    ensures Plug(Refresh(Promoted(c, t, inner, y, iv, red), MaxHigh(x)), x)
         == Plug(Refresh(c, PromotedMax(t, inner, iv, x)),
                 Br(t.left, y, iv, red, PromotedMax(t, inner, iv, x), PromotedRight(inner, x)))
  {
    var o := DownRight(c, t.(id := y, iv := iv, red := red));
    RefreshOver(inner, o, x);
    PlugOver(Refresh(inner, MaxHigh(x)), x, Refresh(o, MaxHigh(PromotedRight(inner, x))));
  }

  /** Colours and max_high do not matter to where a place is. */
  lemma SamePlace(s: Sentinels, inner: Ctx, c: Ctx, t: Tree, y: Node, iv: Interval, m: SimTime)
    requires t.Br?
    ensures forall red :: Pid(s, Promoted(c, t, inner, y, iv, red)) == Pid(s, Refresh(Promoted(c, t, inner, y, iv, t.red), m))
  {
  }

  /** The promoted node before max_high is recomputed. */
  function Unrefreshed(c: Ctx, t: Tree, inner: Ctx, y: Node, iv: Interval, red: bool): Ctx
    requires t.Br?
  {
    Promoted(c, t.(max := -MAX_TIME), inner, y, iv, red)
  }

  lemma UnrefreshedPlace(s: Sentinels, c: Ctx, t: Tree, inner: Ctx, y: Node, iv: Interval, red: bool, x: Tree)
    requires t.Br?
    ensures Plug(Unrefreshed(c, t, inner, y, iv, red), x) == Plug(c, Br(t.left, y, iv, red, -MAX_TIME, Plug(inner, x)))
    ensures Plug(Refresh(Unrefreshed(c, t, inner, y, iv, red), MaxHigh(x)), x)
         == Plug(Refresh(Promoted(c, t, inner, y, iv, red), MaxHigh(x)), x)
    ensures Pid(s, Unrefreshed(c, t, inner, y, iv, red)) == Pid(s, Promoted(c, t, inner, y, iv, red))
         == if inner.Top? then y else inner.id
  {
    var t9 := t.(max := -MAX_TIME);
    PlugOver(inner, x, DownRight(c, t9.(id := y, iv := iv, red := red)));
    PromotedPlace(c, t, inner, y, iv, red, x);
    PromotedPlace(c, t9, inner, y, iv, red, x);
  }

  /** Two neighbours of a sorted sequence stay sorted when what is between them goes. */
  lemma {:induction false} WithoutSorted(s: seq<Entry>, z: Node)
    requires Sorted(s)
    ensures Sorted(Without(s, z))
    ensures forall e :: e in Without(s, z) ==> e in s
  {
    if s != [] {
      WithoutSorted(s[1..], z);
      var w := Without(s[1..], z);
      forall i | 0 <= i < |w| ensures s[0].iv.low <= w[i].iv.low {
        assert w[i] in s[1..];
      }
    }
  }

  /** Removal of a node with at most one child. */
  lemma DirectRemoval(c: Ctx, t: Tree)
    requires Good(Plug(c, t)) && Wf(Plug(c, t)) && t.Br? && (t.left.Leaf? || t.right.Leaf?)
    ensures var k := Refresh(c, MaxHigh(OnlyChild(t)));
            && Remaining(k, t, OnlyChild(t))
            && Inorder(Plug(k, OnlyChild(t))) == Without(Inorder(Plug(c, t)), t.id)
  {
    hide Refresh, Plug, RedBlack, MaxOk, Remaining, Wf, Bal, NoRR, DelFix;
    var x := OnlyChild(t);
    PlugMaxOk(c, t);
    CMaxOkSibs(c, MaxHigh(t));
    RemovalShape(c, c, t);
    WithoutNode(c, t);
    RefreshKeeps(c, MaxHigh(x));
    PlugInorder(Refresh(c, MaxHigh(x)), x);
    if t.left.Leaf? {
      assert Before(c) + [] == Before(c);
    } else {
      assert [] + After(c) == After(c);
    }
    assert Before(c) + Inorder(t.left) + (Inorder(t.right) + After(c)) == Before(c) + Inorder(x) + After(c);
  }

  /** Removal of a node with two children, whose successor `u` is promoted. */
  lemma PromotedRemoval(c: Ctx, t: Tree, inner: Ctx, u: Tree)
    requires Good(Plug(c, t)) && Wf(Plug(c, t)) && t.Br? && t.right == Plug(inner, u)
    requires u.Br? && u.left.Leaf? && Before(inner) == []
    ensures var k := Refresh(Promoted(c, t, inner, u.id, u.iv, t.red), MaxHigh(u.right));
            && Remaining(k, u, u.right)
            && Inorder(Plug(k, u.right)) == Without(Inorder(Plug(c, t)), t.id)
  {
    var x := u.right;
    var o := DownRight(c, t);
    var p := DownRight(c, t.(id := u.id, iv := u.iv));
    PlugOver(inner, u, o);
    assert Plug(o, Plug(inner, u)) == Plug(c, t);
    OverShape(inner, o, p);
    PlugMaxOk(Over(inner, o), u);
    CMaxOkSibs(Over(inner, o), MaxHigh(u));
    OverSibs(inner, o);
    OverSibs(inner, p);
    RemovalShape(Over(inner, o), Over(inner, p), u);
    PromotedContents(c, t, inner, u);
  }

  lemma PromotedContents(c: Ctx, t: Tree, inner: Ctx, u: Tree)
    requires Wf(Plug(c, t)) && t.Br? && t.right == Plug(inner, u) && u.Br? && u.left.Leaf? && Before(inner) == []
    ensures Inorder(Plug(Refresh(Promoted(c, t, inner, u.id, u.iv, t.red), MaxHigh(u.right)), u.right))
         == Without(Inorder(Plug(c, t)), t.id)
  {
    var x := u.right;
    var p := DownRight(c, t.(id := u.id, iv := u.iv));
    var e := [Entry(u.id, u.iv)];
    WithoutNode(c, t);
    RightContents(inner, u);
    RefreshKeeps(Over(inner, p), MaxHigh(x));
    PlugInorder(Refresh(Over(inner, p), MaxHigh(x)), x);
    OverContents(inner, p);
    assert Before(p) + [] == Before(p);
    Rejoin(Before(c) + Inorder(t.left), e, Inorder(x), After(inner), After(c));
  }

  lemma RightContents(inner: Ctx, u: Tree)
    requires u.Br? && u.left.Leaf? && Before(inner) == []
    ensures Inorder(Plug(inner, u)) == [Entry(u.id, u.iv)] + Inorder(u.right) + After(inner)
  {
    PlugInorder(inner, u);
    var e := [Entry(u.id, u.iv)];
    assert [] + e == e;
    assert [] + Inorder(u) == Inorder(u);
  }

  lemma Rejoin<T>(a: seq<T>, e: seq<T>, x: seq<T>, i: seq<T>, c: seq<T>)
    ensures a + ((e + x + i) + c) == (a + e) + x + (i + c)
  {
  }

  // ---- memory ------------------------------------------------------------------------------------

  /** Node `u` gives way to its only child. */
  lemma Spliced(s: Sentinels, m: Memory, n: Memory, k: Ctx, u: Tree)
    requires Holds(s, m, Plug(k, u)) && u.Br? && (u.left.Leaf? || u.right.Leaf?)
    requires Id(s, OnlyChild(u)) in m && Pid(s, k) in m
    requires Others(m, n, Id(s, OnlyChild(u)), Pid(s, k), Pid(s, k), Pid(s, k))
    requires n[Id(s, OnlyChild(u))] == m[Id(s, OnlyChild(u))].(parent := Pid(s, k))
    requires n[Pid(s, k)] == Hung(k, m[Pid(s, k)], Id(s, OnlyChild(u)))
    ensures Holds(s, n, Plug(k, OnlyChild(u)))
  {
    var x := OnlyChild(u);
    Focus(s, m, k, u);
    assert Wf(x) && Hangs(s, m, x, u.id) && Nodes(x) <= Nodes(u);
    if x.Br? {
      assert x.id in Nodes(u);
      Untouched(m, n, x.id, Pid(s, k), Pid(s, k), Pid(s, k), Nodes(x.left) + Nodes(x.right));
    }
    Reparent(s, m, n, x, u.id, Pid(s, k));
    Untouched(m, n, Id(s, x), Pid(s, k), Pid(s, k), Pid(s, k), CNodes(k) - {Pid(s, k)});
    Rehang(s, m, n, k, u.id, Id(s, x));
    assert HoldsAt(s, n, k, x);
    Focus(s, n, k, x);
  }

  /** Node `y`, from outside the tree, takes the place of the root of `t`. */
  lemma Replaced(s: Sentinels, m: Memory, n: Memory, c: Ctx, t: Tree, y: Node, iv: Interval, red: bool)
    requires Holds(s, m, Plug(c, t)) && t.Br? && t.left.Br? && y !in Nodes(Plug(c, t)) && y != s.nil && y != s.root
    requires y in m && Pid(s, c) in m && t.left.id in m && Id(s, t.right) in m
    requires Others(m, n, y, t.left.id, Id(s, t.right), Pid(s, c))
    requires n[y] == Cell(Stored(iv), iv.low, iv.high, -MAX_TIME, red, t.left.id, Id(s, t.right), Pid(s, c))
    requires n[t.left.id] == m[t.left.id].(parent := y) && n[Id(s, t.right)] == m[Id(s, t.right)].(parent := y)
    requires n[Pid(s, c)] == Hung(c, m[Pid(s, c)], y)
    ensures Holds(s, n, Plug(c, Br(t.left, y, iv, red, -MAX_TIME, t.right)))
  {
    Focus(s, m, c, t);
    PlugWf(c, t);
    var l, r := t.left, t.right;
    var u := Br(l, y, iv, red, -MAX_TIME, r);
    assert Hangs(s, m, l, t.id) && Hangs(s, m, r, t.id) && Wf(l) && Wf(r);
    assert Nodes(t) == {t.id} + Nodes(l) + Nodes(r) && l.id in Nodes(l) && (r.Br? ==> r.id in Nodes(r));
    Untouched(m, n, y, l.id, Id(s, r), Pid(s, c), Nodes(l.left) + Nodes(l.right));
    if r.Br? { Untouched(m, n, y, l.id, r.id, Pid(s, c), Nodes(r.left) + Nodes(r.right)); }
    Reparent(s, m, n, l, t.id, y);
    Reparent(s, m, n, r, t.id, y);
    Untouched(m, n, y, l.id, Id(s, r), Pid(s, c), CNodes(c) - {Pid(s, c)});
    Rehang(s, m, n, c, t.id, y);
    ReplacedAt(s, n, c, t, y, iv, red);
  }

  lemma ReplacedAt(s: Sentinels, n: Memory, c: Ctx, t: Tree, y: Node, iv: Interval, red: bool)
    requires Intact(s, n) && CHangs(s, n, c, y) && CWf(c) && Wf(t) && t.Br? && Nodes(t) !! CNodes(c)
    requires {y, s.nil, s.root} !! (CNodes(c) + Nodes(t)) && y != s.nil && y != s.root
    requires Hangs(s, n, t.left, y) && Hangs(s, n, t.right, y) && y in n
    requires n[y] == Cell(Stored(iv), iv.low, iv.high, -MAX_TIME, red, Id(s, t.left), Id(s, t.right), Pid(s, c))
    ensures Holds(s, n, Plug(c, Br(t.left, y, iv, red, -MAX_TIME, t.right)))
  {
    var u := Br(t.left, y, iv, red, -MAX_TIME, t.right);
    ReplacedApart(s, c, t, y, iv, red);
    assert Hangs(s, n, u, Pid(s, c));
    Focus(s, n, c, u);
  }

  lemma ReplacedApart(s: Sentinels, c: Ctx, t: Tree, y: Node, iv: Interval, red: bool)
    requires Wf(t) && t.Br? && Nodes(t) !! CNodes(c) && {y, s.nil, s.root} !! (CNodes(c) + Nodes(t)) && y != s.nil && y != s.root
    ensures var u := Br(t.left, y, iv, red, -MAX_TIME, t.right);
            Wf(u) && Nodes(u) !! CNodes(c) && s.nil !in Nodes(u) + CNodes(c) && s.root !in Nodes(u) + CNodes(c)
  {
    assert Nodes(t.left) <= Nodes(t) && Nodes(t.right) <= Nodes(t);
  }

  lemma OnlyChildCell(s: Sentinels, m: Memory, k: Ctx, u: Tree)
    requires Holds(s, m, Plug(k, u)) && u.Br? && (u.left.Leaf? || u.right.Leaf?)
    ensures var x := Id(s, OnlyChild(u));
            x in m && x != u.id && x != Pid(s, k) && x != s.root && s.nil != Pid(s, k) && m[s.root].right == s.nil
  {
    Links(s, m, k, u);
    var x := OnlyChild(u);
    assert Hangs(s, m, x, u.id);
    assert x.Br? ==> x.id in Nodes(u);
  }

  lemma SplicedApart(s: Sentinels, m: Memory, k: Ctx, u: Tree)
    requires Holds(s, m, Plug(k, u)) && u.Br?
    ensures u.id !in Nodes(Plug(k, u.right)) && u.id in m && u.id != s.nil && u.id != s.root
    ensures k.Step? ==> k.id != s.nil
  {
    Links(s, m, k, u);
    PlugWf(k, u.right);
  }

  /** Who is who when node `y` takes the place of the root of `t`. */
  lemma ReplaceCells(s: Sentinels, m: Memory, c: Ctx, t: Tree, y: Node)
    requires Holds(s, m, Plug(c, t)) && t.Br? && t.left.Br? && y !in Nodes(Plug(c, t)) && y != s.nil && y != s.root && y in m
    ensures t.id in m && m[t.id].left == t.left.id && m[t.id].right == Id(s, t.right) && m[t.id].parent == Pid(s, c)
    ensures m[t.id].red == t.red && t.left.id in m && Id(s, t.right) in m && Pid(s, c) in m
    ensures t.id != y && t.left.id != t.id && t.left.id != y && Id(s, t.right) != t.left.id && Id(s, t.right) != y && Id(s, t.right) != t.id
    ensures Pid(s, c) != t.id && Pid(s, c) != y && Pid(s, c) != t.left.id && Pid(s, c) != Id(s, t.right)
    ensures t.left.id != s.nil && t.id != s.nil && (t.right.Br? ==> t.right.id != s.nil) && Pid(s, c) != s.nil
    ensures t.id == m[Pid(s, c)].left <==> c.Top? || c.leftHole
  {
    Links(s, m, c, t);
    PlugWf(c, t);
    assert Hangs(s, m, t.left, t.id) && Hangs(s, m, t.right, t.id);
    assert t.left.id in Nodes(t) && (t.right.Br? ==> t.right.id in Nodes(t)) && t.id in Nodes(t);
    assert t.left.id in Nodes(t.left) && (t.right.Br? ==> t.right.id in Nodes(t.right));
    assert c.Step? ==> c.id in CNodes(c) && (c.sib.Br? ==> c.sib.id in CNodes(c));
  }

  lemma {:induction false} WithoutGone(s: seq<Entry>, z: Node)
    ensures forall e :: e in Without(s, z) ==> e.id != z
  {
    if s != [] { WithoutGone(s[1..], z); }
  }

  lemma {:induction false} NodesInorder(t: Tree, z: Node)
    requires z in Nodes(t)
    ensures exists e :: e in Inorder(t) && e.id == z
  {
    if t.id == z {
      assert Entry(z, t.iv) in Inorder(t);
    } else if z in Nodes(t.left) {
      NodesInorder(t.left, z);
    } else {
      NodesInorder(t.right, z);
    }
  }

  lemma RemovedGood(t: Tree, r: Tree, z: Node)
    requires Good(t) && RedBlack(r) && MaxOk(r) && Inorder(r) == Without(Inorder(t), z)
    ensures Good(r) && z !in Nodes(r)
  {
    WithoutSorted(Inorder(t), z);
    WithoutGone(Inorder(t), z);
    if z in Nodes(r) { NodesInorder(r, z); }
  }

  // ---- neighbours in key order -----------------------------------------------------------------

  ghost function FirstOr(s: seq<Entry>, n: Node): Node { if s == [] then n else s[0].id }

  ghost function LastOr(s: seq<Entry>, n: Node): Node { if s == [] then n else s[|s| - 1].id }

  lemma Neighbours(c: Ctx, t: Tree) returns (i: nat)
    requires t.Br?
    ensures var s := Inorder(Plug(c, t));
            && i < |s| && s[i].id == t.id
            && s[..i] == Before(c) + Inorder(t.left) && s[i + 1..] == Inorder(t.right) + After(c)
  {
    PlugInorder(c, t);
    var a, e, b := Before(c) + Inorder(t.left), Entry(t.id, t.iv), Inorder(t.right) + After(c);
    Regroup(Before(c), Inorder(t.left), [e], Inorder(t.right), After(c));
    assert Inorder(Plug(c, t)) == a + [e] + b;
    i := |a|;
  }
}
