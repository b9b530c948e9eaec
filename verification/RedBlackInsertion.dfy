/** Repairing a red-black tree after an insertion, as steps on trees: each step keeps what is
    known about the tree and moves the one possible red-red edge upwards or removes it. */
module RedBlackInsertion {
  import opened IntervalTrees

  /** Everything is as it should be, except that the red root of `t` may lie below a red node. */
  ghost predicate RedFix(c: Ctx, t: Tree) {
    && t.Br? && t.red && Bal(t) && CBal(c, BH(t)) && NoRR(t) && CNoRR(c, false)
    && (c.Step? ==> TopBlack(c)) && MaxOk(t) && CMaxOk(c, MaxHigh(t))
  }

  /** The new node, coloured red, in its place. */
  lemma NewNodeRed(c: Ctx, z: Node, iv: Interval)
    requires Good(Plug(c, Leaf))
    ensures RedFix(Refresh(c, iv.high), Br(Leaf, z, iv, true, iv.high, Leaf))
  {
    PlugBal(c, Leaf);
    PlugNoRR(c, Leaf);
    PlugMaxOk(c, Leaf);
    PlugTop(c, Leaf);
    CMaxOkSibs(c, MaxHigh(Leaf));
    RefreshOk(c, iv.high);
    RefreshKeeps(c, iv.high);
  }

  /** Parent and uncle black, grandparent red. */
  function Recolored(c: Ctx): Ctx
    requires c.Step? && c.up.Step? && c.up.sib.Br?
  {
    c.(red := false, up := c.up.(red := true, sib := c.up.sib.(red := false)))
  }

  /** What is known around a red-red edge. */
  lemma Around(c: Ctx, t: Tree)
    requires RedFix(c, t) && c.Step? && c.red
    ensures c.up.Step? && !c.up.red && (c.up.up.Step? ==> TopBlack(c.up.up))
    ensures Bal(c.sib) && BH(c.sib) == BH(t) && NoRR(c.sib) && !IsRed(c.sib) && MaxOk(c.sib)
    ensures Bal(c.up.sib) && BH(c.up.sib) == BH(t) && NoRR(c.up.sib) && MaxOk(c.up.sib)
    ensures CBal(c.up.up, BH(t) + 1) && CNoRR(c.up.up, false) && CMaxOk(c.up.up, c.up.max)
    ensures c.max == Max(c.iv.high, Max(MaxHigh(t), MaxHigh(c.sib)))
    ensures c.up.max == Max(c.up.iv.high, Max(c.max, MaxHigh(c.up.sib)))
  {
    assert TopBlack(c);
    assert TopBlack(c.up);
    assert CBal(c.up, BH(t));
    assert CNoRR(c.up, true);
    assert CMaxOk(c.up, c.max);
  }

  lemma RecolorKeeps(c: Ctx, t: Tree)
    requires RedFix(c, t) && c.Step? && c.red && c.up.Step? && IsRed(c.up.sib)
    ensures var k := Recolored(c);
            RedFix(k.up.up, Join(k.up, Join(k, t))) && Inorder(Join(k.up, Join(k, t))) == Inorder(Join(c.up, Join(c, t)))
  {
    Around(c, t);
    var k := Recolored(c);
    assert Inorder(Join(k, t)) == Inorder(Join(c, t));
    assert Inorder(k.up.sib) == Inorder(c.up.sib);
    assert BH(k.up.sib) == BH(c.up.sib) + 1;
  }

  /** The parent rotated so that both red nodes lie on the outer side. */
  function Inner(c: Ctx, t: Tree): Tree
    requires c.Step? && c.up.Step? && c.leftHole != c.up.leftHole && t.Br?
  {
    if c.up.leftHole then RotL(Join(c, t)) else RotR(Join(c, t))
  }

  lemma InnerKeeps(c: Ctx, t: Tree)
    requires RedFix(c, t) && c.Step? && c.red && c.up.Step? && c.leftHole != c.up.leftHole
    ensures var r := Inner(c, t);
            var (k, u) := if c.up.leftHole then (DownLeft(c.up, r), r.left) else (DownRight(c.up, r), r.right);
            && RedFix(k, u) && k.red && Inorder(r) == Inorder(Join(c, t)) && u.id == c.id
  {
    Around(c, t);
    if c.up.leftHole {
      RotLContents(Join(c, t));
      RotLMax(Join(c, t));
    } else {
      RotRContents(Join(c, t));
      RotRMax(Join(c, t));
    }
  }

  /** Parent black and grandparent red, before the grandparent is rotated. */
  function Outer(c: Ctx, t: Tree): Tree
    requires c.Step? && c.up.Step?
  {
    Join(c.up.(red := true), Join(c.(red := false), t))
  }

  function OuterRotated(c: Ctx, t: Tree): Tree
    requires c.Step? && c.up.Step? && c.leftHole == c.up.leftHole
  {
    if c.leftHole then RotR(Outer(c, t)) else RotL(Outer(c, t))
  }

  lemma OuterKeeps(c: Ctx, t: Tree)
    requires RedFix(c, t) && c.Step? && c.red && c.up.Step? && c.leftHole == c.up.leftHole && !IsRed(c.up.sib)
    ensures var r := OuterRotated(c, t);
            var (k, u) := if c.leftHole then (DownLeft(c.up.up, r), r.left) else (DownRight(c.up.up, r), r.right);
            && RedFix(k, u) && !k.red && u == t && Inorder(r) == Inorder(Join(c.up, Join(c, t)))
  {
    Around(c, t);
    assert Inorder(Outer(c, t)) == Inorder(Join(c.up, Join(c, t))) by {
      assert Inorder(Join(c.(red := false), t)) == Inorder(Join(c, t));
    }
    assert MaxOk(Join(c.(red := false), t));
    assert MaxOk(Outer(c, t));
    if c.leftHole {
      RotRContents(Outer(c, t));
      RotRMax(Outer(c, t));
    } else {
      RotLContents(Outer(c, t));
      RotLMax(Outer(c, t));
    }
  }

  /** Equal contents of the subtree in view means equal contents of the whole. */
  lemma SameContents(c: Ctx, t: Tree, u: Tree)
    requires Inorder(t) == Inorder(u)
    ensures Inorder(Plug(c, t)) == Inorder(Plug(c, u))
  {
    PlugInorder(c, t);
    PlugInorder(c, u);
  }

  function Blackened(t: Tree): Tree { if t.Br? then t.(red := false) else t }

  /** With the red-red edge gone, blackening the top completes the repair. */
  lemma RepairDone(c: Ctx, t: Tree)
    requires RedFix(c, t) && !(c.Step? && c.red)
    ensures var r := Blackened(Plug(c, t)); RedBlack(r) && MaxOk(r) && Inorder(r) == Inorder(Plug(c, t))
    ensures Plug(c, t).Br?
  {
    PlugBal(c, t);
    PlugNoRR(c, t);
    PlugMaxOk(c, t);
    PlugTop(c, t);
  }

  // ---- the order of the contents --------------------------------------------------------

  /** How many leading entries have a key not greater than `k`. */
  ghost function Place(s: seq<Entry>, k: SimTime): (n: nat)
    ensures n <= |s|
  {
    if s == [] || s[0].iv.low > k then 0 else 1 + Place(s[1..], k)
  }

  /** `s` with `e` put behind every entry whose key is not greater. */
  ghost function Inserted(s: seq<Entry>, e: Entry): seq<Entry> {
    s[..Place(s, e.iv.low)] + [e] + s[Place(s, e.iv.low)..]
  }

  lemma {:induction false} PlaceBetween(a: seq<Entry>, k: SimTime, b: seq<Entry>)
    requires Between(a, k, b)
    ensures Place(a + b, k) == |a|
  {
    if a == [] {
      assert a + b == b;
    } else {
      assert (a + b)[1..] == a[1..] + b;
      assert a[0] in a;
      PlaceBetween(a[1..], k, b);
    }
  }

  lemma InsertionSorted(a: seq<Entry>, e: Entry, b: seq<Entry>)
    requires Sorted(a + b) && Between(a, e.iv.low, b)
    ensures Sorted(a + [e] + b)
  {
    var s := a + [e] + b;
    forall i, j | 0 <= i < j < |s| ensures s[i].iv.low <= s[j].iv.low {
      if i < |a| { assert s[i] == (a + b)[i] && s[i] in a; }
      if i > |a| { assert s[i] == (a + b)[i - 1] && s[i] in b; }
      if j < |a| { assert s[j] == (a + b)[j] && s[j] in a; }
      if j > |a| { assert s[j] == (a + b)[j - 1] && s[j] in b; }
    }
  }

  /** A new red leaf `z` at the end of the path `k` is put where its key belongs. */
  lemma NewNode(k: Ctx, z: Node, iv: Interval)
    requires Good(Plug(k, Leaf)) && Fits(k, iv.low)
    ensures var c, t := Refresh(k, iv.high), Br(Leaf, z, iv, true, iv.high, Leaf);
            && RedFix(c, t) && Sorted(Inorder(Plug(c, t)))
            && Inorder(Plug(c, t)) == Inserted(Inorder(Plug(k, Leaf)), Entry(z, iv))
  {
    NewNodeRed(k, z, iv);
    var a, b := Before(k), After(k);
    PlugInorder(k, Leaf);
    assert a + Inorder(Leaf) + b == a + b;
    FitsBetween(k, Leaf, iv.low);
    PlaceBetween(a, iv.low, b);
    InsertionSorted(a, Entry(z, iv), b);
    NewNodeContents(k, z, iv);
    assert (a + b)[..|a|] == a && (a + b)[|a|..] == b;
  }

  lemma NewNodeContents(k: Ctx, z: Node, iv: Interval)
    ensures Inorder(Plug(Refresh(k, iv.high), Br(Leaf, z, iv, true, iv.high, Leaf))) == Before(k) + [Entry(z, iv)] + After(k)
  {
    var t := Br(Leaf, z, iv, true, iv.high, Leaf);
    RefreshKeeps(k, iv.high);
    PlugInorder(Refresh(k, iv.high), t);
    assert Inorder(t) == [Entry(z, iv)];
  }
}
