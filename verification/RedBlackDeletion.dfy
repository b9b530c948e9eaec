/** Repairing a red-black tree after a deletion, as steps on trees: the subtree in view is one
    black node short, and each step repairs that or moves it upwards. */
module RedBlackDeletion {
  import opened IntervalTrees
  import opened RedBlackInsertion

  /** Everything is as it should be, except that paths through `t` have one black node too few
      and a red root of `t` may have red neighbours. */
  ghost predicate DelFix(c: Ctx, t: Tree) {
    && Bal(t) && CBal(c, BH(t) + 1) && NoRR(Blackened(t)) && CNoRR(c, false)
    && (c.Step? ==> TopBlack(c)) && MaxOk(t) && CMaxOk(c, MaxHigh(t))
  }

  /** A red root, or the top of the tree: blackening it completes the repair. */
  lemma BlackenRepairs(c: Ctx, t: Tree)
    requires DelFix(c, t) && (IsRed(t) || c.Top?)
    ensures var r := Plug(c, Blackened(t)); RedBlack(r) && MaxOk(r) && Inorder(r) == Inorder(Plug(c, t))
  {
    PlugBal(c, Blackened(t));
    PlugNoRR(c, Blackened(t));
    PlugMaxOk(c, Blackened(t));
    PlugTop(c, Blackened(t));
    SameContents(c, t, Blackened(t));
  }

  /** The child of the sibling on the side of the hole, and the one on the far side. */
  function NearNephew(c: Ctx): Tree
    requires c.Step? && c.sib.Br?
  {
    if c.leftHole then c.sib.left else c.sib.right
  }

  function FarNephew(c: Ctx): Tree
    requires c.Step? && c.sib.Br?
  {
    if c.leftHole then c.sib.right else c.sib.left
  }

  /** What is known around a black node that is one short. */
  lemma Short(c: Ctx, t: Tree)
    requires DelFix(c, t) && !IsRed(t) && c.Step?
    ensures c.sib.Br? && Bal(c.sib) && BH(c.sib) == BH(t) + 1 && NoRR(c.sib) && MaxOk(c.sib) && NoRR(t)
    ensures IsRed(c.sib) ==> !c.red && NearNephew(c).Br? && FarNephew(c).Br?
    ensures CBal(c.up, BH(t) + if c.red then 1 else 2) && CNoRR(c.up, c.red) && CMaxOk(c.up, c.max)
    ensures c.up.Step? ==> TopBlack(c.up)
    ensures c.up.Top? ==> !c.red
    ensures c.max == Max(c.iv.high, Max(MaxHigh(t), MaxHigh(c.sib)))
  {
    assert TopBlack(c);
  }

  // ---- red sibling: rotate it above the parent --------------------------------------------

  function SiblingUp(c: Ctx, t: Tree): Tree
    requires c.Step? && c.sib.Br?
  {
    var p := Join(c.(red := true, sib := c.sib.(red := false)), t);
    if c.leftHole then RotL(p) else RotR(p)
  }

  /** The context of `t` after that. */
  function BelowSibling(c: Ctx, t: Tree): Ctx
    requires c.Step? && c.sib.Br?
  {
    var r := SiblingUp(c, t);
    if c.leftHole then DownLeft(DownLeft(c.up, r), r.left) else DownRight(DownRight(c.up, r), r.right)
  }

  lemma SiblingUpKeeps(c: Ctx, t: Tree)
    requires DelFix(c, t) && !IsRed(t) && c.Step? && IsRed(c.sib)
    ensures var k := BelowSibling(c, t);
            && DelFix(k, t) && k.red && k.leftHole == c.leftHole && k.id == c.id && k.sib == NearNephew(c) && !IsRed(k.sib)
            && k.up.up == c.up && Join(k.up, Join(k, t)) == SiblingUp(c, t)
            && Inorder(SiblingUp(c, t)) == Inorder(Join(c, t))
  {
    Short(c, t);
    var p := Join(c.(red := true, sib := c.sib.(red := false)), t);
    assert Inorder(c.sib.(red := false)) == Inorder(c.sib);
    assert MaxOk(c.sib.(red := false)) && MaxOk(p);
    if c.leftHole {
      RotLContents(p);
      RotLMax(p);
    } else {
      RotRContents(p);
      RotRMax(p);
    }
    var k := BelowSibling(c, t);
    SiblingUpShape(c, t);
    assert CBal(k.up, BH(t) + 1) && CNoRR(k.up, true);
    assert TopBlack(k.up);
    assert CMaxOk(k.up, k.max);
  }

  lemma SiblingUpShape(c: Ctx, t: Tree)
    requires c.Step? && c.sib.Br? && NearNephew(c).Br?
    ensures var k := BelowSibling(c, t);
            && k.Step? && k.up.Step? && k.red && k.leftHole == c.leftHole && k.id == c.id && k.iv == c.iv && k.sib == NearNephew(c)
            && k.up.up == c.up && k.up.leftHole == c.leftHole && k.up.sib == FarNephew(c) && !k.up.red
  {
  }

  // ---- black sibling with black children: it turns red, and the parent is one short --------

  function SiblingRed(c: Ctx): Ctx
    requires c.Step? && c.sib.Br?
  {
    c.(sib := c.sib.(red := true))
  }

  lemma SiblingRedKeeps(c: Ctx, t: Tree)
    requires DelFix(c, t) && !IsRed(t) && c.Step? && !IsRed(c.sib)
    requires c.sib.Br? && !IsRed(c.sib.left) && !IsRed(c.sib.right)
    ensures DelFix(c.up, Join(SiblingRed(c), t)) && Inorder(Join(SiblingRed(c), t)) == Inorder(Join(c, t))
  {
    Short(c, t);
    assert Inorder(c.sib.(red := true)) == Inorder(c.sib);
  }

  // ---- black sibling, far nephew black: rotate the red near nephew above it -------------------

  function NephewUp(c: Ctx): Tree
    requires c.Step? && c.sib.Br? && NearNephew(c).Br?
  {
    if c.leftHole then RotR(c.sib.(red := true, left := c.sib.left.(red := false)))
    else RotL(c.sib.(red := true, right := c.sib.right.(red := false)))
  }

  lemma NephewUpKeeps(c: Ctx, t: Tree)
    requires DelFix(c, t) && !IsRed(t) && c.Step? && c.sib.Br? && !c.sib.red && IsRed(NearNephew(c)) && !IsRed(FarNephew(c))
    ensures var k := c.(sib := NephewUp(c));
            DelFix(k, t) && !IsRed(k.sib) && k.sib.Br? && IsRed(FarNephew(k)) && Inorder(k.sib) == Inorder(c.sib)
  {
    Short(c, t);
    var near := NearNephew(c).(red := false);
    assert Inorder(near) == Inorder(NearNephew(c)) && MaxOk(near) && MaxHigh(near) == MaxHigh(NearNephew(c));
    assert Bal(near) && NoRR(near) && BH(near) == BH(t) + 1;
    assert Bal(near.left) && Bal(near.right) && BH(near.left) == BH(t) == BH(near.right);
    assert !IsRed(near.left) && !IsRed(near.right) && NoRR(near.left) && NoRR(near.right);
    assert Bal(FarNephew(c)) && BH(FarNephew(c)) == BH(t) && NoRR(FarNephew(c));
    if c.leftHole {
      var s := c.sib.(red := true, left := near);
      assert MaxOk(s) && Inorder(s) == Inorder(c.sib);
      RotRContents(s);
      RotRMax(s);
      var lower := RotR(s).right;
      assert Bal(lower) && NoRR(lower) && BH(lower) == BH(t);
      assert Bal(RotR(s)) && NoRR(RotR(s)) && BH(RotR(s)) == BH(t) + 1;
    } else {
      var s := c.sib.(red := true, right := near);
      assert MaxOk(s) && Inorder(s) == Inorder(c.sib);
      RotLContents(s);
      RotLMax(s);
      var lower := RotL(s).left;
      assert Bal(lower) && NoRR(lower) && BH(lower) == BH(t);
      assert Bal(RotL(s)) && NoRR(RotL(s)) && BH(RotL(s)) == BH(t) + 1;
    }
  }

  // ---- black sibling, far nephew red: rotate the sibling above the parent, done --------------

  function FinalColours(c: Ctx, t: Tree): Tree
    requires c.Step? && c.sib.Br? && FarNephew(c).Br?
  {
    var far := FarNephew(c).(red := false);
    var s := c.sib.(red := c.red);
    Join(c.(red := false, sib := if c.leftHole then s.(right := far) else s.(left := far)), t)
  }

  function Final(c: Ctx, t: Tree): Tree
    requires c.Step? && c.sib.Br? && FarNephew(c).Br?
  {
    if c.leftHole then RotL(FinalColours(c, t)) else RotR(FinalColours(c, t))
  }

  lemma FinalRepairs(c: Ctx, t: Tree)
    requires DelFix(c, t) && !IsRed(t) && c.Step? && c.sib.Br? && !c.sib.red && IsRed(FarNephew(c))
    ensures var r := Plug(c.up, Final(c, t));
            && RedBlack(r) && MaxOk(r) && Inorder(r) == Inorder(Plug(c, t))
  {
    Short(c, t);
    FinalShape(c, t);
    var r := Final(c, t);
    assert Bal(r) && NoRR(r);
    SameContents(c.up, Join(c, t), r);
    PlugBal(c.up, r);
    PlugNoRR(c.up, r);
    PlugMaxOk(c.up, r);
    PlugTop(c.up, r);
  }

  lemma FinalShape(c: Ctx, t: Tree)
    requires DelFix(c, t) && !IsRed(t) && c.Step? && c.sib.Br? && !c.sib.red && IsRed(FarNephew(c))
    ensures var r := Final(c, t);
            && Bal(r) && BH(r) == BH(t) + (if c.red then 1 else 2) && NoRR(r) && r.red == c.red
            && MaxOk(r) && MaxHigh(r) == c.max && Inorder(r) == Inorder(Join(c, t))
  {
    Short(c, t);
    var far := FarNephew(c).(red := false);
    var s := c.sib.(red := c.red);
    assert Inorder(far) == Inorder(FarNephew(c)) && MaxOk(far);
    if c.leftHole {
      var p := Join(c.(red := false, sib := s.(right := far)), t);
      assert MaxOk(s.(right := far)) && Inorder(s.(right := far)) == Inorder(c.sib);
      RotLContents(p);
      RotLMax(p);
    } else {
      var p := Join(c.(red := false, sib := s.(left := far)), t);
      assert MaxOk(s.(left := far)) && Inorder(s.(left := far)) == Inorder(c.sib);
      RotRContents(p);
      RotRMax(p);
    }
  }

  /** The topmost node of a proper context does not depend on what is in the hole. */
  lemma {:induction false} TopmostFixed(c: Ctx, t: Tree, u: Tree)
    requires c.Step?
    ensures Plug(c, t).Br? && Plug(c, u).Br? && Plug(c, t).id == Plug(c, u).id
    decreases c
  {
    if c.up.Step? { TopmostFixed(c.up, Join(c, t), Join(c, u)); }
  }

  lemma {:induction false} TopmostAbove(c: Ctx, t: Tree)
    requires c.Step?
    ensures Plug(c, t).Br? && Plug(c, t).id in CNodes(c)
    decreases c
  {
    if c.up.Step? { TopmostAbove(c.up, Join(c, t)); }
  }

  /** The topmost node before a round is, after its last rotation, the topmost node again or the
      node that was `x`'s parent. */
  lemma Topmost(c0: Ctx, c: Ctx, t0: Tree, f: Tree)
    requires c0.Step? && c.Step? && c.id == c0.id && (c.up == c0.up || (c.up.Step? && c.up.up == c0.up))
    ensures Plug(c0, t0).Br?
    ensures Plug(c0, t0).id == c.id || (Plug(c.up, f).Br? && Plug(c0, t0).id == Plug(c.up, f).id)
  {
    TopmostFixed(c0, t0, t0);
    if c0.up.Step? {
      TopmostFixed(c0.up, Join(c0, t0), f);
      if c.up != c0.up { TopmostFixed(c0.up, Join(c0, t0), Join(c.up, f)); }
    }
  }
}
