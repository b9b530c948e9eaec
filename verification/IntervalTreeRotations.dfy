/** What a rotation does to the nodes is a rotation of the tree they represent. */
module IntervalTreeRotations {
  import opened IntervalTrees
  import opened IntervalTreeNodes
  import opened RedBlackDeletion

  /** All nodes but the ones listed are as before. */
  ghost predicate Others(m: Memory, n: Memory, a: Node, b: Node, d: Node, e: Node) {
    m.Keys == n.Keys && forall i :: i in m && i != a && i != b && i != d && i != e ==> n[i] == m[i]
  }

  lemma Untouched(m: Memory, n: Memory, a: Node, b: Node, d: Node, e: Node, s: set<Node>)
    requires Others(m, n, a, b, d, e) && a !in s && b !in s && d !in s && e !in s
    ensures Same(m, n, s)
  {
  }

  lemma LeftRotateCells(s: Sentinels, m: Memory, c: Ctx, t: Tree)
    requires Holds(s, m, Plug(c, t)) && t.Br? && t.right.Br?
    ensures {t.id, t.right.id, Pid(s, c), Id(s, t.right.left), Id(s, t.left), Id(s, t.right.right)} <= m.Keys && s.nil in m
    ensures m[t.id].right == t.right.id && m[t.id].parent == Pid(s, c) && m[t.right.id].left == Id(s, t.right.left)
    ensures m[t.id].left == Id(s, t.left) && m[t.right.id].right == Id(s, t.right.right)
    ensures m[t.id].high == t.iv.high && m[t.right.id].high == t.right.iv.high
    ensures m[Id(s, t.left)].maxHigh == MaxHigh(t.left) && m[Id(s, t.right.left)].maxHigh == MaxHigh(t.right.left)
    ensures m[Id(s, t.right.right)].maxHigh == MaxHigh(t.right.right)
    ensures t.id != t.right.id && t.id != Pid(s, c) && t.right.id != Pid(s, c) && s.nil !in {t.id, t.right.id, Pid(s, c)}
    ensures Id(s, t.right.left) !in {t.id, t.right.id, Pid(s, c)} && (t.right.left.Br? ==> t.right.left.id != s.nil)
    ensures Id(s, t.left) !in {t.id, t.right.id, Pid(s, c)} && Id(s, t.right.right) !in {t.id, t.right.id, Pid(s, c)}
    ensures t.id == m[Pid(s, c)].left <==> c.Top? || c.leftHole
  {
    Focus(s, m, c, t);
    assert Hangs(s, m, t.left, t.id) && Hangs(s, m, t.right, t.id);
    assert Hangs(s, m, t.right.left, t.right.id) && Hangs(s, m, t.right.right, t.right.id);
    assert t.right.id in Nodes(t) && t.id in Nodes(t) && (t.left.Br? ==> t.left.id in Nodes(t));
    assert (t.right.left.Br? ==> t.right.left.id in Nodes(t.right)) && (t.right.right.Br? ==> t.right.right.id in Nodes(t.right));
  }

  lemma LeftRotatedTree(s: Sentinels, m: Memory, n: Memory, t: Tree, p: Node)
    requires Hangs(s, m, t, p) && Wf(t) && t.Br? && t.right.Br? && p !in Nodes(t) && s.nil !in Nodes(t)
    requires Others(m, n, t.id, t.right.id, p, Id(s, t.right.left)) && t.right.id in m && Id(s, t.right.left) in m
    requires n[t.id] == m[t.id].(right := Id(s, t.right.left), parent := t.right.id, maxHigh := RotL(t).left.max)
    requires n[t.right.id] == m[t.right.id].(left := t.id, parent := p, maxHigh := RotL(t).max)
    requires t.right.left.Br? ==> n[t.right.left.id] == m[t.right.left.id].(parent := t.id)
    ensures Hangs(s, n, RotL(t), p)
  {
    var r := t.right;
    var b := r.left;
    assert Wf(r) && Wf(b) && Nodes(r) == {r.id} + Nodes(b) + Nodes(r.right);
    assert Hangs(s, m, r, t.id) && Hangs(s, m, b, r.id);
    if b.Br? {
      assert Nodes(b) == {b.id} + Nodes(b.left) + Nodes(b.right);
      Untouched(m, n, t.id, r.id, p, b.id, Nodes(b.left) + Nodes(b.right));
    }
    Reparent(s, m, n, b, r.id, t.id);
    Untouched(m, n, t.id, r.id, p, Id(s, b), Nodes(t.left));
    Frame(s, m, n, t.left, t.id);
    Untouched(m, n, t.id, r.id, p, Id(s, b), Nodes(r.right));
    Frame(s, m, n, r.right, r.id);
  }

  lemma LeftRotated(s: Sentinels, m: Memory, n: Memory, c: Ctx, t: Tree)
    requires Holds(s, m, Plug(c, t)) && t.Br? && t.right.Br?
    requires {t.id, t.right.id, Pid(s, c), Id(s, t.right.left)} <= m.Keys
    requires Others(m, n, t.id, t.right.id, Pid(s, c), Id(s, t.right.left))
    requires n[Pid(s, c)] == Hung(c, m[Pid(s, c)], t.right.id) && s.nil in m && n[s.nil] == m[s.nil]
    requires n[t.id] == m[t.id].(right := Id(s, t.right.left), parent := t.right.id, maxHigh := RotL(t).left.max)
    requires n[t.right.id] == m[t.right.id].(left := t.id, parent := Pid(s, c), maxHigh := RotL(t).max)
    requires t.right.left.Br? ==> n[t.right.left.id] == m[t.right.left.id].(parent := t.id)
    ensures Holds(s, n, Plug(c, RotL(t)))
  {
    Focus(s, m, c, t);
    assert Pid(s, c) !in Nodes(t) && s.nil !in Nodes(t);
    LeftRotatedTree(s, m, n, t, Pid(s, c));
    LeftRotatedAt(s, m, n, c, t);
  }

  lemma LeftRotatedAt(s: Sentinels, m: Memory, n: Memory, c: Ctx, t: Tree)
    requires HoldsAt(s, m, c, t) && t.Br? && t.right.Br? && Pid(s, c) in m
    requires Others(m, n, t.id, t.right.id, Pid(s, c), Id(s, t.right.left))
    requires n[Pid(s, c)] == Hung(c, m[Pid(s, c)], t.right.id) && n[s.nil] == m[s.nil]
    requires Hangs(s, n, RotL(t), Pid(s, c))
    ensures Holds(s, n, Plug(c, RotL(t)))
  {
    assert t.id in Nodes(t) && t.right.id in Nodes(t) && (t.right.left.Br? ==> t.right.left.id in Nodes(t.right));
    Untouched(m, n, t.id, t.right.id, Pid(s, c), Id(s, t.right.left), CNodes(c) - {Pid(s, c)});
    Rehang(s, m, n, c, t.id, t.right.id);
    RotLNodes(t);
    Focus(s, n, c, RotL(t));
  }

  lemma RightRotateCells(s: Sentinels, m: Memory, c: Ctx, t: Tree)
    requires Holds(s, m, Plug(c, t)) && t.Br? && t.left.Br?
    ensures {t.id, t.left.id, Pid(s, c), Id(s, t.left.right), Id(s, t.right), Id(s, t.left.left)} <= m.Keys && s.nil in m
    ensures m[t.id].left == t.left.id && m[t.id].parent == Pid(s, c) && m[t.left.id].right == Id(s, t.left.right)
    ensures m[t.id].right == Id(s, t.right) && m[t.left.id].left == Id(s, t.left.left)
    ensures m[t.id].high == t.iv.high && m[t.left.id].high == t.left.iv.high
    ensures m[Id(s, t.right)].maxHigh == MaxHigh(t.right) && m[Id(s, t.left.right)].maxHigh == MaxHigh(t.left.right)
    ensures m[Id(s, t.left.left)].maxHigh == MaxHigh(t.left.left)
    ensures t.id != t.left.id && t.id != Pid(s, c) && t.left.id != Pid(s, c) && s.nil !in {t.id, t.left.id, Pid(s, c)}
    ensures Id(s, t.left.right) !in {t.id, t.left.id, Pid(s, c)} && (t.left.right.Br? ==> t.left.right.id != s.nil)
    ensures Id(s, t.right) !in {t.id, t.left.id, Pid(s, c)} && Id(s, t.left.left) !in {t.id, t.left.id, Pid(s, c)}
    ensures t.id == m[Pid(s, c)].left <==> c.Top? || c.leftHole
  {
    Focus(s, m, c, t);
    assert Hangs(s, m, t.right, t.id) && Hangs(s, m, t.left, t.id);
    assert Hangs(s, m, t.left.right, t.left.id) && Hangs(s, m, t.left.left, t.left.id);
    assert t.left.id in Nodes(t) && t.id in Nodes(t) && (t.right.Br? ==> t.right.id in Nodes(t));
    assert (t.left.right.Br? ==> t.left.right.id in Nodes(t.left)) && (t.left.left.Br? ==> t.left.left.id in Nodes(t.left));
  }

  lemma RightRotatedTree(s: Sentinels, m: Memory, n: Memory, t: Tree, p: Node)
    requires Hangs(s, m, t, p) && Wf(t) && t.Br? && t.left.Br? && p !in Nodes(t) && s.nil !in Nodes(t)
    requires Others(m, n, t.id, t.left.id, p, Id(s, t.left.right)) && t.left.id in m && Id(s, t.left.right) in m
    requires n[t.id] == m[t.id].(left := Id(s, t.left.right), parent := t.left.id, maxHigh := RotR(t).right.max)
    requires n[t.left.id] == m[t.left.id].(right := t.id, parent := p, maxHigh := RotR(t).max)
    requires t.left.right.Br? ==> n[t.left.right.id] == m[t.left.right.id].(parent := t.id)
    ensures Hangs(s, n, RotR(t), p)
  {
    var r := t.left;
    var b := r.right;
    assert Wf(r) && Wf(b) && Nodes(r) == {r.id} + Nodes(b) + Nodes(r.left);
    assert Hangs(s, m, r, t.id) && Hangs(s, m, b, r.id);
    if b.Br? {
      assert Nodes(b) == {b.id} + Nodes(b.right) + Nodes(b.left);
      Untouched(m, n, t.id, r.id, p, b.id, Nodes(b.right) + Nodes(b.left));
    }
    Reparent(s, m, n, b, r.id, t.id);
    Untouched(m, n, t.id, r.id, p, Id(s, b), Nodes(t.right));
    Frame(s, m, n, t.right, t.id);
    Untouched(m, n, t.id, r.id, p, Id(s, b), Nodes(r.left));
    Frame(s, m, n, r.left, r.id);
  }

  lemma RightRotated(s: Sentinels, m: Memory, n: Memory, c: Ctx, t: Tree)
    requires Holds(s, m, Plug(c, t)) && t.Br? && t.left.Br?
    requires {t.id, t.left.id, Pid(s, c), Id(s, t.left.right)} <= m.Keys
    requires Others(m, n, t.id, t.left.id, Pid(s, c), Id(s, t.left.right))
    requires n[Pid(s, c)] == Hung(c, m[Pid(s, c)], t.left.id) && s.nil in m && n[s.nil] == m[s.nil]
    requires n[t.id] == m[t.id].(left := Id(s, t.left.right), parent := t.left.id, maxHigh := RotR(t).right.max)
    requires n[t.left.id] == m[t.left.id].(right := t.id, parent := Pid(s, c), maxHigh := RotR(t).max)
    requires t.left.right.Br? ==> n[t.left.right.id] == m[t.left.right.id].(parent := t.id)
    ensures Holds(s, n, Plug(c, RotR(t)))
  {
    Focus(s, m, c, t);
    assert Pid(s, c) !in Nodes(t) && s.nil !in Nodes(t);
    RightRotatedTree(s, m, n, t, Pid(s, c));
    RightRotatedAt(s, m, n, c, t);
  }

  lemma RightRotatedAt(s: Sentinels, m: Memory, n: Memory, c: Ctx, t: Tree)
    requires HoldsAt(s, m, c, t) && t.Br? && t.left.Br? && Pid(s, c) in m
    requires Others(m, n, t.id, t.left.id, Pid(s, c), Id(s, t.left.right))
    requires n[Pid(s, c)] == Hung(c, m[Pid(s, c)], t.left.id) && n[s.nil] == m[s.nil]
    requires Hangs(s, n, RotR(t), Pid(s, c))
    ensures Holds(s, n, Plug(c, RotR(t)))
  {
    assert t.id in Nodes(t) && t.left.id in Nodes(t) && (t.left.right.Br? ==> t.left.right.id in Nodes(t.left));
    Untouched(m, n, t.id, t.left.id, Pid(s, c), Id(s, t.left.right), CNodes(c) - {Pid(s, c)});
    Rehang(s, m, n, c, t.id, t.left.id);
    RotRNodes(t);
    Focus(s, n, c, RotR(t));
  }

  /** A new leaf in an empty place. */
  lemma Hang(s: Sentinels, m: Memory, n: Memory, c: Ctx, z: Node, iv: Interval)
    requires Holds(s, m, Plug(c, Leaf)) && z in m && z !in Nodes(Plug(c, Leaf)) && z != s.nil && z != s.root && Pid(s, c) in m
    requires Others(m, n, z, Pid(s, c), z, z)
    requires n[z] == Cell(Stored(iv), iv.low, iv.high, iv.high, false, s.nil, s.nil, Pid(s, c))
    requires n[Pid(s, c)] == Hung(c, m[Pid(s, c)], z)
    ensures Holds(s, n, Plug(c, Br(Leaf, z, iv, false, iv.high, Leaf)))
  {
    Focus(s, m, c, Leaf);
    PlugWf(c, Leaf);
    assert CNodes(c) == Nodes(Plug(c, Leaf));
    Untouched(m, n, z, Pid(s, c), z, z, CNodes(c) - {Pid(s, c)});
    Rehang(s, m, n, c, s.nil, z);
    HungLeaf(s, n, c, z, iv);
  }

  lemma HungLeaf(s: Sentinels, n: Memory, c: Ctx, z: Node, iv: Interval)
    requires Intact(s, n) && CHangs(s, n, c, z) && CWf(c) && {z, s.nil, s.root} !! CNodes(c) && z != s.nil && z != s.root
    requires z in n && n[z] == Cell(Stored(iv), iv.low, iv.high, iv.high, false, s.nil, s.nil, Pid(s, c))
    ensures Holds(s, n, Plug(c, Br(Leaf, z, iv, false, iv.high, Leaf)))
  {
    var t := Br(Leaf, z, iv, false, iv.high, Leaf);
    assert Nodes(t) == {z} && Wf(t) && Hangs(s, n, t, Pid(s, c));
    assert Id(s, t) == z;
    assert HoldsAt(s, n, c, t);
    Focus(s, n, c, t);
  }

  /** The fields read when max_high of the innermost node of `c` is recomputed. */
  lemma MaxHighCells(s: Sentinels, m: Memory, c: Ctx, t: Tree)
    requires Holds(s, m, Plug(c, t)) && c.Step?
    ensures c.id in m && c.id != s.nil && c.id != s.root
    ensures m[c.id].left in m && m[c.id].right in m && m[c.id].parent == Pid(s, c.up) && m[c.id].red == c.red
    ensures Max(m[c.id].high, Max(m[m[c.id].left].maxHigh, m[m[c.id].right].maxHigh))
         == Max(c.iv.high, Max(MaxHigh(t), MaxHigh(c.sib)))
  {
    Links(s, m, c, t);
    assert Hangs(s, m, c.sib, c.id);
    assert m[Id(s, t)].maxHigh == MaxHigh(t) && m[Id(s, c.sib)].maxHigh == MaxHigh(c.sib);
  }

  /** The nodes read when the uncle of `t`'s root is looked up. */
  lemma Uncle(s: Sentinels, m: Memory, c: Ctx, t: Tree)
    requires Holds(s, m, Plug(c, t)) && t.Br? && c.Step? && c.up.Step?
    ensures t.id in m && c.id in m && c.up.id in m && m[t.id].parent == c.id && m[c.id].parent == c.up.id
    ensures m[c.up.id].left == (if c.up.leftHole then c.id else Id(s, c.up.sib))
    ensures m[c.up.id].right == (if c.up.leftHole then Id(s, c.up.sib) else c.id)
    ensures c.id != Id(s, c.up.sib) && Id(s, c.up.sib) in m && m[Id(s, c.up.sib)].red == IsRed(c.up.sib)
  {
    Links(s, m, c, t);
    Links(s, m, c.up, Join(c, t));
    assert Hangs(s, m, c.up.sib, c.up.id);
  }

  /** The fields of the sibling of `t` and of the sibling's children. */
  lemma SiblingNode(s: Sentinels, m: Memory, c: Ctx, t: Tree)
    requires Holds(s, m, Plug(c, t)) && c.Step? && c.sib.Br?
    ensures c.id in m && c.sib.id in m && m[c.sib.id].red == c.sib.red && c.sib.id != s.nil && m[c.id].red == c.red
    ensures m[c.id].right == (if c.leftHole then c.sib.id else Id(s, t)) && m[c.id].left == (if c.leftHole then Id(s, t) else c.sib.id)
    ensures m[c.sib.id].left == Id(s, c.sib.left) && m[c.sib.id].right == Id(s, c.sib.right)
    ensures Id(s, c.sib.left) in m && Id(s, c.sib.right) in m
    ensures m[Id(s, c.sib.left)].red == IsRed(c.sib.left) && m[Id(s, c.sib.right)].red == IsRed(c.sib.right)
  {
    Links(s, m, c, t);
    assert Hangs(s, m, c.sib, c.id);
    assert Hangs(s, m, c.sib.left, c.sib.id) && Hangs(s, m, c.sib.right, c.sib.id);
  }

  /** Only at the very top is the node in view the topmost one. */
  lemma AtTop(s: Sentinels, m: Memory, c: Ctx, t: Tree)
    requires Holds(s, m, Plug(c, t)) && Id(s, t) == Id(s, Plug(c, t))
    ensures c.Top?
  {
    Focus(s, m, c, t);
    if c.Step? { TopmostAbove(c, t); }
  }

  /** After the last rotation the former parent is black. */
  lemma FinalLower(s: Sentinels, m: Memory, c: Ctx, t: Tree)
    requires c.Step? && c.sib.Br? && FarNephew(c).Br?
    requires Holds(s, m, Plug(c.up, Final(c, t)))
    ensures c.id in m && !m[c.id].red
  {
    var r := Final(c, t);
    Links(s, m, c.up, r);
    var lower := if c.leftHole then r.left else r.right;
    assert Hangs(s, m, r.left, r.id) && Hangs(s, m, r.right, r.id);
    assert lower.Br? && lower.id == c.id && !lower.red;
  }
}
