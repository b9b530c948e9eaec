/** The nodes of an interval tree as they lie in memory, and when they represent a tree. */
module IntervalTreeNodes {
  import opened IntervalTrees

  /** The fields of one node. */
  datatype Cell = Cell(stored: Stored, key: SimTime, high: SimTime, maxHigh: SimTime, red: bool,
                       left: Node, right: Node, parent: Node)

  ghost function CellOf(n: Node): Cell
    reads n
  {
    Cell(n.stored, n.key, n.high, n.maxHigh, n.red, n.left, n.right, n.parent)
  }

  /** The contents of a set of nodes. */
  type Memory = map<Node, Cell>

  ghost function MemoryOf(s: set<Node>): Memory
    reads s
  {
    map n | n in s :: CellOf(n)
  }

  datatype Sentinels = Sentinels(nil: Node, root: Node)

  ghost function Id(s: Sentinels, t: Tree): Node { if t.Leaf? then s.nil else t.id }

  ghost function Pid(s: Sentinels, c: Ctx): Node { if c.Top? then s.root else c.id }

  /** The sentinels are intact; only nil's parent link and root's left link ever change. */
  ghost predicate Intact(s: Sentinels, m: Memory) {
    && s.nil != s.root && s.nil in m && s.root in m
    && m[s.nil].(parent := s.nil) == Cell(NoInterval, -MAX_TIME, -MAX_TIME, -MAX_TIME, false, s.nil, s.nil, s.nil)
    && m[s.root].(left := s.nil) == Cell(NoInterval, MAX_TIME, MAX_TIME, MAX_TIME, false, s.nil, s.nil, s.nil)
  }

  /** Tree `t` hangs below node `p`, with every field of every node as `t` says. */
  ghost predicate Hangs(s: Sentinels, m: Memory, t: Tree, p: Node) {
    t.Br? ==>
      && t.id in m
      && m[t.id] == Cell(Stored(t.iv), t.iv.low, t.iv.high, t.max, t.red, Id(s, t.left), Id(s, t.right), p)
      && Hangs(s, m, t.left, t.id) && Hangs(s, m, t.right, t.id)
  }

  /** The context `c` is in place with node `x` in its hole. */
  ghost predicate CHangs(s: Sentinels, m: Memory, c: Ctx, x: Node) {
    if c.Top? then s.root in m && m[s.root].left == x
    else
      && c.id in m
      && m[c.id] == Cell(Stored(c.iv), c.iv.low, c.iv.high, c.max, c.red, if c.leftHole then x else Id(s, c.sib),
                         if c.leftHole then Id(s, c.sib) else x, Pid(s, c.up))
      && Hangs(s, m, c.sib, c.id) && CHangs(s, m, c.up, c.id)
  }

  /** The memory holds exactly tree `t` below the root sentinel. */
  ghost predicate Holds(s: Sentinels, m: Memory, t: Tree) {
    Intact(s, m) && Hangs(s, m, t, s.root) && m[s.root].left == Id(s, t) && Wf(t) && s.nil !in Nodes(t) && s.root !in Nodes(t)
  }

  /** The same, seen from the place where `t` meets its context. */
  ghost predicate HoldsAt(s: Sentinels, m: Memory, c: Ctx, t: Tree) {
    && Intact(s, m) && Hangs(s, m, t, Pid(s, c)) && CHangs(s, m, c, Id(s, t))
    && Wf(t) && CWf(c) && Nodes(t) !! CNodes(c)
    && s.nil !in Nodes(t) + CNodes(c) && s.root !in Nodes(t) + CNodes(c)
  }

  lemma {:induction false} PlugHangs(s: Sentinels, m: Memory, c: Ctx, t: Tree)
    requires s.root in m
    ensures (Hangs(s, m, Plug(c, t), s.root) && m[s.root].left == Id(s, Plug(c, t)))
       <==> (Hangs(s, m, t, Pid(s, c)) && CHangs(s, m, c, Id(s, t)))
    decreases c
  {
    if c.Step? {
      PlugHangs(s, m, c.up, Join(c, t));
    }
  }

  /** Looking at a place inside the tree or at the whole tree is the same thing. */
  lemma Focus(s: Sentinels, m: Memory, c: Ctx, t: Tree)
    ensures Holds(s, m, Plug(c, t)) <==> HoldsAt(s, m, c, t)
  {
    if s.root in m { PlugHangs(s, m, c, t); }
    PlugWf(c, t);
  }

  lemma {:induction false} Allocated(s: Sentinels, m: Memory, t: Tree, p: Node)
    requires Hangs(s, m, t, p)
    ensures Nodes(t) <= m.Keys
  {
    if t.Br? {
      Allocated(s, m, t.left, t.id);
      Allocated(s, m, t.right, t.id);
    }
  }

  ghost predicate Same(m: Memory, n: Memory, a: set<Node>) {
    forall i :: i in a && i in m ==> i in n && n[i] == m[i]
  }

  lemma {:induction false} Frame(s: Sentinels, m: Memory, n: Memory, t: Tree, p: Node)
    requires Hangs(s, m, t, p) && Same(m, n, Nodes(t))
    ensures Hangs(s, n, t, p)
  {
    if t.Br? {
      Frame(s, m, n, t.left, t.id);
      Frame(s, m, n, t.right, t.id);
    }
  }

  /** A subtree whose root gets another parent. */
  lemma Reparent(s: Sentinels, m: Memory, n: Memory, t: Tree, p: Node, q: Node)
    requires Hangs(s, m, t, p) && Wf(t)
    requires t.Br? ==> Same(m, n, Nodes(t.left) + Nodes(t.right)) && t.id in n && n[t.id] == m[t.id].(parent := q)
    ensures Hangs(s, n, t, q)
  {
    if t.Br? {
      Frame(s, m, n, t.left, t.id);
      Frame(s, m, n, t.right, t.id);
    }
  }

  lemma {:induction false} CFrame(s: Sentinels, m: Memory, n: Memory, c: Ctx, x: Node)
    requires CHangs(s, m, c, x) && CWf(c) && Same(m, n, CNodes(c))
    requires s.root in m && s.root in n && n[s.root].left == m[s.root].left
    ensures CHangs(s, n, c, x)
  {
    if c.Step? {
      Frame(s, m, n, c.sib, c.id);
      CFrame(s, m, n, c.up, c.id);
    }
  }

  /** What storing `y` in the child link of `c`'s innermost node does to that node. */
  ghost function Hung(c: Ctx, cell: Cell, y: Node): Cell {
    if c.Top? || c.leftHole then cell.(left := y) else cell.(right := y)
  }

  /** Another node `y` put in the hole. */
  lemma Rehang(s: Sentinels, m: Memory, n: Memory, c: Ctx, x: Node, y: Node)
    requires CHangs(s, m, c, x) && CWf(c) && s.root in m && s.root in n
    requires Same(m, n, CNodes(c) - {Pid(s, c)})
    requires Pid(s, c) in m && Pid(s, c) in n && n[Pid(s, c)] == Hung(c, m[Pid(s, c)], y)
    requires c.Step? ==> n[s.root].left == m[s.root].left
    ensures CHangs(s, n, c, y)
  {
    if c.Step? {
      Frame(s, m, n, c.sib, c.id);
      CFrame(s, m, n, c.up, c.id);
    }
  }

  lemma EachOnce(s: Sentinels, m: Memory, t: Tree)
    requires Holds(s, m, t)
    ensures Wf(t)
  {
  }

  /** What the memory holds in and around the place between `c` and `t`. */
  lemma Links(s: Sentinels, m: Memory, c: Ctx, t: Tree)
    requires Holds(s, m, Plug(c, t))
    ensures HoldsAt(s, m, c, t)
    ensures s.nil in m && s.root in m && Id(s, t) in m && Pid(s, c) in m && s.nil != Pid(s, c)
    ensures t.Br? ==> t.id != s.nil && t.id != s.root && t.id != Pid(s, c)
    ensures t.Br? ==> m[t.id] == Cell(Stored(t.iv), t.iv.low, t.iv.high, t.max, t.red, Id(s, t.left), Id(s, t.right), Pid(s, c))
    ensures c.Top? ==> m[s.root].left == Id(s, t)
    ensures c.Step? ==> Id(s, c.sib) in m && (t.Br? || c.sib.Br? ==> Id(s, t) != Id(s, c.sib)) && c.id != s.root
    ensures c.Step? ==>
              m[c.id] == Cell(Stored(c.iv), c.iv.low, c.iv.high, c.max, c.red, if c.leftHole then Id(s, t) else Id(s, c.sib),
                              if c.leftHole then Id(s, c.sib) else Id(s, t), Pid(s, c.up))
  {
    Focus(s, m, c, t);
    if c.Step? {
      assert c.sib.Br? ==> c.sib.id in CNodes(c);
    }
  }

  /** The fields in and around that place. */
  lemma Near(s: Sentinels, m: Memory, c: Ctx, t: Tree)
    requires Holds(s, m, Plug(c, t))
    ensures s.nil in m && s.root in m && Id(s, t) in m && Pid(s, c) in m && s.nil != Pid(s, c) && !m[s.root].red && !m[s.nil].red
    ensures t.Br? ==> t.id != s.nil && t.id != s.root && t.id != Pid(s, c) && m[t.id].parent == Pid(s, c)
    ensures t.Br? ==> m[t.id].left == Id(s, t.left) && m[t.id].right == Id(s, t.right) && m[t.id].red == t.red
    ensures t.Br? ==> m[t.id].maxHigh == t.max && m[t.id].key == t.iv.low && m[t.id].high == t.iv.high && m[t.id].stored == Stored(t.iv)
    ensures t.Br? ==> (t.left.Br? ==> t.left.id != s.nil) && (t.right.Br? ==> t.right.id != s.nil)
    ensures c.Top? ==> m[s.root].left == Id(s, t)
    ensures m[s.root].right == s.nil && m[s.root].parent == s.nil
    ensures c.Step? ==> c.id != s.root && m[c.id].red == c.red && m[c.id].key == c.iv.low && m[c.id].parent == Pid(s, c.up) && Id(s, c.sib) in m
    ensures c.Step? && (t.Br? || c.sib.Br?) ==> Id(s, t) != Id(s, c.sib)
    ensures c.Step? ==> m[c.id].left == if c.leftHole then Id(s, t) else Id(s, c.sib)
    ensures c.Step? ==> m[c.id].right == if c.leftHole then Id(s, c.sib) else Id(s, t)
  {
    Links(s, m, c, t);
    if c.Step? { assert Hangs(s, m, c.sib, c.id); }
    if t.Br? { assert (t.left.Br? ==> t.left.id in Nodes(t)) && (t.right.Br? ==> t.right.id in Nodes(t)); }
  }

  /** Another colour and max_high for the root of the subtree in view. */
  lemma Retouch(s: Sentinels, m: Memory, n: Memory, c: Ctx, t: Tree, red: bool, max: SimTime)
    requires Holds(s, m, Plug(c, t)) && t.Br? && t.id in m
    requires n == m[t.id := m[t.id].(red := red, maxHigh := max)]
    ensures Holds(s, n, Plug(c, t.(red := red, max := max)))
  {
    Links(s, m, c, t);
    Frame(s, m, n, t.left, t.id);
    Frame(s, m, n, t.right, t.id);
    CFrame(s, m, n, c, t.id);
    Focus(s, n, c, t.(red := red, max := max));
  }

  /** A change to nodes outside the tree. */
  lemma Outside(s: Sentinels, m: Memory, n: Memory, t: Tree)
    requires Holds(s, m, t) && Same(m, n, Nodes(t) + {s.nil, s.root})
    ensures Holds(s, n, t)
  {
    Frame(s, m, n, t, s.root);
  }

  /** Two fresh sentinels hold the empty tree. */
  lemma OnlySentinels(nil: Node, root: Node)
    requires nil != root && CellOf(nil) == Cell(NoInterval, -MAX_TIME, -MAX_TIME, -MAX_TIME, false, nil, nil, nil)
    requires CellOf(root) == Cell(NoInterval, MAX_TIME, MAX_TIME, MAX_TIME, false, nil, nil, nil)
    ensures Holds(Sentinels(nil, root), MemoryOf({nil, root}), Leaf) && Good(Leaf) && Inorder(Leaf) == []
  {
    Empty(Sentinels(nil, root), MemoryOf({nil, root}));
  }

  lemma Empty(s: Sentinels, m: Memory)
    requires Intact(s, m) && m[s.root].left == s.nil
    ensures Holds(s, m, Leaf) && Good(Leaf) && Inorder(Leaf) == []
  {
  }
}
