/** The interval tree: a red-black tree of nodes updated in place. */
module IntervalTreeClass {
  import opened IntervalTrees
  import opened IntervalTreeNodes
  import opened IntervalTreeRotations
  import opened RedBlackInsertion
  import opened RedBlackDeletion
  import opened IntervalTreeRemoval
  import opened IntervalQueries

  /** One entry of the query's own stack: a node whose left subtree is being searched. */
  datatype RecursionNode = RecursionNode(startNode: Node, parentIndex: nat, tryRightBranch: bool)

  class IntervalTree {
    var nil: Node
    var root: Node
    ghost var Repr: set<Node>
    ghost var tree: Tree

    var recursionNodeStack: array<RecursionNode>
    var recursionNodeStackTop: nat
    var currentParent: nat

    ghost function Ends(): Sentinels reads `nil, `root { Sentinels(nil, root) }

    ghost function Mem(): Memory reads `Repr, Repr { MemoryOf(Repr) }

    /** The nodes in memory are exactly `tree`, which is a red-black tree ordered by low end
        whose max_high fields are right. */
    ghost predicate Valid()
      reads `nil, `root, `tree, `Repr, Repr
    {
       Holds(Ends(), Mem(), tree) && Good(tree)
    }

    /** The stored intervals, each with its node, in key order. */
    ghost function Contents(): seq<Entry> reads `tree { Inorder(tree) }

    constructor ()
      ensures Valid() && Contents() == [] && Idle()
      ensures Repr == {nil, root} && fresh(nil) && fresh(root) && fresh(recursionNodeStack)
    {
      var n := new Node.Sentinel(-MAX_TIME);
      var r := new Node.Sentinel(MAX_TIME);
      r.parent, r.left, r.right := n, n, n;
      var a := new RecursionNode[128](_ => RecursionNode(n, 0, false));
      nil, root, recursionNodeStack := n, r, a;
      recursionNodeStackTop, currentParent := 1, 0;
      Repr := {n, r};
      tree := Leaf;
      new;
      hide Holds, Good, Inorder;
      OnlySentinels(n, r);
    }

    /** Colouring a node; `c` and `t` say where it is. */
    method SetRed(x: Node, red: bool, ghost c: Ctx, ghost t: Tree)
      requires Holds(Ends(), Mem(), Plug(c, t)) && t.Br? && t.id == x
      modifies x`red
      ensures Holds(Ends(), Mem(), Plug(c, t.(red := red)))
      ensures x.red == red
    {
      ghost var m := Mem();
      Near(Ends(), m, c, t);
      x.red := red;
      assert Mem() == m[x := m[x].(red := red, maxHigh := t.max)];
      Retouch(Ends(), m, Mem(), c, t, red, t.max);
    }

    /** The descent to the place where a node with the given key belongs: below `y`. */
    method FindPlace(key: SimTime, ghost t0: Tree) returns (y: Node, ghost c: Ctx)
      requires Holds(Ends(), Mem(), t0)
      ensures Plug(c, Leaf) == t0 && Fits(c, key) && y == Pid(Ends(), c)
    {
      y := root;
      var x := root.left;
      c := Top;
      ghost var t := t0;
      while x != nil
        invariant Plug(c, t) == t0 && x == Id(Ends(), t) && y == Pid(Ends(), c) && Fits(c, key)
        decreases t
      {
        Near(Ends(), Mem(), c, t);
        assert CellOf(x) == Mem()[x];
        y := x;
        if x.key > key {
          x := x.left;
          c, t := DownLeft(c, t), t.left;
        } else {
          x := x.right;
          c, t := DownRight(c, t), t.right;
        }
      }
      Near(Ends(), Mem(), c, t);
    }

    /** Hangs the new node `z` where its key belongs. */
    method RecursiveInsert(z: Node, ghost iv: Interval, ghost t0: Tree) returns (ghost c: Ctx)
      requires Holds(Ends(), Mem(), t0) && z in Repr && z !in Nodes(t0) && z != nil && z != root
      requires z.stored == Stored(iv) && z.key == iv.low && z.high == z.maxHigh == iv.high && !z.red
      modifies Repr
      ensures Plug(c, Leaf) == t0 && Fits(c, iv.low)
      ensures Holds(Ends(), Mem(), Plug(c, Br(Leaf, z, iv, false, iv.high, Leaf)))
    {
      ghost var m := Mem();
      z.left := nil;
      z.right := nil;
      Outside(Ends(), m, Mem(), t0);
      var y;
      y, c := FindPlace(z.key, t0);
      Near(Ends(), Mem(), c, Leaf);
      Attach(z, y, iv, c);
    }

    /** Makes `z` a child of `y`, the node around the empty place at the end of `c`. */
    method Attach(z: Node, y: Node, ghost iv: Interval, ghost c: Ctx)
      requires Holds(Ends(), Mem(), Plug(c, Leaf)) && z in Repr && z !in Nodes(Plug(c, Leaf)) && z != nil && z != root
      requires y == Pid(Ends(), c) && Fits(c, iv.low) && z.left == z.right == nil
      requires z.stored == Stored(iv) && z.key == iv.low && z.high == z.maxHigh == iv.high && !z.red
      modifies z`parent, y`left, y`right
      ensures Holds(Ends(), Mem(), Plug(c, Br(Leaf, z, iv, false, iv.high, Leaf)))
    {
      hide Holds, Plug;
      ghost var m := Mem();
      Near(Ends(), m, c, Leaf);
      PlugWf(c, Leaf);
      assert y != z && CellOf(y) == m[y];
      z.parent := y;
      if y == root || y.key > z.key {
        y.left := z;
      } else {
        y.right := z;
      }
      assert CellOf(y) == Hung(c, m[y], z);
      Hang(Ends(), m, Mem(), c, z, iv);
    }

    /** Recomputes max_high from `x` up to the top. */
    method FixupMaxHigh(x0: Node, ghost c: Ctx, ghost t: Tree)
      requires Holds(Ends(), Mem(), Plug(c, t)) && x0 == Pid(Ends(), c)
      modifies Repr`maxHigh
      ensures Holds(Ends(), Mem(), Plug(Refresh(c, MaxHigh(t)), t))
    {
      var x := x0;
      ghost var k, u := c, t;
      while x != root
        invariant Holds(Ends(), Mem(), Plug(k, u)) && x == Pid(Ends(), k)
        invariant Plug(Refresh(k, MaxHigh(u)), u) == Plug(Refresh(c, MaxHigh(t)), t)
        decreases k
      {
        ghost var max := Max(k.iv.high, Max(MaxHigh(u), MaxHigh(k.sib)));
        MaxHighCells(Ends(), Mem(), k, u);
        x := RecomputeMaxHigh(x, k, u);
        k, u := k.up, Join(k.(max := max), u);
      }
      Near(Ends(), Mem(), k, u);
    }

    /** One node's max_high; the node's parent is returned. */
    method RecomputeMaxHigh(x: Node, ghost k: Ctx, ghost u: Tree) returns (p: Node)
      requires Holds(Ends(), Mem(), Plug(k, u)) && k.Step? && x == k.id
      modifies x`maxHigh
      ensures Holds(Ends(), Mem(), Plug(k.(max := Max(k.iv.high, Max(MaxHigh(u), MaxHigh(k.sib)))), u))
      ensures p == Pid(Ends(), k.up) && x != nil
    {
      ghost var m := Mem();
      ghost var max := Max(k.iv.high, Max(MaxHigh(u), MaxHigh(k.sib)));
      MaxHighCells(Ends(), m, k, u);
      assert CellOf(x) == m[x] && CellOf(x.left) == m[x.left] && CellOf(x.right) == m[x.right];
      x.maxHigh := Max(x.high, Max(x.left.maxHigh, x.right.maxHigh));
      assert Mem() == m[x := m[x].(red := k.red, maxHigh := max)];
      Retouch(Ends(), m, Mem(), k.up, Join(k, u), k.red, max);
      p := x.parent;
    }

    /** The new node goes behind all intervals whose low end is not greater. */
    method Insert(iv: Interval) returns (z: Node)
      requires Valid()
      modifies `tree, `Repr, Repr
      ensures Valid() && Repr == old(Repr) + {z} && fresh(z)
      ensures Contents() == Inserted(old(Contents()), Entry(z, iv))
    {
      z := new Node(iv, nil);
      Allocated(Ends(), Mem(), tree, root);
      ghost var m := Mem();
      Repr := Repr + {z};
      Outside(Ends(), m, Mem(), tree);
      InsertNode(z, iv);
    }

    method InsertNode(z: Node, ghost iv: Interval)
      requires Valid() && z in Repr && z !in Nodes(tree) && z != nil && z != root
      requires z.stored == Stored(iv) && z.key == iv.low && z.high == z.maxHigh == iv.high && !z.red
      modifies this`tree, Repr
      ensures Valid()
      ensures Contents() == Inserted(old(Contents()), Entry(z, iv))
    {
      hide Holds, Plug, Refresh;
      ghost var k := RecursiveInsert(z, iv, tree);
      ghost var t := Br(Leaf, z, iv, false, iv.high, Leaf);
      Near(Ends(), Mem(), k, t);
      FixupMaxHigh(z.parent, k, t);
      ghost var c := Refresh(k, iv.high);
      SetRed(z, true, c, t);
      NewNode(k, z, iv);
      ghost var r := InsertFixup(z, c, t.(red := true));
      Now(r);
    }

    ghost method Now(t: Tree)
      requires Holds(Ends(), Mem(), t)
      modifies `tree
      ensures Holds(Ends(), Mem(), tree) && tree == t
    {
      tree := t;
    }

    /** Removes the red-red edges a new red node may cause. */
    method InsertFixup(x0: Node, ghost c0: Ctx, ghost t0: Tree) returns (ghost r: Tree)
      requires Holds(Ends(), Mem(), Plug(c0, t0)) && RedFix(c0, t0) && x0 == t0.id
      modifies Repr
      ensures Holds(Ends(), Mem(), r) && RedBlack(r) && MaxOk(r) && Inorder(r) == Inorder(Plug(c0, t0))
    {
      hide Holds, RedBlack, MaxOk;
      var x := x0;
      ghost var c, t := c0, t0;
      Near(Ends(), Mem(), c, t);
      while x.parent.red
        invariant Holds(Ends(), Mem(), Plug(c, t)) && RedFix(c, t) && x == t.id
        invariant Inorder(Plug(c, t)) == Inorder(Plug(c0, t0))
        invariant x.parent == Pid(Ends(), c) && x.parent.red == (c.Step? && c.red)
        decreases Depth(c)
      {
        Uncle(Ends(), Mem(), c, t);
        if x.parent == x.parent.parent.left {
          var y := x.parent.parent.right;
          if y.red {
            x, c, t := RecolorUp(x, y, c, t);
          } else {
            x, c, t := RotateUnderLeft(x, c, t);
          }
        } else {
          var y := x.parent.parent.left;
          if y.red {
            x, c, t := RecolorUp(x, y, c, t);
          } else {
            x, c, t := RotateUnderRight(x, c, t);
          }
        }
        Near(Ends(), Mem(), c, t);
      }
      RepairDone(c, t);
      r := Plug(c, t);
      Near(Ends(), Mem(), Top, r);
      SetRed(root.left, false, Top, r);
      r := Blackened(r);
    }

    /** Red uncle `y`: the colours change and the repair moves two levels up. */
    method RecolorUp(x0: Node, y: Node, ghost c0: Ctx, ghost t0: Tree) returns (x: Node, ghost c: Ctx, ghost t: Tree)
      requires Holds(Ends(), Mem(), Plug(c0, t0)) && RedFix(c0, t0) && x0 == t0.id
      requires c0.Step? && c0.red && c0.up.Step? && IsRed(c0.up.sib) && y == c0.up.sib.id
      modifies Repr
      ensures Holds(Ends(), Mem(), Plug(c, t)) && RedFix(c, t) && x == t.id
      ensures c == c0.up.up && Inorder(Plug(c, t)) == Inorder(Plug(c0, t0))
    {
      hide Holds, Inorder;
      c, t := c0, t0;
      Uncle(Ends(), Mem(), c, t);
      SetRed(x0.parent, false, c.up, Join(c, t));
      c := c.(red := false);
      SetRed(y, false, AcrossFrom(c.up, Join(c, t)), c.up.sib);
      c := c.(up := c.up.(sib := c.up.sib.(red := false)));
      SetRed(x0.parent.parent, true, c.up.up, Join(c.up, Join(c, t)));
      c := c.(up := c.up.(red := true));
      x := x0.parent.parent;
      RecolorKeeps(c0, t0);
      SameContents(c0.up.up, Join(c0.up, Join(c0, t0)), Join(c.up, Join(c, t)));
      c, t := c.up.up, Join(c.up, Join(c, t));
    }

    /** Black uncle, parent a left child: one or two rotations. */
    method RotateUnderLeft(x0: Node, ghost c0: Ctx, ghost t0: Tree) returns (x: Node, ghost c: Ctx, ghost t: Tree)
      requires Holds(Ends(), Mem(), Plug(c0, t0)) && RedFix(c0, t0) && x0 == t0.id
      requires c0.Step? && c0.red && c0.up.Step? && !IsRed(c0.up.sib) && c0.up.leftHole
      modifies Repr
      ensures Holds(Ends(), Mem(), Plug(c, t)) && RedFix(c, t) && x == t.id
      ensures Depth(c) < Depth(c0) && Inorder(Plug(c, t)) == Inorder(Plug(c0, t0))
    {
      x, c, t := x0, c0, t0;
      Near(Ends(), Mem(), c, t);
      if x == x.parent.right {
        x := x.parent;
        InnerKeeps(c, t);
        LeftRotate(x, c.up, Join(c, t));
        ghost var r := Inner(c, t);
        SameContents(c.up, Join(c, t), r);
        c, t := DownLeft(c.up, r), r.left;
      }
      OuterKeeps(c, t);
      RedAbove(x, c, t);
      RightRotate(x.parent.parent, c.up.up, Outer(c, t));
      ghost var r := OuterRotated(c, t);
      SameContents(c.up.up, Join(c.up, Join(c, t)), r);
      c, t := DownLeft(c.up.up, r), r.left;
    }

    /** Black uncle, parent a right child: one or two rotations. */
    method RotateUnderRight(x0: Node, ghost c0: Ctx, ghost t0: Tree) returns (x: Node, ghost c: Ctx, ghost t: Tree)
      requires Holds(Ends(), Mem(), Plug(c0, t0)) && RedFix(c0, t0) && x0 == t0.id
      requires c0.Step? && c0.red && c0.up.Step? && !IsRed(c0.up.sib) && !c0.up.leftHole
      modifies Repr
      ensures Holds(Ends(), Mem(), Plug(c, t)) && RedFix(c, t) && x == t.id
      ensures Depth(c) < Depth(c0) && Inorder(Plug(c, t)) == Inorder(Plug(c0, t0))
    {
      x, c, t := x0, c0, t0;
      Near(Ends(), Mem(), c, t);
      if x == x.parent.left {
        x := x.parent;
        InnerKeeps(c, t);
        RightRotate(x, c.up, Join(c, t));
        ghost var r := Inner(c, t);
        SameContents(c.up, Join(c, t), r);
        c, t := DownRight(c.up, r), r.right;
      }
      OuterKeeps(c, t);
      RedAbove(x, c, t);
      LeftRotate(x.parent.parent, c.up.up, Outer(c, t));
      ghost var r := OuterRotated(c, t);
      SameContents(c.up.up, Join(c.up, Join(c, t)), r);
      c, t := DownRight(c.up.up, r), r.right;
    }

    /** Colours the parent of `x` black and its grandparent red. */
    method RedAbove(x: Node, ghost c: Ctx, ghost t: Tree)
      requires Holds(Ends(), Mem(), Plug(c, t)) && t.Br? && x == t.id && c.Step? && c.up.Step?
      modifies Repr
      ensures Holds(Ends(), Mem(), Plug(c.up.up, Outer(c, t)))
      ensures x.parent == c.id && c.id.parent == c.up.id && c.up.id in Repr
    {
      Uncle(Ends(), Mem(), c, t);
      SetRed(x.parent, false, c.up, Join(c, t));
      ghost var k := c.(red := false);
      SetRed(x.parent.parent, true, k.up.up, Join(k.up, Join(k, t)));
    }

    /** Removes node `z`; every other interval stays, in its own node. */
    method DeleteNode(z: Node)
      requires Valid() && z in Nodes(tree)
      modifies `tree, `Repr, Repr
      ensures Valid() && Repr == old(Repr) - {z} && z !in Nodes(tree)
      ensures Contents() == Without(old(Contents()), z)
    {
      hide Holds, Good;
      ghost var r := Unlink(z);
      Now(r);
      Forget(z);
    }

    /** Takes `z` out of the tree and repairs what is left. */
    method Unlink(z: Node) returns (ghost r: Tree)
      requires Valid() && z in Nodes(tree)
      modifies Repr
      ensures Holds(Ends(), Mem(), r) && Good(r) && Inorder(r) == Without(Contents(), z)
      ensures z !in Nodes(r) && z != nil && z != root
    {
      ghost var c, t := Locate(tree, z);
      Near(Ends(), Mem(), c, t);
      assert CellOf(z) == Mem()[z];
      if z.left == nil || z.right == nil {
        r := RemoveDirectly(z, c, t);
      } else {
        r := RemoveBySuccessor(z, c, t);
      }
      RemovedGood(tree, r, z);
    }

    ghost method Forget(z: Node)
      requires Holds(Ends(), Mem(), tree) && z !in Nodes(tree) && z != nil && z != root
      modifies `Repr
      ensures Holds(Ends(), Mem(), tree) && Repr == old(Repr) - {z}
    {
      ghost var m := Mem();
      Repr := Repr - {z};
      Outside(Ends(), m, Mem(), tree);
    }

    /** Removal of a node with at most one child. */
    method RemoveDirectly(z: Node, ghost c: Ctx, ghost t: Tree) returns (ghost r: Tree)
      requires Holds(Ends(), Mem(), Plug(c, t)) && Good(Plug(c, t)) && t.Br? && t.id == z && (t.left.Leaf? || t.right.Leaf?)
      modifies Repr
      ensures Holds(Ends(), Mem(), r) && RedBlack(r) && MaxOk(r) && Inorder(r) == Without(Inorder(Plug(c, t)), z)
    {
      Focus(Ends(), Mem(), c, t);
      DirectRemoval(c, t);
      var x := SpliceOut(z, c, t);
      ghost var k := Refresh(c, MaxHigh(OnlyChild(t)));
      r := Plug(k, OnlyChild(t));
      if !z.red {
        r := DeleteFixup(x, k, OnlyChild(t));
      }
    }

    /** Replaces `z` by its only child and recomputes max_high. */
    method SpliceOut(z: Node, ghost c: Ctx, ghost t: Tree) returns (x: Node)
      requires Holds(Ends(), Mem(), Plug(c, t)) && t.Br? && t.id == z && (t.left.Leaf? || t.right.Leaf?)
      modifies Repr
      ensures Holds(Ends(), Mem(), Plug(Refresh(c, MaxHigh(OnlyChild(t))), OnlyChild(t)))
      ensures x == Id(Ends(), OnlyChild(t)) && x.parent == Pid(Ends(), Refresh(c, MaxHigh(OnlyChild(t)))) && z.red == t.red
    {
      hide Holds, Good, Plug;
      Near(Ends(), Mem(), c, t);
      assert CellOf(z) == Mem()[z];
      x := OnlyChildOf(z, c, t);
      Splice(x, z, c, t);
      FixupMaxHigh(x.parent, c, OnlyChild(t));
    }

    /** Removal of a node with two children: its successor moves into its place. */
    method RemoveBySuccessor(z: Node, ghost c: Ctx, ghost t: Tree) returns (ghost r: Tree)
      requires Holds(Ends(), Mem(), Plug(c, t)) && Good(Plug(c, t)) && t.Br? && t.id == z && t.left.Br? && t.right.Br?
      modifies Repr
      ensures Holds(Ends(), Mem(), r) && RedBlack(r) && MaxOk(r) && Inorder(r) == Without(Inorder(Plug(c, t)), z)
    {
      hide Holds, Good, Plug;
      var x, yRed;
      ghost var k, u;
      x, yRed, k, u := PromoteSuccessor(z, c, t);
      r := Plug(k, u);
      if !yRed {
        r := DeleteFixup(x, k, u);
      }
    }

    /** The successor `y` of `z` leaves its place to its child `x` and takes the place and colour of `z`. */
    method PromoteSuccessor(z: Node, ghost c: Ctx, ghost t: Tree) returns (x: Node, yRed: bool, ghost k: Ctx, ghost r: Tree)
      requires Holds(Ends(), Mem(), Plug(c, t)) && Good(Plug(c, t)) && t.Br? && t.id == z && t.left.Br? && t.right.Br?
      modifies Repr
      ensures Holds(Ends(), Mem(), Plug(k, r)) && x == Id(Ends(), r) && x.parent == Pid(Ends(), k)
      ensures Inorder(Plug(k, r)) == Without(Inorder(Plug(c, t)), z)
      ensures if yRed then RedBlack(Plug(k, r)) && MaxOk(Plug(k, r)) else DelFix(k, r)
    {
      hide Holds, Good, Refresh;
      var y;
      ghost var inner, u;
      y, inner, u := SuccessorFrom(z, c, t);
      EachOnce(Ends(), Mem(), Plug(c, t));
      PromotedRemoval(c, t, inner, u);
      PlugOver(inner, u, DownRight(c, t));
      Near(Ends(), Mem(), Over(inner, DownRight(c, t)), u);
      x := OnlyChildOf(y, Over(inner, DownRight(c, t)), u);
      yRed := y.red;
      Promote(z, y, x, c, t, inner, u);
      Recolour(z, y, c, t, inner, u);
      k, r := Refresh(Promoted(c, t, inner, y, u.iv, t.red), MaxHigh(u.right)), u.right;
      SamePlace(Ends(), inner, c, t, y, u.iv, MaxHigh(r));
    }

    /** The successor takes over the colour of the node it replaces. */
    method Recolour(z: Node, y: Node, ghost c: Ctx, ghost t: Tree, ghost inner: Ctx, ghost u: Tree)
      requires t.Br? && u.Br? && y == u.id && z.red == t.red
      requires Holds(Ends(), Mem(), Plug(Refresh(Promoted(c, t, inner, y, u.iv, u.red), MaxHigh(u.right)), u.right))
      modifies y`red
      ensures Holds(Ends(), Mem(), Plug(Refresh(Promoted(c, t, inner, y, u.iv, t.red), MaxHigh(u.right)), u.right))
    {
      ghost var max := PromotedMax(t, inner, u.iv, u.right);
      PromotedPlace(c, t, inner, y, u.iv, u.red, u.right);
      PromotedPlace(c, t, inner, y, u.iv, t.red, u.right);
      SetRed(y, z.red, Refresh(c, max), Br(t.left, y, u.iv, u.red, max, PromotedRight(inner, u.right)));
    }

    /** Splices the successor `y` out, puts it where `z` is and recomputes max_high. */
    method Promote(z: Node, y: Node, x: Node, ghost c: Ctx, ghost t: Tree, ghost inner: Ctx, ghost u: Tree)
      requires Holds(Ends(), Mem(), Plug(c, t)) && t.Br? && t.id == z && t.left.Br? && t.right == Plug(inner, u)
      requires u.Br? && u.left.Leaf? && y == u.id && x == Id(Ends(), u.right) && {x, y, y.parent} <= Repr
      modifies Repr
      ensures Holds(Ends(), Mem(), Plug(Refresh(Promoted(c, t, inner, y, u.iv, u.red), MaxHigh(u.right)), u.right))
      ensures x.parent == Pid(Ends(), Promoted(c, t, inner, y, u.iv, u.red)) && z.red == t.red
    {
      hide Holds, Plug, Refresh;
      SwapIn(z, y, x, c, t, inner, u);
      ghost var p := Unrefreshed(c, t, inner, y, u.iv, u.red);
      UnrefreshedPlace(Ends(), c, t, inner, y, u.iv, u.red, u.right);
      Near(Ends(), Mem(), p, u.right);
      FixupMaxHigh(x.parent, p, u.right);
    }

    /** Splices the successor `y` out and puts it where `z` is. */
    method SwapIn(z: Node, y: Node, x: Node, ghost c: Ctx, ghost t: Tree, ghost inner: Ctx, ghost u: Tree)
      requires Holds(Ends(), Mem(), Plug(c, t)) && t.Br? && t.id == z && t.left.Br? && t.right == Plug(inner, u)
      requires u.Br? && u.left.Leaf? && y == u.id && x == Id(Ends(), u.right) && {x, y, y.parent} <= Repr
      modifies Repr
      ensures Holds(Ends(), Mem(), Plug(c, Br(t.left, y, u.iv, u.red, -MAX_TIME, Plug(inner, u.right)))) && z.red == t.red
      ensures x == nil ==> nil.parent == if inner.Top? then y else inner.id
    {
      hide Holds, Nodes;
      ghost var k, rest := Over(inner, DownRight(c, t)), t.(right := Plug(inner, u.right));
      PlugOver(inner, u, DownRight(c, t));
      PlugOver(inner, u.right, DownRight(c, t));
      Near(Ends(), Mem(), k, u);
      assert CellOf(y) == Mem()[y];
      SplicedApart(Ends(), Mem(), k, u);
      Splice(x, y, k, u);
      PlugTop(inner, u.right);
      Replace(z, y, c, rest, u.iv, u.red);
    }

    method OnlyChildOf(y: Node, ghost k: Ctx, ghost u: Tree) returns (x: Node)
      requires Holds(Ends(), Mem(), Plug(k, u)) && u.Br? && u.id == y && (u.left.Leaf? || u.right.Leaf?)
      ensures x == Id(Ends(), OnlyChild(u)) && {x, y.parent} <= Repr
    {
      Near(Ends(), Mem(), k, u);
      OnlyChildCell(Ends(), Mem(), k, u);
      assert CellOf(y) == Mem()[y];
      x := if y.left == nil then y.right else y.left;
    }

    /** `y` gives way to its only child `x`, which may be nil. */
    method Splice(x: Node, y: Node, ghost k: Ctx, ghost u: Tree)
      requires Holds(Ends(), Mem(), Plug(k, u)) && u.Br? && u.id == y && (u.left.Leaf? || u.right.Leaf?)
      requires x == Id(Ends(), OnlyChild(u)) && {x, y.parent} <= Repr
      modifies x`parent, y.parent`left, y.parent`right
      ensures Holds(Ends(), Mem(), Plug(k, OnlyChild(u))) && x.parent == Pid(Ends(), k)
      ensures CellOf(y) == old(CellOf(y))
    {
      hide Holds, Plug;
      ghost var m := Mem();
      Near(Ends(), m, k, u);
      OnlyChildCell(Ends(), m, k, u);
      x.parent := y.parent;
      if root == x.parent {
        root.left := x;
      } else {
        if y == y.parent.left {
          y.parent.left := x;
        } else {
          y.parent.right := x;
        }
      }
      Spliced(Ends(), m, Mem(), k, u);
    }

    /** `y`, which is not in the tree, takes `z`'s place. */
    method Replace(z: Node, y: Node, ghost c: Ctx, ghost t: Tree, ghost iv: Interval, ghost red: bool)
      requires Holds(Ends(), Mem(), Plug(c, t)) && t.Br? && t.id == z && t.left.Br?
      requires y in Repr && y !in Nodes(Plug(c, t)) && y != nil && y != root
      requires y.stored == Stored(iv) && y.key == iv.low && y.high == iv.high && y.red == red
      modifies Repr
      ensures Holds(Ends(), Mem(), Plug(c, Br(t.left, y, iv, red, -MAX_TIME, t.right))) && z.red == t.red
      ensures nil.parent == if t.right.Leaf? then y else old(nil.parent)
    {
      ghost var m := Mem();
      ReplaceCells(Ends(), m, c, t, y);
      TakeOver(z, y);
      Replaced(Ends(), m, Mem(), c, t, y, iv, red);
    }

    /** The assignments by which `y` takes `z`'s place. */
    method TakeOver(z: Node, y: Node)
      requires z != y && z.left !in {z, y, z.right} && z.right !in {z, y} && z.parent !in {z, y, z.left, z.right}
      modifies y`maxHigh, y`left, y`right, y`parent, z.left`parent, z.right`parent, z.parent`left, z.parent`right
      ensures y.maxHigh == -MAX_TIME && y.left == old(z.left) && y.right == old(z.right) && y.parent == old(z.parent)
      ensures old(z.left).parent == y && old(z.right).parent == y && z.parent == old(z.parent)
      ensures var p := z.parent;
              if old(p.left) == z then p.left == y && p.right == old(p.right) else p.right == y && p.left == old(p.left)
    {
      y.maxHigh := -MAX_TIME;
      y.left := z.left;
      y.right := z.right;
      y.parent := z.parent;
      z.right.parent := y;
      z.left.parent := y;
      if z == z.parent.left {
        z.parent.left := y;
      } else {
        z.parent.right := y;
      }
    }

    /** The leftmost node below `x`. */
    method GetMinimum(x: Node, ghost c: Ctx, ghost t: Tree) returns (y: Node, ghost k: Ctx, ghost u: Tree)
      requires Holds(Ends(), Mem(), Plug(c, t)) && t.Br? && x == t.id
      ensures Plug(k, u) == t && u.Br? && u.left.Leaf? && y == u.id && Before(k) == []
    {
      y, k, u := x, Top, t;
      Near(Ends(), Mem(), c, t);
      while y.left != nil
        invariant Plug(k, u) == t && u.Br? && y == u.id && Before(k) == []
        invariant y.left == Id(Ends(), u.left)
        decreases u
      {
        y := y.left;
        k, u := DownLeft(k, u), u.left;
        PlugOver(k, u, c);
        Near(Ends(), Mem(), Over(k, c), u);
      }
      PlugOver(k, u, c);
      Near(Ends(), Mem(), Over(k, c), u);
    }

    /** The rightmost node below `x`. */
    method GetMaximum(x: Node, ghost c: Ctx, ghost t: Tree) returns (y: Node, ghost k: Ctx, ghost u: Tree)
      requires Holds(Ends(), Mem(), Plug(c, t)) && t.Br? && x == t.id
      ensures Plug(k, u) == t && u.Br? && u.right.Leaf? && y == u.id && After(k) == []
    {
      y, k, u := x, Top, t;
      Near(Ends(), Mem(), c, t);
      while y.right != nil
        invariant Plug(k, u) == t && u.Br? && y == u.id && After(k) == []
        invariant y.right == Id(Ends(), u.right)
        decreases u
      {
        y := y.right;
        k, u := DownRight(k, u), u.right;
        PlugOver(k, u, c);
        Near(Ends(), Mem(), Over(k, c), u);
      }
      PlugOver(k, u, c);
      Near(Ends(), Mem(), Over(k, c), u);
    }

    /** The node that follows `x` in key order, or the root sentinel after the last one. */
    method SuccessorFrom(x0: Node, ghost c: Ctx, ghost t: Tree) returns (y: Node, ghost k: Ctx, ghost u: Tree)
      requires Holds(Ends(), Mem(), Plug(c, t)) && t.Br? && x0 == t.id
      ensures t.right.Br? ==> Plug(k, u) == t.right && u.Br? && u.left.Leaf? && y == u.id && Before(k) == []
      ensures y == FirstOr(Inorder(t.right) + After(c), root)
    {
      Near(Ends(), Mem(), c, t);
      k, u := c, t;
      if nil != x0.right {
        y, k, u := GetMinimum(x0.right, DownRight(c, t), t.right);
        PlugInorder(k, u);
      } else {
        var x := x0;
        y := x.parent;
        while y != nil && x == y.right
          invariant Plug(k, u) == Plug(c, t) && u.Br? && x == u.id && y == Pid(Ends(), k) && After(k) == After(c)
          invariant k.Step? ==> y.right == if k.leftHole then Id(Ends(), k.sib) else x
          decreases k
        {
          Near(Ends(), Mem(), k, u);
          x := y;
          y := y.parent;
          k, u := k.up, Join(k, u);
          Near(Ends(), Mem(), k, u);
        }
        Near(Ends(), Mem(), k, u);
        assert [] + After(c) == After(c);
      }
    }

    /** The node that precedes `x` in key order, or nil before the first one. */
    method PredecessorFrom(x0: Node, ghost c: Ctx, ghost t: Tree) returns (y: Node, ghost k: Ctx, ghost u: Tree)
      requires Holds(Ends(), Mem(), Plug(c, t)) && t.Br? && x0 == t.id
      ensures y == LastOr(Before(c) + Inorder(t.left), nil)
    {
      hide Holds;
      Near(Ends(), Mem(), c, t);
      k, u := c, t;
      if nil != x0.left {
        y, k, u := GetMaximum(x0.left, DownLeft(c, t), t.left);
        PlugInorder(k, u);
      } else {
        var x := x0;
        y := x.parent;
        while y != nil && x == y.left
          invariant Plug(k, u) == Plug(c, t) && u.Br? && Before(k) == Before(c)
          invariant if y == nil then k.Top? else x == u.id && y == Pid(Ends(), k)
          invariant y != nil ==> y.left == if k.Top? || k.leftHole then x else Id(Ends(), k.sib)
          decreases k, y != nil
        {
          Near(Ends(), Mem(), k, u);
          if k.Top? { assert CellOf(root) == Mem()[root]; }
          x := y;
          y := y.parent;
          if k.Step? {
            k, u := k.up, Join(k, u);
            Near(Ends(), Mem(), k, u);
          }
        }
        Near(Ends(), Mem(), k, u);
        assert Before(c) + [] == Before(c);
      }
    }

    method GetSuccessor(x: Node) returns (y: Node, ghost i: nat)
      requires Valid() && x in Nodes(tree)
      ensures i < |Contents()| && Contents()[i].id == x && y == FirstOr(Contents()[i + 1..], root)
    {
      ghost var c, t := Locate(tree, x);
      ghost var k, u;
      y, k, u := SuccessorFrom(x, c, t);
      i := Neighbours(c, t);
    }

    method GetPredecessor(x: Node) returns (y: Node, ghost i: nat)
      requires Valid() && x in Nodes(tree)
      ensures i < |Contents()| && Contents()[i].id == x && y == LastOr(Contents()[..i], nil)
    {
      ghost var c, t := Locate(tree, x);
      ghost var k, u;
      y, k, u := PredecessorFrom(x, c, t);
      i := Neighbours(c, t);
    }

    /** Restores the red-black shape when the paths through `x` are one black node short. */
    method DeleteFixup(x0: Node, ghost c0: Ctx, ghost t0: Tree) returns (ghost r: Tree)
      requires Holds(Ends(), Mem(), Plug(c0, t0)) && DelFix(c0, t0)
      requires x0 == Id(Ends(), t0) && x0.parent == Pid(Ends(), c0)
      modifies Repr
      ensures Holds(Ends(), Mem(), r) && RedBlack(r) && MaxOk(r) && Inorder(r) == Inorder(Plug(c0, t0))
    {
      hide Holds, RedBlack, MaxOk, DelFix;
      var x := x0;
      ghost var c, t, done := c0, t0, false;
      Near(Ends(), Mem(), c, t);
      Near(Ends(), Mem(), Top, Plug(c, t));
      var rootLeftNode := root.left;
      r := Plug(c, t);
      while !x.red && rootLeftNode != x
        invariant x in Repr && Inorder(r) == Inorder(Plug(c0, t0)) && Holds(Ends(), Mem(), r)
        invariant done ==> x == rootLeftNode && RedBlack(r) && MaxOk(r) && r.Br? && !x.red
        invariant !done ==> r == Plug(c, t) && DelFix(c, t) && x == Id(Ends(), t) && x.parent == Pid(Ends(), c)
        invariant !done ==> x.red == IsRed(t) && (!x.red ==> rootLeftNode == Id(Ends(), Plug(c, t)))
        decreases !done, if x.red then 0 else Depth(c) + 1
      {
        if c.Top? { assert false; }
        Near(Ends(), Mem(), c, t);
        Short(c, t);
        if x == x.parent.left {
          x, done, c, t, r := FixFromLeft(x, rootLeftNode, c, t);
        } else {
          x, done, c, t, r := FixFromRight(x, rootLeftNode, c, t);
        }
      }
      if !done {
        if !x.red { AtTop(Ends(), Mem(), c, t); }
        BlackenRepairs(c, t);
      }
      r := Blacken(x, done, c, t, r);
    }

    /** The final `x->red = false`; when `done` it changes nothing. */
    method Blacken(x: Node, ghost done: bool, ghost c: Ctx, ghost t: Tree, ghost r0: Tree) returns (ghost r: Tree)
      requires Holds(Ends(), Mem(), r0) && (if done then x in Repr && !x.red else r0 == Plug(c, t) && x == Id(Ends(), t))
      modifies x`red
      ensures Holds(Ends(), Mem(), r) && r == if done then r0 else Plug(c, Blackened(t))
    {
      ghost var m := Mem();
      if !done { Near(Ends(), m, c, t); }
      x.red := false;
      if done || t.Leaf? {
        assert Mem() == m;
        r := r0;
      } else {
        assert Mem() == m[x := m[x].(red := false, maxHigh := t.max)];
        Retouch(Ends(), m, Mem(), c, t, false, t.max);
        r := Plug(c, Blackened(t));
      }
    }

    /** One round of the repair with `x` a left child. */
    method FixFromLeft(x0: Node, rootLeftNode: Node, ghost c0: Ctx, ghost t0: Tree)
      returns (x: Node, ghost done: bool, ghost c: Ctx, ghost t: Tree, ghost r: Tree)
      requires Holds(Ends(), Mem(), Plug(c0, t0)) && DelFix(c0, t0) && !IsRed(t0) && c0.Step? && c0.leftHole
      requires x0 == Id(Ends(), t0) && x0.parent == c0.id && rootLeftNode == Id(Ends(), Plug(c0, t0))
      modifies Repr
      ensures x in Repr && Inorder(r) == Inorder(Plug(c0, t0)) && Holds(Ends(), Mem(), r)
      ensures done ==> x == rootLeftNode && RedBlack(r) && MaxOk(r) && r.Br? && !x.red
      ensures !done ==> r == Plug(c, t) && DelFix(c, t) && x == Id(Ends(), t) && x.parent == Pid(Ends(), c)
      ensures !done ==> x.red == IsRed(t) && (!x.red ==> Depth(c) < Depth(c0) && rootLeftNode == Id(Ends(), Plug(c, t)))
    {
      Near(Ends(), Mem(), c0, t0);
      Short(c0, t0);
      c := c0;
      var w := x0.parent.right;
      SiblingNode(Ends(), Mem(), c, t0);
      if w.red {
        c := RaiseSiblingLeft(x0, w, c, t0);
        w := x0.parent.right;
        Topmost(c0, c, t0, Join(c, t0));
      }
      x, done, c, t, r := FixBlackSiblingLeft(x0, rootLeftNode, c, t0);
    }

    /** The rest of the round, with a black sibling. */
    method FixBlackSiblingLeft(x0: Node, rootLeftNode: Node, ghost c0: Ctx, ghost t0: Tree)
      returns (x: Node, ghost done: bool, ghost c: Ctx, ghost t: Tree, ghost r: Tree)
      requires Holds(Ends(), Mem(), Plug(c0, t0)) && DelFix(c0, t0) && !IsRed(t0) && c0.Step? && c0.leftHole && !IsRed(c0.sib)
      requires x0 == Id(Ends(), t0) && x0.parent == c0.id
      requires rootLeftNode == Id(Ends(), Plug(c0, t0)) || (c0.red && rootLeftNode == c0.id)
      modifies Repr
      ensures x in Repr && Inorder(r) == Inorder(Plug(c0, t0)) && Holds(Ends(), Mem(), r)
      ensures done ==> x == rootLeftNode && RedBlack(r) && MaxOk(r) && r.Br? && !x.red
      ensures !done ==> r == Plug(c, t) && DelFix(c, t) && x == Id(Ends(), t) && x.parent == Pid(Ends(), c) && c == c0.up
      ensures !done ==> x.red == c0.red == IsRed(t) && (!x.red ==> rootLeftNode == Id(Ends(), Plug(c, t)))
    {
      hide Holds, Good, Final, DelFix;
      Short(c0, t0);
      SiblingNode(Ends(), Mem(), c0, t0);
      c, t := c0, t0;
      var w := x0.parent.right;
      if !w.right.red && !w.left.red {
        x, t := SiblingTurnsRed(x0, w, c, t);
        if c.up.Step? { TopmostFixed(c.up, Join(c, t0), t); }
        c := c.up;
        r, done := Plug(c, t), false;
      } else {
        r := RedNephewLeft(x0, w, rootLeftNode, c, t);
        x := rootLeftNode;
        done := true;
      }
    }

    /** Black sibling `w` with a red child: at most two rotations, and all is well. */
    method RedNephewLeft(x: Node, w0: Node, rootLeftNode: Node, ghost c0: Ctx, ghost t: Tree) returns (ghost r: Tree)
      requires Holds(Ends(), Mem(), Plug(c0, t)) && DelFix(c0, t) && !IsRed(t) && c0.Step? && c0.leftHole && c0.sib.Br? && !c0.sib.red
      requires x == Id(Ends(), t) && x.parent == c0.id && w0 == c0.sib.id && (IsRed(c0.sib.left) || IsRed(c0.sib.right))
      requires rootLeftNode == Id(Ends(), Plug(c0, t)) || (c0.red && rootLeftNode == c0.id)
      modifies Repr
      ensures Holds(Ends(), Mem(), r) && Inorder(r) == Inorder(Plug(c0, t)) && RedBlack(r) && MaxOk(r) && r.Br?
      ensures rootLeftNode in Repr && !rootLeftNode.red
    {
      hide Holds, Good, DelFix;
      ghost var c := c0;
      var w := w0;
      SiblingNode(Ends(), Mem(), c, t);
      if !w.right.red {
        c := RaiseNephewLeft(w, c, t);
        Near(Ends(), Mem(), c, t);
        w := x.parent.right;
      }
      r := RaiseLastLeft(x, w, c, t);
      Topmost(c0, c, t, Final(c, t));
      Near(Ends(), Mem(), Top, r);
    }

    /** Black sibling `w` with black children: it turns red and the parent is one short. */
    method SiblingTurnsRed(x0: Node, w: Node, ghost c: Ctx, ghost t0: Tree) returns (x: Node, ghost t: Tree)
      requires Holds(Ends(), Mem(), Plug(c, t0)) && DelFix(c, t0) && !IsRed(t0) && c.Step? && c.sib.Br? && !c.sib.red
      requires x0 == Id(Ends(), t0) && x0.parent == c.id && w == c.sib.id && w in Repr && !IsRed(c.sib.left) && !IsRed(c.sib.right)
      modifies Repr
      ensures t == Join(SiblingRed(c), t0) && Holds(Ends(), Mem(), Plug(c.up, t)) && DelFix(c.up, t)
      ensures x == c.id && x in Repr && x.red == c.red && x.parent == Pid(Ends(), c.up)
      ensures Inorder(Plug(c.up, t)) == Inorder(Plug(c, t0))
    {
      SetRed(w, true, AcrossFrom(c, t0), c.sib);
      t := Join(SiblingRed(c), t0);
      x := x0.parent;
      Near(Ends(), Mem(), c.up, t);
      SiblingRedKeeps(c, t0);
      SameContents(c.up, Join(c, t0), t);
    }

    /** Red sibling `w` of the left child `x`: recolour and rotate it above their parent. */
    method RaiseSiblingLeft(x: Node, w: Node, ghost c0: Ctx, ghost t: Tree) returns (ghost c: Ctx)
      requires Holds(Ends(), Mem(), Plug(c0, t)) && DelFix(c0, t) && !IsRed(t) && c0.Step? && c0.leftHole
      requires x == Id(Ends(), t) && x.parent == c0.id && IsRed(c0.sib) && w == c0.sib.id && w in Repr
      modifies Repr
      ensures Holds(Ends(), Mem(), Plug(c, t)) && DelFix(c, t) && c == BelowSibling(c0, t)
      ensures x.parent == c.id && c.red && c.leftHole && c.id == c0.id && !IsRed(c.sib) && c.up.Step? && c.up.up == c0.up
      ensures Inorder(Plug(c, t)) == Inorder(Plug(c0, t))
    {
      Near(Ends(), Mem(), c0, t);
      SetRed(w, false, AcrossFrom(c0, t), c0.sib);
      c := c0.(sib := c0.sib.(red := false));
      SetRed(x.parent, true, c.up, Join(c, t));
      c := c.(red := true);
      LeftRotate(x.parent, c.up, Join(c, t));
      SiblingUpKeeps(c0, t);
      SameContents(c0.up, Join(c0, t), SiblingUp(c0, t));
      c := BelowSibling(c0, t);
      Near(Ends(), Mem(), c, t);
    }

    /** Black sibling `w` whose far child is black: its red near child is rotated above it. */
    method RaiseNephewLeft(w: Node, ghost c0: Ctx, ghost t: Tree) returns (ghost c: Ctx)
      requires Holds(Ends(), Mem(), Plug(c0, t)) && DelFix(c0, t) && !IsRed(t) && c0.Step? && c0.leftHole
      requires c0.sib.Br? && !c0.sib.red && w == c0.sib.id && IsRed(c0.sib.left) && !IsRed(c0.sib.right)
      modifies Repr
      ensures Holds(Ends(), Mem(), Plug(c, t)) && DelFix(c, t) && c == c0.(sib := NephewUp(c0)) && nil.parent == old(nil.parent)
      ensures c.sib.Br? && !c.sib.red && IsRed(c.sib.right) && Inorder(Plug(c, t)) == Inorder(Plug(c0, t))
    {
      hide DelFix, Inorder;
      ghost var k, s := AcrossFrom(c0, t), c0.sib;
      SiblingNode(Ends(), Mem(), c0, t);
      SetRed(w.left, false, DownLeft(k, s), s.left);
      s := s.(left := s.left.(red := false));
      SetRed(w, true, k, s);
      s := s.(red := true);
      RightRotate(w, k, s);
      NephewUpKeeps(c0, t);
      c := c0.(sib := NephewUp(c0));
      PlugInorder(c0, t);
      PlugInorder(c, t);
    }

    /** Black sibling `w` whose far child is red: it is rotated above the parent, and all is well. */
    method RaiseLastLeft(x: Node, w: Node, ghost c: Ctx, ghost t: Tree) returns (ghost r: Tree)
      requires Holds(Ends(), Mem(), Plug(c, t)) && DelFix(c, t) && !IsRed(t) && c.Step? && c.leftHole
      requires x == Id(Ends(), t) && x.parent == c.id && c.sib.Br? && !c.sib.red && w == c.sib.id && IsRed(c.sib.right)
      modifies Repr
      ensures r == Plug(c.up, Final(c, t)) && Holds(Ends(), Mem(), r) && RedBlack(r) && MaxOk(r)
      ensures Inorder(r) == Inorder(Plug(c, t)) && c.id in Repr && !c.id.red
    {
      ColourLastLeft(x, w, c, t);
      LeftRotate(x.parent, c.up, FinalColours(c, t));
      FinalRepairs(c, t);
      r := Plug(c.up, Final(c, t));
      FinalLower(Ends(), Mem(), c, t);
    }

    method ColourLastLeft(x: Node, w: Node, ghost c: Ctx, ghost t: Tree)
      requires Holds(Ends(), Mem(), Plug(c, t)) && DelFix(c, t) && !IsRed(t) && c.Step? && c.leftHole
      requires x == Id(Ends(), t) && x.parent == c.id && c.sib.Br? && !c.sib.red && w == c.sib.id && IsRed(c.sib.right)
      modifies Repr
      ensures Holds(Ends(), Mem(), Plug(c.up, FinalColours(c, t))) && x.parent == c.id
    {
      hide Holds, DelFix;
      SiblingNode(Ends(), Mem(), c, t);
      ghost var k, s := c, c.sib.(red := c.red);
      SetRed(w, x.parent.red, AcrossFrom(c, t), c.sib);
      k := k.(sib := s);
      SetRed(x.parent, false, k.up, Join(k, t));
      k := k.(red := false);
      SetRed(w.right, false, DownRight(AcrossFrom(k, t), s), s.right);
      s := s.(right := s.right.(red := false));
      assert Holds(Ends(), Mem(), Plug(AcrossFrom(k, t), s));
      k := k.(sib := s);
    }

    /** One round of the repair with `x` a right child. */
    method FixFromRight(x0: Node, rootLeftNode: Node, ghost c0: Ctx, ghost t0: Tree)
      returns (x: Node, ghost done: bool, ghost c: Ctx, ghost t: Tree, ghost r: Tree)
      requires Holds(Ends(), Mem(), Plug(c0, t0)) && DelFix(c0, t0) && !IsRed(t0) && c0.Step? && !c0.leftHole
      requires x0 == Id(Ends(), t0) && x0.parent == c0.id && rootLeftNode == Id(Ends(), Plug(c0, t0))
      modifies Repr
      ensures x in Repr && Inorder(r) == Inorder(Plug(c0, t0)) && Holds(Ends(), Mem(), r)
      ensures done ==> x == rootLeftNode && RedBlack(r) && MaxOk(r) && r.Br? && !x.red
      ensures !done ==> r == Plug(c, t) && DelFix(c, t) && x == Id(Ends(), t) && x.parent == Pid(Ends(), c)
      ensures !done ==> x.red == IsRed(t) && (!x.red ==> Depth(c) < Depth(c0) && rootLeftNode == Id(Ends(), Plug(c, t)))
    {
      Near(Ends(), Mem(), c0, t0);
      Short(c0, t0);
      c := c0;
      var w := x0.parent.left;
      SiblingNode(Ends(), Mem(), c, t0);
      if w.red {
        c := RaiseSiblingRight(x0, w, c, t0);
        w := x0.parent.left;
        Topmost(c0, c, t0, Join(c, t0));
      }
      x, done, c, t, r := FixBlackSiblingRight(x0, rootLeftNode, c, t0);
    }

    /** The rest of the round, with a black sibling. */
    method FixBlackSiblingRight(x0: Node, rootLeftNode: Node, ghost c0: Ctx, ghost t0: Tree)
      returns (x: Node, ghost done: bool, ghost c: Ctx, ghost t: Tree, ghost r: Tree)
      requires Holds(Ends(), Mem(), Plug(c0, t0)) && DelFix(c0, t0) && !IsRed(t0) && c0.Step? && !c0.leftHole && !IsRed(c0.sib)
      requires x0 == Id(Ends(), t0) && x0.parent == c0.id
      requires rootLeftNode == Id(Ends(), Plug(c0, t0)) || (c0.red && rootLeftNode == c0.id)
      modifies Repr
      ensures x in Repr && Inorder(r) == Inorder(Plug(c0, t0)) && Holds(Ends(), Mem(), r)
      ensures done ==> x == rootLeftNode && RedBlack(r) && MaxOk(r) && r.Br? && !x.red
      ensures !done ==> r == Plug(c, t) && DelFix(c, t) && x == Id(Ends(), t) && x.parent == Pid(Ends(), c) && c == c0.up
      ensures !done ==> x.red == c0.red == IsRed(t) && (!x.red ==> rootLeftNode == Id(Ends(), Plug(c, t)))
    {
      hide Holds, Good, Final, DelFix;
      Short(c0, t0);
      SiblingNode(Ends(), Mem(), c0, t0);
      c, t := c0, t0;
      var w := x0.parent.left;
      if !w.right.red && !w.left.red {
        x, t := SiblingTurnsRed(x0, w, c, t);
        if c.up.Step? { TopmostFixed(c.up, Join(c, t0), t); }
        c := c.up;
        r, done := Plug(c, t), false;
      } else {
        r := RedNephewRight(x0, w, rootLeftNode, c, t);
        x := rootLeftNode;
        done := true;
      }
    }

    /** Black sibling `w` with a red child: at most two rotations, and all is well. */
    method RedNephewRight(x: Node, w0: Node, rootLeftNode: Node, ghost c0: Ctx, ghost t: Tree) returns (ghost r: Tree)
      requires Holds(Ends(), Mem(), Plug(c0, t)) && DelFix(c0, t) && !IsRed(t) && c0.Step? && !c0.leftHole && c0.sib.Br? && !c0.sib.red
      requires x == Id(Ends(), t) && x.parent == c0.id && w0 == c0.sib.id && (IsRed(c0.sib.left) || IsRed(c0.sib.right))
      requires rootLeftNode == Id(Ends(), Plug(c0, t)) || (c0.red && rootLeftNode == c0.id)
      modifies Repr
      ensures Holds(Ends(), Mem(), r) && Inorder(r) == Inorder(Plug(c0, t)) && RedBlack(r) && MaxOk(r) && r.Br?
      ensures rootLeftNode in Repr && !rootLeftNode.red
    {
      hide Holds, Good, DelFix;
      ghost var c := c0;
      var w := w0;
      SiblingNode(Ends(), Mem(), c, t);
      if !w.left.red {
        c := RaiseNephewRight(w, c, t);
        Near(Ends(), Mem(), c, t);
        w := x.parent.left;
      }
      r := RaiseLastRight(x, w, c, t);
      Topmost(c0, c, t, Final(c, t));
      Near(Ends(), Mem(), Top, r);
    }

    /** Red sibling `w` of the right child `x`: recolour and rotate it above their parent. */
    method RaiseSiblingRight(x: Node, w: Node, ghost c0: Ctx, ghost t: Tree) returns (ghost c: Ctx)
      requires Holds(Ends(), Mem(), Plug(c0, t)) && DelFix(c0, t) && !IsRed(t) && c0.Step? && !c0.leftHole
      requires x == Id(Ends(), t) && x.parent == c0.id && IsRed(c0.sib) && w == c0.sib.id && w in Repr
      modifies Repr
      ensures Holds(Ends(), Mem(), Plug(c, t)) && DelFix(c, t) && c == BelowSibling(c0, t)
      ensures x.parent == c.id && c.red && !c.leftHole && c.id == c0.id && !IsRed(c.sib) && c.up.Step? && c.up.up == c0.up
      ensures Inorder(Plug(c, t)) == Inorder(Plug(c0, t))
    {
      Near(Ends(), Mem(), c0, t);
      SetRed(w, false, AcrossFrom(c0, t), c0.sib);
      c := c0.(sib := c0.sib.(red := false));
      SetRed(x.parent, true, c.up, Join(c, t));
      c := c.(red := true);
      RightRotate(x.parent, c.up, Join(c, t));
      SiblingUpKeeps(c0, t);
      SameContents(c0.up, Join(c0, t), SiblingUp(c0, t));
      c := BelowSibling(c0, t);
      Near(Ends(), Mem(), c, t);
    }

    /** Black sibling `w` whose far child is black: its red near child is rotated above it. */
    method RaiseNephewRight(w: Node, ghost c0: Ctx, ghost t: Tree) returns (ghost c: Ctx)
      requires Holds(Ends(), Mem(), Plug(c0, t)) && DelFix(c0, t) && !IsRed(t) && c0.Step? && !c0.leftHole
      requires c0.sib.Br? && !c0.sib.red && w == c0.sib.id && IsRed(c0.sib.right) && !IsRed(c0.sib.left)
      modifies Repr
      ensures Holds(Ends(), Mem(), Plug(c, t)) && DelFix(c, t) && c == c0.(sib := NephewUp(c0)) && nil.parent == old(nil.parent)
      ensures c.sib.Br? && !c.sib.red && IsRed(c.sib.left) && Inorder(Plug(c, t)) == Inorder(Plug(c0, t))
    {
      hide DelFix, Inorder;
      ghost var k, s := AcrossFrom(c0, t), c0.sib;
      SiblingNode(Ends(), Mem(), c0, t);
      SetRed(w.right, false, DownRight(k, s), s.right);
      s := s.(right := s.right.(red := false));
      SetRed(w, true, k, s);
      s := s.(red := true);
      LeftRotate(w, k, s);
      NephewUpKeeps(c0, t);
      c := c0.(sib := NephewUp(c0));
      PlugInorder(c0, t);
      PlugInorder(c, t);
    }

    /** Black sibling `w` whose far child is red: it is rotated above the parent, and all is well. */
    method RaiseLastRight(x: Node, w: Node, ghost c: Ctx, ghost t: Tree) returns (ghost r: Tree)
      requires Holds(Ends(), Mem(), Plug(c, t)) && DelFix(c, t) && !IsRed(t) && c.Step? && !c.leftHole
      requires x == Id(Ends(), t) && x.parent == c.id && c.sib.Br? && !c.sib.red && w == c.sib.id && IsRed(c.sib.left)
      modifies Repr
      ensures r == Plug(c.up, Final(c, t)) && Holds(Ends(), Mem(), r) && RedBlack(r) && MaxOk(r)
      ensures Inorder(r) == Inorder(Plug(c, t)) && c.id in Repr && !c.id.red
    {
      ColourLastRight(x, w, c, t);
      RightRotate(x.parent, c.up, FinalColours(c, t));
      FinalRepairs(c, t);
      r := Plug(c.up, Final(c, t));
      FinalLower(Ends(), Mem(), c, t);
    }

    method ColourLastRight(x: Node, w: Node, ghost c: Ctx, ghost t: Tree)
      requires Holds(Ends(), Mem(), Plug(c, t)) && DelFix(c, t) && !IsRed(t) && c.Step? && !c.leftHole
      requires x == Id(Ends(), t) && x.parent == c.id && c.sib.Br? && !c.sib.red && w == c.sib.id && IsRed(c.sib.left)
      modifies Repr
      ensures Holds(Ends(), Mem(), Plug(c.up, FinalColours(c, t))) && x.parent == c.id
    {
      hide Holds, DelFix;
      SiblingNode(Ends(), Mem(), c, t);
      ghost var k, s := c, c.sib.(red := c.red);
      SetRed(w, x.parent.red, AcrossFrom(c, t), c.sib);
      k := k.(sib := s);
      SetRed(x.parent, false, k.up, Join(k, t));
      k := k.(red := false);
      SetRed(w.left, false, DownLeft(AcrossFrom(k, t), s), s.left);
      s := s.(left := s.left.(red := false));
      assert Holds(Ends(), Mem(), Plug(AcrossFrom(k, t), s));
      k := k.(sib := s);
    }

    method LeftRotate(x: Node, ghost c: Ctx, ghost t: Tree)
      requires Holds(Ends(), Mem(), Plug(c, t)) && t.Br? && t.id == x && t.right.Br?
      modifies Repr
      ensures Holds(Ends(), Mem(), Plug(c, RotL(t)))
      ensures CellOf(nil) == old(CellOf(nil))
    {
      hide Holds, Good, Plug;
      ghost var m := Mem();
      ghost var y, p, b := x.right, x.parent, x.right.left;
      LeftRotateCells(Ends(), m, c, t);
      RelinkLeft(x);
      ghost var n := Mem();
      assert n[p] == Hung(c, m[p], y) && n[nil] == m[nil] && (b != nil ==> n[b] == m[b].(parent := x));
      assert n[x] == m[x].(right := b, parent := y, maxHigh := RotL(t).left.max);
      assert n[y] == m[y].(left := x, parent := p, maxHigh := RotL(t).max);
      assert Others(m, n, x, y, p, b);
      LeftRotated(Ends(), m, n, c, t);
    }

    /** The assignments of a left rotation at `x`. */
    method RelinkLeft(x: Node)
      requires x != x.right && x != x.parent && x.right != x.parent && x.right.left !in {x, x.right, x.parent}
      requires x.right.right !in {x, x.right} && x.left !in {x, x.right} && nil !in {x, x.right, x.parent}
      modifies x`right, x`parent, x`maxHigh, x.right`left, x.right`parent, x.right`maxHigh
      modifies x.parent`left, x.parent`right, x.right.left`parent
      ensures var y, p, b := old(x.right), old(x.parent), old(x.right.left);
              var max := old(Max(x.left.maxHigh, Max(x.right.left.maxHigh, x.high)));
              && CellOf(x) == old(CellOf(x)).(right := b, parent := y, maxHigh := max)
              && CellOf(y) == old(CellOf(x.right)).(left := x, parent := p, maxHigh := Max(max, old(Max(x.right.right.maxHigh, x.right.high))))
              && CellOf(p) == (if old(p.left) == x then old(CellOf(x.parent)).(left := y) else old(CellOf(x.parent)).(right := y))
              && CellOf(b) == (if b == nil then old(CellOf(x.right.left)) else old(CellOf(x.right.left)).(parent := x))
    {
      var y := x.right;
      x.right := y.left;
      if y.left != nil {
        y.left.parent := x;
      }
      y.parent := x.parent;
      if x == x.parent.left {
        x.parent.left := y;
      } else {
        x.parent.right := y;
      }
      y.left := x;
      x.parent := y;
      x.maxHigh := Max(x.left.maxHigh, Max(x.right.maxHigh, x.high));
      y.maxHigh := Max(x.maxHigh, Max(y.right.maxHigh, y.high));
    }

    method RightRotate(x: Node, ghost c: Ctx, ghost t: Tree)
      requires Holds(Ends(), Mem(), Plug(c, t)) && t.Br? && t.id == x && t.left.Br?
      modifies Repr
      ensures Holds(Ends(), Mem(), Plug(c, RotR(t)))
      ensures CellOf(nil) == old(CellOf(nil))
    {
      hide Holds, Good, Plug;
      ghost var m := Mem();
      ghost var y, p, b := x.left, x.parent, x.left.right;
      RightRotateCells(Ends(), m, c, t);
      RelinkRight(x);
      ghost var n := Mem();
      assert n[p] == Hung(c, m[p], y) && n[nil] == m[nil] && (b != nil ==> n[b] == m[b].(parent := x));
      assert n[x] == m[x].(left := b, parent := y, maxHigh := RotR(t).right.max);
      assert n[y] == m[y].(right := x, parent := p, maxHigh := RotR(t).max);
      assert Others(m, n, x, y, p, b);
      RightRotated(Ends(), m, n, c, t);
    }

    /** The assignments of a right rotation at `x`. */
    method RelinkRight(x: Node)
      requires x != x.left && x != x.parent && x.left != x.parent && x.left.right !in {x, x.left, x.parent}
      requires x.left.left !in {x, x.left} && x.right !in {x, x.left} && nil !in {x, x.left, x.parent}
      modifies x`left, x`parent, x`maxHigh, x.left`right, x.left`parent, x.left`maxHigh
      modifies x.parent`left, x.parent`right, x.left.right`parent
      ensures var y, p, b := old(x.left), old(x.parent), old(x.left.right);
              var max := old(Max(x.right.maxHigh, Max(x.left.right.maxHigh, x.high)));
              && CellOf(x) == old(CellOf(x)).(left := b, parent := y, maxHigh := max)
              && CellOf(y) == old(CellOf(x.left)).(right := x, parent := p, maxHigh := Max(max, old(Max(x.left.left.maxHigh, x.left.high))))
              && CellOf(p) == (if old(p.left) == x then old(CellOf(x.parent)).(left := y) else old(CellOf(x.parent)).(right := y))
              && CellOf(b) == (if b == nil then old(CellOf(x.left.right)) else old(CellOf(x.left.right)).(parent := x))
    {
      var y := x.left;
      x.left := y.right;
      if y.right != nil {
        y.right.parent := x;
      }
      y.parent := x.parent;
      if x == x.parent.left {
        x.parent.left := y;
      } else {
        x.parent.right := y;
      }
      y.right := x;
      x.parent := y;
      x.maxHigh := Max(x.right.maxHigh, Max(x.left.maxHigh, x.high));
      y.maxHigh := Max(x.maxHigh, Max(y.left.maxHigh, y.high));
    }

    // ---- looking for a stored interval --------------------------------------------------------

    /** The first node, root before subtrees and left before right, that stores `iv`; else nil. */
    method RecursiveSearch(node: Node, iv: Interval, ghost t: Tree) returns (r: Node)
      requires Valid() && Subtree(tree, t) && node == Id(Ends(), t)
      ensures r == nil ==> forall e :: e in Inorder(t) ==> e.iv != iv
      ensures r != nil ==> Entry(r, iv) in Inorder(t)
      ensures r == FirstStoring(Preorder(t), iv, nil)
      decreases t
    {
      NilIsNoNode(t);
      if node != nil {
        SearchStep(t, iv, nil);
        SubtreeNode(Ends(), Mem(), tree, root, t);
        assert CellOf(node) == Mem()[node];
        if node.stored == Stored(iv) {
          return node;
        }
        SubtreeTrans(tree, t, t.left);
        SubtreeTrans(tree, t, t.right);
        var left := RecursiveSearch(node.left, iv, t.left);
        if left != nil {
          return left;
        }
        var right := RecursiveSearch(node.right, iv, t.right);
        if right != nil {
          return right;
        }
      }
      return nil;
    }

    lemma NilIsNoNode(t: Tree)
      requires Valid() && Subtree(tree, t)
      ensures t.Leaf? <==> Id(Ends(), t) == nil
    {
      if t.Br? { SubtreeNode(Ends(), Mem(), tree, root, t); }
    }

    /** The fields of a subtree's root. */
    lemma Fields(t: Tree)
      requires Valid() && Subtree(tree, t) && t.Br?
      ensures t.id in Repr && t.id.stored == Stored(t.iv) && t.id.key == t.iv.low && t.id.high == t.iv.high
      ensures t.id.left == Id(Ends(), t.left) && t.id.right == Id(Ends(), t.right)
      ensures (t.left.Leaf? <==> t.id.left == nil) && (t.right.Leaf? <==> t.id.right == nil)
      ensures t.id.left.maxHigh == MaxHigh(t.left) && Subtree(tree, t.left) && Subtree(tree, t.right)
    {
      SubtreeNode(Ends(), Mem(), tree, root, t);
      assert CellOf(t.id) == Mem()[t.id] && CellOf(t.id.left) == Mem()[t.id.left];
      SubtreeTrans(tree, t, t.left);
      SubtreeTrans(tree, t, t.right);
    }

    /** Removes the first node, in preorder, that stores `iv`, if there is one. The search starts at the root sentinel,
        which stores no interval and has no right child. */
    method DeleteInterval(iv: Interval) returns (ghost z: Node)
      requires Valid()
      modifies `tree, `Repr, Repr
      ensures Valid()
      ensures if exists e :: e in old(Contents()) && e.iv == iv
              then z == FirstStoring(Preorder(old(tree)), iv, nil) && Entry(z, iv) in old(Contents())
                   && Contents() == Without(old(Contents()), z) && Repr == old(Repr) - {z}
              else Contents() == old(Contents()) && Repr == old(Repr)
    {
      Near(Ends(), Mem(), Top, tree);
      assert CellOf(root) == Mem()[root];
      var node := RecursiveSearch(root.left, iv, tree);
      z := node;
      if node != nil {
        InorderNodes(tree);
        assert Entry(node, iv).id in Nodes(tree);
        DeleteNode(node);
      }
    }

    // ---- querying ---------------------------------------------------------------------------------

    /** No search is under way. */
    ghost predicate Idle()
      reads `recursionNodeStack, `recursionNodeStackTop, recursionNodeStack
    {
      recursionNodeStackTop == 1 && 1 <= recursionNodeStack.Length
    }

    /** The stack above its dummy bottom entry holds the nodes of `p`, in order. */
    ghost predicate Stacked(p: seq<Pending>)
      reads `recursionNodeStack, `recursionNodeStackTop, recursionNodeStack
    {
      && recursionNodeStackTop == |p| + 1 <= recursionNodeStack.Length
      && forall i :: 0 <= i < |p| ==>
           p[i].t.Br? && recursionNodeStack[i + 1] == RecursionNode(p[i].t.id, i, p[i].tryRight)
    }

    /** An answer below the innermost pending node: its right branch is to be tried as well. */
    method MarkParent(ghost p: seq<Pending>)
      requires Valid() && Stacked(p) && currentParent == |p|
      modifies recursionNodeStack
      ensures Valid() && Stacked(Marked(p, true))
      ensures recursionNodeStack == old(recursionNodeStack)
    {
      recursionNodeStack[currentParent] := recursionNodeStack[currentParent].(tryRightBranch := true);
    }

    /** Puts `x` on the stack, which is doubled when it is full. */
    method Grow(x: Node, ghost p: seq<Pending>)
      requires Valid() && Stacked(p) && recursionNodeStackTop == recursionNodeStack.Length
      modifies `recursionNodeStack
      ensures Valid() && Stacked(p) && recursionNodeStackTop < recursionNodeStack.Length && fresh(recursionNodeStack)
    {
      hide Holds, Good, Subtree;
      var a, filler := recursionNodeStack, RecursionNode(x, 0, false);
      var bigger := new RecursionNode[2 * a.Length](i reads a => if 0 <= i < a.Length then a[i] else filler);
      recursionNodeStack := bigger;
    }

    method Push(x: Node, ghost t: Tree, ghost p: seq<Pending>)
      requires Valid() && Stacked(p) && currentParent == |p| && t.Br? && x == t.id
      modifies `recursionNodeStack, `recursionNodeStackTop, `currentParent, recursionNodeStack
      ensures Valid() && Stacked(p + [Pending(t, false)]) && currentParent == |p| + 1
      ensures recursionNodeStack == old(recursionNodeStack) || fresh(recursionNodeStack)
    {
      if recursionNodeStackTop == recursionNodeStack.Length {
        Grow(x, p);
      }
      PushOn(x, t, p);
    }

    method PushOn(x: Node, ghost t: Tree, ghost p: seq<Pending>)
      requires Valid() && Stacked(p) && currentParent == |p| && t.Br? && x == t.id
      requires recursionNodeStackTop < recursionNodeStack.Length
      modifies `recursionNodeStackTop, `currentParent, recursionNodeStack
      ensures Valid() && Stacked(p + [Pending(t, false)]) && currentParent == |p| + 1
    {
      recursionNodeStack[recursionNodeStackTop] := RecursionNode(x, currentParent, false);
      currentParent := recursionNodeStackTop;
      recursionNodeStackTop := recursionNodeStackTop + 1;
    }

    /** Takes entries off the stack until one has a right branch worth trying that is not nil. */
    method Pop(ghost p0: seq<Pending>, low: SimTime, high: SimTime)
      returns (run: bool, x: Node, ghost t: Tree, ghost p: seq<Pending>)
      requires Valid() && Stacked(p0) && AllBelow(tree, p0)
      modifies `recursionNodeStackTop, `currentParent, recursionNodeStack
      ensures Stacked(p) && AllBelow(tree, p) && |p| <= |p0|
      ensures run ==> Subtree(tree, t) && t.Br? && x == t.id && currentParent == |p| && Unwind(p0, low, high) == Run(t, p, low, high)
      ensures run ==> 2 * Size(t) + Work(p) < Work(p0)
      ensures !run ==> p == [] && Unwind(p0, low, high) == []
      ensures recursionNodeStack == old(recursionNodeStack)
    {
      run, x, t, p := false, nil, Leaf, p0;
      while !run && recursionNodeStackTop > 1
        invariant Valid() && Stacked(p) && AllBelow(tree, p) && |p| <= |p0| && recursionNodeStack == old(recursionNodeStack)
        invariant run ==> Subtree(tree, t) && t.Br? && x == t.id && currentParent == |p| && Unwind(p0, low, high) == Run(t, p, low, high)
        invariant run ==> 2 * Size(t) + Work(p) < Work(p0)
        invariant !run ==> Unwind(p0, low, high) == Unwind(p, low, high) && Work(p) <= Work(p0)
        decreases !run, |p|
      {
        run, x, t, p := PopOne(x, t, p, low, high);
      }
    }

    /** Takes one entry off the stack. */
    method PopOne(x0: Node, ghost t0: Tree, ghost p0: seq<Pending>, low: SimTime, high: SimTime)
      returns (run: bool, x: Node, ghost t: Tree, ghost p: seq<Pending>)
      requires Valid() && Stacked(p0) && AllBelow(tree, p0) && p0 != []
      modifies `recursionNodeStackTop, `currentParent, recursionNodeStack
      ensures Valid() && Stacked(p) && AllBelow(tree, p) && |p| < |p0|
      ensures run ==> Subtree(tree, t) && t.Br? && x == t.id && currentParent == |p| && Unwind(p0, low, high) == Run(t, p, low, high)
      ensures if run then 2 * Size(t) + Work(p) < Work(p0) else Unwind(p0, low, high) == Unwind(p, low, high) && Work(p) <= Work(p0)
      ensures recursionNodeStack == old(recursionNodeStack)
    {
      hide Holds, Good, Subtree;
      ghost var last, rest := p0[|p0| - 1], p0[..|p0| - 1];
      run, x, t, p := false, x0, t0, Marked(rest, last.tryRight);
      PopStep(p0, low, high);
      WorkMarked(rest, last.tryRight);
      var f := TakeTop(p0);
      Fields(last.t);
      if f.tryRightBranch {
        x := f.startNode.right;
        RunLeaf(p, low, high);
        t := last.t.right;
        run := x != nil;
      }
    }

    /** The top entry; if its right branch is to be tried, so is the next entry's later on. */
    method TakeTop(ghost p: seq<Pending>) returns (f: RecursionNode)
      requires Valid() && Stacked(p) && p != []
      modifies `recursionNodeStackTop, `currentParent, recursionNodeStack
      ensures f == RecursionNode(p[|p| - 1].t.id, |p| - 1, p[|p| - 1].tryRight)
      ensures Valid() && Stacked(Marked(p[..|p| - 1], f.tryRightBranch)) && (f.tryRightBranch ==> currentParent == |p| - 1)
      ensures recursionNodeStack == old(recursionNodeStack)
    {
      ghost var last := p[|p| - 1];
      assert recursionNodeStack[|p|] == RecursionNode(last.t.id, |p| - 1, last.tryRight);
      recursionNodeStackTop := recursionNodeStackTop - 1;
      f := recursionNodeStack[recursionNodeStackTop];
      if f.tryRightBranch {
        currentParent := f.parentIndex;
        MarkParent(p[..|p| - 1]);
      }
    }

    /** All stored intervals that overlap `low`..`high`, each once. */
    method Query(low: SimTime, high: SimTime) returns (result: seq<Interval>)
      requires Valid() && Idle()
      modifies `recursionNodeStack, `recursionNodeStackTop, `currentParent, recursionNodeStack
      ensures Valid() && Idle() && result == Visit(tree, low, high)
      ensures AllProper(Contents()) && low > -MAX_TIME ==> multiset(result) == multiset(Overlapping(Contents(), low, high))
    {
      result := Search(low, high);
      ProperEntries(tree);
      if AllProper(Contents()) && low > -MAX_TIME { VisitExact(tree, low, high); }
    }

    /** Walks the tree with an explicit stack. */
    method Search(low: SimTime, high: SimTime) returns (result: seq<Interval>)
      requires Valid() && Idle()
      modifies `recursionNodeStack, `recursionNodeStackTop, `currentParent, recursionNodeStack
      ensures Valid() && Idle() && result == Visit(tree, low, high)
    {
      hide Holds, Good, Visit, Run, Subtree;
      result := [];
      SearchStart(tree, low, high);
      NilIsNoNode(tree);
      Near(Ends(), Mem(), Top, tree);
      assert CellOf(root) == Mem()[root];
      var x := root.left;
      var run := x != nil;
      ghost var t, p: seq<Pending> := tree, [];
      currentParent := 0;
      while run
        invariant Valid() && Stacked(p) && recursionNodeStack.Length >= 1
        invariant recursionNodeStack == old(recursionNodeStack) || fresh(recursionNodeStack)
        invariant AllBelow(tree, p)
        invariant run ==> Subtree(tree, t) && t.Br? && x == t.id && currentParent == |p|
        invariant run ==> result + Run(t, p, low, high) == Visit(tree, low, high)
        invariant !run ==> p == [] && result == Visit(tree, low, high)
        decreases run, 2 * Size(t) + Work(p)
      {
        run, x, t, p, result := Round(x, low, high, t, p, result);
      }
    }

    /** One round of the query's loop. */
    method Round(x0: Node, low: SimTime, high: SimTime, ghost t0: Tree, ghost p0: seq<Pending>, found: seq<Interval>)
      returns (run: bool, x: Node, ghost t: Tree, ghost p: seq<Pending>, result: seq<Interval>)
      requires Valid() && Stacked(p0) && AllBelow(tree, p0)
      requires Subtree(tree, t0) && t0.Br? && x0 == t0.id && currentParent == |p0|
      modifies `recursionNodeStack, `recursionNodeStackTop, `currentParent, recursionNodeStack
      ensures Valid() && Stacked(p) && (recursionNodeStack == old(recursionNodeStack) || fresh(recursionNodeStack))
      ensures AllBelow(tree, p)
      ensures run ==> Subtree(tree, t) && t.Br? && x == t.id && currentParent == |p|
      ensures run ==> result + Run(t, p, low, high) == found + Run(t0, p0, low, high) && 2 * Size(t) + Work(p) < 2 * Size(t0) + Work(p0)
      ensures !run ==> p == [] && result == found + Run(t0, p0, low, high)
    {
      result := Look(x0, low, high, t0, p0, found);
      ghost var hit := Hit(t0.iv, low, high);
      x, t, p := Descend(x0, low, t0, Marked(p0, hit));
      RunGrown(found, t0, p0, low, high);
      WorkMarked(p0, hit);
      run, x, t, p := Resume(x, t, p, low, high);
    }

    /** Goes on with `x`, or with what the stack has if `x` is nil. */
    method Resume(x0: Node, ghost t0: Tree, ghost p0: seq<Pending>, low: SimTime, high: SimTime)
      returns (run: bool, x: Node, ghost t: Tree, ghost p: seq<Pending>)
      requires Valid() && Stacked(p0) && AllBelow(tree, p0) && Subtree(tree, t0) && x0 == Id(Ends(), t0)
      requires (t0.Leaf? <==> x0 == nil) && currentParent == |p0|
      modifies `recursionNodeStackTop, `currentParent, recursionNodeStack
      ensures Valid() && Stacked(p) && AllBelow(tree, p)
      ensures run ==> Subtree(tree, t) && t.Br? && x == t.id && currentParent == |p|
      ensures run ==> Run(t0, p0, low, high) == Run(t, p, low, high) && 2 * Size(t) + Work(p) <= 2 * Size(t0) + Work(p0)
      ensures !run ==> p == [] && Run(t0, p0, low, high) == []
      ensures recursionNodeStack == old(recursionNodeStack)
    {
      run, x, t, p := x0 != nil, x0, t0, p0;
      if !run {
        RunLeaf(p, low, high);
        run, x, t, p := Pop(p, low, high);
      }
    }

    /** Adds the interval at `x` if it overlaps. */
    method Look(x: Node, low: SimTime, high: SimTime, ghost t: Tree, ghost p: seq<Pending>, found: seq<Interval>)
      returns (result: seq<Interval>)
      requires Valid() && Stacked(p) && currentParent == |p| && Subtree(tree, t) && t.Br? && x == t.id
      modifies recursionNodeStack
      ensures Valid() && Stacked(Marked(p, Hit(t.iv, low, high))) && result == Grown(found, t, low, high)
      ensures recursionNodeStack == old(recursionNodeStack)
    {
      result := found;
      Fields(t);
      if Overlap(low, high, x.key, x.high) {
        result := result + [x.stored.iv];
        MarkParent(p);
      }
    }

    /** Left, with the way back on the stack, if something on the left ends late enough; else right. */
    method Descend(x0: Node, low: SimTime, ghost t0: Tree, ghost p0: seq<Pending>)
      returns (x: Node, ghost t: Tree, ghost p: seq<Pending>)
      requires Valid() && Stacked(p0) && AllBelow(tree, p0)
      requires Subtree(tree, t0) && t0.Br? && x0 == t0.id && currentParent == |p0|
      modifies `recursionNodeStack, `recursionNodeStackTop, `currentParent, recursionNodeStack
      ensures Valid() && Stacked(p) && (recursionNodeStack == old(recursionNodeStack) || fresh(recursionNodeStack))
      ensures AllBelow(tree, p) && Subtree(tree, t) && x == Id(Ends(), t) && (t.Leaf? <==> x == nil) && currentParent == |p|
      ensures p == if MaxHigh(t0.left) >= low then p0 + [Pending(t0, false)] else p0
      ensures t == if MaxHigh(t0.left) >= low then t0.left else t0.right
      ensures 2 * Size(t) + Work(p) < 2 * Size(t0) + Work(p0)
    {
      hide Holds, Good, Subtree;
      x, t, p := x0, t0, p0;
      Fields(t0);
      if x.left.maxHigh >= low {
        Push(x, t, p);
        WorkPush(p, Pending(t, false));
        x := x.left;
        p, t := p + [Pending(t, false)], t.left;
      } else {
        x := x.right;
        t := t.right;
      }
    }
  }
}
