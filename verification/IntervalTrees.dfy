/** Binary trees of intervals as mathematical values, with the red-black, ordering and
    max_high properties the interval tree maintains, and one-hole contexts ("zippers") to
    talk about the node an imperative loop is looking at. */
module IntervalTrees {
  /** The largest simulation time; its negation is what the nil sentinel carries. */
  const MAX_TIME: int := 0x7FFF_FFFF_FFFF_FFFF

  type SimTime = t: int | -MAX_TIME <= t <= MAX_TIME witness 0

  datatype Interval = Interval(low: SimTime, high: SimTime, value: int)

  /** The stored_interval pointer: null for the sentinels. */
  datatype Stored = NoInterval | Stored(iv: Interval)

  /** A node as it lies in memory. Where the program leaves a new node's links null until the
      node is linked in, they point to the nil sentinel here. */
  class Node {
    var stored: Stored
    var key: SimTime
    var high: SimTime
    var maxHigh: SimTime
    var red: bool
    var left: Node
    var right: Node
    var parent: Node

    constructor Sentinel(time: SimTime)
      ensures left == right == parent == this && !red && stored == NoInterval && key == high == maxHigh == time
    {
      stored, key, high, maxHigh, red := NoInterval, time, time, time, false;
      left, right, parent := this, this, this;
    }

    constructor (iv: Interval, nil: Node)
      ensures stored == Stored(iv) && key == iv.low && high == maxHigh == iv.high && !red
      ensures left == right == parent == nil
    {
      stored, key, high, maxHigh, red := Stored(iv), iv.low, iv.high, iv.high, false;
      left, right, parent := nil, nil, nil;
    }
  }

  datatype Tree = Leaf | Br(left: Tree, id: Node, iv: Interval, red: bool, max: SimTime, right: Tree)

  /** A tree with a hole: `leftHole` tells on which side of node `id` the hole is, `sib` is
      the subtree on the other side, and `up` is everything above. */
  datatype Ctx = Top | Step(up: Ctx, leftHole: bool, id: Node, iv: Interval, red: bool, max: SimTime, sib: Tree)

  function Join(c: Ctx, t: Tree): Tree
    requires c.Step?
  {
    if c.leftHole then Br(t, c.id, c.iv, c.red, c.max, c.sib) else Br(c.sib, c.id, c.iv, c.red, c.max, t)
  }

  function Plug(c: Ctx, t: Tree): Tree
    decreases c
  {
    if c.Top? then t else Plug(c.up, Join(c, t))
  }

  function DownLeft(c: Ctx, t: Tree): Ctx
    requires t.Br?
  {
    Step(c, true, t.id, t.iv, t.red, t.max, t.right)
  }

  function DownRight(c: Ctx, t: Tree): Ctx
    requires t.Br?
  {
    Step(c, false, t.id, t.iv, t.red, t.max, t.left)
  }

  function Size(t: Tree): nat { if t.Leaf? then 0 else 1 + Size(t.left) + Size(t.right) }

  ghost function Depth(c: Ctx): nat { if c.Top? then 0 else 1 + Depth(c.up) }

  /** The same place seen from the sibling: the hole and the subtree beside it change roles. */
  function AcrossFrom(c: Ctx, t: Tree): Ctx
    requires c.Step?
  {
    c.(leftHole := !c.leftHole, sib := t)
  }

  // ---- node identities -------------------------------------------------------------------

  ghost function Nodes(t: Tree): set<Node> { if t.Leaf? then {} else {t.id} + Nodes(t.left) + Nodes(t.right) }

  ghost function CNodes(c: Ctx): set<Node> { if c.Top? then {} else {c.id} + Nodes(c.sib) + CNodes(c.up) }

  /** Every node occurs once. */
  ghost predicate Wf(t: Tree) {
    t.Br? ==>
      && t.id !in Nodes(t.left) && t.id !in Nodes(t.right)
      && Nodes(t.left) !! Nodes(t.right) && Wf(t.left) && Wf(t.right)
  }

  ghost predicate CWf(c: Ctx) {
    c.Step? ==>
      && c.id !in Nodes(c.sib) && c.id !in CNodes(c.up)
      && Nodes(c.sib) !! CNodes(c.up) && Wf(c.sib) && CWf(c.up)
  }

  lemma {:induction false} PlugWf(c: Ctx, t: Tree)
    ensures Nodes(Plug(c, t)) == Nodes(t) + CNodes(c)
    ensures Wf(Plug(c, t)) <==> Wf(t) && CWf(c) && Nodes(t) !! CNodes(c)
    decreases c
  {
    if c.Step? {
      PlugWf(c.up, Join(c, t));
      assert Nodes(Join(c, t)) == {c.id} + Nodes(c.sib) + Nodes(t);
      assert Wf(Join(c, t)) <==> (
          && Wf(t) && Wf(c.sib)
          && c.id !in Nodes(t) && c.id !in Nodes(c.sib) && Nodes(t) !! Nodes(c.sib));
    }
  }

  // ---- contents ---------------------------------------------------------------------------

  datatype Entry = Entry(id: Node, iv: Interval)

  /** In-order contents: every node with the interval it stores. */
  ghost function Inorder(t: Tree): seq<Entry> {
    if t.Leaf? then [] else Inorder(t.left) + [Entry(t.id, t.iv)] + Inorder(t.right)
  }

  /** What precedes and what follows the hole in in-order. */
  ghost function Before(c: Ctx): seq<Entry> {
    if c.Top? then []
    else if c.leftHole then Before(c.up)
    else Before(c.up) + Inorder(c.sib) + [Entry(c.id, c.iv)]
  }

  ghost function After(c: Ctx): seq<Entry> {
    if c.Top? then []
    else if c.leftHole then [Entry(c.id, c.iv)] + Inorder(c.sib) + After(c.up)
    else After(c.up)
  }

  lemma {:induction false} PlugInorder(c: Ctx, t: Tree)
    ensures Inorder(Plug(c, t)) == Before(c) + Inorder(t) + After(c)
    decreases c
  {
    if c.Top? {
      assert Before(c) + Inorder(t) + After(c) == Inorder(t);
    } else {
      PlugInorder(c.up, Join(c, t));
      if c.leftHole {
        Regroup(Before(c.up), Inorder(t), [Entry(c.id, c.iv)], Inorder(c.sib), After(c.up));
      } else {
        Regroup(Before(c.up), Inorder(c.sib), [Entry(c.id, c.iv)], Inorder(t), After(c.up));
      }
    }
  }

  lemma Regroup<T>(a: seq<T>, b: seq<T>, c: seq<T>, d: seq<T>, e: seq<T>)
    ensures a + (b + c + d) + e == a + b + (c + d + e)
    ensures a + (b + c + d) + e == a + b + c + d + e
    ensures a + b + (c + d + e) == a + b + c + d + e
    ensures a + b + (c + d + e) == (a + b + c) + d + e
    ensures a + (b + c + d) + e == (a + b) + c + (d + e)
  {
  }

  ghost predicate Sorted(s: seq<Entry>) {
    forall i, j :: 0 <= i < j < |s| ==> s[i].iv.low <= s[j].iv.low
  }

  // ---- red-black shape --------------------------------------------------------------------

  function IsRed(t: Tree): bool { t.Br? && t.red }

  ghost function BH(t: Tree): nat { if t.Leaf? then 0 else BH(t.left) + if t.red then 0 else 1 }

  ghost predicate Bal(t: Tree) {
    t.Br? ==> Bal(t.left) && Bal(t.right) && BH(t.left) == BH(t.right)
  }

  /** No red node has a red child. */
  ghost predicate NoRR(t: Tree) {
    t.Br? ==> NoRR(t.left) && NoRR(t.right) && (t.red ==> !IsRed(t.left) && !IsRed(t.right))
  }

  /** A balanced tree of black height `h` in the hole makes the whole balanced. */
  ghost predicate CBal(c: Ctx, h: nat) {
    c.Step? ==> Bal(c.sib) && BH(c.sib) == h && CBal(c.up, h + if c.red then 0 else 1)
  }

  /** A tree without red-red edges whose root is red or not makes the whole free of red-red edges. */
  ghost predicate CNoRR(c: Ctx, holeRed: bool) {
    c.Step? ==> NoRR(c.sib) && (c.red ==> !holeRed && !IsRed(c.sib)) && CNoRR(c.up, c.red)
  }

  /** The topmost node, when it is part of the context, is black. */
  ghost predicate TopBlack(c: Ctx) {
    c.Step? ==> if c.up.Top? then !c.red else TopBlack(c.up)
  }

  lemma {:induction false} PlugBal(c: Ctx, t: Tree)
    ensures Bal(Plug(c, t)) <==> Bal(t) && CBal(c, BH(t))
    decreases c
  {
    if c.Step? { PlugBal(c.up, Join(c, t)); }
  }

  lemma {:induction false} PlugNoRR(c: Ctx, t: Tree)
    ensures NoRR(Plug(c, t)) <==> NoRR(t) && CNoRR(c, IsRed(t))
    decreases c
  {
    if c.Step? { PlugNoRR(c.up, Join(c, t)); }
  }

  lemma {:induction false} PlugTop(c: Ctx, t: Tree)
    ensures Plug(c, t).Leaf? <==> c.Top? && t.Leaf?
    ensures c.Step? ==> (TopBlack(c) <==> !IsRed(Plug(c, t)))
    decreases c
  {
    if c.Step? { PlugTop(c.up, Join(c, t)); }
  }

  ghost predicate RedBlack(t: Tree) { Bal(t) && NoRR(t) && !IsRed(t) }

  // ---- max_high ---------------------------------------------------------------------------

  function Max(a: SimTime, b: SimTime): SimTime { if a < b then b else a }

  function MaxHigh(t: Tree): SimTime { if t.Leaf? then -MAX_TIME else t.max }

  /** Every max_high field is the maximum of its own high end and the children's max_high. */
  ghost predicate MaxOk(t: Tree) {
    t.Br? ==> MaxOk(t.left) && MaxOk(t.right) && t.max == Max(t.iv.high, Max(MaxHigh(t.left), MaxHigh(t.right)))
  }

  ghost predicate CMaxOk(c: Ctx, m: SimTime) {
    c.Step? ==> MaxOk(c.sib) && c.max == Max(c.iv.high, Max(m, MaxHigh(c.sib))) && CMaxOk(c.up, c.max)
  }

  lemma {:induction false} PlugMaxOk(c: Ctx, t: Tree)
    ensures MaxOk(Plug(c, t)) <==> MaxOk(t) && CMaxOk(c, MaxHigh(t))
    decreases c
  {
    if c.Step? { PlugMaxOk(c.up, Join(c, t)); }
  }

  /** What max_high means: an upper bound on the stored high ends that is attained, or, for a
      subtree storing nothing above it, the sentinel's value. */
  lemma {:induction false} MaxHighIsMaximum(t: Tree)
    requires MaxOk(t)
    ensures forall e :: e in Inorder(t) ==> e.iv.high <= MaxHigh(t)
    ensures t.Br? ==> exists e :: e in Inorder(t) && e.iv.high == MaxHigh(t)
  {
    if t.Br? {
      MaxHighIsMaximum(t.left);
      MaxHighIsMaximum(t.right);
      var here := Entry(t.id, t.iv);
      assert here in Inorder(t);
      if t.max != t.iv.high {
        var side := if MaxHigh(t.left) == t.max then t.left else t.right;
        assert side.Br?;
        var e :| e in Inorder(side) && e.iv.high == MaxHigh(side);
        assert e in Inorder(t);
      }
    }
  }

  /** The context with every max_high recomputed for a subtree of maximum `m` in the hole. */
  function Refresh(c: Ctx, m: SimTime): Ctx {
    if c.Top? then Top
    else
      var max := Max(c.iv.high, Max(m, MaxHigh(c.sib)));
      c.(max := max, up := Refresh(c.up, max))
  }

  /** All subtrees beside the path have correct max_high fields. */
  ghost predicate SibsMaxOk(c: Ctx) { c.Step? ==> MaxOk(c.sib) && SibsMaxOk(c.up) }

  lemma {:induction false} RefreshOk(c: Ctx, m: SimTime)
    requires SibsMaxOk(c)
    ensures CMaxOk(Refresh(c, m), m)
  {
    if c.Step? { RefreshOk(c.up, Refresh(c, m).max); }
  }

  lemma {:induction false} CMaxOkSibs(c: Ctx, m: SimTime)
    requires CMaxOk(c, m)
    ensures SibsMaxOk(c)
  {
    if c.Step? { CMaxOkSibs(c.up, c.max); }
  }

  /** Refreshing touches nothing but max_high. */
  lemma {:induction false} RefreshKeeps(c: Ctx, m: SimTime)
    ensures Before(Refresh(c, m)) == Before(c) && After(Refresh(c, m)) == After(c)
    ensures CNodes(Refresh(c, m)) == CNodes(c) && (CWf(Refresh(c, m)) <==> CWf(c))
    ensures forall h :: CBal(Refresh(c, m), h) <==> CBal(c, h)
    ensures forall b :: CNoRR(Refresh(c, m), b) <==> CNoRR(c, b)
    ensures TopBlack(Refresh(c, m)) <==> TopBlack(c)
  {
    if c.Step? { RefreshKeeps(c.up, Refresh(c, m).max); }
  }

  // ---- where a key belongs ------------------------------------------------------------------

  /** The path leads to the place of key `k`: left of greater keys, right of the others. */
  ghost predicate Fits(c: Ctx, k: SimTime) {
    c.Step? ==> (c.iv.low > k <==> c.leftHole) && Fits(c.up, k)
  }

  ghost predicate Between(before: seq<Entry>, k: SimTime, after: seq<Entry>) {
    (forall e :: e in before ==> e.iv.low <= k) && (forall e :: e in after ==> e.iv.low > k)
  }

  lemma {:induction false} FitsBetween(c: Ctx, t: Tree, k: SimTime)
    requires Sorted(Before(c) + Inorder(t) + After(c)) && Fits(c, k)
    ensures Between(Before(c), k, After(c))
    decreases c
  {
    if c.Step? {
      var j := Join(c, t);
      var here := [Entry(c.id, c.iv)];
      var sib := Inorder(c.sib);
      if c.leftHole {
        Regroup(Before(c.up), Inorder(t), here, sib, After(c.up));
        assert Inorder(j) == Inorder(t) + here + sib;
        SortedParts(Before(c.up) + Inorder(t), here, sib + After(c.up));
        assert here + (sib + After(c.up)) == here + sib + After(c.up);
      } else {
        Regroup(Before(c.up), sib, here, Inorder(t), After(c.up));
        assert Inorder(j) == sib + here + Inorder(t);
        SortedParts(Before(c.up) + sib, here, Inorder(t) + After(c.up));
        assert Before(c) + (Inorder(t) + After(c.up)) == Before(c) + Inorder(t) + After(c.up);
      }
      FitsBetween(c.up, j, k);
    }
  }

  lemma SortedParts(a: seq<Entry>, b: seq<Entry>, d: seq<Entry>)
    requires Sorted(a + b + d) && |b| == 1
    ensures forall e :: e in a ==> e.iv.low <= b[0].iv.low
    ensures forall e :: e in d ==> b[0].iv.low <= e.iv.low
  {
    var s := a + b + d;
    assert s[|a|] == b[0];
    forall e | e in a ensures e.iv.low <= b[0].iv.low { var i :| 0 <= i < |a| && a[i] == e; assert s[i] == e; }
    forall e | e in d ensures b[0].iv.low <= e.iv.low { var i :| 0 <= i < |d| && d[i] == e; assert s[|a| + 1 + i] == e; }
  }

  // ---- everything the tree maintains ----------------------------------------------------

  ghost predicate Good(t: Tree) { RedBlack(t) && MaxOk(t) && Sorted(Inorder(t)) }

  // ---- rotations as functions on trees ----------------------------------------------------

  function Refreshed(t: Tree): Tree
    requires t.Br?
  {
    t.(max := Max(t.iv.high, Max(MaxHigh(t.left), MaxHigh(t.right))))
  }

  function RotL(t: Tree): Tree
    requires t.Br? && t.right.Br?
  {
    Refreshed(t.right.(left := Refreshed(t.(right := t.right.left))))
  }

  function RotR(t: Tree): Tree
    requires t.Br? && t.left.Br?
  {
    Refreshed(t.left.(right := Refreshed(t.(left := t.left.right))))
  }

  lemma RotLContents(t: Tree)
    requires t.Br? && t.right.Br?
    ensures Inorder(RotL(t)) == Inorder(t)
  {
    var r := t.right;
    var x := Refreshed(t.(right := r.left));
    assert Inorder(x) == Inorder(t.left) + [Entry(t.id, t.iv)] + Inorder(r.left);
    assert Inorder(RotL(t)) == Inorder(x) + [Entry(r.id, r.iv)] + Inorder(r.right);
    Regroup(Inorder(t.left), [Entry(t.id, t.iv)], Inorder(r.left), [Entry(r.id, r.iv)], Inorder(r.right));
  }

  lemma RotRContents(t: Tree)
    requires t.Br? && t.left.Br?
    ensures Inorder(RotR(t)) == Inorder(t)
  {
    var l := t.left;
    var y := Refreshed(t.(left := l.right));
    assert Inorder(y) == Inorder(l.right) + [Entry(t.id, t.iv)] + Inorder(t.right);
    assert Inorder(RotR(t)) == Inorder(l.left) + [Entry(l.id, l.iv)] + Inorder(y);
    Regroup(Inorder(l.left), [Entry(l.id, l.iv)], Inorder(l.right), [Entry(t.id, t.iv)], Inorder(t.right));
  }

  lemma RotLNodes(t: Tree)
    requires t.Br? && t.right.Br? && Wf(t)
    ensures Nodes(RotL(t)) == Nodes(t) && Wf(RotL(t))
  {
    var x := Refreshed(t.(right := t.right.left));
    assert Nodes(x) == {t.id} + Nodes(t.left) + Nodes(t.right.left) && Wf(x);
    assert Nodes(t.right) == {t.right.id} + Nodes(t.right.left) + Nodes(t.right.right);
    assert RotL(t).left == x && RotL(t).right == t.right.right;
  }

  lemma RotRNodes(t: Tree)
    requires t.Br? && t.left.Br? && Wf(t)
    ensures Nodes(RotR(t)) == Nodes(t) && Wf(RotR(t))
  {
    var y := Refreshed(t.(left := t.left.right));
    assert Nodes(y) == {t.id} + Nodes(t.right) + Nodes(t.left.right) && Wf(y);
    assert Nodes(t.left) == {t.left.id} + Nodes(t.left.left) + Nodes(t.left.right);
    assert RotR(t).right == y && RotR(t).left == t.left.left;
  }

  lemma RotLMax(t: Tree)
    requires t.Br? && t.right.Br? && MaxOk(t)
    ensures MaxOk(RotL(t)) && MaxHigh(RotL(t)) == MaxHigh(t)
  {
    assert MaxOk(RotL(t).left);
  }

  lemma RotRMax(t: Tree)
    requires t.Br? && t.left.Br? && MaxOk(t)
    ensures MaxOk(RotR(t)) && MaxHigh(RotR(t)) == MaxHigh(t)
  {
    assert MaxOk(RotR(t).right);
  }
}
