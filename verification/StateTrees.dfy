/** The tree of state classes of a hierarchical state machine, and the traces of entry and exit
    actions that follow it. */
module StateTrees {
  datatype Strategy = NoHistory | ShallowHistory | DeepHistory

  datatype BoxKind = EmptyBox | OwnBox | PersistentBox

  /** A state class derives from its superstate; the top state derives from the root. */
  datatype StateClass = Root | Sub(id: nat, super: StateClass, strategy: Strategy, box: BoxKind)

  /** `d` is `c` or one of its superstates, the root included. */
  predicate Below(c: StateClass, d: StateClass) { c == d || (c.Sub? && Below(c.super, d)) }

  /** The superstates of `c` from the top state down, and `c` itself, without the root. */
  function Path(c: StateClass): seq<StateClass> { if c.Root? then [] else Path(c.super) + [c] }

  lemma {:induction false} BelowIsPrefix(c: StateClass, d: StateClass)
    ensures Below(c, d) <==> Path(d) <= Path(c)
  {
    if c.Sub? {
      BelowIsPrefix(c.super, d);
      if c == d {
      } else if Path(d) <= Path(c) {
        assert Path(c)[|Path(c)| - 1] == c && (d.Sub? ==> Path(d)[|Path(d)| - 1] == d);
        assert |Path(d)| < |Path(c)|;
      }
    }
  }

  /** The members of a state's path are the states other than the root it is below. */
  lemma {:induction false} InPath(c: StateClass, d: StateClass)
    ensures d in Path(c) <==> d.Sub? && Below(c, d)
  {
    if c.Sub? { InPath(c.super, d); }
  }

  lemma {:induction false} BelowTransitive(c: StateClass, d: StateClass, e: StateClass)
    requires Below(c, d) && Below(d, e)
    ensures Below(c, e)
  {
    if c != d { BelowTransitive(c.super, d, e); }
  }

  /** Deeper in the tree: a proper substate's path is longer. */
  lemma ProperIsDeeper(c: StateClass, d: StateClass)
    requires Below(c, d) && c != d
    ensures |Path(d)| < |Path(c)| && c.Sub? && Below(c.super, d)
  {
    BelowIsPrefix(c.super, d);
  }

  // ---- where two paths part -------------------------------------------------------------------------

  function Common(a: seq<StateClass>, b: seq<StateClass>): (p: seq<StateClass>)
    ensures p <= a && p <= b
  {
    if a != [] && b != [] && a[0] == b[0] then [a[0]] + Common(a[1..], b[1..]) else []
  }

  /** The longest: any other common prefix is a prefix of it. */
  lemma {:induction false} CommonIsLongest(a: seq<StateClass>, b: seq<StateClass>, q: seq<StateClass>)
    requires q <= a && q <= b
    ensures q <= Common(a, b)
  {
    if q != [] {
      CommonIsLongest(a[1..], b[1..], q[1..]);
      assert q == [q[0]] + q[1..];
    }
  }

  lemma CommonSymmetric(a: seq<StateClass>, b: seq<StateClass>)
    ensures Common(a, b) == Common(b, a)
  {
    CommonIsLongest(a, b, Common(b, a));
    CommonIsLongest(b, a, Common(a, b));
  }

  lemma CommonWhole(a: seq<StateClass>, b: seq<StateClass>)
    requires a <= b
    ensures Common(a, b) == a
  {
    CommonIsLongest(a, b, a);
  }

  lemma CommonShorter(a: seq<StateClass>, x: StateClass, b: seq<StateClass>)
    requires !(a + [x] <= b)
    ensures Common(a + [x], b) == Common(a, b)
  {
    var p := Common(a + [x], b);
    assert p != a + [x];
    assert p <= a;
    CommonIsLongest(a, b, p);
    CommonIsLongest(a + [x], b, Common(a, b));
  }

  /** The path of the proper superstates of a transition's target. */
  function Above(next: StateClass): seq<StateClass> { if next.Root? then [] else Path(next.super) }

  /** What stays entered during a transition: the longest common path of the two, short of the
      target itself, which is always entered anew. */
  function Kept(previous: StateClass, next: StateClass): seq<StateClass> { Common(Path(previous), Above(next)) }

  lemma KeptIsPrefix(previous: StateClass, next: StateClass)
    ensures var kept := Kept(previous, next);
            && |kept| <= |Path(previous)| && kept == Path(previous)[..|kept|]
            && |kept| <= |Path(next)| && kept == Path(next)[..|kept|]
  {
  }

  lemma KeptByExit(s: StateClass, next: StateClass)
    requires s.Sub?
    ensures s == next || !Below(next, s) <==> !(Path(s) <= Above(next))
    ensures s == next || !Below(next, s) ==> Kept(s, next) == Kept(s.super, next)
    ensures !(s == next || !Below(next, s)) ==> Kept(s, next) == Path(s)
  {
    if next.Sub? {
      BelowIsPrefix(next.super, s);
      if s == next { assert |Path(s)| > |Above(next)|; }
      if Below(next, s) && s != next { ProperIsDeeper(next, s); }
    }
    if Path(s) <= Above(next) { CommonWhole(Path(s), Above(next)); } else { CommonShorter(Path(s.super), s, Above(next)); }
  }

  lemma KeptByEntry(s: StateClass, previous: StateClass)
    requires s.Sub?
    ensures Below(previous, s) ==> Common(Path(previous), Path(s)) == Path(s)
    ensures !Below(previous, s) ==> Common(Path(previous), Path(s)) == Common(Path(previous), Path(s.super))
  {
    BelowIsPrefix(previous, s);
    CommonSymmetric(Path(previous), Path(s));
    if Below(previous, s) {
      CommonWhole(Path(s), Path(previous));
    } else {
      CommonShorter(Path(s.super), s, Path(previous));
      CommonSymmetric(Path(previous), Path(s.super));
    }
  }

  // ---- traces ---------------------------------------------------------------------------------------------

  /** What a machine calls: entry, exit and init methods and event handlers. */
  datatype Action = Entry(s: StateClass) | Exit(s: StateClass) | Init(s: StateClass) | Handler(s: StateClass)

  datatype Stack = Broken | Stack(states: seq<StateClass>)

  /** A state is entered from its superstate only, exited when no substate is entered, and
      initialised or sent events while it is the innermost state entered. */
  function Perform(stack: Stack, a: Action): Stack {
    if stack.Broken? then Broken
    else
      var inner := if stack.states == [] then Root else stack.states[|stack.states| - 1];
      match a
      case Entry(s) => if s.Sub? && s.super == inner then Stack(stack.states + [s]) else Broken
      case Exit(s) => if s.Sub? && s == inner && stack.states != [] then Stack(stack.states[..|stack.states| - 1]) else Broken
      case Init(s) => if s == inner then stack else Broken
      case Handler(s) => if s == inner then stack else Broken
  }

  /** The states entered and not yet exited, outermost first, if the trace is well nested. */
  function Replay(trace: seq<Action>): Stack {
    if trace == [] then Stack([]) else Perform(Replay(trace[..|trace| - 1]), trace[|trace| - 1])
  }

  lemma ReplaySnoc(trace: seq<Action>, a: Action)
    ensures Replay(trace + [a]) == Perform(Replay(trace), a)
  {
    assert (trace + [a])[..|trace|] == trace;
  }

  /** Exits of the states of `p`, innermost first. */
  function Exits(p: seq<StateClass>): seq<Action> { if p == [] then [] else Exits(p[1..]) + [Exit(p[0])] }

  /** Entries of the states of `p`, outermost first. */
  function Entries(p: seq<StateClass>): seq<Action> { if p == [] then [] else Entries(p[..|p| - 1]) + [Entry(p[|p| - 1])] }

  lemma {:induction false} ExitsSnoc(p: seq<StateClass>, s: StateClass)
    ensures Exits(p + [s]) == [Exit(s)] + Exits(p)
  {
    if p == [] {
      assert p + [s] == [s];
    } else {
      ExitsSnoc(p[1..], s);
      assert (p + [s])[1..] == p[1..] + [s];
    }
  }

  lemma PathParts(c: StateClass, k: nat)
    requires k < |Path(c)|
    ensures Path(c)[k..] == Path(c.super)[k..] + [c] && Path(c)[..k] == Path(c.super)[..k]
  {
  }

  lemma Regroup(trace: seq<Action>, a: Action, rest: seq<Action>)
    ensures trace + ([a] + rest) == trace + [a] + rest
  {
  }

  lemma ReplayExit(trace: seq<Action>, c: StateClass)
    requires Replay(trace) == Stack(Path(c)) && c.Sub?
    ensures Replay(trace + [Exit(c)]) == Stack(Path(c.super))
  {
    ReplaySnoc(trace, Exit(c));
    assert Path(c)[..|Path(c)| - 1] == Path(c.super);
  }

  /** Exiting from `c` upwards as far as its first `k` states leaves those entered. */
  lemma {:induction false} ReplayExits(trace: seq<Action>, c: StateClass, k: nat)
    requires Replay(trace) == Stack(Path(c)) && k <= |Path(c)|
    ensures Replay(trace + Exits(Path(c)[k..])) == Stack(Path(c)[..k])
    decreases c
  {
    if k == |Path(c)| {
      assert Path(c)[k..] == [] && trace + [] == trace && Path(c)[..k] == Path(c);
    } else {
      var p := Path(c.super);
      ReplayExit(trace, c);
      ReplayExits(trace + [Exit(c)], c.super, k);
      PathParts(c, k);
      ExitsSnoc(p[k..], c);
      Regroup(trace, Exit(c), Exits(p[k..]));
    }
  }

  /** Entering the states on the way to `c` after its first `k` leaves the whole path entered. */
  lemma {:induction false} ReplayEntries(trace: seq<Action>, c: StateClass, k: nat)
    requires k <= |Path(c)| && Replay(trace) == Stack(Path(c)[..k])
    ensures Replay(trace + Entries(Path(c)[k..])) == Stack(Path(c))
    decreases c
  {
    if k == |Path(c)| {
      assert Path(c)[k..] == [] && trace + [] == trace && Path(c)[..k] == Path(c);
    } else {
      hide Replay, Perform, Entries;
      PathParts(c, k);
      ReplayEntries(trace, c.super, k);
      EntriesTo(trace, c, k);
      ReplaySnoc(trace + Entries(Path(c.super)[k..]), Entry(c));
      EnterInner(c);
    }
  }

  /** A state is entered from its superstate. */
  lemma EnterInner(c: StateClass)
    requires c.Sub?
    ensures Perform(Stack(Path(c.super)), Entry(c)) == Stack(Path(c))
  {
    var p := Path(c.super);
    assert p == [] <==> c.super.Root?;
    assert p != [] ==> p[|p| - 1] == c.super;
  }

  lemma NotBelowSuper(c: StateClass)
    requires c.Sub?
    ensures !Below(c.super, c)
  {
    BelowIsPrefix(c.super, c);
  }

  lemma NotInSuperPath(c: StateClass)
    requires c.Sub?
    ensures c !in Path(c.super)
  {
    InPath(c.super, c);
    NotBelowSuper(c);
  }

  lemma NothingLeft(trace: seq<Action>, c: StateClass, next: StateClass)
    requires Kept(c, next) == Path(c)
    ensures trace == trace + Exits(Path(c)[|Kept(c, next)|..])
  {
    assert Path(c)[|Path(c)|..] == [];
  }

  lemma ExitsFrom(trace: seq<Action>, c: StateClass, k: nat)
    requires k < |Path(c)|
    ensures trace + [Exit(c)] + Exits(Path(c.super)[k..]) == trace + Exits(Path(c)[k..])
  {
    PathParts(c, k);
    ExitsSnoc(Path(c.super)[k..], c);
    Regroup(trace, Exit(c), Exits(Path(c.super)[k..]));
  }

  lemma AllEntered(trace: seq<Action>, c: StateClass)
    ensures Path(c)[..|Path(c)|] == Path(c) && trace == trace + Entries(Path(c)[|Path(c)|..])
  {
    assert Path(c)[|Path(c)|..] == [];
  }

  lemma EntriesTo(trace: seq<Action>, c: StateClass, k: nat)
    requires k < |Path(c)|
    ensures trace + Entries(Path(c.super)[k..]) + [Entry(c)] == trace + Entries(Path(c)[k..])
  {
    var p := Path(c.super)[k..];
    PathParts(c, k);
    EntriesSnoc(p, c);
    RegroupLast(trace, Entries(p), Entry(c));
  }

  lemma EntriesSnoc(p: seq<StateClass>, s: StateClass)
    ensures Entries(p + [s]) == Entries(p) + [Entry(s)]
  {
    assert (p + [s])[..|p|] == p;
  }

  lemma RegroupLast(trace: seq<Action>, init: seq<Action>, a: Action)
    ensures trace + (init + [a]) == trace + init + [a]
  {
  }

  /** The trace is well nested and leaves exactly `c` and its superstates entered. */
  ghost predicate Nested(trace: seq<Action>, c: StateClass) { Replay(trace) == Stack(Path(c)) }

  /** The trace after a transition: what is not kept is exited and entered. */
  function Moved(trace: seq<Action>, previous: StateClass, next: StateClass): seq<Action> {
    var k := |Kept(previous, next)|;
    assert k <= |Path(previous)| && k <= |Path(next)| by { KeptIsPrefix(previous, next); }
    trace + Exits(Path(previous)[k..]) + Entries(Path(next)[k..])
  }

  lemma ReplayMove(trace: seq<Action>, previous: StateClass, next: StateClass)
    requires Nested(trace, previous)
    ensures Nested(Moved(trace, previous, next), next)
  {
    var k := |Kept(previous, next)|;
    KeptIsPrefix(previous, next);
    ReplayExits(trace, previous, k);
    ReplayEntries(trace + Exits(Path(previous)[k..]), next, k);
  }

  lemma InitNests(trace: seq<Action>, c: StateClass)
    requires Nested(trace, c)
    ensures Nested(trace + [Init(c)], c) && Nested(trace + [Handler(c)], c)
  {
    ReplaySnoc(trace, Init(c));
    ReplaySnoc(trace, Handler(c));
  }

  /** Of a nested trace's states exactly `c` and its superstates other than the root are entered. */
  lemma EnteredExactly(trace: seq<Action>, c: StateClass)
    requires Nested(trace, c)
    ensures forall d :: d in Replay(trace).states <==> d.Sub? && Below(c, d)
  {
    forall d ensures d in Replay(trace).states <==> d.Sub? && Below(c, d) { InPath(c, d); }
  }

  /** Every state has been entered once more than it has been exited if it is entered now, and as
      often otherwise. */
  lemma {:induction false} Balanced(trace: seq<Action>, c: StateClass)
    requires Replay(trace).Stack?
    ensures multiset(trace)[Entry(c)] == multiset(trace)[Exit(c)] + multiset(Replay(trace).states)[c]
  {
    if trace != [] {
      hide Replay;
      var init, a := trace[..|trace| - 1], trace[|trace| - 1];
      assert trace == init + [a];
      ReplaySnoc(init, a);
      Balanced(init, c);
      BalancedStep(Replay(init), a, c);
    } else {
      assert Replay(trace) == Stack([]);
    }
  }

  /** One action changes the two counts alike. */
  lemma BalancedStep(stack: Stack, a: Action, c: StateClass)
    requires Perform(stack, a).Stack?
    ensures stack.Stack?
    ensures multiset(Perform(stack, a).states)[c] + multiset([a])[Exit(c)] == multiset(stack.states)[c] + multiset([a])[Entry(c)]
  {
    var before, after := stack.states, Perform(stack, a).states;
    if a.Entry? {
      assert after == before + [a.s];
    } else if a.Exit? {
      assert before == after + [a.s];
    }
  }

  // ---- history ---------------------------------------------------------------------------------------------

  /** Some proper superstate keeps a history. */
  predicate HistoryAbove(c: StateClass) {
    c.Sub? && c.super.Sub? && (c.super.strategy != NoHistory || HistoryAbove(c.super))
  }

  lemma {:induction false} NoHistoryAbove(c: StateClass, d: StateClass)
    requires !HistoryAbove(c) && Below(c, d) && c != d && d.Sub?
    ensures d.strategy == NoHistory
  {
    if c.super != d { NoHistoryAbove(c.super, d); }
  }

  // ---- how deep states lie ------------------------------------------------------------------------------------

  ghost predicate Closed(states: set<StateClass>) {
    forall c {:trigger SuperIn(states, c)} :: c in states ==> SuperIn(states, c)
  }

  ghost predicate SuperIn(states: set<StateClass>, c: StateClass) { c.Sub? && (c.super.Root? || c.super in states) }

  ghost predicate OneTop(states: set<StateClass>, top: StateClass) {
    top in states && top.Sub? && top.super.Root? && forall c :: c in states && c.Sub? && c.super.Root? ==> c == top
  }

  /** Every state is below the top state. */
  lemma {:induction false} TopInPath(states: set<StateClass>, top: StateClass, c: StateClass)
    requires Closed(states) && OneTop(states, top) && c in states
    ensures top in Path(c)
  {
    assert SuperIn(states, c);
    if !c.super.Root? { TopInPath(states, top, c.super); }
  }

  lemma {:induction false} PathInside(states: set<StateClass>, c: StateClass)
    requires Closed(states) && (c.Root? || c in states)
    ensures forall d :: d in Path(c) ==> d in states
  {
    if c.Sub? {
      assert SuperIn(states, c);
      PathInside(states, c.super);
    }
  }

  ghost function PathSet(c: StateClass): (s: set<StateClass>)
    ensures forall d :: d in s <==> d in Path(c)
    ensures |s| == |Path(c)|
  {
    if c.Root? then {} else
      InPath(c.super, c);
      assert c !in Path(c.super) by { if Below(c.super, c) { BelowIsPrefix(c.super, c); } }
      PathSet(c.super) + {c}
  }

  /** No state lies deeper than there are states. */
  lemma DepthBounded(states: set<StateClass>, c: StateClass)
    requires Closed(states) && (c.Root? || c in states)
    ensures |Path(c)| <= |states|
  {
    PathInside(states, c);
    var rest := states - PathSet(c);
    assert states == PathSet(c) + rest;
  }
}
