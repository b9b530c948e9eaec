/** A hierarchical state machine: one instance object per state class, created when it is first
    needed, and the transitions between them. */
module MachoMachine {
  import opened Options
  import opened StateTrees

  /** How a transition's target is initialised. */
  datatype Initializer = DefaultInit | HistoryInit | AdaptedInit | ParamInit

  datatype Request = Request(target: StateClass, how: Initializer)

  type Event = int

  /** What a handler asks for: a transition, an event to be dispatched afterwards, both or neither. */
  datatype Reaction = Reaction(transition: Option<Request>, event: Option<Event>)

  /** The user's init methods and event handlers: they may depend on all that was called before. */
  type Behaviour = seq<Action> -> Reaction

  /** Settled: nothing is pending. Unfinished: the next event waits. InitFailed: an init method asked
      for what it may not ask for. */
  datatype Outcome = Settled | Unfinished | InitFailed

  class StateInstance {
    const key: StateClass
    const myParent: StateInstance?
    var myHistory: StateInstance?
    var myBox: bool
    var myBoxPlace: bool

    constructor (key: StateClass, parent: StateInstance?)
      ensures this.key == key && myParent == parent && myHistory == null && !myBox && !myBoxPlace
    {
      this.key, myParent, myHistory, myBox, myBoxPlace := key, parent, null, false, false;
    }

    /** The chain of parents is the chain of superstates. */
    ghost predicate Placed()
      decreases key
    {
      if key.Root? then myParent == null else myParent != null && myParent.key == key.super && myParent.Placed()
    }

    predicate IsChild(instance: StateInstance)
      requires Placed()
      decreases key
    {
      this == instance || (myParent != null && myParent.IsChild(instance))
    }

    method CreateBox()
      modifies `myBox, `myBoxPlace
      ensures myBox && (!old(myBox) && key.Sub? && key.box != EmptyBox ==> !myBoxPlace)
      ensures old(myBox) || !key.Sub? || key.box == EmptyBox ==> myBoxPlace == old(myBoxPlace)
    {
      if !myBox {
        myBox := true;
        if key.Sub? && key.box != EmptyBox {
          myBoxPlace := false;
        }
      }
    }

    /** Persistent boxes are kept; the memory of others is kept for the next box. */
    method DeleteBox()
      requires key.Sub? && key.box != EmptyBox && (key.box == OwnBox ==> myBox && !myBoxPlace)
      modifies `myBox, `myBoxPlace
      ensures myBox == (old(myBox) && key.box == PersistentBox)
      ensures myBoxPlace == (old(myBoxPlace) || key.box == OwnBox)
    {
      if key.box == OwnBox {
        myBox, myBoxPlace := false, true;
      }
    }
  }

  class Machine {
    const top: StateClass
    const states: set<StateClass>
    var instances: map<StateClass, StateInstance>
    var myCurrentState: StateInstance?
    var myPendingState: StateInstance?
    var myPendingInit: Initializer
    var myPendingEvent: Option<Event>
    var trace: seq<Action>
    ghost var owned: set<StateInstance>

    /** One instance per state class, together with those of its superstates. */
    ghost predicate Wired()
      reads `instances, `owned
    {
      && Closed(states) && OneTop(states, top) && Root in instances
      && (forall c :: c in instances ==> (c == Root || c in states) && instances[c] in owned && instances[c].key == c)
      && (forall o :: o in owned ==> o.key in instances && instances[o.key] == o && o.Placed())
      && forall o {:trigger HasParent(o)} :: o in owned ==> HasParent(o)
    }

    ghost predicate HasParent(o: StateInstance)
      reads `owned
    {
      o.key.Sub? ==> o.myParent in owned
    }

    /** A saved history is none or a proper substate of its owner. */
    ghost predicate HistoryOk()
      reads `owned, owned`myHistory
    {
      forall o {:trigger HistoryFits(o)} :: o in owned ==> HistoryFits(o)
    }

    ghost predicate HistoryFits(o: StateInstance)
      reads `owned, o`myHistory
    {
      o.myHistory == null || (ProperChild(o.myHistory, o) && o.key.Sub?)
    }

    ghost predicate ProperChild(s: StateInstance, t: StateInstance)
      reads `owned
    {
      s in owned && s != t && Below(s.key, t.key)
    }

    /** Boxes of entered states exist; other boxes only if persistent, empty, or given from outside. */
    ghost predicate BoxesOk(entered: seq<StateClass>, given: set<StateInstance>)
      reads `owned, owned`myBox, owned`myBoxPlace
    {
      && (forall o :: o in owned && o.key in entered ==> o.myBox)
      && (forall o :: o in owned && o.key.Sub? && o.key.box == OwnBox && o.myBox ==> o.key in entered || o in given)
      && (forall o :: o in owned ==> !(o.myBox && o.myBoxPlace) && (o.key.Root? || o.key.box == EmptyBox ==> !o.myBoxPlace))
    }

    lemma ChildIsBelow(s: StateInstance, t: StateInstance)
      requires Wired() && s in owned && t in owned
      ensures s.IsChild(t) <==> Below(s.key, t.key)
      decreases s.key
    {
      assert HasParent(s);
      if s != t && s.key.Sub? {
        ChildIsBelow(s.myParent, t);
      }
    }

    // ---- leaving and entering states -------------------------------------------------------------

    /** Exits from `s` upwards up to where `next` is below. */
    method ExitState(s: StateInstance, next: StateInstance, ghost given: set<StateInstance>)
      requires Wired() && s in owned && next in owned && BoxesOk(Path(s.key), given)
      modifies owned`myBox, owned`myBoxPlace, `trace
      ensures BoxesOk(Kept(s.key, next.key), given)
      ensures trace == old(trace) + Exits(Path(s.key)[|Kept(s.key, next.key)|..])
      decreases s.key
    {
      assert s.Placed() && next.Placed() && HasParent(s);
      if s.myParent == null {
        NothingLeft(trace, s.key, next.key);
        return;
      }
      KeptByExit(s.key, next.key);
      ChildIsBelow(next, s);
      if s == next || !next.IsChild(s) {
        SameKey(s, next);
        ExitOne(s, given);
        ExitState(s.myParent, next, given);
        ExitsFrom(old(trace), s.key, |Kept(s.key, next.key)|);
      } else {
        NothingLeft(trace, s.key, next.key);
      }
    }

    lemma SameKey(s: StateInstance, t: StateInstance)
      requires Wired() && s in owned && t in owned
      ensures s == t <==> s.key == t.key
    {
    }

    method ExitOne(s: StateInstance, ghost given: set<StateInstance>)
      requires Wired() && s in owned && s.key.Sub? && BoxesOk(Path(s.key), given)
      modifies s`myBox, s`myBoxPlace, `trace
      ensures BoxesOk(Path(s.key.super), given) && trace == old(trace) + [Exit(s.key)]
    {
      trace := trace + [Exit(s.key)];
      InPath(s.key, s.key);
      NotInSuperPath(s.key);
      if s.key.box != EmptyBox {
        s.DeleteBox();
      }
    }

    /** Enters from where `previous` is below down to `s`; `s` itself in any case if `first`. */
    method EnterState(s: StateInstance, previous: StateInstance, first: bool, ghost k: nat, ghost given: set<StateInstance>)
      requires Wired() && s in owned && previous in owned
      requires k <= |Path(s.key)| && k == |if first then Kept(previous.key, s.key) else Common(Path(previous.key), Path(s.key))|
      requires BoxesOk(Path(s.key)[..k], given)
      modifies owned`myBox, owned`myBoxPlace, `trace
      ensures BoxesOk(Path(s.key), given)
      ensures trace == old(trace) + Entries(Path(s.key)[k..])
      decreases s.key
    {
      hide Entries, Below, BoxesOk;
      assert s.Placed() && previous.Placed() && HasParent(s);
      if s.myParent == null {
        AllEntered(trace, s.key);
        return;
      }
      KeptByEntry(s.key, previous.key);
      ChildIsBelow(previous, s);
      if first || !previous.IsChild(s) {
        PathParts(s.key, k);
        EnterState(s.myParent, previous, false, k, given);
        EntriesTo(old(trace), s.key, k);
        EnterOne(s, given);
      } else {
        AllEntered(trace, s.key);
      }
    }

    method EnterOne(s: StateInstance, ghost given: set<StateInstance>)
      requires Wired() && s in owned && s.key.Sub? && BoxesOk(Path(s.key.super), given)
      modifies s`myBox, s`myBoxPlace, `trace
      ensures BoxesOk(Path(s.key), given) && trace == old(trace) + [Entry(s.key)]
    {
      s.CreateBox();
      trace := trace + [Entry(s.key)];
    }

    // ---- history -----------------------------------------------------------------------------------

    /** `o`'s history once it has been saved for a machine leaving `s`: superstates of `s` that keep a
        deep history have `deep`, those that keep a shallow one their substate on the way to `s`. */
    ghost predicate HistoryAfter(o: StateInstance, s: StateInstance, deep: StateInstance, before: StateInstance?)
      reads `owned, o`myHistory
    {
      if o.key.Sub? && o.key.strategy != NoHistory && Below(s.key, o.key) && o != s then
        if o.key.strategy == DeepHistory then o.myHistory == deep
        else o.myHistory != null && o.myHistory in owned && o.myHistory.myParent == o && Below(s.key, o.myHistory.key)
      else o.myHistory == before
    }

    /** Has the parent of `s` save its history. */
    method SetHistorySuper(s: StateInstance, deep: StateInstance)
      requires Wired() && s in owned && deep in owned
      modifies owned`myHistory
      ensures forall o :: o in owned ==> HistoryAfter(o, s, deep, old(o.myHistory))
      decreases s.key, 0
    {
      assert s.Placed() && HasParent(s);
      if s.myParent != null {
        SaveHistory(s.myParent, s, deep);
        forall o | o in owned
          ensures HistoryAfter(o, s, deep, old(o.myHistory))
        {
          SameKey(o, s);
          SameKey(o, s.myParent);
          NotBelowSuper(s.key);
        }
      } else {
        forall o | o in owned
          ensures HistoryAfter(o, s, deep, old(o.myHistory))
        {
          SameKey(o, s);
        }
      }
    }

    /** Saves by `self`'s strategy and, if any of its superstates keeps a history, theirs too. */
    method SaveHistory(self: StateInstance, shallow: StateInstance, deep: StateInstance)
      requires Wired() && self in owned && shallow in owned && deep in owned && shallow.myParent == self
      modifies owned`myHistory
      ensures forall o :: o in owned && o != self ==> HistoryAfter(o, self, deep, old(o.myHistory))
      ensures HistoryAfter(self, shallow, deep, old(self.myHistory))
      decreases self.key, 1
    {
      assert self.Placed() && shallow.Placed();
      SameKey(self, shallow);
      assert shallow.key.Sub? && shallow.key.super == self.key && Below(shallow.key, self.key);
      NotBelowSuper(shallow.key);
      if self.key.Sub? {
        match self.key.strategy {
          case NoHistory =>
          case ShallowHistory => self.myHistory := shallow;
          case DeepHistory => self.myHistory := deep;
        }
        if HistoryAbove(self.key) {
          ghost var saved := self.myHistory;
          SetHistorySuper(self, deep);
          assert HistoryAfter(self, self, deep, saved) && self.myHistory == saved;
        } else {
          NothingAbove(self);
        }
      }
    }

    lemma NothingAbove(s: StateInstance)
      requires Wired() && s in owned && !HistoryAbove(s.key)
      ensures forall o :: o in owned && o != s && Below(s.key, o.key) && o.key.Sub? ==> o.key.strategy == NoHistory
    {
      forall o | o in owned && o != s && Below(s.key, o.key) && o.key.Sub?
        ensures o.key.strategy == NoHistory
      {
        SameKey(o, s);
        NoHistoryAbove(s.key, o.key);
      }
    }

    // ---- transitions ---------------------------------------------------------------------------------

    /** Exactly the current state and its superstates are entered, and the calls made so far nest. */
    ghost predicate Ready(given: set<StateInstance>)
      reads this, owned
    {
      && Wired() && HistoryOk() && myCurrentState != null && myCurrentState in owned
      && BoxesOk(Path(myCurrentState.key), given)
      && Nested(trace, myCurrentState.key)
      && (myPendingState != null ==> myPendingState in owned)
    }

    lemma HistorySaved(s: StateInstance, deep: StateInstance, o: StateInstance, before: StateInstance?)
      requires Wired() && s in owned && o in owned && deep == s && HistoryAfter(o, s, deep, before)
      requires before == null || (ProperChild(before, o) && o.key.Sub?)
      ensures HistoryFits(o)
    {
      if o.myHistory != null && o.myHistory != before && o.myHistory.myParent == o {
        assert o.myHistory.Placed();
        assert o.myHistory.key.super == o.key && Below(o.myHistory.key, o.key);
        NotBelowSuper(o.myHistory.key);
        SameKey(o, o.myHistory);
      }
    }

    /** Carries out the pending transition, up to the initialisation of its target. */
    method Transit(previous: StateInstance, next: StateInstance, ghost given: set<StateInstance>)
      requires Ready(given) && previous == myCurrentState && next == myPendingState
      modifies owned`myBox, owned`myBoxPlace, owned`myHistory, `trace, `myCurrentState, `myPendingState
      ensures myPendingState == null && myCurrentState == next && Ready(given)
      ensures trace == Moved(old(trace), previous.key, next.key)
      ensures forall o :: o in owned ==> HistoryAfter(o, previous, previous, old(o.myHistory))
    {
      hide HistoryOk, BoxesOk, Wired, Moved, Nested;
      Move(previous, next, given);
      ReplayMove(old(trace), previous.key, next.key);
      myPendingState := null;
    }

    /** Exits what the transition leaves, saves the histories, enters what it adds. */
    method Move(previous: StateInstance, next: StateInstance, ghost given: set<StateInstance>)
      requires Wired() && HistoryOk() && previous in owned && next in owned && BoxesOk(Path(previous.key), given)
      modifies owned`myBox, owned`myBoxPlace, owned`myHistory, `trace, `myCurrentState
      ensures Wired() && HistoryOk() && BoxesOk(Path(next.key), given) && myCurrentState == next
      ensures trace == Moved(old(trace), previous.key, next.key)
      ensures forall o :: o in owned ==> HistoryAfter(o, previous, previous, old(o.myHistory))
    {
      hide HistoryOk, BoxesOk, Wired, HistoryAfter;
      Leave(previous, next, given);
      myCurrentState := next;
      EnterTarget(previous, next, given);
    }

    method Leave(previous: StateInstance, next: StateInstance, ghost given: set<StateInstance>)
      requires Wired() && HistoryOk() && previous in owned && next in owned && BoxesOk(Path(previous.key), given)
      modifies owned`myBox, owned`myBoxPlace, owned`myHistory, `trace
      ensures HistoryOk() && BoxesOk(Kept(previous.key, next.key), given)
      ensures trace == old(trace) + Exits(Path(previous.key)[|Kept(previous.key, next.key)|..])
      ensures forall o :: o in owned ==> HistoryAfter(o, previous, previous, old(o.myHistory))
    {
      ExitState(previous, next, given);
      Remember(previous);
    }

    method EnterTarget(previous: StateInstance, next: StateInstance, ghost given: set<StateInstance>)
      requires Wired() && previous in owned && next in owned && BoxesOk(Kept(previous.key, next.key), given)
      modifies owned`myBox, owned`myBoxPlace, `trace
      ensures BoxesOk(Path(next.key), given)
      ensures trace == old(trace) + Entries(Path(next.key)[|Kept(previous.key, next.key)|..])
    {
      KeptIsPrefix(previous.key, next.key);
      EnterState(next, previous, true, |Kept(previous.key, next.key)|, given);
    }

    /** Saves the histories for a machine leaving `s`. */
    method Remember(s: StateInstance)
      requires Wired() && HistoryOk() && s in owned
      modifies owned`myHistory
      ensures HistoryOk() && forall o :: o in owned ==> HistoryAfter(o, s, s, old(o.myHistory))
    {
      SetHistorySuper(s, s);
      forall o | o in owned
        ensures HistoryFits(o)
      {
        assert old(HistoryFits(o));
        HistorySaved(s, s, o, old(o.myHistory));
      }
    }

    // ---- requests ------------------------------------------------------------------------------------

    /** The instance of state class `c`, created, after its superstates', if there is none yet. */
    method GetInstance(c: StateClass) returns (i: StateInstance)
      requires Wired() && (c.Root? || c in states)
      modifies `instances, `owned
      ensures Wired() && i in owned && i.key == c && old(owned) <= owned
      ensures fresh(owned - old(owned)) && forall o :: o in owned - old(owned) ==> New(o) && o.key !in old(instances)
      ensures forall d :: d in instances ==> d in old(instances) || Below(c, d)
      decreases c
    {
      if c in instances {
        return instances[c];
      }
      assert SuperIn(states, c);
      var parent := GetInstance(c.super);
      NotBelowSuper(c);
      i := AddInstance(c, parent);
    }

    method AddInstance(c: StateClass, parent: StateInstance) returns (i: StateInstance)
      requires Wired() && c in states && c !in instances && parent in owned && parent.key == c.super
      modifies `instances, `owned
      ensures Wired() && fresh(i) && i.key == c && New(i)
      ensures owned == old(owned) + {i} && instances == old(instances)[c := i]
    {
      i := new StateInstance(c, parent);
      label Before:
      instances := instances[c := i];
      owned := owned + {i};
      assert parent.Placed() && i.Placed();
      forall o | o in owned
        ensures HasParent(o)
      {
        if o != i { assert old@Before(HasParent(o)); }
      }
    }

    ghost predicate New(o: StateInstance)
      reads o
    {
      o.myHistory == null && !o.myBox && !o.myBoxPlace
    }

    /** Readiness outlives the creation of instances. */
    twostate lemma ReadyGrows(given: set<StateInstance>)
      requires old(Ready(given)) && Wired() && old(owned) <= owned && trace == old(trace)
      requires myCurrentState == old(myCurrentState) && (myPendingState != null ==> myPendingState in owned)
      requires forall o :: o in owned - old(owned) ==> New(o) && o.key !in old(instances)
      requires forall o :: o in old(owned) ==> unchanged(o)
      ensures Ready(given)
    {
      var entered := Path(myCurrentState.key);
      assert forall c :: c in entered ==> c in old(instances) by { assert old(Wired()); EnteredBefore(myCurrentState); }
      forall o | o in owned
        ensures HistoryFits(o)
      {
        if o in old(owned) { assert old(HistoryFits(o)); }
      }
      assert forall o :: o in owned ==> o in old(owned) || New(o);
    }

    twostate lemma EnteredBefore(s: StateInstance)
      requires old(Wired()) && s in old(owned)
      ensures forall c :: c in Path(s.key) ==> c in old(instances)
      decreases s.key
    {
      assert old(HasParent(s)) && s.Placed();
      if s.key.Sub? { EnteredBefore(s.myParent); }
    }

    /** Makes the requested transition pending. */
    method SetPendingState(r: Request, ghost given: set<StateInstance>)
      requires Ready(given) && myPendingState == null && r.target in states
      modifies `instances, `owned, `myPendingState, `myPendingInit
      ensures Ready(given) && old(owned) <= owned && fresh(owned - old(owned))
      ensures myPendingState != null && myPendingInit == r.how && Below(myPendingState.key, r.target)
      ensures if r.how == AdaptedInit && r.target in old(instances) && old(instances[r.target].myHistory) != null
              then myPendingState == old(instances[r.target].myHistory) && instances == old(instances)
              else myPendingState.key == r.target
    {
      hide BoxesOk, Replay, Path;
      if r.how == AdaptedInit && r.target in instances && instances[r.target].myHistory != null {
        assert HistoryFits(instances[r.target]);
        myPendingState := instances[r.target].myHistory;
      } else {
        var i := GetInstance(r.target);
        myPendingState := i;
        ReadyGrows(given);
      }
      myPendingInit := r.how;
    }

    // ---- initialisation -------------------------------------------------------------------------------

    /** The user's handlers name only the machine's states. */
    ghost predicate Knows(behave: Behaviour) {
      forall t :: behave(t).transition.Some? ==> behave(t).transition.value.target in states
    }

    /** An init method of `c` dispatches an event or asks for a state that is no proper substate. */
    ghost predicate BadInit(behave: Behaviour, t: seq<Action>, c: StateClass) {
      && t != [] && t[|t| - 1] == Init(c)
      && var r := behave(t);
         r.event.Some? || (r.transition.Some? && !(Below(r.transition.value.target, c) && r.transition.value.target != c))
    }

    ghost predicate PendingFits()
      reads this
    {
      myPendingState != null ==> myCurrentState != null && ProperChild(myPendingState, myCurrentState)
    }

    /** Runs the user's init method of the current state; the root has none. */
    method CallInit(behave: Behaviour, ghost given: set<StateInstance>) returns (ok: bool)
      requires Ready(given) && myPendingState == null && Knows(behave)
      modifies `instances, `owned, `myPendingState, `myPendingInit, `trace
      ensures Ready(given) && old(owned) <= owned && fresh(owned - old(owned))
      ensures trace == if myCurrentState.key.Root? then old(trace) else old(trace) + [Init(myCurrentState.key)]
      ensures (ok && PendingFits()) || BadInit(behave, trace, myCurrentState.key)
      ensures myCurrentState.key.Root? ==> ok && myPendingState == null
      ensures ok ==> (myPendingState == null <==> myCurrentState.key.Root? || behave(trace).transition.None?)
    {
      if myCurrentState.key.Root? {
        return true;
      }
      trace := trace + [Init(myCurrentState.key)];
      InitNests(old(trace), myCurrentState.key);
      var r := behave(trace);
      ok := r.event.None?;
      if r.transition.Some? {
        SetPendingState(r.transition.value, given);
        BelowFits(r.transition.value.target);
      }
    }

    lemma BelowFits(target: StateClass)
      requires myCurrentState != null && myPendingState != null && myPendingState in owned && Below(myPendingState.key, target)
      ensures Below(target, myCurrentState.key) && target != myCurrentState.key ==> PendingFits()
    {
      if Below(target, myCurrentState.key) && target != myCurrentState.key {
        BelowTransitive(myPendingState.key, target, myCurrentState.key);
        if myPendingState.key == myCurrentState.key {
          ProperIsDeeper(target, myCurrentState.key);
          BelowIsPrefix(myPendingState.key, target);
        }
      }
    }

    /** Goes to the current state's history, if that is wanted and there is one, or runs its init
        method; either way the history is spent. */
    method InitState(history: bool, behave: Behaviour, ghost given: set<StateInstance>) returns (ok: bool)
      requires Ready(given) && myPendingState == null && Knows(behave)
      modifies `instances, `owned, `myPendingState, `myPendingInit, `trace, myCurrentState`myHistory
      ensures Ready(given) && old(owned) <= owned && fresh(owned - old(owned))
      ensures (ok && PendingFits()) || BadInit(behave, trace, myCurrentState.key)
      ensures myCurrentState.key.Root? ==> ok && myPendingState == null
      ensures history && old(myCurrentState.myHistory) != null ==>
                ok && trace == old(trace) && myPendingState == old(myCurrentState.myHistory) && myPendingInit == DefaultInit
      ensures !history || old(myCurrentState.myHistory) == null ==>
                trace == if myCurrentState.key.Root? then old(trace) else old(trace) + [Init(myCurrentState.key)]
      ensures myCurrentState.myHistory == null
    {
      hide BoxesOk, Wired, Nested, Below;
      if history && myCurrentState.myHistory != null {
        assert HistoryFits(myCurrentState);
        myPendingState, myPendingInit := myCurrentState.myHistory, DefaultInit;
        ok := true;
      } else {
        ok := CallInit(behave, given);
      }
      ForgetHistory(given);
    }

    method ForgetHistory(ghost given: set<StateInstance>)
      requires Ready(given)
      modifies myCurrentState`myHistory
      ensures Ready(given) && myCurrentState.myHistory == null
    {
      label Before:
      myCurrentState.myHistory := null;
      forall o | o in owned
        ensures HistoryFits(o)
      {
        if o != myCurrentState { assert old@Before(HistoryFits(o)); }
      }
    }

    method ExecuteInit(how: Initializer, behave: Behaviour, ghost given: set<StateInstance>) returns (ok: bool)
      requires Ready(given) && myPendingState == null && Knows(behave)
      modifies `instances, `owned, `myPendingState, `myPendingInit, `trace, myCurrentState`myHistory
      ensures Ready(given) && old(owned) <= owned && fresh(owned - old(owned))
      ensures (ok && PendingFits()) || BadInit(behave, trace, myCurrentState.key)
      ensures myCurrentState.key.Root? ==> ok && myPendingState == null
    {
      match how {
        case DefaultInit => ok := InitState(false, behave, given);
        case HistoryInit => ok := InitState(true, behave, given);
        case AdaptedInit => ok := InitState(true, behave, given);
        case ParamInit => ok := CallInit(behave, given);
      }
    }

    // ---- runs ---------------------------------------------------------------------------------------------

    /** Bounds the transitions still to come: each but the first leads to a proper substate. */
    ghost function ToCome(): nat
      reads this
      requires Wired() && (myPendingState != null ==> myPendingState in owned)
    {
      if myPendingState == null then 0
      else if PendingFits() then
        DepthBounded(states, myPendingState.key);
        1 + |states| - |Path(myPendingState.key)|
      else |states| + 2
    }

    lemma FewerToCome(next: StateInstance)
      requires Wired() && next in owned && next == myCurrentState && PendingFits()
      ensures ToCome() <= |states| - |Path(next.key)|
    {
      DepthBounded(states, next.key);
      if myPendingState != null {
        SameKey(myPendingState, next);
        ProperIsDeeper(myPendingState.key, next.key);
        DepthBounded(states, myPendingState.key);
      }
    }

    /** One transition and the initialisation of its target. */
    method Step(behave: Behaviour, ghost given: set<StateInstance>) returns (ok: bool)
      requires Ready(given) && Knows(behave) && myPendingState != null
      modifies `instances, `owned, `myCurrentState, `myPendingState, `myPendingInit, `trace
      modifies owned`myBox, owned`myBoxPlace, owned`myHistory
      ensures Ready(given) && old(owned) <= owned && fresh(owned - old(owned))
      ensures myCurrentState == old(myPendingState)
      ensures if ok then PendingFits() else BadInit(behave, trace, myCurrentState.key)
      ensures myCurrentState.key.Root? ==> ok && myPendingState == null
      ensures ok ==> ToCome() < old(ToCome())
    {
      hide BoxesOk, HistoryOk, Wired, Nested;
      ghost var before := ToCome();
      OldToCome();
      Transit(myCurrentState, myPendingState, given);
      ok := Initialise(behave, given);
    }

    /** Initialises the current state and checks what that has made pending. */
    method Initialise(behave: Behaviour, ghost given: set<StateInstance>) returns (ok: bool)
      requires Ready(given) && Knows(behave) && myPendingState == null
      modifies `instances, `owned, `myPendingState, `myPendingInit, `trace, myCurrentState`myHistory
      ensures Ready(given) && old(owned) <= owned && fresh(owned - old(owned))
      ensures if ok then PendingFits() else BadInit(behave, trace, myCurrentState.key)
      ensures myCurrentState.key.Root? ==> ok && myPendingState == null
      ensures ok ==> ToCome() <= |states| - |Path(myCurrentState.key)|
    {
      ok := ExecuteInit(myPendingInit, behave, given);
      if ok && myPendingState != null {
        assert myPendingState.Placed();
        ChildIsBelow(myPendingState, myCurrentState);
        SameKey(myPendingState, myCurrentState);
        ok := myPendingState.IsChild(myCurrentState) && myCurrentState != myPendingState;
      }
      if ok { FewerToCome(myCurrentState); }
    }

    lemma OldToCome()
      requires Wired() && myPendingState != null && myPendingState in owned
      ensures ToCome() > |states| - |Path(myPendingState.key)|
    {
      DepthBounded(states, myPendingState.key);
    }

    /** Where the machine is, or is about to go, is `target` or below it. */
    ghost predicate HeadsFor(target: StateClass)
      reads this
    {
      && (if myPendingState != null then Below(myPendingState.key, target)
          else myCurrentState != null && Below(myCurrentState.key, target))
      && (target.Root? ==> if myPendingState != null then myPendingState.key.Root?
                           else myCurrentState != null && myCurrentState.key.Root?)
    }

    lemma StillHeadsFor(target: StateClass)
      requires myCurrentState != null && PendingFits() && Below(myCurrentState.key, target)
      requires target.Root? ==> myCurrentState.key.Root? && myPendingState == null
      ensures HeadsFor(target)
    {
      if myPendingState != null { BelowTransitive(myPendingState.key, myCurrentState.key, target); }
    }

    /** Carries out pending transitions until there is none, or fails where an init method errs. */
    method Settle(behave: Behaviour, ghost given: set<StateInstance>, ghost target: StateClass) returns (ok: bool)
      requires Ready(given) && Knows(behave) && HeadsFor(target)
      modifies `instances, `owned, `myCurrentState, `myPendingState, `myPendingInit, `trace
      modifies owned`myBox, owned`myBoxPlace, owned`myHistory
      ensures Ready(given) && old(owned) <= owned && fresh(owned - old(owned))
      ensures if ok then myPendingState == null else BadInit(behave, trace, myCurrentState.key)
      ensures Below(myCurrentState.key, target) && (target.Root? ==> ok) && (target.Root? <==> myCurrentState.key.Root?)
    {
      hide HistoryOk, BoxesOk, Wired, Nested;
      ok := true;
      while myPendingState != null
        invariant Ready(given) && old(owned) <= owned && fresh(owned - old(owned)) && HeadsFor(target)
        decreases ToCome()
      {
        ok := Step(behave, given);
        if !ok {
          return;
        }
        StillHeadsFor(target);
      }
      ok := true;
    }

    /** Carries out pending transitions and events, at most `budget` events. */
    method RattleOn(behave: Behaviour, budget: nat, ghost given: set<StateInstance>, ghost target: StateClass) returns (outcome: Outcome)
      requires Ready(given) && Knows(behave) && HeadsFor(target) && (target.Root? ==> myPendingEvent == None)
      modifies `instances, `owned, `myCurrentState, `myPendingState, `myPendingInit, `myPendingEvent, `trace
      modifies owned`myBox, owned`myBoxPlace, owned`myHistory
      ensures Ready(given) && old(owned) <= owned && fresh(owned - old(owned))
      ensures outcome != InitFailed ==> myPendingState == null
      ensures outcome == Settled ==> myPendingEvent == None
      ensures outcome == Unfinished ==> myPendingEvent.Some?
      ensures outcome == InitFailed ==> BadInit(behave, trace, myCurrentState.key)
      ensures target.Root? ==> outcome == Settled
      ensures target.Root? <==> myCurrentState.key.Root?
    {
      hide HistoryOk, BoxesOk, Wired, Below, Nested;
      outcome := Settled;
      var left := budget;
      ghost var head := target;
      while myPendingState != null || myPendingEvent.Some?
        invariant Ready(given) && old(owned) <= owned && fresh(owned - old(owned)) && HeadsFor(head)
        invariant (head.Root? <==> target.Root?) && (head.Root? ==> myPendingEvent == None)
        decreases left, if myPendingState != null then 2 else if myPendingEvent.Some? then 1 else 0
      {
        var ok := Settle(behave, given, head);
        if !ok {
          return InitFailed;
        }
        if myPendingEvent.Some? {
          if left == 0 {
            return Unfinished;
          }
          left := left - 1;
          head := NextEvent(behave, given);
        }
      }
      RootOnly(head);
    }

    lemma RootOnly(head: StateClass)
      requires myPendingState == null && HeadsFor(head)
      ensures myCurrentState != null && (head.Root? <==> myCurrentState.key.Root?)
    {
    }

    /** Takes the pending event and has it handled. */
    method NextEvent(behave: Behaviour, ghost given: set<StateInstance>) returns (ghost head: StateClass)
      requires Ready(given) && Knows(behave) && myPendingState == null && myPendingEvent.Some? && myCurrentState.key.Sub?
      modifies `instances, `owned, `myPendingState, `myPendingInit, `myPendingEvent, `trace
      ensures Ready(given) && old(owned) <= owned && fresh(owned - old(owned)) && HeadsFor(head) && head.Sub?
    {
      myPendingEvent := None;
      head := Dispatch(behave, given);
    }

    /** Calls an event handler of the current state. */
    method Dispatch(behave: Behaviour, ghost given: set<StateInstance>) returns (ghost head: StateClass)
      requires Ready(given) && Knows(behave) && myPendingState == null && myPendingEvent == None && myCurrentState.key.Sub?
      modifies `instances, `owned, `myPendingState, `myPendingInit, `myPendingEvent, `trace
      ensures Ready(given) && old(owned) <= owned && fresh(owned - old(owned))
      ensures trace == old(trace) + [Handler(myCurrentState.key)] && myPendingEvent == behave(trace).event
      ensures myPendingState == null <==> behave(trace).transition.None?
      ensures HeadsFor(head) && head.Sub?
    {
      hide HistoryOk, BoxesOk, Replay, Path;
      trace := trace + [Handler(myCurrentState.key)];
      InitNests(old(trace), myCurrentState.key);
      var r := behave(trace);
      head := myCurrentState.key;
      if r.transition.Some? {
        SetPendingState(r.transition.value, given);
        head := r.transition.value.target;
        assert SuperIn(states, head);
      }
      myPendingEvent := r.event;
    }

    // ---- life of a machine --------------------------------------------------------------------------------

    /** Between events: nothing is pending, and no box has been given from outside and not been used. */
    ghost predicate Running()
      reads this, owned
    {
      Ready({}) && myCurrentState.key.Sub? && myPendingState == null
    }

    /** A box that is neither empty nor persistent lives exactly while its state is entered. */
    lemma BoxLifetimes(o: StateInstance)
      requires Running() && o in owned && o.key.Sub?
      ensures Below(myCurrentState.key, o.key) ==> o.myBox
      ensures o.key.box == OwnBox ==> (o.myBox <==> Below(myCurrentState.key, o.key))
    {
      InPath(myCurrentState.key, o.key);
    }

    /** Prepares a machine whose top state may have been given a box. */
    constructor (states: set<StateClass>, top: StateClass, box: bool)
      requires Closed(states) && OneTop(states, top)
      ensures this.states == states && this.top == top && trace == [] && fresh(owned)
      ensures Root in instances && top in instances && instances[top].myBox == box
      ensures Ready({instances[top]}) && myCurrentState.key.Root? && myPendingState == null && myPendingEvent == None
    {
      this.states, this.top := states, top;
      var root := new StateInstance(Root, null);
      instances, owned := map[Root := root], {root};
      myCurrentState, myPendingState, myPendingInit, myPendingEvent, trace := root, null, DefaultInit, None, [];
      new;
      assert HasParent(root) && HistoryFits(root);
      var i := AddInstance(top, root);
      i.myBox := box;
      assert HistoryFits(i) && HistoryFits(root);
    }

    /** Enters the start state. */
    method Start(r: Request, behave: Behaviour, budget: nat) returns (outcome: Outcome)
      requires top in instances && Ready({instances[top]}) && myCurrentState.key.Root? && myPendingState == null && myPendingEvent == None
      requires r.target in states && Knows(behave)
      modifies `instances, `owned, `myCurrentState, `myPendingState, `myPendingInit, `myPendingEvent, `trace
      modifies owned`myBox, owned`myBoxPlace, owned`myHistory
      ensures outcome != InitFailed ==> Running()
      ensures outcome == Settled ==> myPendingEvent == None
      ensures outcome == InitFailed ==> myCurrentState != null && BadInit(behave, trace, myCurrentState.key)
    {
      ghost var given := {instances[top]};
      ghost var first := instances[top];
      SetPendingState(r, given);
      assert SuperIn(states, r.target);
      outcome := RattleOn(behave, budget, given, r.target);
      BoxUsed(first);
    }

    lemma BoxUsed(first: StateInstance)
      requires Ready({first}) && myCurrentState.key.Sub? && first.key == top
      ensures Ready({})
    {
      assert myCurrentState.key in instances;
      TopInPath(states, top, myCurrentState.key);
    }

    /** Lets the current state handle an event, and carries out all that follows from it. */
    method HandleEvent(behave: Behaviour, budget: nat) returns (outcome: Outcome)
      requires Running() && myPendingEvent == None && Knows(behave)
      modifies `instances, `owned, `myCurrentState, `myPendingState, `myPendingInit, `myPendingEvent, `trace
      modifies owned`myBox, owned`myBoxPlace, owned`myHistory
      ensures outcome != InitFailed ==> Running()
      ensures outcome == Settled ==> myPendingEvent == None
      ensures outcome == InitFailed ==> myCurrentState != null && BadInit(behave, trace, myCurrentState.key)
    {
      ghost var head := Dispatch(behave, {});
      outcome := RattleOn(behave, budget, {}, head);
    }

    /** Exits all states. */
    method Shutdown(behave: Behaviour)
      requires Running() && myPendingEvent == None && Knows(behave)
      modifies `instances, `owned, `myCurrentState, `myPendingState, `myPendingInit, `myPendingEvent, `trace
      modifies owned`myBox, owned`myBoxPlace, owned`myHistory
      ensures myCurrentState == null && Replay(trace) == Stack([]) && BoxesOk([], {}) && HistoryOk()
    {
      hide HistoryFits, BoxesOk;
      myPendingState, myPendingInit := instances[Root], DefaultInit;
      var outcome := RattleOn(behave, 0, {}, Root);
      myCurrentState := null;
    }
  }
}
