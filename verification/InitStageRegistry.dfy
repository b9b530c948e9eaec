/** The registry of initialization stages, which numbers them lazily by their dependencies. */
module InitStageRegistryClass {
  import opened Sequences
  import opened StageOrders

  /** A stage as it is declared; what is declared twice is two stages. */
  datatype InitStage = InitStage(id: int, name: string)

  class Stage {
    const stageDecl: InitStage
    var number: int
    var precedingStages: seq<Stage>
    var followingStages: seq<Stage>

    constructor (decl: InitStage)
      ensures stageDecl == decl && number == -1 && precedingStages == [] && followingStages == []
    {
      stageDecl, number, precedingStages, followingStages := decl, -1, [], [];
    }
  }

  datatype StageOutcome = Assigned | UnknownStage(name: string) | Circle

  function Names(stages: seq<Stage>): (names: seq<string>)
    ensures |names| == |stages|
  {
    seq(|stages|, i requires 0 <= i < |stages| => stages[i].stageDecl.name)
  }

  ghost function Numbers(stages: seq<Stage>): (num: seq<int>)
    reads stages
    ensures |num| == |stages|
  {
    seq(|stages|, i requires 0 <= i < |stages| reads stages => stages[i].number)
  }

  /** The lists of preceding stages say what the dependencies say. */
  ghost predicate Linked(stages: seq<Stage>, deps: seq<Dependency>)
    reads stages
  {
    && (forall i, s :: 0 <= i < |stages| && s in stages[i].precedingStages ==> s in stages)
    && forall i: nat, j: nat {:trigger Follows(Names(stages), deps, i, j)} :: i < |stages| && j < |stages| ==>
         (stages[j] in stages[i].precedingStages <==> Follows(Names(stages), deps, i, j))
  }

  class InitStageRegistry {
    var numInitStages: int
    var stages: seq<Stage>
    var dependencies: seq<Dependency>

    constructor ()
      ensures numInitStages == -1 && stages == [] && dependencies == []
    {
      numInitStages, stages, dependencies := -1, [], [];
    }

    /** The first stage of this name. */
    method GetInitStage(name: string) returns (found: bool, k: nat)
      ensures found <==> name in Names(stages)
      ensures found ==> k < |stages| && k == Index(Names(stages), name)
    {
      k := 0;
      while k < |stages|
        invariant 0 <= k <= |stages| && forall j :: 0 <= j < k ==> Names(stages)[j] != name
      {
        if stages[k].stageDecl.name == name {
          assert Names(stages)[k] == name;
          return true, k;
        }
        k := k + 1;
      }
      found := false;
    }

    method AddInitStage(decl: InitStage)
      requires Distinct(stages)
      modifies this
      ensures Distinct(stages) && |stages| == |old(stages)| + 1 && stages[..|old(stages)|] == old(stages)
      ensures stages[|old(stages)|].stageDecl == decl && fresh(stages[|old(stages)|])
      ensures numInitStages == -1 && dependencies == old(dependencies)
    {
      var s := new Stage(decl);
      stages := stages + [s];
      numInitStages := -1;
    }

    method AddInitStageDependency(source: string, target: string)
      modifies this
      ensures dependencies == old(dependencies) + [Dependency(source, target)]
      ensures numInitStages == -1 && stages == old(stages)
    {
      dependencies := dependencies + [Dependency(source, target)];
      numInitStages := -1;
    }

    method Clear()
      requires Distinct(stages)
      modifies stages
      ensures Linked(stages, []) && forall s :: s in stages ==> s.number == -1
    {
      var i := 0;
      while i < |stages|
        invariant 0 <= i <= |stages|
        invariant forall j :: 0 <= j < i ==> stages[j].number == -1 && stages[j].precedingStages == []
      {
        stages[i].number := -1;
        stages[i].followingStages := [];
        stages[i].precedingStages := [];
        i := i + 1;
      }
    }

    /** Enters the dependencies in the lists, as far as their stages are known. */
    method Link() returns (outcome: StageOutcome)
      requires Distinct(stages) && Linked(stages, []) && forall s :: s in stages ==> s.number == -1
      modifies stages`precedingStages, stages`followingStages
      ensures outcome != Circle
      ensures outcome.UnknownStage? ==> outcome.name !in Names(stages) && !Known(Names(stages), dependencies)
      ensures outcome == Assigned ==> Known(Names(stages), dependencies) && Linked(stages, dependencies)
    {
      var k := 0;
      while k < |dependencies|
        invariant 0 <= k <= |dependencies|
        invariant Known(Names(stages), dependencies[..k]) && Linked(stages, dependencies[..k])
      {
        assert dependencies[..k + 1] == dependencies[..k] + [dependencies[k]];
        outcome := LinkNext(dependencies[k], dependencies[..k]);
        if outcome.UnknownStage? {
          assert dependencies[k] in dependencies;
          return;
        }
        k := k + 1;
      }
      assert dependencies[..k] == dependencies;
      outcome := Assigned;
    }

    method LinkNext(d: Dependency, ghost deps: seq<Dependency>) returns (outcome: StageOutcome)
      requires Distinct(stages) && Linked(stages, deps) && Known(Names(stages), deps)
      modifies stages`precedingStages, stages`followingStages
      ensures outcome != Circle
      ensures outcome.UnknownStage? ==> outcome.name in [d.source, d.target] && outcome.name !in Names(stages)
      ensures outcome == Assigned ==> Linked(stages, deps + [d]) && Known(Names(stages), deps + [d])
    {
      var found, f := GetInitStage(d.source);
      if !found {
        return UnknownStage(d.source);
      }
      var p;
      found, p := GetInitStage(d.target);
      if !found {
        return UnknownStage(d.target);
      }
      LinkOne(f, p, d, deps);
      outcome := Assigned;
    }

    method LinkOne(f: nat, p: nat, ghost d: Dependency, ghost deps: seq<Dependency>)
      requires Distinct(stages) && f < |stages| && p < |stages| && Linked(stages, deps)
      requires Index(Names(stages), d.source) == f && Index(Names(stages), d.target) == p
      modifies stages`precedingStages, stages`followingStages
      ensures Linked(stages, deps + [d])
    {
      var following, preceding := stages[f], stages[p];
      preceding.followingStages := preceding.followingStages + [following];
      following.precedingStages := following.precedingStages + [preceding];
      forall i: nat, j: nat | i < |stages| && j < |stages|
        ensures stages[j] in stages[i].precedingStages <==> Follows(Names(stages), deps + [d], i, j)
      {
        FollowsOneMore(Names(stages), deps, d, i, j);
      }
    }

    // ---- numbering ------------------------------------------------------------------------------------

    /** The numbers given so far respect the dependencies, and `order` lists their stages. */
    ghost predicate Numbering(order: seq<nat>)
      reads this, stages
    {
      && Distinct(stages) && Linked(stages, dependencies) && numInitStages == |order|
      && Respects(Names(stages), dependencies, Numbers(stages)) && Lists(Numbers(stages), order)
    }

    /** Whether a stage before `stages[i]` has no number yet. */
    method Blocked(i: nat) returns (blocked: bool)
      requires i < |stages|
      ensures blocked <==> exists s :: s in stages[i].precedingStages && s.number == -1
    {
      var k := 0;
      while k < |stages[i].precedingStages|
        invariant 0 <= k <= |stages[i].precedingStages|
        invariant forall j :: 0 <= j < k ==> stages[i].precedingStages[j].number != -1
      {
        if stages[i].precedingStages[k].number == -1 {
          return true;
        }
        k := k + 1;
      }
      blocked := false;
    }

    /** Numbers stage `i` if it can be numbered. */
    method NumberOne(i: nat, ghost order0: seq<nat>) returns (any: bool, ghost order: seq<nat>)
      requires Numbering(order0) && i < |stages|
      modifies stages`number, `numInitStages
      ensures Numbering(order)
      ensures any ==> old(Numbers(stages))[i] == -1 && order == order0 + [i] && Numbers(stages) == old(Numbers(stages))[i := |order0|]
      ensures !any ==> order == order0 && Numbers(stages) == old(Numbers(stages))
      ensures any <==> old(Numbers(stages))[i] == -1 && !Stuck(Names(stages), dependencies, old(Numbers(stages)), i)
    {
      any, order := false, order0;
      if stages[i].number == -1 {
        var blocked := Blocked(i);
        BlockedMeans(i, blocked);
        if !blocked {
          ghost var num := Numbers(stages);
          stages[i].number := numInitStages;
          numInitStages := numInitStages + 1;
          any, order := true, order0 + [i];
          assert Numbers(stages) == num[i := |order0|];
          NumberKeeps(Names(stages), dependencies, num, order0, i);
        }
      }
    }

    lemma BlockedMeans(i: nat, blocked: bool)
      requires i < |stages| && Linked(stages, dependencies)
      requires blocked <==> exists s :: s in stages[i].precedingStages && s.number == -1
      ensures blocked <==> Stuck(Names(stages), dependencies, Numbers(stages), i)
    {
      if blocked {
        var s :| s in stages[i].precedingStages && s.number == -1;
        assert s in stages;
        var j: nat :| j < |stages| && stages[j] == s;
        assert Follows(Names(stages), dependencies, i, j);
        assert Numbers(stages)[j] == -1;
      }
      if Stuck(Names(stages), dependencies, Numbers(stages), i) {
        var j: nat :| j < |Numbers(stages)| && Numbers(stages)[j] == -1 && Follows(Names(stages), dependencies, i, j);
        assert stages[j] in stages[i].precedingStages;
      }
    }

    /** One pass over all stages. */
    method Pass(ghost order0: seq<nat>) returns (any: bool, ghost order: seq<nat>)
      requires Numbering(order0)
      modifies stages`number, `numInitStages
      ensures Numbering(order) && if any then |order| > |order0| else order == order0
      ensures !any ==> AllStuck(Names(stages), dependencies, Numbers(stages))
      ensures order0 == [] && InOrder(Names(stages), dependencies) ==> order == Upto(|stages|)
    {
      any, order := false, order0;
      var i := 0;
      while i < |stages|
        invariant 0 <= i <= |stages| && Numbering(order) && if any then |order| > |order0| else order == order0
        invariant !any ==> AllStuckTo(Names(stages), dependencies, Numbers(stages), i)
        invariant order0 == [] && InOrder(Names(stages), dependencies) ==> order == Upto(i)
      {
        if order0 == [] && InOrder(Names(stages), dependencies) {
          NeverBlocked(Names(stages), dependencies, Numbers(stages), i);
        }
        var one;
        one, order := NumberOne(i, order);
        any := any || one;
        i := i + 1;
      }
    }

    /** Numbers all stages and sorts them, unless a stage is unknown or the dependencies go in a circle. */
    method AssignInitStageNumbers() returns (outcome: StageOutcome)
      requires Distinct(stages)
      modifies `numInitStages, `stages, stages
      ensures Distinct(stages) && multiset(stages) == multiset(old(stages))
      ensures outcome.UnknownStage? <==> !Known(Names(old(stages)), dependencies)
      ensures outcome.UnknownStage? ==> outcome.name !in Names(old(stages)) && numInitStages == old(numInitStages)
      ensures outcome == Circle <==> Known(Names(old(stages)), dependencies) && Cyclic(Names(old(stages)), dependencies)
      ensures outcome == Assigned ==> Sorted() && Respects(Names(old(stages)), dependencies, Numbers(old(stages)))
      ensures InOrder(Names(old(stages)), dependencies) ==> outcome == Assigned && stages == old(stages)
    {
      Clear();
      outcome := Link();
      if outcome.UnknownStage? {
        return;
      }
      outcome := AssignLinked();
    }

    /** Numbers and sorts stages whose dependencies have been entered. */
    method AssignLinked() returns (outcome: StageOutcome)
      requires Distinct(stages) && Linked(stages, dependencies) && forall s :: s in stages ==> s.number == -1
      modifies `numInitStages, `stages, stages`number
      ensures Distinct(stages) && multiset(stages) == multiset(old(stages)) && !outcome.UnknownStage?
      ensures outcome == Circle <==> Cyclic(Names(old(stages)), dependencies)
      ensures outcome == Assigned ==> Sorted() && Respects(Names(old(stages)), dependencies, Numbers(old(stages)))
      ensures InOrder(Names(old(stages)), dependencies) ==> outcome == Assigned && stages == old(stages)
    {
      hide Linked, Respects, Lists, Cyclic, InOrder;
      numInitStages := 0;
      NothingNumbered();
      var circle;
      ghost var order;
      circle, order := NumberAll();
      if circle {
        return Circle;
      }
      NumberedIsAcyclic(Names(stages), dependencies, Numbers(stages));
      SortStages(order);
      outcome := Assigned;
    }

    /** Passes over the stages until all have numbers, or a pass changes nothing. */
    method NumberAll() returns (circle: bool, ghost order: seq<nat>)
      requires Numbering([])
      modifies stages`number, `numInitStages
      ensures circle ==> Cyclic(Names(stages), dependencies)
      ensures !circle ==> Numbering(order) && |order| == |stages| && forall i :: 0 <= i < |stages| ==> Numbers(stages)[i] >= 0
      ensures InOrder(Names(stages), dependencies) ==> !circle && order == Upto(|stages|)
    {
      order, circle := [], false;
      while numInitStages < |stages|
        invariant Numbering(order)
        invariant InOrder(Names(stages), dependencies) ==> order == [] || order == Upto(|stages|)
        decreases |stages| - numInitStages
      {
        var any;
        any, order := Pass(order);
        NoMoreThanStages(Numbers(stages), order);
        if !any {
          CircleFound(order);
          return true, order;
        }
      }
      NoMoreThanStages(Numbers(stages), order);
    }

    /** The stages have the numbers of their places. */
    ghost predicate Sorted()
      reads this, stages
    {
      numInitStages == |stages| && forall k :: 0 <= k < |stages| ==> stages[k].number == k
    }

    lemma NothingNumbered()
      requires Distinct(stages) && Linked(stages, dependencies) && numInitStages == 0
      requires forall s :: s in stages ==> s.number == -1
      ensures Numbering([])
    {
    }

    lemma CircleFound(order: seq<nat>)
      requires Numbering(order) && AllStuck(Names(stages), dependencies, Numbers(stages)) && |order| < |stages|
      ensures Cyclic(Names(stages), dependencies)
    {
      var i := SomeUnnumbered(Numbers(stages), order);
      StuckIsCyclic(Names(stages), dependencies, Numbers(stages), i);
    }

    /** Puts the stages in the order of their numbers. */
    method SortStages(ghost order: seq<nat>)
      requires Distinct(stages) && Lists(Numbers(stages), order) && |order| == |stages| == numInitStages
      modifies `stages
      ensures order == Upto(|stages|) ==> stages == old(stages)
      ensures Distinct(stages) && multiset(stages) == multiset(old(stages)) && Sorted()
    {
      var sorted: seq<Stage> := [];
      while |sorted| < |stages|
        invariant stages == old(stages) && |sorted| <= |stages|
        invariant forall k :: 0 <= k < |sorted| ==> sorted[k] == stages[order[k]]
        decreases |stages| - |sorted|
      {
        var s := Find(|sorted|, order);
        sorted := sorted + [s];
      }
      SortedIsPermutation(stages, order, sorted);
      assert order == Upto(|stages|) ==> sorted == stages;
      stages := sorted;
    }

    method Find(k: nat, ghost order: seq<nat>) returns (s: Stage)
      requires Lists(Numbers(stages), order) && k < |order|
      ensures s == stages[order[k]]
    {
      var i := 0;
      assert Numbers(stages)[order[k]] == k;
      while stages[i].number != k
        invariant 0 <= i <= order[k]
        decreases |stages| - i
      {
        i := i + 1;
      }
      s := stages[i];
      assert Numbers(stages)[i] == k;
    }

    // ---- use ---------------------------------------------------------------------------------------------

    /** Numbers the stages unless that has been done since the last change; also a numbering that
        stopped at a circle counts as done. */
    method EnsureInitStageNumbersAssigned() returns (outcome: StageOutcome)
      requires Distinct(stages)
      modifies `numInitStages, `stages, stages
      ensures Distinct(stages) && multiset(stages) == multiset(old(stages))
      ensures old(numInitStages) != -1 ==>
                outcome == Assigned && stages == old(stages) && numInitStages == old(numInitStages)
                && forall s :: s in stages ==> s.number == old(s.number)
      ensures old(numInitStages) == -1 ==>
                && (outcome.UnknownStage? <==> !Known(Names(old(stages)), dependencies))
                && (outcome.UnknownStage? ==> outcome.name !in Names(old(stages)))
                && (outcome == Circle <==> Known(Names(old(stages)), dependencies) && Cyclic(Names(old(stages)), dependencies))
      ensures old(numInitStages) == -1 && outcome == Assigned ==>
                Sorted() && (Distinct(Names(old(stages))) ==> InOrder(Names(stages), dependencies))
      ensures old(numInitStages) == -1 && InOrder(Names(old(stages)), dependencies) ==> outcome == Assigned && stages == old(stages)
    {
      outcome := Assigned;
      if numInitStages == -1 {
        outcome := AssignInitStageNumbers();
        if outcome == Assigned && Distinct(Names(old(stages))) {
          SortedInOrder(old(stages), stages, dependencies);
        }
      }
    }

    /** The first stage declared as `decl` is `stages[k]`. */
    predicate Declares(k: nat, decl: InitStage)
      reads this
    {
      k < |stages| && stages[k].stageDecl == decl && forall j :: 0 <= j < k ==> stages[j].stageDecl != decl
    }

    /** The number of a stage. Numbering the stages, if that is still to be done, may fail; then a stage
        that has not been added is reported as unknown. */
    method GetNumber(decl: InitStage) returns (outcome: StageOutcome, number: int)
      requires Distinct(stages)
      modifies `numInitStages, `stages, stages
      ensures multiset(stages) == multiset(old(stages))
      ensures old(numInitStages) == -1 && !Known(Names(old(stages)), dependencies) ==>
                outcome.UnknownStage? && outcome.name !in Names(old(stages))
      ensures old(numInitStages) == -1 && Known(Names(old(stages)), dependencies) && Cyclic(Names(old(stages)), dependencies) ==>
                outcome == Circle
      ensures old(numInitStages) != -1 || (Known(Names(old(stages)), dependencies) && !Cyclic(Names(old(stages)), dependencies)) ==>
                && (outcome == Assigned || outcome == UnknownStage(decl.name))
                && (outcome == Assigned <==> exists s :: s in stages && s.stageDecl == decl)
                && (outcome == Assigned ==> exists k: nat :: Declares(k, decl) && number == stages[k].number)
      ensures old(numInitStages) == -1 && outcome == Assigned ==> Sorted() && number >= 0 && Declares(number, decl)
      ensures old(numInitStages) != -1 ==> stages == old(stages) && forall s :: s in stages ==> s.number == old(s.number)
    {
      hide Known, Cyclic, InOrder;
      number := -1;
      outcome := EnsureInitStageNumbersAssigned();
      if outcome != Assigned {
        return;
      }
      var k := 0;
      while k < |stages|
        invariant 0 <= k <= |stages| && forall j :: 0 <= j < k ==> stages[j].stageDecl != decl
      {
        if stages[k].stageDecl == decl {
          number := stages[k].number;
          assert Declares(k, decl) && stages[k] in stages;
          return;
        }
        k := k + 1;
      }
      outcome := UnknownStage(decl.name);
    }

    /** Adds a stage that has to follow some others to a numbered registry: nobody else's number changes. */
    method AddFollowingStage(decl: InitStage, targets: seq<string>) returns (outcome: StageOutcome)
      requires Distinct(stages) && Sorted() && InOrder(Names(stages), dependencies)
      requires decl.name !in Names(stages) && forall t :: t in targets ==> t in Names(stages)
      modifies this, stages
      ensures outcome == Assigned && Sorted() && Distinct(stages) && InOrder(Names(stages), dependencies)
      ensures |stages| == |old(stages)| + 1 && stages[|old(stages)|].stageDecl == decl && stages[|old(stages)|].number == |old(stages)|
      ensures stages[..|old(stages)|] == old(stages) && forall s :: s in old(stages) ==> s.number == old(s.number)
    {
      ghost var names, before := Names(stages), stages;
      AddInitStage(decl);
      assert Names(stages) == names + [decl.name];
      InOrderGrows(names, dependencies, decl.name, []);
      assert dependencies + [] == dependencies;
      var i := 0;
      while i < |targets|
        invariant 0 <= i <= |targets| && numInitStages == -1 && |stages| == |before| + 1 && stages[..|before|] == before
        invariant Distinct(stages) && stages[|before|].stageDecl == decl && fresh(stages[|before|])
        invariant Names(stages) == names + [decl.name] && InOrder(Names(stages), dependencies)
      {
        AddInitStageDependency(decl.name, targets[i]);
        OneMoreInOrder(names, decl.name, dependencies[..|dependencies| - 1], targets[i]);
        assert dependencies == dependencies[..|dependencies| - 1] + [Dependency(decl.name, targets[i])];
        i := i + 1;
      }
      outcome := EnsureInitStageNumbersAssigned();
    }
  }

  lemma OneMoreInOrder(names: seq<string>, more: string, deps: seq<Dependency>, target: string)
    requires InOrder(names + [more], deps) && more !in names && target in names
    ensures InOrder(names + [more], deps + [Dependency(more, target)])
  {
    IndexAppend(names, more, more);
    IndexAppend(names, more, target);
  }

  /** Sorting by numbers that respect the dependencies puts the stages in order. */
  lemma SortedInOrder(before: seq<Stage>, after: seq<Stage>, deps: seq<Dependency>)
    requires multiset(before) == multiset(after) && Distinct(Names(before)) && Known(Names(before), deps)
    requires Respects(Names(before), deps, Numbers(before)) && forall k :: 0 <= k < |after| ==> after[k].number == k
    ensures InOrder(Names(after), deps)
  {
    forall d | d in deps
      ensures d.source in Names(after) && d.target in Names(after) && Index(Names(after), d.target) < Index(Names(after), d.source)
    {
      var i, j := Index(Names(before), d.source), Index(Names(before), d.target);
      PlaceOfName(before, after, i);
      PlaceOfName(before, after, j);
      assert Follows(Names(before), deps, i, j);
      assert Numbers(before)[i] == before[i].number >= 0;
    }
  }

  /** With names that differ a name leads to the place its stage has been sorted to. */
  lemma PlaceOfName(before: seq<Stage>, after: seq<Stage>, i: nat)
    requires multiset(before) == multiset(after) && Distinct(Names(before)) && i < |before|
    requires forall k :: 0 <= k < |after| ==> after[k].number == k
    ensures Names(before)[i] in Names(after)
    ensures before[i].number == Index(Names(after), Names(before)[i])
  {
    var s := before[i];
    assert s in multiset(before);
    assert s in after;
    var k: nat :| k < |after| && after[k] == s;
    assert Names(after)[k] == Names(before)[i];
    var m := Index(Names(after), Names(before)[i]);
    assert Names(after)[m] == after[m].stageDecl.name;
    assert after[m] in multiset(after);
    assert after[m] in before;
    var j: nat :| j < |before| && before[j] == after[m];
    assert Names(before)[j] == Names(before)[i];
  }

  ghost function Upto(n: nat): (s: seq<nat>)
    ensures |s| == n
  {
    seq(n, i requires 0 <= i < n => i)
  }

  ghost predicate AllStuckTo(names: seq<string>, deps: seq<Dependency>, num: seq<int>, n: nat) {
    forall i {:trigger Stuck(names, deps, num, i)} :: 0 <= i < n && i < |num| && num[i] == -1 ==> Stuck(names, deps, num, i)
  }

  /** `order` lists the stages that have numbers, by number. */
  ghost predicate Lists(num: seq<int>, order: seq<nat>) {
    && (forall k :: 0 <= k < |order| ==> order[k] < |num| && num[order[k]] == k)
    && forall i :: 0 <= i < |num| ==> num[i] == -1 || (0 <= num[i] < |order| && order[num[i]] == i)
  }

  lemma NumberKeeps(names: seq<string>, deps: seq<Dependency>, num: seq<int>, order: seq<nat>, i: nat)
    requires Respects(names, deps, num) && Lists(num, order) && i < |num| && num[i] == -1 && !Stuck(names, deps, num, i)
    ensures Respects(names, deps, num[i := |order|]) && Lists(num[i := |order|], order + [i])
  {
    var n := num[i := |order|];
    forall a: nat, b: nat | Follows(names, deps, a, b) && a < |n| && b < |n| && n[a] >= 0
      ensures 0 <= n[b] < n[a]
    {
      if a == i { assert num[b] != -1; }
    }
  }

  /** In an order that fits, the next stage is never blocked. */
  lemma NeverBlocked(names: seq<string>, deps: seq<Dependency>, num: seq<int>, i: nat)
    requires InOrder(names, deps) && |num| == |names| && i < |num| && Lists(num, Upto(i))
    ensures num[i] == -1 && !Stuck(names, deps, num, i)
    ensures Upto(i) + [i] == Upto(i + 1)
  {
    InOrderFollows(names, deps);
    UptoNumbers(num, i);
  }

  lemma UptoNumbers(num: seq<int>, i: nat)
    requires i < |num| && Lists(num, Upto(i))
    ensures num[i] == -1 && forall k :: 0 <= k < i ==> num[k] == k
  {
    forall k | 0 <= k < i
      ensures num[k] == k
    {
      assert Upto(i)[k] == k;
    }
    assert num[i] >= 0 ==> Upto(i)[num[i]] == num[i];
  }

  lemma FollowsOneMore(names: seq<string>, deps: seq<Dependency>, d: Dependency, i: nat, j: nat)
    ensures Follows(names, deps + [d], i, j) <==>
            Follows(names, deps, i, j) || (Index(names, d.source) == i < |names| && Index(names, d.target) == j < |names|)
  {
    if Follows(names, deps + [d], i, j) {
      var e :| e in deps + [d] && Index(names, e.source) == i < |names| && Index(names, e.target) == j < |names|;
      if e != d { assert e in deps; }
    }
    if Follows(names, deps, i, j) {
      var e :| e in deps && Index(names, e.source) == i < |names| && Index(names, e.target) == j < |names|;
      assert e in deps + [d];
    }
    assert d in deps + [d];
  }

  ghost function Firsts(n: nat): (s: set<nat>)
    ensures |s| == n && forall i: nat :: i in s <==> i < n
  {
    if n == 0 then {} else Firsts(n - 1) + {n - 1}
  }

  ghost function Elements(order: seq<nat>): set<nat> { set i | i in order }

  lemma NoMoreThanStages(num: seq<int>, order: seq<nat>)
    requires Lists(num, order)
    ensures |order| <= |num|
    ensures |order| == |num| <==> forall i :: 0 <= i < |num| ==> num[i] >= 0
  {
    var all, listed := Firsts(|num|), Elements(order);
    ListedCount(num, order);
    forall i | i in listed
      ensures i in all
    {
      var k :| 0 <= k < |order| && order[k] == i;
    }
    SubsetSize(listed, all);
    forall i: nat | i < |num| && |order| == |num|
      ensures num[i] >= 0
    {
      if i !in listed { SubsetSize(listed, all - {i}); }
    }
    if forall i :: 0 <= i < |num| ==> num[i] >= 0 {
      forall i | i in all
        ensures i in listed
      {
        assert order[num[i]] == i;
      }
      SubsetSize(all, listed);
    }
  }

  lemma ListedCount(num: seq<int>, order: seq<nat>)
    requires Lists(num, order)
    ensures |Elements(order)| == |order|
  {
    forall a, b | 0 <= a < b < |order|
      ensures order[a] != order[b]
    {
      assert num[order[a]] == a && num[order[b]] == b;
    }
    DistinctCount(order);
  }

  lemma {:induction false} DistinctCount(order: seq<nat>)
    requires forall a, b :: 0 <= a < b < |order| ==> order[a] != order[b]
    ensures |Elements(order)| == |order|
  {
    if order != [] {
      var init, last := order[..|order| - 1], order[|order| - 1];
      DistinctCount(init);
      assert Elements(order) == Elements(init) + {last} && last !in Elements(init);
    }
  }

  lemma SomeUnnumbered(num: seq<int>, order: seq<nat>) returns (i: nat)
    requires Lists(num, order) && |order| < |num|
    ensures i < |num| && num[i] == -1
  {
    NoMoreThanStages(num, order);
    i :| i < |num| && num[i] < 0;
  }

  lemma SortedIsPermutation(stages: seq<Stage>, order: seq<nat>, sorted: seq<Stage>)
    requires Distinct(stages) && Lists(Numbers(stages), order) && |order| == |stages| == |sorted|
    requires forall k :: 0 <= k < |sorted| ==> sorted[k] == stages[order[k]]
    ensures Distinct(sorted) && multiset(sorted) == multiset(stages)
    ensures forall k :: 0 <= k < |sorted| ==> sorted[k].number == k
  {
    NoMoreThanStages(Numbers(stages), order);
    forall k | 0 <= k < |sorted|
      ensures sorted[k].number == k
    {
      assert Numbers(stages)[order[k]] == k;
    }
    DistinctMultiset(stages);
    DistinctMultiset(sorted);
    forall s
      ensures s in stages <==> s in sorted
    {
      if s in stages {
        var i :| 0 <= i < |stages| && stages[i] == s;
        assert Numbers(stages)[i] >= 0;
        assert sorted[Numbers(stages)[i]] == s;
      }
    }
  }

  lemma {:induction false} DistinctMultiset(s: seq<Stage>)
    requires Distinct(s)
    ensures forall x :: multiset(s)[x] == if x in s then 1 else 0
  {
    if s != [] {
      var init, last := s[..|s| - 1], s[|s| - 1];
      DistinctMultiset(init);
      assert s == init + [last] && last !in init;
    }
  }
}
