/** Orders of named stages in which some have to come before others. */
module StageOrders {
  datatype Dependency = Dependency(source: string, target: string)

  /** The first stage of this name, or the number of stages if there is none. */
  function Index(names: seq<string>, name: string): (i: nat)
    ensures i <= |names| && (i < |names| ==> names[i] == name)
    ensures forall j :: 0 <= j < i ==> names[j] != name
    ensures i < |names| <==> name in names
  {
    if names == [] then 0
    else if names[0] == name then 0
    else 1 + Index(names[1..], name)
  }

  ghost predicate Known(names: seq<string>, deps: seq<Dependency>) {
    forall d :: d in deps ==> d.source in names && d.target in names
  }

  /** Stage `i` has to follow stage `j`. */
  ghost predicate Follows(names: seq<string>, deps: seq<Dependency>, i: nat, j: nat) {
    exists d :: d in deps && Index(names, d.source) == i < |names| && Index(names, d.target) == j < |names|
  }

  /** Each stage in turn has to follow the next. */
  ghost predicate Walk(names: seq<string>, deps: seq<Dependency>, w: seq<nat>) {
    forall k {:trigger StepOf(names, deps, w, k)} :: 0 <= k < |w| - 1 ==> StepOf(names, deps, w, k)
  }

  ghost predicate StepOf(names: seq<string>, deps: seq<Dependency>, w: seq<nat>, k: nat)
    requires k + 1 < |w|
  {
    Follows(names, deps, w[k], w[k + 1])
  }

  ghost predicate Cyclic(names: seq<string>, deps: seq<Dependency>) {
    exists w :: |w| >= 2 && w[0] == w[|w| - 1] && Walk(names, deps, w)
  }

  /** Every dependency leads from a stage to one before it. */
  ghost predicate InOrder(names: seq<string>, deps: seq<Dependency>) {
    Known(names, deps) && forall d :: d in deps ==> Index(names, d.target) < Index(names, d.source)
  }

  // ---- numbers and cycles ----------------------------------------------------------------------------

  /** Numbers that respect the dependencies, as far as they have been given; -1 is none. */
  ghost predicate Respects(names: seq<string>, deps: seq<Dependency>, num: seq<int>) {
    && |num| == |names|
    && forall i: nat, j: nat :: Follows(names, deps, i, j) && i < |num| && j < |num| && num[i] >= 0 ==> 0 <= num[j] < num[i]
  }

  /** Numbers fall along a walk. */
  lemma {:induction false} WalkFalls(names: seq<string>, deps: seq<Dependency>, num: seq<int>, w: seq<nat>, k: nat)
    requires Respects(names, deps, num) && Walk(names, deps, w) && 0 < k < |w| && w[0] < |num| && num[w[0]] >= 0
    ensures w[k] < |num| && 0 <= num[w[k]] < num[w[0]]
  {
    assert StepOf(names, deps, w, k - 1);
    if k > 1 { WalkFalls(names, deps, num, w, k - 1); }
  }

  lemma NumberedIsAcyclic(names: seq<string>, deps: seq<Dependency>, num: seq<int>)
    requires Respects(names, deps, num) && forall i :: 0 <= i < |num| ==> num[i] >= 0
    ensures !Cyclic(names, deps)
  {
    if w :| |w| >= 2 && w[0] == w[|w| - 1] && Walk(names, deps, w) {
      assert StepOf(names, deps, w, 0);
      WalkFalls(names, deps, num, w, |w| - 1);
    }
  }

  /** Where every stage without number has to follow another one, there is a walk of any length... */
  lemma {:induction false} LongWalk(names: seq<string>, deps: seq<Dependency>, num: seq<int>, start: nat, n: nat) returns (w: seq<nat>)
    requires |num| == |names| && start < |num| && num[start] == -1
    requires AllStuck(names, deps, num)
    ensures |w| == n + 1 && w[0] == start && Walk(names, deps, w) && forall k :: 0 <= k < |w| ==> w[k] < |num|
    decreases n
  {
    if n == 0 {
      w := [start];
    } else {
      assert Stuck(names, deps, num, start);
      var j: nat :| j < |num| && num[j] == -1 && Follows(names, deps, start, j);
      var rest := LongWalk(names, deps, num, j, n - 1);
      w := [start] + rest;
      LongerWalk(names, deps, start, rest);
    }
  }

  lemma LongerWalk(names: seq<string>, deps: seq<Dependency>, start: nat, rest: seq<nat>)
    requires rest != [] && Walk(names, deps, rest) && Follows(names, deps, start, rest[0])
    ensures Walk(names, deps, [start] + rest)
  {
    var w := [start] + rest;
    forall k: nat | k < |w| - 1
      ensures StepOf(names, deps, w, k)
    {
      if k > 0 { assert StepOf(names, deps, rest, k - 1); }
    }
  }

  ghost predicate AllStuck(names: seq<string>, deps: seq<Dependency>, num: seq<int>) {
    forall i {:trigger Stuck(names, deps, num, i)} :: 0 <= i < |num| && num[i] == -1 ==> Stuck(names, deps, num, i)
  }

  ghost predicate Stuck(names: seq<string>, deps: seq<Dependency>, num: seq<int>, i: nat) {
    exists j: nat :: j < |num| && num[j] == -1 && Follows(names, deps, i, j)
  }

  /** ...and a walk longer than there are stages comes back to where it has been. */
  lemma StuckIsCyclic(names: seq<string>, deps: seq<Dependency>, num: seq<int>, start: nat)
    requires |num| == |names| && start < |num| && num[start] == -1
    requires AllStuck(names, deps, num)
    ensures Cyclic(names, deps)
  {
    var w := LongWalk(names, deps, num, start, |num|);
    var a, b := Repeat(w, |num|);
    var c := w[a..b + 1];
    forall k: nat | k < |c| - 1
      ensures StepOf(names, deps, c, k)
    {
      assert StepOf(names, deps, w, a + k);
    }
    assert c[0] == c[|c| - 1];
  }

  /** More than `n` numbers below `n` repeat one. */
  lemma {:induction false} Repeat(w: seq<nat>, n: nat) returns (a: nat, b: nat)
    requires |w| > n && forall k :: 0 <= k < |w| ==> w[k] < n
    ensures a < b < |w| && w[a] == w[b]
    decreases n
  {
    var last := |w| - 1;
    if c: nat :| c < last && w[c] == w[last] {
      a, b := c, last;
    } else {
      // without the last, and with n - 1 in its place, one number fewer is left
      var v := seq(last, k requires 0 <= k < last => if w[k] == n - 1 then w[last] else w[k]);
      a, b := Repeat(v, n - 1);
    }
  }

  // ---- orders that stay ------------------------------------------------------------------------------

  lemma {:induction false} IndexAppend(names: seq<string>, more: string, name: string)
    ensures name in names ==> Index(names + [more], name) == Index(names, name)
    ensures name !in names && name == more ==> Index(names + [more], name) == |names|
  {
    if names != [] {
      assert (names + [more])[1..] == names[1..] + [more];
      IndexAppend(names[1..], more, name);
    }
  }

  /** A new stage that only has to follow others leaves an order in order. */
  lemma InOrderGrows(names: seq<string>, deps: seq<Dependency>, more: string, added: seq<Dependency>)
    requires InOrder(names, deps) && more !in names
    requires forall d :: d in added ==> d.source == more && d.target in names
    ensures InOrder(names + [more], deps + added)
  {
    forall d | d in deps + added
      ensures d.source in names + [more] && d.target in names + [more]
      ensures Index(names + [more], d.target) < Index(names + [more], d.source)
    {
      IndexAppend(names, more, d.source);
      IndexAppend(names, more, d.target);
    }
  }

  lemma InOrderFollows(names: seq<string>, deps: seq<Dependency>)
    requires InOrder(names, deps)
    ensures forall i: nat, j: nat :: Follows(names, deps, i, j) ==> j < i
  {
  }
}
