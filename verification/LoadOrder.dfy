/**
  The load order of the Python bindings: libraries are loaded in rounds, each round taking every pending
  library whose dependencies are all loaded.  The lists of pending and loaded libraries and the table of
  rounds are updated in place through the recursion.
*/
module LoadOrder {
  import opened Sequences

  type Lib = string

  /** For each library the libraries it is linked against. */
  type Deps = map<Lib, seq<Lib>>

  // ---------- The dependency graph ----------

  ghost predicate Closed(d: Deps) {
    forall m, x | m in d && x in d[m] :: x in d
  }

  /** `p` walks along dependencies. */
  ghost predicate IsChain(d: Deps, p: seq<Lib>) {
    && (forall i | 0 <= i < |p| :: p[i] in d)
    && (forall i | 0 <= i < |p| - 1 :: p[i + 1] in d[p[i]])
  }

  ghost predicate IsCycle(d: Deps, p: seq<Lib>) {
    p != [] && IsChain(d, p) && p[0] in d[p[|p| - 1]]
  }

  ghost predicate Acyclic(d: Deps) {
    forall p :: !IsCycle(d, p)
  }

  /** A chain of `k` dependencies starts at `m`. */
  ghost predicate HasChain(d: Deps, m: Lib, k: nat)
    decreases k
  {
    m in d && (k > 0 ==> exists x :: x in d[m] && HasChain(d, x, k - 1))
  }

  ghost predicate ChainFrom(d: Deps, m: Lib, k: nat, p: seq<Lib>) {
    |p| == k + 1 && p[0] == m && IsChain(d, p)
  }

  lemma {:induction false} HasChainIsPath(d: Deps, m: Lib, k: nat)
    ensures HasChain(d, m, k) <==> exists p :: ChainFrom(d, m, k, p)
    decreases k
  {
    if HasChain(d, m, k) {
      if k == 0 {
        assert ChainFrom(d, m, 0, [m]);
      } else {
        var x :| x in d[m] && HasChain(d, x, k - 1);
        HasChainIsPath(d, x, k - 1);
        var q :| ChainFrom(d, x, k - 1, q);
        assert ChainFrom(d, m, k, [m] + q);
      }
    }
    if p :| ChainFrom(d, m, k, p) {
      if k > 0 {
        HasChainIsPath(d, p[1], k - 1);
        assert ChainFrom(d, p[1], k - 1, p[1..]);
      }
    }
  }

  /** A chain can be cut short. */
  lemma {:induction false} ShorterChain(d: Deps, m: Lib, k: nat, j: nat)
    requires HasChain(d, m, k) && j <= k
    ensures HasChain(d, m, j)
    decreases k
  {
    if j > 0 {
      var x :| x in d[m] && HasChain(d, x, k - 1);
      ShorterChain(d, x, k - 1, j - 1);
    }
  }

  /** More entries than values: two entries agree. */
  lemma {:induction false} Pigeonhole(p: seq<Lib>, values: set<Lib>)
    requires |p| > |values| && forall i | 0 <= i < |p| :: p[i] in values
    ensures exists i, j :: 0 <= i < j < |p| && p[i] == p[j]
    decreases |p|
  {
    var last := p[|p| - 1];
    if i :| 0 <= i < |p| - 1 && p[i] == last {
    } else {
      Pigeonhole(p[..|p| - 1], values - {last});
      var i, j :| 0 <= i < j < |p| - 1 && p[..|p| - 1][i] == p[..|p| - 1][j];
      assert p[i] == p[j];
    }
  }

  ghost predicate WaitsFor(d: Deps, m: Lib, others: set<Lib>)
    requires m in d
  {
    exists x :: x in d[m] && x in others
  }

  lemma {:induction false} GrowChain(d: Deps, stuck: set<Lib>, start: Lib, n: nat) returns (p: seq<Lib>)
    requires stuck <= d.Keys && start in stuck
    requires forall m {:trigger WaitsFor(d, m, stuck)} | m in stuck :: WaitsFor(d, m, stuck)
    ensures |p| == n + 1 && IsChain(d, p) && forall i | 0 <= i < |p| :: p[i] in stuck
  {
    if n == 0 {
      p := [start];
    } else {
      var q := GrowChain(d, stuck, start, n - 1);
      assert WaitsFor(d, q[n - 1], stuck);
      var x :| x in d[q[n - 1]] && x in stuck;
      p := q + [x];
    }
  }

  /** A non-empty set of libraries that all wait for one another contains a dependency cycle. */
  lemma StuckMeansCycle(d: Deps, stuck: set<Lib>) returns (cycle: seq<Lib>)
    requires stuck <= d.Keys && stuck != {}
    requires forall m {:trigger WaitsFor(d, m, stuck)} | m in stuck :: WaitsFor(d, m, stuck)
    ensures IsCycle(d, cycle) && forall i | 0 <= i < |cycle| :: cycle[i] in stuck
  {
    var start :| start in stuck;
    var p := GrowChain(d, stuck, start, |stuck|);
    Pigeonhole(p, stuck);
    var i, j :| 0 <= i < j < |p| && p[i] == p[j];
    cycle := p[i..j];
    assert p[j - 1 + 1] in d[p[j - 1]];
  }

  // ---------- One round ----------

  predicate Loadable(d: Deps, m: Lib, current: seq<Lib>)
    requires m in d
  {
    forall x | x in d[m] :: x in current
  }

  function Ready(d: Deps, pending: seq<Lib>, current: seq<Lib>): seq<Lib>
    requires forall m | m in pending :: m in d
  {
    if pending == [] then []
    else (if Loadable(d, pending[0], current) then [pending[0]] else []) + Ready(d, pending[1..], current)
  }

  function Waiting(d: Deps, pending: seq<Lib>, current: seq<Lib>): seq<Lib>
    requires forall m | m in pending :: m in d
  {
    if pending == [] then []
    else (if Loadable(d, pending[0], current) then [] else [pending[0]]) + Waiting(d, pending[1..], current)
  }

  lemma {:induction false} ReadyOrWaiting(d: Deps, pending: seq<Lib>, current: seq<Lib>)
    requires forall m | m in pending :: m in d
    ensures multiset(Ready(d, pending, current)) + multiset(Waiting(d, pending, current)) == multiset(pending)
    ensures forall m :: m in Ready(d, pending, current) <==> m in pending && Loadable(d, m, current)
    ensures forall m :: m in Waiting(d, pending, current) <==> m in pending && !Loadable(d, m, current)
  {
    if pending != [] {
      assert pending == [pending[0]] + pending[1..];
      ReadyOrWaiting(d, pending[1..], current);
    }
  }

  /** Both keep the order of the pending libraries. */
  lemma {:induction false} ReadyAndWaitingInOrder(d: Deps, pending: seq<Lib>, current: seq<Lib>)
    requires forall m | m in pending :: m in d
    ensures Subsequence(Ready(d, pending, current), pending) && Subsequence(Waiting(d, pending, current), pending)
  {
    if pending != [] {
      ReadyAndWaitingInOrder(d, pending[1..], current);
      WithEmpty(Ready(d, pending[1..], current));
      WithEmpty(Waiting(d, pending[1..], current));
    }
  }

  lemma ReadyNext(d: Deps, pending: seq<Lib>, current: seq<Lib>, i: nat)
    requires i < |pending| && forall m | m in pending :: m in d
    ensures Ready(d, pending[i..], current)
         == (if Loadable(d, pending[i], current) then [pending[i]] else []) + Ready(d, pending[i + 1..], current)
  {
    assert pending[i..][1..] == pending[i + 1..];
  }

  /** `modules_that_can_be_loaded`: two nested loops with a flag. */
  method ModulesThatCanBeLoaded(d: Deps, pending: seq<Lib>, current: seq<Lib>) returns (modules: seq<Lib>)
    requires forall m | m in pending :: m in d
    ensures modules == Ready(d, pending, current)
  {
    modules := [];
    assert pending[0..] == pending;
    for i := 0 to |pending|
      invariant modules + Ready(d, pending[i..], current) == Ready(d, pending, current)
    {
      ReadyNext(d, pending, current, i);
      var canBeLoaded := true;
      var deps := d[pending[i]];
      for k := 0 to |deps|
        invariant canBeLoaded && forall j | 0 <= j < k :: deps[j] in current
      {
        if deps[k] !in current {
          canBeLoaded := false;
          break;
        }
      }
      assert canBeLoaded == Loadable(d, pending[i], current);
      WithEmpty(modules);
      WithEmpty(Ready(d, pending[i + 1..], current));
      if !canBeLoaded {
        continue;
      }
      Regroup(modules, [pending[i]], Ready(d, pending[i + 1..], current));
      modules := modules + [pending[i]];
    }
  }

  /** `list.remove`: the first occurrence goes. */
  function RemoveFirst(s: seq<Lib>, m: Lib): seq<Lib>
    requires m in s
  {
    if s[0] == m then s[1..] else [s[0]] + RemoveFirst(s[1..], m)
  }

  ghost predicate Removable(s: seq<Lib>, l: seq<Lib>)
    decreases |l|
  {
    l != [] ==> l[0] in s && Removable(RemoveFirst(s, l[0]), l[1..])
  }

  ghost function RemoveAll(s: seq<Lib>, l: seq<Lib>): seq<Lib>
    requires Removable(s, l)
    decreases |l|
  {
    if l == [] then s else RemoveAll(RemoveFirst(s, l[0]), l[1..])
  }

  lemma RemoveNext(s: seq<Lib>, l: seq<Lib>, i: nat)
    requires i < |l| && Removable(s, l[i..])
    ensures l[i] in s && Removable(RemoveFirst(s, l[i]), l[i + 1..])
    ensures RemoveAll(RemoveFirst(s, l[i]), l[i + 1..]) == RemoveAll(s, l[i..])
  {
    assert l[i..][1..] == l[i + 1..];
  }

  lemma {:induction false} RemoveAllSkips(x: Lib, s: seq<Lib>, l: seq<Lib>)
    requires x !in l && Removable(s, l)
    ensures Removable([x] + s, l) && RemoveAll([x] + s, l) == [x] + RemoveAll(s, l)
    decreases |l|
  {
    if l != [] {
      assert ([x] + s)[1..] == s;
      RemoveAllSkips(x, RemoveFirst(s, l[0]), l[1..]);
    }
  }

  lemma NotReady(d: Deps, pending: seq<Lib>, current: seq<Lib>, m: Lib)
    requires forall m | m in pending :: m in d
    requires m in d && !Loadable(d, m, current)
    ensures m !in Ready(d, pending, current)
  {
    ReadyOrWaiting(d, pending, current);
  }

  lemma RemovingHead(m: Lib, rest: seq<Lib>, l: seq<Lib>)
    requires Removable(rest, l)
    ensures Removable([m] + rest, [m] + l) && RemoveAll([m] + rest, [m] + l) == RemoveAll(rest, l)
  {
    assert ([m] + rest)[1..] == rest && ([m] + l)[1..] == l;
    assert RemoveFirst([m] + rest, m) == rest;
  }

  lemma HeadReadyOrWaiting(d: Deps, s: seq<Lib>, current: seq<Lib>)
    requires s != [] && forall m | m in s :: m in d
    ensures var ready, waiting := Ready(d, s[1..], current), Waiting(d, s[1..], current);
            if Loadable(d, s[0], current)
            then Ready(d, s, current) == [s[0]] + ready && Waiting(d, s, current) == waiting
            else Ready(d, s, current) == ready && Waiting(d, s, current) == [s[0]] + waiting
  {
    WithEmpty(Ready(d, s[1..], current));
    WithEmpty(Waiting(d, s[1..], current));
  }

  /** Removing what is ready, one by one, leaves what is waiting, in order. */
  lemma {:induction false} RemovingReady(d: Deps, s: seq<Lib>, current: seq<Lib>)
    requires forall m | m in s :: m in d
    ensures Removable(s, Ready(d, s, current))
    ensures RemoveAll(s, Ready(d, s, current)) == Waiting(d, s, current)
  {
    if s != [] {
      var m, rest := s[0], s[1..];
      assert s == [m] + rest;
      RemovingReady(d, rest, current);
      var ready, waiting := Ready(d, rest, current), Waiting(d, rest, current);
      HeadReadyOrWaiting(d, s, current);
      if Loadable(d, m, current) {
        RemovingHead(m, rest, ready);
      } else {
        NotReady(d, rest, current, m);
        RemoveAllSkips(m, rest, ready);
      }
    }
  }

  // ---------- What the rounds keep ----------

  function Flatten(steps: seq<seq<Lib>>): seq<Lib> {
    if steps == [] then [] else Flatten(steps[..|steps| - 1]) + steps[|steps| - 1]
  }

  ghost predicate DepsBefore(d: Deps, order: seq<Lib>, i: nat)
    requires i < |order|
  {
    order[i] in d ==> forall x | x in d[order[i]] :: x in order[..i]
  }

  /** Every library comes after all its dependencies. */
  ghost predicate DependenciesFirst(d: Deps, order: seq<Lib>) {
    forall i: nat | i < |order| :: DepsBefore(d, order, i)
  }

  /** The longest dependency chain from `m` has length `k`. */
  ghost predicate Depth(d: Deps, m: Lib, k: nat) {
    HasChain(d, m, k) && !HasChain(d, m, k + 1)
  }

  /** `keys` lists each library of the table once. */
  ghost predicate KeysOf(d: Deps, keys: seq<Lib>) {
    Distinct(keys) && forall m :: m in keys <==> m in d
  }

  ghost predicate Layered(d: Deps, steps: seq<seq<Lib>>) {
    forall k: nat, m | k < |steps| && m in steps[k] :: Depth(d, m, k)
  }

  ghost predicate Consistent(d: Deps, keys: seq<Lib>, pending: seq<Lib>, current: seq<Lib>, steps: seq<seq<Lib>>) {
    && KeysOf(d, keys)
    && multiset(current) + multiset(pending) == multiset(keys)
    && current == Flatten(steps)
    && DependenciesFirst(d, current)
    && Layered(d, steps)
    && (forall m | m in pending :: HasChain(d, m, |steps|))
  }

  lemma InEither(d: Deps, keys: seq<Lib>, pending: seq<Lib>, current: seq<Lib>)
    requires KeysOf(d, keys) && multiset(current) + multiset(pending) == multiset(keys)
    ensures forall m :: m in d <==> m in current || m in pending
    ensures forall m | m in pending :: m in d
  {
    forall m ensures m in keys <==> m in current || m in pending {
      assert m in keys <==> m in multiset(current) + multiset(pending);
    }
  }

  lemma {:induction false} InFlatten(steps: seq<seq<Lib>>, m: Lib)
    ensures m in Flatten(steps) <==> exists k :: 0 <= k < |steps| && m in steps[k]
  {
    if steps != [] {
      InFlatten(steps[..|steps| - 1], m);
      if k :| 0 <= k < |steps| && m in steps[k] {
        if k < |steps| - 1 { assert steps[..|steps| - 1][k] == steps[k]; }
      }
    }
  }

  /** A library with no dependency outside the loaded ones cannot start a chain longer than the rounds so far. */
  lemma LoadableIsShallow(d: Deps, m: Lib, current: seq<Lib>, steps: seq<seq<Lib>>)
    requires m in d && Loadable(d, m, current) && current == Flatten(steps) && Layered(d, steps)
    ensures !HasChain(d, m, |steps| + 1)
  {
    if HasChain(d, m, |steps| + 1) {
      var x :| x in d[m] && HasChain(d, x, |steps|);
      InFlatten(steps, x);
      var k :| 0 <= k < |steps| && x in steps[k];
      assert Depth(d, x, k);
      ShorterChain(d, x, |steps|, k + 1);
    }
  }

  lemma LayeredNext(d: Deps, pending: seq<Lib>, current: seq<Lib>, steps: seq<seq<Lib>>)
    requires (forall m | m in pending :: m in d && HasChain(d, m, |steps|))
    requires current == Flatten(steps) && Layered(d, steps)
    ensures Layered(d, steps + [Ready(d, pending, current)])
  {
    ReadyOrWaiting(d, pending, current);
    var ready := Ready(d, pending, current);
    forall m | m in ready ensures Depth(d, m, |steps|) {
      LoadableIsShallow(d, m, current, steps);
    }
  }

  lemma WaitingIsDeep(d: Deps, pending: seq<Lib>, current: seq<Lib>, n: nat, m: Lib)
    requires Closed(d) && (forall x | x in d :: x in current || x in pending)
    requires forall x | x in pending :: x in d && HasChain(d, x, n)
    requires m in d && !Loadable(d, m, current)
    ensures HasChain(d, m, n + 1)
  {
    var x :| x in d[m] && x !in current;
    assert HasChain(d, x, n);
  }

  lemma RoundKeeps(d: Deps, keys: seq<Lib>, pending: seq<Lib>, current: seq<Lib>, steps: seq<seq<Lib>>)
    requires Closed(d) && Consistent(d, keys, pending, current, steps)
    ensures forall m | m in pending :: m in d
    ensures var ready := Ready(d, pending, current);
            Consistent(d, keys, Waiting(d, pending, current), current + ready, steps + [ready])
  {
    InEither(d, keys, pending, current);
    ReadyOrWaiting(d, pending, current);
    var ready, waiting := Ready(d, pending, current), Waiting(d, pending, current);
    assert Flatten(steps + [ready]) == current + ready by { assert (steps + [ready])[..|steps|] == steps; }
    assert Layered(d, steps + [ready]) by { LayeredNext(d, pending, current, steps); }
    forall m | m in waiting ensures HasChain(d, m, |steps| + 1) {
      WaitingIsDeep(d, pending, current, |steps|, m);
    }
    assert DependenciesFirst(d, current + ready) by { ReadyKeepsOrder(d, current, ready); }
    assert multiset(current + ready) + multiset(waiting) == multiset(keys) by {
      assert multiset(current + ready) == multiset(current) + multiset(ready);
    }
  }

  /** The pending libraries and those of each round stand in the order of the table's keys. */
  ghost predicate InKeyOrder(keys: seq<Lib>, pending: seq<Lib>, steps: seq<seq<Lib>>) {
    Subsequence(pending, keys) && forall k | 0 <= k < |steps| :: Subsequence(steps[k], keys)
  }

  lemma RoundKeepsKeyOrder(d: Deps, keys: seq<Lib>, pending: seq<Lib>, current: seq<Lib>, steps: seq<seq<Lib>>)
    requires (forall m | m in pending :: m in d) && InKeyOrder(keys, pending, steps)
    ensures InKeyOrder(keys, Waiting(d, pending, current), steps + [Ready(d, pending, current)])
  {
    ReadyAndWaitingInOrder(d, pending, current);
    SubsequenceTransitive(Ready(d, pending, current), pending, keys);
    SubsequenceTransitive(Waiting(d, pending, current), pending, keys);
  }

  lemma ReadyKeepsOrder(d: Deps, current: seq<Lib>, ready: seq<Lib>)
    requires DependenciesFirst(d, current)
    requires forall m | m in ready :: m in d && Loadable(d, m, current)
    ensures DependenciesFirst(d, current + ready)
  {
    var all := current + ready;
    forall i: nat | i < |all| ensures DepsBefore(d, all, i) {
      if i < |current| {
        assert DepsBefore(d, current, i) && all[..i] == current[..i];
      } else {
        assert all[i] in ready && all[..i] == current + ready[..i - |current|];
      }
    }
  }

  lemma MissingIsPending(d: Deps, pending: seq<Lib>, current: seq<Lib>, m: Lib, stuck: set<Lib>)
    requires Closed(d) && m in d && !Loadable(d, m, current)
    requires forall x | x in d :: x in current || x in pending
    requires forall x | x in pending :: x in stuck
    ensures WaitsFor(d, m, stuck)
  {
    var x :| x in d[m] && x !in current;
    assert x in stuck;
  }

  /** Progress: a round that loads nothing while libraries are pending exhibits a dependency cycle. */
  lemma EmptyRoundMeansCycle(d: Deps, keys: seq<Lib>, pending: seq<Lib>, current: seq<Lib>) returns (cycle: seq<Lib>)
    requires Closed(d) && KeysOf(d, keys) && multiset(current) + multiset(pending) == multiset(keys)
    requires pending != [] && (forall m | m in pending :: m in d)
    requires Ready(d, pending, current) == []
    ensures IsCycle(d, cycle) && forall i | 0 <= i < |cycle| :: cycle[i] in pending
  {
    InEither(d, keys, pending, current);
    var stuck := set m | m in pending;
    assert pending[0] in stuck;
    AllWait(d, pending, current, stuck);
    cycle := StuckMeansCycle(d, stuck);
  }

  /** For closed acyclic tables every round loads something. */
  lemma RoundLoads(d: Deps, keys: seq<Lib>, pending: seq<Lib>, current: seq<Lib>)
    requires Closed(d) && Acyclic(d) && KeysOf(d, keys) && multiset(current) + multiset(pending) == multiset(keys)
    requires pending != [] && (forall m | m in pending :: m in d)
    ensures |Waiting(d, pending, current)| < |pending|
  {
    if Ready(d, pending, current) == [] {
      var cycle := EmptyRoundMeansCycle(d, keys, pending, current);
      assert false;
    }
    SplitLength(d, pending, current);
  }

  lemma {:induction false} SplitLength(d: Deps, pending: seq<Lib>, current: seq<Lib>)
    requires forall m | m in pending :: m in d
    ensures |Ready(d, pending, current)| + |Waiting(d, pending, current)| == |pending|
  {
    if pending != [] { SplitLength(d, pending[1..], current); }
  }

  lemma AllWait(d: Deps, pending: seq<Lib>, current: seq<Lib>, stuck: set<Lib>)
    requires Closed(d) && (forall x | x in d :: x in current || x in pending)
    requires (forall m | m in pending :: m in d) && Ready(d, pending, current) == []
    requires forall x :: x in pending <==> x in stuck
    ensures forall m {:trigger WaitsFor(d, m, stuck)} | m in stuck :: WaitsFor(d, m, stuck)
  {
    ReadyOrWaiting(d, pending, current);
    forall m {:trigger WaitsFor(d, m, stuck)} | m in stuck ensures WaitsFor(d, m, stuck) {
      assert m !in Ready(d, pending, current);
      MissingIsPending(d, pending, current, m, stuck);
    }
  }

  lemma TakeNext(ready: seq<Lib>, current0: seq<Lib>, steps0: seq<seq<Lib>>, i: nat)
    requires i < |ready|
    ensures ready[..i + 1] == ready[..i] + [ready[i]]
    ensures current0 + ready[..i] + [ready[i]] == current0 + ready[..i + 1]
    ensures (steps0 + [ready[..i]])[|steps0| := ready[..i] + [ready[i]]] == steps0 + [ready[..i + 1]]
  {
  }

  /** The lists that `dependency_order` updates through its recursion. */
  class Loader {
    const deps: Deps
    ghost const keys: seq<Lib>
    var pending: seq<Lib>
    var current: seq<Lib>
    var steps: seq<seq<Lib>>

    constructor (deps: Deps, keys: seq<Lib>)
      requires KeysOf(deps, keys)
      ensures this.deps == deps && this.keys == keys
      ensures pending == keys && current == [] && steps == []
      ensures Consistent(deps, keys, pending, current, steps)
    {
      this.deps, this.keys := deps, keys;
      pending, current, steps := keys, [], [];
    }

    /** The body of one call, before the recursive call. */
    method Round()
      requires forall m | m in pending :: m in deps
      modifies this
      ensures pending == old(Waiting(deps, pending, current))
      ensures current == old(current + Ready(deps, pending, current))
      ensures steps == old(steps + [Ready(deps, pending, current)])
    {
      ghost var current0 := current;
      ghost var waiting := Waiting(deps, pending, current);
      RemovingReady(deps, pending, current);
      var ready := ModulesThatCanBeLoaded(deps, pending, current);
      assert ready[0..] == ready;
      steps := steps + [[]];
      var n := |steps| - 1;
      for i := 0 to |ready|
        invariant Removable(pending, ready[i..]) && RemoveAll(pending, ready[i..]) == waiting
        invariant current == current0 + ready[..i]
        invariant steps == old(steps) + [ready[..i]]
      {
        var m := ready[i];
        RemoveNext(pending, ready, i);
        TakeNext(ready, current0, old(steps), i);
        steps := steps[n := steps[n] + [m]];
        pending := RemoveFirst(pending, m);
        current := current + [m];
      }
      assert ready[..|ready|] == ready;
    }

    /**
      `dependency_order`.  The recursion only ends for closed acyclic tables (see `TerminatesIff`); then
      each round loads something, so there are at most as many rounds as libraries.
    */
    method DependencyOrder()
      requires Closed(deps) && Acyclic(deps)
      requires Consistent(deps, keys, pending, current, steps) && InKeyOrder(keys, pending, steps)
      modifies this
      ensures pending == [] && Consistent(deps, keys, pending, current, steps) && InKeyOrder(keys, pending, steps)
      ensures |steps| <= old(|steps|) + old(|pending|)
      decreases |pending|
    {
      if |pending| == 0 {
        return;
      }
      InEither(deps, keys, pending, current);
      RoundKeeps(deps, keys, pending, current, steps);
      RoundLoads(deps, keys, pending, current);
      RoundKeepsKeyOrder(deps, keys, pending, current, steps);
      Round();
      DependencyOrder();
    }
  }

  /** `sort_to_dependencies` after the table has been built. */
  method SortToDependencies(deps: Deps, keys: seq<Lib>) returns (sorted: seq<Lib>, steps: seq<seq<Lib>>)
    requires KeysOf(deps, keys) && Closed(deps) && Acyclic(deps)
    ensures multiset(sorted) == multiset(keys)
    ensures DependenciesFirst(deps, sorted)
    ensures sorted == Flatten(steps) && |steps| <= |keys|
    ensures forall k: nat, m | k < |steps| :: m in steps[k] <==> m in deps && Depth(deps, m, k)
    ensures forall m | m in deps :: exists k: nat :: k < |steps| && Depth(deps, m, k)
    ensures forall k | 0 <= k < |steps| :: Subsequence(steps[k], keys)
  {
    SubsequenceSelf(keys);
    var loader := new Loader(deps, keys);
    loader.DependencyOrder();
    steps := loader.steps;
    sorted := [];
    for i := 0 to |steps|
      invariant sorted == Flatten(steps[..i])
    {
      assert steps[..i + 1][..i] == steps[..i];
      sorted := sorted + steps[i];
    }
    assert steps[..|steps|] == steps;
    StepsAreDepths(deps, keys, sorted, steps);
  }

  lemma StepsAreDepths(d: Deps, keys: seq<Lib>, current: seq<Lib>, steps: seq<seq<Lib>>)
    requires Consistent(d, keys, [], current, steps)
    ensures forall k: nat, m | k < |steps| :: m in steps[k] <==> m in d && Depth(d, m, k)
    ensures forall m | m in d :: exists k: nat :: k < |steps| && Depth(d, m, k)
  {
    InEither(d, keys, [], current);
    forall m | m in d ensures exists k: nat :: k < |steps| && m in steps[k] && Depth(d, m, k) {
      InFlatten(steps, m);
      var k: nat :| k < |steps| && m in steps[k];
      assert Depth(d, m, k);
    }
    forall k: nat, m | k < |steps| ensures m in steps[k] <==> m in d && Depth(d, m, k) {
      if m in steps[k] { InFlatten(steps, m); }
      if m in d && Depth(d, m, k) {
        var j: nat :| j < |steps| && m in steps[j] && Depth(d, m, j);
        DepthUnique(d, m, j, k);
      }
    }
  }

  lemma DepthUnique(d: Deps, m: Lib, j: nat, k: nat)
    requires Depth(d, m, j) && Depth(d, m, k)
    ensures j == k
  {
    if j < k { ShorterChain(d, m, k, j + 1); }
    if k < j { ShorterChain(d, m, j, k + 1); }
  }

  // ---------- When the recursion ends ----------

  datatype Lists = Lists(pending: seq<Lib>, current: seq<Lib>)

  ghost predicate Known(d: Deps, l: Lists) {
    forall m | m in l.pending :: m in d
  }

  ghost function NextRound(d: Deps, l: Lists): Lists
    requires Known(d, l)
    ensures Known(d, NextRound(d, l))
  {
    ReadyOrWaiting(d, l.pending, l.current);
    Lists(Waiting(d, l.pending, l.current), l.current + Ready(d, l.pending, l.current))
  }

  /** The lists after `n` more rounds, whatever the table. */
  ghost function AfterFrom(d: Deps, l: Lists, n: nat): Lists
    requires Known(d, l)
    decreases n
  {
    if n == 0 then l else AfterFrom(d, NextRound(d, l), n - 1)
  }

  ghost function After(d: Deps, keys: seq<Lib>, n: nat): Lists
    requires KeysOf(d, keys)
  {
    AfterFrom(d, Lists(keys, []), n)
  }

  ghost predicate Ordered(d: Deps, keys: seq<Lib>, l: Lists) {
    Known(d, l) && multiset(l.current) + multiset(l.pending) == multiset(keys) && DependenciesFirst(d, l.current)
  }

  lemma NextRoundKeeps(d: Deps, keys: seq<Lib>, l: Lists)
    requires Ordered(d, keys, l)
    ensures Ordered(d, keys, NextRound(d, l))
  {
    ReadyOrWaiting(d, l.pending, l.current);
    ReadyKeepsOrder(d, l.current, Ready(d, l.pending, l.current));
  }

  lemma StartOrdered(d: Deps, keys: seq<Lib>)
    requires KeysOf(d, keys)
    ensures Ordered(d, keys, Lists(keys, []))
  {
  }

  lemma {:induction false} AfterOrdered(d: Deps, keys: seq<Lib>, l: Lists, n: nat)
    requires Ordered(d, keys, l)
    ensures Ordered(d, keys, AfterFrom(d, l, n))
    decreases n
  {
    if n > 0 {
      NextRoundKeeps(d, keys, l);
      AfterOrdered(d, keys, NextRound(d, l), n - 1);
    }
  }

  ghost predicate Terminates(d: Deps, keys: seq<Lib>)
    requires KeysOf(d, keys)
  {
    exists n: nat :: After(d, keys, n).pending == []
  }

  /** The recursion ends exactly for the tables whose dependencies are all keys and free of cycles. */
  lemma TerminatesIff(d: Deps, keys: seq<Lib>)
    requires KeysOf(d, keys)
    ensures Terminates(d, keys) <==> Closed(d) && Acyclic(d)
  {
    if n: nat :| After(d, keys, n).pending == [] {
      StartOrdered(d, keys);
      AfterOrdered(d, keys, Lists(keys, []), n);
      LoadedMeansClosedAcyclic(d, keys, After(d, keys, n).current);
    }
    if Closed(d) && Acyclic(d) {
      StartOrdered(d, keys);
      RoundsShrink(d, keys, Lists(keys, []), |keys|);
      assert After(d, keys, |keys|).pending == [];
    }
  }

  lemma RoundShrinks(d: Deps, keys: seq<Lib>, l: Lists)
    requires Closed(d) && Acyclic(d) && KeysOf(d, keys) && Ordered(d, keys, l)
    ensures l.pending == [] ==> NextRound(d, l).pending == []
    ensures l.pending != [] ==> |NextRound(d, l).pending| < |l.pending|
  {
    if l.pending != [] { RoundLoads(d, keys, l.pending, l.current); }
  }

  lemma {:induction false} RoundsShrink(d: Deps, keys: seq<Lib>, l: Lists, n: nat)
    requires Closed(d) && Acyclic(d) && KeysOf(d, keys) && Ordered(d, keys, l)
    ensures AfterFrom(d, l, n).pending == [] || |AfterFrom(d, l, n).pending| + n <= |l.pending|
    decreases n
  {
    if n > 0 {
      RoundShrinks(d, keys, l);
      NextRoundKeeps(d, keys, l);
      RoundsShrink(d, keys, NextRound(d, l), n - 1);
    }
  }

  /** A complete list in dependency order leaves no room for a missing key or a cycle. */
  lemma LoadedMeansClosedAcyclic(d: Deps, keys: seq<Lib>, order: seq<Lib>)
    requires KeysOf(d, keys) && multiset(order) == multiset(keys) && DependenciesFirst(d, order)
    ensures Closed(d) && Acyclic(d)
  {
    forall m ensures m in d <==> m in order {
      assert m in keys <==> m in multiset(keys);
      assert m in order <==> m in multiset(order);
    }
    forall m, x | m in d && x in d[m] ensures x in d {
      var i: nat :| i < |order| && order[i] == m;
      assert DepsBefore(d, order, i);
    }
    forall p ensures !IsCycle(d, p) {
      if IsCycle(d, p) {
        var i :| 0 <= i < |order| && order[i] == p[0];
        NoCycleMember(d, order, p, i);
      }
    }
  }

  /** Infinite descent: a cycle member in the list would have an earlier one before it. */
  lemma {:induction false} NoCycleMember(d: Deps, order: seq<Lib>, p: seq<Lib>, i: nat)
    requires IsCycle(d, p) && DependenciesFirst(d, order) && i < |order|
    ensures order[i] !in p
    decreases i
  {
    if k :| 0 <= k < |p| && p[k] == order[i] {
      var x := if k + 1 < |p| then p[k + 1] else p[0];
      assert x in d[p[k]] && DepsBefore(d, order, i);
      var j :| 0 <= j < i && order[..i][j] == x;
      NoCycleMember(d, order, p, j);
    }
  }
}
