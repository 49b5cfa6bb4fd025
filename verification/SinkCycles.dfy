/** `sinkCycles` (scripts/package-graph.ts:94-150): Tarjan's search over the remaining
    packages, keeping the components that are cyclic and depend on nothing else. */
module SinkCycles {
  import opened PackageGraph
  import opened Numbers
  import opened Components
  import opened Sorting

  /** The packages of `s` are the ones `g` files under their names. */
  ghost predicate Held(g: Graph, s: seq<Package>) {
    forall i | 0 <= i < |s| :: s[i].short in g && g[s[i].short] == s[i]
  }

  lemma DistinctAppend<T>(s: seq<T>, x: T)
    ensures Distinct(s + [x]) <==> Distinct(s) && x !in s
  {
    if Distinct(s + [x]) {
      forall i | 0 <= i < |s| ensures s[i] != x { assert (s + [x])[i] != (s + [x])[|s|]; }
      forall i, j | 0 <= i < j < |s| ensures s[i] != s[j] { assert (s + [x])[i] != (s + [x])[j]; }
    }
  }

  class Search {
    const remaining: Graph
    var nextIndex: nat
    var indices: map<string, nat>
    var lowLinks: map<string, nat>
    var stack: seq<Package>
    var stacked: set<string>
    var components: seq<seq<Package>>
    ghost var env: Env

    /** The ghost snapshot describes the fields, and every package is the one filed under its name. */
    ghost predicate Linkage()
      reads this
    {
      && Keyed(remaining) && Held(remaining, stack)
      && env.num == indices && env.next == nextIndex && env.stack == Names(stack) && env.comps == NameSets(components)
      && stacked == Elems(Names(stack)) && lowLinks.Keys == indices.Keys
      && (forall k | 0 <= k < |components| :: Held(remaining, components[k]) && Distinct(Names(components[k])))
    }

    ghost predicate Valid()
      reads this
    {
      Linkage() && WellFormed(remaining, env)
    }

    constructor (g: Graph)
      requires Keyed(g)
      ensures Valid() && remaining == g && env == Env(map[], 0, [], {}, [])
    {
      remaining := g;
      nextIndex, indices, lowLinks, stack, stacked, components := 0, map[], map[], [], {}, [];
      env := Env(map[], 0, [], {}, []);
    }

    /** Discover `pkg`: number it and push it (lines 103-108). */
    method Enter(pkg: Package)
      requires Valid() && pkg.short in remaining && remaining[pkg.short] == pkg && pkg.short !in indices
      requires forall i | 0 <= i < |env.stack| :: Reach(remaining, env.stack[i], pkg.short)
      modifies this
      ensures Valid() && env == Push(old(env), pkg.short) && TopVisit(env, |old(env).stack|, pkg.short)
      ensures lowLinks == old(lowLinks)[pkg.short := old(nextIndex)]
    {
      PushKeeps(remaining, env, pkg.short);
      NamesAppend(stack, pkg);
      hide WellFormed, TopVisit, Names, Elems;
      var index := nextIndex;
      nextIndex := nextIndex + 1;
      indices := indices[pkg.short := index];
      lowLinks := lowLinks[pkg.short := index];
      stack := stack + [pkg];
      stacked := stacked + {pkg.short};
      env := Push(env, pkg.short);
    }

    /** Pop one package. The search never pops an empty stack, so the throw beside each pop is dead. */
    method PopOne() returns (member: Package)
      requires Held(remaining, stack) && stacked == Elems(Names(stack)) && Distinct(Names(stack)) && stack != []
      modifies this`stack, this`stacked
      ensures Held(remaining, stack) && stacked == Elems(Names(stack)) && Distinct(Names(stack))
      ensures old(stack) == stack + [member]
    {
      var top := |stack| - 1;
      member := stack[top];
      var names, left := Names(stack), Names(stack[..top]);
      assert names == left + [member.short];
      DistinctAppend(left, member.short);
      assert Elems(left) == Elems(names) - {member.short};
      stack := stack[..top];
      stacked := stacked - {member.short};
    }

    /** Pop the stack down to and including `pkg` (lines 120-132). */
    method Pop(pkg: Package, ghost base: nat) returns (component: seq<Package>)
      requires Held(remaining, stack) && stacked == Elems(Names(stack)) && Distinct(Names(stack)) && base < |stack| &&
                stack[base] == pkg
      modifies this`stack, this`stacked
      ensures Held(remaining, stack) && stacked == Elems(Names(stack)) && stack == old(stack)[..base]
      ensures component == Backwards(old(stack)[base..])
    {
      var first := PopOne();
      component := [first];
      var member := first;
      while member != pkg
        invariant Held(remaining, stack) && stacked == Elems(Names(stack)) && Distinct(Names(stack))
        invariant base <= |stack| < |old(stack)| && stack == old(stack)[..|stack|]
        invariant member == old(stack)[|stack|]
        invariant |component| == |old(stack)| - |stack|
        invariant forall k | 0 <= k < |component| :: component[k] == old(stack)[|old(stack)| - 1 - k]
        decreases |stack|
      {
        var next := PopOne();
        component := component + [next];
        member := next;
      }
      assert Names(old(stack))[|stack|] == Names(old(stack))[base];
    }

    /** Visit `pkg` and everything below it (lines 102-133). Either its component was closed and the
        stack is as before, or it stays on the stack with everything it pushed, reaching the lower
        entry its low link names. */
    method Visit(pkg: Package)
      requires Valid() && pkg.short in remaining && remaining[pkg.short] == pkg && pkg.short !in indices
      requires forall i | 0 <= i < |env.stack| :: Reach(remaining, env.stack[i], pkg.short)
      modifies this
      ensures Valid() && pkg.short in lowLinks
      ensures forall k | k in old(lowLinks) :: k in lowLinks && lowLinks[k] == old(lowLinks)[k]
      ensures Visited(remaining, old(env), env, pkg.short, lowLinks[pkg.short])
      decreases remaining.Keys - env.num.Keys, 0
    {
      ghost var base, e := |stack|, env;
      var v := pkg.short;
      Enter(pkg);
      ScanStart(remaining, e, v);
      assert pkg.deps[..0] == [];
      hide WellFormed, Scanning, Visited, Grown;
      for i := 0 to |pkg.deps|
        invariant Valid()
        invariant forall k | k in old(lowLinks) :: k in lowLinks && lowLinks[k] == old(lowLinks)[k]
        invariant Grown(Push(e, v), env)
        invariant v in lowLinks && Scanning(remaining, env, base, v, lowLinks[v], pkg.deps[..i])
      {
        ghost var f := env;
        assert pkg.deps[..i + 1] == pkg.deps[..i] + [pkg.deps[i]];
        Follow(v, pkg.deps[i], base, pkg.deps[..i]);
        GrownTrans(Push(e, v), f, env);
      }
      assert pkg.deps[..|pkg.deps|] == pkg.deps;
      Finish(pkg, base, e);
    }

    /** Scan one dependency of `v` (lines 109-118). */
    method Follow(v: string, dependency: string, ghost base: nat, ghost seen: seq<string>)
      requires Valid() && v in lowLinks && Scanning(remaining, env, base, v, lowLinks[v], seen)
      requires v in remaining && dependency in remaining[v].deps
      modifies this
      ensures Valid() && v in lowLinks
      ensures forall k | k in old(lowLinks) && k != v :: k in lowLinks && lowLinks[k] == old(lowLinks)[k]
      ensures Grown(old(env), env)
      ensures Scanning(remaining, env, base, v, lowLinks[v], seen + [dependency])
      decreases remaining.Keys - env.num.Keys, 1
    {
      hide WellFormed, Scanning, Visited;
      ghost var f, low := env, lowLinks[v];
      if dependency !in remaining {
        ScanPast(remaining, f, base, v, low, seen, dependency);
        return;
      }
      var target := remaining[dependency];
      if target.short !in indices {
        ReachesNext(remaining, f, base, v, low, seen, target.short);
        Visit(target);
        ScanVisited(remaining, f, env, base, v, low, lowLinks[target.short], seen, dependency);
        lowLinks := lowLinks[v := Min(lowLinks[v], lowLinks[target.short])];
      } else if target.short in stacked {
        ScanStacked(remaining, f, base, v, low, seen, dependency);
        lowLinks := lowLinks[v := Min(lowLinks[v], indices[target.short])];
      } else {
        ScanPast(remaining, f, base, v, low, seen, dependency);
      }
    }

    /** Close the component of `pkg`, or leave it to a lower one (lines 119-133). */
    method Finish(pkg: Package, ghost base: nat, ghost e: Env)
      requires Valid() && pkg.short in lowLinks
      requires WellFormed(remaining, e) && pkg.short !in e.num && |e.stack| == base && Grown(Push(e, pkg.short), env)
      requires pkg.short in remaining && remaining[pkg.short] == pkg
      requires Scanning(remaining, env, base, pkg.short, lowLinks[pkg.short], pkg.deps)
      modifies this
      ensures Valid() && lowLinks == old(lowLinks)
      ensures Visited(remaining, e, env, pkg.short, lowLinks[pkg.short])
    {
      FinishReady(remaining, env, base, pkg.short, lowLinks[pkg.short], pkg.deps);
      hide WellFormed, Scanning, Visited, Grown, Names, NameSet, NameSets, Elems;
      if lowLinks[pkg.short] != indices[pkg.short] {
        ScanRetire(remaining, e, env, base, pkg.short, lowLinks[pkg.short]);
        env := env.(active := env.active - {pkg.short});
        return;
      }
      ScanClose(remaining, e, env, base, pkg.short);
      NamesTake(stack, base);
      HeldAt(remaining, stack, base);
      ReversedTop(remaining, stack, base);
      NameSetsAppend(components, Backwards(stack[base..]));
      var component := Pop(pkg, base);
      components := components + [component];
      env := Close(env, base);
    }
  }

  lemma NamesTake(s: seq<Package>, base: nat)
    requires base <= |s|
    ensures |Names(s)| == |s| && Names(s[..base]) == Names(s)[..base]
  { }

  lemma NamesAppend(s: seq<Package>, p: Package)
    ensures |Names(s)| == |s| && Names(s + [p]) == Names(s) + [p.short]
    ensures Elems(Names(s + [p])) == Elems(Names(s)) + {p.short}
  {
    assert Names(s + [p]) == Names(s) + [p.short];
  }

  lemma NameSetsAppend(cs: seq<seq<Package>>, c: seq<Package>)
    ensures NameSets(cs + [c]) == NameSets(cs) + [NameSet(c)]
  { }

  lemma HeldAt(g: Graph, s: seq<Package>, i: nat)
    requires Held(g, s) && i < |s|
    ensures |Names(s)| == |s| && Names(s)[i] in g && g[Names(s)[i]] == s[i]
  { }

  lemma FinishReady(g: Graph, e: Env, base: nat, v: string, low: nat, seen: seq<string>)
    requires WellFormed(g, e) && Scanning(g, e, base, v, low, seen)
    ensures base < |e.stack| && e.stack[base] == v && v in e.num && Distinct(e.stack)
  { }

  function Backwards<T>(s: seq<T>): (r: seq<T>) {
    seq(|s|, k requires 0 <= k < |s| => s[|s| - 1 - k])
  }

  /** Popping collects the names of the stack from `base` up, each once. */
  lemma ReversedTop(g: Graph, s: seq<Package>, base: nat)
    requires base <= |s| && Held(g, s) && Distinct(Names(s))
    ensures var c := Backwards(s[base..]); NameSet(c) == Elems(Names(s)[base..]) && Distinct(Names(c)) && Held(g, c)
  {
    var c := Backwards(s[base..]);
    forall x ensures x in Names(c) <==> x in Names(s)[base..] {
      if x in Names(c) {
        var k :| 0 <= k < |c| && Names(c)[k] == x;
        assert Names(s)[base..][|c| - 1 - k] == x;
      }
      if x in Names(s)[base..] {
        var k :| 0 <= k < |c| && Names(s)[base..][k] == x;
        assert Names(c)[|c| - 1 - k] == x;
      }
    }
    forall i, j | 0 <= i < j < |c| ensures Names(c)[i] != Names(c)[j] {
      assert Names(s)[|s| - 1 - j] != Names(s)[|s| - 1 - i];
    }
  }

  // ----- The filter (lines 138-143) -----

  ghost predicate Apart(c: seq<Package>, d: seq<Package>) { NameSet(c) !! NameSet(d) }

  /** `c` lists the packages of a component of `g`, each once. */
  ghost predicate ListsComponent(g: Graph, c: seq<Package>) {
    Held(g, c) && Distinct(Names(c)) && IsComponent(g, NameSet(c))
  }

  /** `c` lists the packages of a sink cycle of `g`, each once. */
  ghost predicate ListsSinkCycle(g: Graph, c: seq<Package>) {
    Held(g, c) && Distinct(Names(c)) && IsSinkCycle(g, NameSet(c))
  }

  /** The source's test on a collected component: it holds a cycle and depends on nothing else that remains. */
  predicate Sinks(g: Graph, component: seq<Package>) {
    && component != []
    && (|component| > 1 || component[0].short in component[0].deps)
    && forall i | 0 <= i < |component| ::
         forall d | d in component[i].deps :: d in g ==> d in NameSet(component)
  }

  lemma SinksExactly(g: Graph, component: seq<Package>)
    requires Keyed(g) && ListsComponent(g, component)
    ensures Sinks(g, component) <==> ListsSinkCycle(g, component)
  {
    var c := NameSet(component);
    forall i | 0 <= i < |component| ensures Names(component)[i] == component[i].short && component[i].short in c { }
    var first := component[0].short;
    if Sinks(g, component) {
      forall a, b | a in c && Edge(g, a, b) ensures b in c {
        var i :| 0 <= i < |component| && Names(component)[i] == a;
      }
      if |component| > 1 {
        var second := component[1].short;
        assert Names(component)[0] != Names(component)[1];
        assert Reach(g, first, second);
        var x, y := ReachLeaves(g, {first}, first, second);
        assert Edge(g, first, y);
      } else {
        assert Edge(g, first, first);
      }
    }
    if IsSinkCycle(g, c) {
      forall i, d | 0 <= i < |component| && d in component[i].deps && d in g ensures d in c {
        assert Edge(g, component[i].short, d);
      }
      if |component| == 1 {
        var a, b :| a in c && b in c && Edge(g, a, b);
        assert c == {first};
      }
    }
  }

  /** What the caller gets: every sink cycle of `g`, once each, with its own packages. */
  ghost predicate AllSinkCycles(g: Graph, cycles: seq<seq<Package>>) {
    && (forall i | 0 <= i < |cycles| :: ListsSinkCycle(g, cycles[i]))
    && (forall i, j | 0 <= i < j < |cycles| :: Apart(cycles[i], cycles[j]))
    && (forall c | IsSinkCycle(g, c) :: exists i :: 0 <= i < |cycles| && NameSet(cycles[i]) == c)
  }

  ghost predicate Listed(components: seq<seq<Package>>, x: string) {
    exists i :: 0 <= i < |components| && x in NameSet(components[i])
  }

  /** Every strongly connected component of `g`, once each, with its own packages. */
  ghost predicate AllComponents(g: Graph, components: seq<seq<Package>>) {
    && (forall i | 0 <= i < |components| :: ListsComponent(g, components[i]))
    && (forall i, j | 0 <= i < j < |components| :: Apart(components[i], components[j]))
    && (forall x | x in g :: Listed(components, x))
  }

  /** Visit every package not yet discovered (lines 135-137). */
  method FindComponents(order: seq<Package>, g: Graph) returns (components: seq<seq<Package>>)
    requires Keyed(g) && Held(g, order)
    requires forall n | n in g :: g[n] in order
    ensures AllComponents(g, components)
  {
    var search := new Search(g);
    for i := 0 to |order|
      invariant fresh(search) && search.Valid() && search.remaining == g && search.env.active == {}
      invariant forall k | 0 <= k < i :: order[k].short in search.env.num
    {
      IdleStack(g, search.env);
      if order[i].short !in search.indices {
        search.Visit(order[i]);
      }
    }
    CollectedAll(g, search.env, search.components);
    components := search.components;
  }

  /** With no visit running, nothing is left on the stack. */
  lemma IdleStack(g: Graph, e: Env)
    requires WellFormed(g, e) && e.active == {}
    ensures e.stack == []
  {
    assert e.stack != [] ==> HasAnchor(g, e, 0);
  }

  lemma CollectedAll(g: Graph, e: Env, components: seq<seq<Package>>)
    requires WellFormed(g, e) && e.active == {} && g.Keys <= e.num.Keys && e.comps == NameSets(components)
    requires forall k | 0 <= k < |components| :: Held(g, components[k]) && Distinct(Names(components[k]))
    ensures AllComponents(g, components)
  {
    hide IsComponent, Anchored, Linked, NoEscape;
    IdleStack(g, e);
    forall i | 0 <= i < |components| ensures e.comps[i] == NameSet(components[i]) { }
    forall x | x in g ensures Listed(components, x) {
      assert Finished(e.comps, x);
      var k :| 0 <= k < |e.comps| && x in e.comps[k];
      assert x in NameSet(components[k]);
    }
  }

  function Filter<T(!new)>(s: seq<T>, keep: T -> bool): seq<T> {
    if s == [] then [] else (if keep(s[0]) then [s[0]] else []) + Filter(s[1..], keep)
  }

  lemma {:induction false} FilterMembers<T(!new)>(s: seq<T>, keep: T -> bool)
    ensures forall x :: x in Filter(s, keep) <==> x in s && keep(x)
  {
    if s != [] {
      FilterMembers(s[1..], keep);
      forall x ensures x in s <==> x == s[0] || x in s[1..] { assert s == [s[0]] + s[1..]; }
    }
  }

  lemma {:induction false} FilterApart(s: seq<seq<Package>>, keep: seq<Package> -> bool)
    requires forall i, j | 0 <= i < j < |s| :: Apart(s[i], s[j])
    ensures forall i, j | 0 <= i < j < |Filter(s, keep)| :: Apart(Filter(s, keep)[i], Filter(s, keep)[j])
  {
    hide Apart;
    if s != [] {
      var rest := Filter(s[1..], keep);
      forall i, j | 0 <= i < j < |s| - 1 ensures Apart(s[1..][i], s[1..][j]) { }
      FilterApart(s[1..], keep);
      FilterMembers(s[1..], keep);
      forall j | 0 <= j < |rest| ensures Apart(s[0], rest[j]) {
        assert rest[j] in s[1..];
      }
    }
  }

  /** Find the sink cycles of the packages in `order`, whichever order they are visited in. */
  method FindSinkCycles(order: seq<Package>, g: Graph) returns (cycles: seq<seq<Package>>)
    requires Keyed(g) && Held(g, order)
    requires forall n | n in g :: g[n] in order
    ensures AllSinkCycles(g, cycles)
  {
    hide Sinks, AllSinkCycles, AllComponents;
    var components := FindComponents(order, g);
    cycles := Filter(components, c => Sinks(g, c));
    FilterSinks(g, components, c => Sinks(g, c));
  }

  lemma FilterSinks(g: Graph, components: seq<seq<Package>>, keep: seq<Package> -> bool)
    requires Keyed(g) && AllComponents(g, components) && forall c :: keep(c) == Sinks(g, c)
    ensures AllSinkCycles(g, Filter(components, keep))
  {
    hide Sinks, Apart, IsSinkCycle, ListsSinkCycle, ListsComponent;
    var cycles := Filter(components, keep);
    FilterMembers(components, keep);
    FilterApart(components, keep);
    forall i | 0 <= i < |cycles| ensures ListsSinkCycle(g, cycles[i]) {
      assert cycles[i] in components;
      SinksExactly(g, cycles[i]);
    }
    forall c | IsSinkCycle(g, c) ensures exists i :: 0 <= i < |cycles| && NameSet(cycles[i]) == c {
      var k := ListedSinkCycle(g, components, c);
      SinksExactly(g, components[k]);
      assert components[k] in cycles;
    }
  }

  lemma ListedSinkCycle(g: Graph, components: seq<seq<Package>>, c: set<string>) returns (k: nat)
    requires AllComponents(g, components) && IsSinkCycle(g, c)
    ensures k < |components| && NameSet(components[k]) == c && ListsSinkCycle(g, components[k])
  {
    hide IsComponent, Apart, Held, Distinct;
    var x := SomeMember(g, c);
    assert Listed(components, x);
    k :| 0 <= k < |components| && x in NameSet(components[k]);
    assert ListsComponent(g, components[k]);
    ComponentsAgree(g, c, NameSet(components[k]), x);
  }

  lemma SomeMember(g: Graph, c: set<string>) returns (x: string)
    requires IsSinkCycle(g, c)
    ensures x in c && x in g && IsComponent(g, c)
  {
    x :| x in c;
  }
}
