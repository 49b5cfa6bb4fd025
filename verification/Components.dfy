/** The depth-first search that collects strongly connected components
    (`sinkCycles`, scripts/package-graph.ts:94-144). */
module Components {
  import opened PackageGraph
  import opened Numbers

  function Elems<T>(s: seq<T>): set<T> { set x | x in s }

  function Names(s: seq<Package>): (names: seq<string>) {
    seq(|s|, i requires 0 <= i < |s| => s[i].short)
  }

  function NameSet(s: seq<Package>): set<string> { Elems(Names(s)) }

  ghost function NameSets(cs: seq<seq<Package>>): seq<set<string>> {
    seq(|cs|, i requires 0 <= i < |cs| => NameSet(cs[i]))
  }

  // ----- What the search keeps -----

  /** A snapshot of the search: discovery numbers, the stack, the packages whose visit is
      still running, and the components collected so far. */
  datatype Env = Env(num: map<string, nat>, next: nat, stack: seq<string>, active: set<string>, comps: seq<set<string>>)

  ghost predicate Numbered(g: Graph, e: Env) {
    && e.num.Keys <= g.Keys
    && (forall x | x in e.active :: x in e.stack)
    && (forall x | x in e.num :: e.num[x] < e.next)
    && (forall i | 0 <= i < |e.stack| :: e.stack[i] in e.num)
    && (forall i, j | 0 <= i < j < |e.stack| :: e.num[e.stack[i]] < e.num[e.stack[j]])
  }

  /** A finished package has no undiscovered dependency. */
  ghost predicate NoEscape(g: Graph, e: Env) {
    forall x, y {:trigger Edge(g, x, y)} | x in e.num && x !in e.active && Edge(g, x, y) :: y in e.num
  }

  /** Lower stack entries reach higher ones. */
  ghost predicate Linked(g: Graph, e: Env) {
    forall i, j {:trigger Reach(g, e.stack[i], e.stack[j])} | 0 <= i <= j < |e.stack| ::
        Reach(g, e.stack[i], e.stack[j])
  }

  ghost predicate AnchoredAt(g: Graph, e: Env, i: nat, k: nat) {
    k <= i < |e.stack| && e.stack[k] in e.active && Reach(g, e.stack[i], e.stack[k])
  }

  ghost predicate HasAnchor(g: Graph, e: Env, i: nat) {
    exists k: nat :: AnchoredAt(g, e, i, k)
  }

  /** Every stack entry reaches a running visit at or below it. */
  ghost predicate Anchored(g: Graph, e: Env) {
    forall i | 0 <= i < |e.stack| :: HasAnchor(g, e, i)
  }

  ghost predicate Finished(comps: seq<set<string>>, x: string) {
    exists k :: 0 <= k < |comps| && x in comps[k]
  }

  ghost predicate Disjoint(comps: seq<set<string>>) {
    forall k, l | 0 <= k < l < |comps| :: comps[k] !! comps[l]
  }

  /** Discovered packages are split between the stack and disjoint, complete components. */
  ghost predicate Collected(g: Graph, e: Env) {
    && (forall k | 0 <= k < |e.comps| :: IsComponent(g, e.comps[k]))
    && Disjoint(e.comps)
    && (forall x {:trigger Finished(e.comps, x)} :: Finished(e.comps, x) <==> x in e.num && x !in e.stack)
  }

  ghost predicate WellFormed(g: Graph, e: Env) {
    Numbered(g, e) && NoEscape(g, e) && Linked(g, e) && Anchored(g, e) && Collected(g, e)
  }

  /** `low` is no larger than the number of any entry below `base` that an entry from `top` up depends on. */
  ghost predicate LowBound(g: Graph, e: Env, top: nat, base: nat, low: nat) {
    forall i, j | 0 <= j < base && top <= i < |e.stack| && j < i && Edge(g, e.stack[i], e.stack[j]) &&
        e.stack[j] in e.num ::
      low <= e.num[e.stack[j]]
  }

  /** `v` is the topmost running visit and sits at stack position `base`. */
  ghost predicate TopVisit(e: Env, base: nat, v: string) {
    && base < |e.stack| && e.stack[base] == v && v in e.active
    && (forall i | base < i < |e.stack| :: e.stack[i] !in e.active)
  }

  function Push(e: Env, v: string): Env {
    Env(e.num[v := e.next], e.next + 1, e.stack + [v], e.active + {v}, e.comps)
  }

  lemma PushKeeps(g: Graph, e: Env, v: string)
    requires WellFormed(g, e) && v in g && v !in e.num
    requires forall i | 0 <= i < |e.stack| :: Reach(g, e.stack[i], v)
    ensures WellFormed(g, Push(e, v))
    ensures TopVisit(Push(e, v), |e.stack|, v)
  {
    var f := Push(e, v);
    ReachRefl(g, v);
    assert Numbered(g, f);
    forall i | 0 <= i < |f.stack| ensures HasAnchor(g, f, i) {
      if i < |e.stack| {
        assert HasAnchor(g, e, i);
        var k: nat :| AnchoredAt(g, e, i, k);
        assert AnchoredAt(g, f, i, k);
      } else {
        assert AnchoredAt(g, f, i, i);
      }
    }
    assert f.stack[|e.stack|] == v;
  }

  lemma ReachesTop(g: Graph, e: Env, base: nat, v: string, i: nat)
    requires WellFormed(g, e) && TopVisit(e, base, v) && i < |e.stack|
    ensures Reach(g, e.stack[i], v)
  {
    assert HasAnchor(g, e, i);
    var k: nat :| AnchoredAt(g, e, i, k);
    assert k <= base;
    ReachTrans(g, e.stack[i], e.stack[k], e.stack[base]);
  }

  lemma ReachesNext(g: Graph, e: Env, base: nat, v: string, low: nat, seen: seq<string>, d: string)
    requires WellFormed(g, e) && Scanning(g, e, base, v, low, seen) && Edge(g, v, d)
    ensures forall i | 0 <= i < |e.stack| :: Reach(g, e.stack[i], d)
  {
    ReachEdge(g, v, d);
    forall i | 0 <= i < |e.stack| ensures Reach(g, e.stack[i], d) {
      ReachesTop(g, e, base, v, i);
      ReachTrans(g, e.stack[i], v, d);
    }
  }

  /** Leaving a package on the stack once it is known to reach something lower. */
  lemma RetireKeeps(g: Graph, e: Env, base: nat, v: string, j: nat)
    requires WellFormed(g, e) && TopVisit(e, base, v)
    requires forall y | Edge(g, v, y) :: y in e.num
    requires j < base && Reach(g, v, e.stack[j])
    ensures WellFormed(g, e.(active := e.active - {v}))
  {
    var f := e.(active := e.active - {v});
    forall i | 0 <= i < |f.stack| ensures HasAnchor(g, f, i) {
      RetireAnchor(g, e, base, v, j, i);
    }
  }

  lemma RetireAnchor(g: Graph, e: Env, base: nat, v: string, j: nat, i: nat)
    requires Numbered(g, e) && Anchored(g, e) && TopVisit(e, base, v)
    requires j < base && Reach(g, v, e.stack[j]) && i < |e.stack|
    ensures HasAnchor(g, e.(active := e.active - {v}), i)
  {
    var f := e.(active := e.active - {v});
    assert HasAnchor(g, e, i);
    var k: nat :| AnchoredAt(g, e, i, k);
    if k == base {
      assert HasAnchor(g, e, j);
      var l: nat :| AnchoredAt(g, e, j, l);
      ReachTrans(g, e.stack[i], v, e.stack[j]);
      ReachTrans(g, e.stack[i], e.stack[j], e.stack[l]);
      assert AnchoredAt(g, f, i, l);
    } else {
      assert AnchoredAt(g, f, i, k);
    }
  }

  /** The stack from `base` up is one whole component when nothing there depends on anything lower. */
  lemma TopIsComponent(g: Graph, e: Env, base: nat, v: string)
    requires WellFormed(g, e) && TopVisit(e, base, v)
    requires forall y | Edge(g, v, y) :: y in e.num
    requires LowBound(g, e, base, base, e.num[v])
    ensures IsComponent(g, Elems(e.stack[base..]))
  {
    var c := Elems(e.stack[base..]);
    assert v == e.stack[base..][0] && v in c;
    forall a, b | a in c && b in c ensures Reach(g, a, b) {
      var i :| base <= i < |e.stack| && e.stack[i] == a;
      var j :| base <= j < |e.stack| && e.stack[j] == b;
      ReachesTop(g, e, base, v, i);
      ReachTrans(g, a, v, b);
    }
    forall a, b | a in c && Mutual(g, a, b) ensures b in c {
      if b !in c {
        var x, y := ReachLeaves(g, c, a, b);
        var i :| base <= i < |e.stack| && e.stack[i] == x;
        ReachTrans(g, y, b, a);
        ReachTrans(g, y, a, x);
        TopAbsorbs(g, e, base, v, i, y);
      }
    }
  }

  /** Packages that reach each other are finished together. */
  lemma FinishedTogether(g: Graph, e: Env, x: string, y: string)
    requires Collected(g, e) && x in e.num && x !in e.stack && Mutual(g, x, y)
    ensures y !in e.stack
  {
    assert Finished(e.comps, x);
    var k :| 0 <= k < |e.comps| && x in e.comps[k];
    assert y in e.comps[k];
    assert Finished(e.comps, y);
  }

  /** A cycle through the stack from `base` up never leaves it. */
  lemma TopAbsorbs(g: Graph, e: Env, base: nat, v: string, i: nat, y: string)
    requires WellFormed(g, e) && TopVisit(e, base, v)
    requires forall y | Edge(g, v, y) :: y in e.num
    requires LowBound(g, e, base, base, e.num[v])
    requires base <= i < |e.stack| && Edge(g, e.stack[i], y) && Reach(g, y, e.stack[i])
    ensures y in e.stack[base..]
  {
    assert y in e.num;
    if y !in e.stack {
      ReachEdge(g, e.stack[i], y);
      FinishedTogether(g, e, y, e.stack[i]);
      assert false;
    }
    var j :| 0 <= j < |e.stack| && e.stack[j] == y;
    if j >= base { assert e.stack[base..][j - base] == y; }
  }

  function Close(e: Env, base: nat): Env
    requires base < |e.stack|
  {
    Env(e.num, e.next, e.stack[..base], e.active - {e.stack[base]}, e.comps + [Elems(e.stack[base..])])
  }

  lemma CloseKeeps(g: Graph, e: Env, base: nat, v: string)
    requires WellFormed(g, e) && TopVisit(e, base, v)
    requires forall y | Edge(g, v, y) :: y in e.num
    requires LowBound(g, e, base, base, e.num[v])
    ensures WellFormed(g, Close(e, base))
  {
    var f := Close(e, base);
    TopIsComponent(g, e, base, v);
    forall i | 0 <= i < |f.stack| ensures HasAnchor(g, f, i) {
      assert HasAnchor(g, e, i);
      var k: nat :| AnchoredAt(g, e, i, k);
      assert AnchoredAt(g, f, i, k);
    }
    CloseNumbered(g, e, base, v);
    CloseCollected(g, e, base);
  }

  lemma CloseNumbered(g: Graph, e: Env, base: nat, v: string)
    requires Numbered(g, e) && TopVisit(e, base, v)
    ensures Numbered(g, Close(e, base))
  {
    var f := Close(e, base);
    forall x | x in f.active ensures x in f.stack {
      var i :| 0 <= i < |e.stack| && e.stack[i] == x;
      assert f.stack[i] == x;
    }
  }

  lemma CloseCollected(g: Graph, e: Env, base: nat)
    requires Numbered(g, e) && Collected(g, e) && base < |e.stack|
    requires IsComponent(g, Elems(e.stack[base..]))
    ensures Collected(g, Close(e, base))
  {
    var f := Close(e, base);
    var c := Elems(e.stack[base..]);
    forall x ensures x in e.stack <==> x in f.stack || x in c { SplitStack(e.stack, base, x); }
    forall x ensures Finished(f.comps, x) <==> Finished(e.comps, x) || x in c { FinishedAppend(e.comps, c, x); }
    forall x | x in c ensures x !in f.stack {
      var i :| base <= i < |e.stack| && e.stack[i] == x;
    }
    forall k | 0 <= k < |e.comps| ensures e.comps[k] !! c {
      forall x | x in e.comps[k] ensures x !in c { assert Finished(e.comps, x); }
    }
  }

  lemma SplitStack(s: seq<string>, base: nat, x: string)
    requires base <= |s|
    ensures x in s <==> x in s[..base] || x in s[base..]
  {
    assert s == s[..base] + s[base..];
  }

  lemma FinishedAppend(comps: seq<set<string>>, c: set<string>, x: string)
    ensures Finished(comps + [c], x) <==> Finished(comps, x) || x in c
  {
    if k :| 0 <= k < |comps| && x in comps[k] { assert x in (comps + [c])[k]; }
    if x in c { assert x in (comps + [c])[|comps|]; }
  }

  // ----- One visit -----

  ghost predicate Extends(m: map<string, nat>, n: map<string, nat>) {
    forall k | k in m :: k in n && n[k] == m[k]
  }

  /** The entry numbered `low` is on the stack within reach of `v`. */
  ghost predicate Attained(g: Graph, e: Env, v: string, low: nat) {
    exists j :: 0 <= j < |e.stack| && e.stack[j] in e.num && e.num[e.stack[j]] == low && Reach(g, v, e.stack[j])
  }

  /** `f` is what nested visits started from `e` can leave behind. */
  ghost predicate Grown(e: Env, f: Env) {
    && e.stack <= f.stack && e.active == f.active && e.comps <= f.comps
    && Extends(e.num, f.num) && e.next <= f.next
  }

  /** What a visit to `v` started in `e` has achieved in `f`, `low` being its low link. */
  ghost predicate Visited(g: Graph, e: Env, f: Env, v: string, low: nat) {
    && Grown(e, f) && v in f.num && v !in e.num
    && low <= f.num[v] && e.next <= f.num[v]
    && LowBound(g, f, |e.stack|, |e.stack|, low)
    && (if f.stack == e.stack then low == f.num[v] else Attained(g, f, v, low))
  }

  /** A visit to `v`, at stack position `base`, has scanned the dependencies `seen`. */
  ghost predicate Scanning(g: Graph, e: Env, base: nat, v: string, low: nat, seen: seq<string>) {
    && v in g && v in e.num && TopVisit(e, base, v)
    && low <= e.num[v] && Attained(g, e, v, low)
    && LowBound(g, e, base + 1, base, low)
    && (forall j | 0 <= j < base && e.stack[j] in seen && e.stack[j] in e.num :: low <= e.num[e.stack[j]])
    && (forall d | d in seen && d in g :: d in e.num)
  }

  lemma GrownTrans(e: Env, f: Env, h: Env)
    requires Grown(e, f) && Grown(f, h)
    ensures Grown(e, h)
  { }

  lemma ScanStart(g: Graph, e: Env, v: string)
    requires v in g && WellFormed(g, Push(e, v)) && TopVisit(Push(e, v), |e.stack|, v)
    ensures Scanning(g, Push(e, v), |e.stack|, v, e.next, []) && Grown(Push(e, v), Push(e, v))
  {
    var f := Push(e, v);
    ReachRefl(g, v);
    assert f.stack[|e.stack|] == v;
  }

  /** A dependency that is no longer around, or already finished, changes nothing. */
  lemma ScanPast(g: Graph, e: Env, base: nat, v: string, low: nat, seen: seq<string>, d: string)
    requires WellFormed(g, e) && Scanning(g, e, base, v, low, seen)
    requires d !in g || (d in e.num && d !in e.stack)
    ensures Scanning(g, e, base, v, low, seen + [d])
  { }

  lemma AttainedEdge(g: Graph, e: Env, v: string, d: string, low: nat)
    requires Edge(g, v, d) && Attained(g, e, d, low)
    ensures Attained(g, e, v, low)
  {
    var j :| 0 <= j < |e.stack| && e.stack[j] in e.num && e.num[e.stack[j]] == low && Reach(g, d, e.stack[j]);
    ReachEdge(g, v, d);
    ReachTrans(g, v, d, e.stack[j]);
  }

  lemma ScanStacked(g: Graph, e: Env, base: nat, v: string, low: nat, seen: seq<string>, d: string)
    requires WellFormed(g, e) && Scanning(g, e, base, v, low, seen)
    requires Edge(g, v, d) && d in e.num && d in e.stack
    ensures Scanning(g, e, base, v, Min(low, e.num[d]), seen + [d])
  {
    ReachRefl(g, d);
    assert Attained(g, e, d, e.num[d]);
    AttainedEdge(g, e, v, d, e.num[d]);
  }

  lemma GrownTop(g: Graph, e: Env, f: Env, base: nat, v: string)
    requires Numbered(g, e) && Numbered(g, f) && Grown(e, f) && TopVisit(e, base, v)
    ensures TopVisit(f, base, v)
  { }

  lemma ScanVisited(g: Graph, e: Env, f: Env, base: nat, v: string, low: nat, lowD: nat, seen: seq<string>, d: string)
    requires WellFormed(g, e) && WellFormed(g, f) && Scanning(g, e, base, v, low, seen)
    requires Edge(g, v, d) && Visited(g, e, f, d, lowD)
    ensures Scanning(g, f, base, v, Min(low, lowD), seen + [d])
    ensures Grown(e, f) && d in f.num
  {
    GrownTop(g, e, f, base, v);
    if low <= lowD {
      var j :| 0 <= j < |e.stack| && e.stack[j] in e.num && e.num[e.stack[j]] == low && Reach(g, v, e.stack[j]);
      assert f.stack[j] == e.stack[j];
    } else {
      AttainedEdge(g, f, v, d, lowD);
    }
    ScanVisitedLow(g, e, f, base, v, low, lowD, seen, d);
  }

  lemma ScanVisitedLow(g: Graph, e: Env, f: Env, base: nat, v: string, low: nat, lowD: nat, seen: seq<string>,
                       d: string)
    requires WellFormed(g, e) && Scanning(g, e, base, v, low, seen) && Visited(g, e, f, d, lowD)
    ensures LowBound(g, f, base + 1, base, Min(low, lowD))
  {
    hide Attained, Reach, NoEscape, Linked, Anchored, Collected;
    forall i, j | 0 <= j < base < i < |f.stack| && Edge(g, f.stack[i], f.stack[j]) && f.stack[j] in f.num
      ensures Min(low, lowD) <= f.num[f.stack[j]]
    {
      assert f.stack[j] == e.stack[j];
      if i < |e.stack| { assert f.stack[i] == e.stack[i]; }
    }
  }

  lemma ScanEdges(g: Graph, e: Env, base: nat, v: string, low: nat)
    requires WellFormed(g, e) && v in g && Scanning(g, e, base, v, low, g[v].deps)
    ensures LowBound(g, e, base, base, low)
    ensures forall y | Edge(g, v, y) :: y in e.num
  { }

  /** `v` stays on the stack because its low link names a lower entry. */
  lemma ScanRetire(g: Graph, e: Env, f: Env, base: nat, v: string, low: nat)
    requires WellFormed(g, e) && WellFormed(g, f) && |e.stack| == base && v !in e.num
    requires Grown(Push(e, v), f) && v in g && Scanning(g, f, base, v, low, g[v].deps) && low != f.num[v]
    ensures WellFormed(g, f.(active := f.active - {v}))
    ensures Visited(g, e, f.(active := f.active - {v}), v, low)
  {
    ScanEdges(g, f, base, v, low);
    var j :| 0 <= j < |f.stack| && f.stack[j] in f.num && f.num[f.stack[j]] == low && Reach(g, v, f.stack[j]);
    assert j < base;
    RetireKeeps(g, f, base, v, j);
    assert e.stack <= Push(e, v).stack <= f.stack;
    assert v !in e.active;
  }

  /** The component of `v` is complete. */
  lemma ScanClose(g: Graph, e: Env, f: Env, base: nat, v: string)
    requires WellFormed(g, e) && WellFormed(g, f) && |e.stack| == base && v !in e.num
    requires Grown(Push(e, v), f) && v in g && v in f.num && Scanning(g, f, base, v, f.num[v], g[v].deps)
    ensures WellFormed(g, Close(f, base))
    ensures Visited(g, e, Close(f, base), v, f.num[v])
  {
    ScanEdges(g, f, base, v, f.num[v]);
    CloseKeeps(g, f, base, v);
    assert e.stack <= Push(e, v).stack <= f.stack;
    assert f.stack[..base] == e.stack;
    assert v !in e.active;
  }
}
