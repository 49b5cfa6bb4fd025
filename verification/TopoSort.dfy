/** `topoSort` (scripts/package-graph.ts:60-90): dependency-first order that tolerates cycles. */
module TopoSort {
  import opened Numbers
  import opened PackageGraph
  import opened Components
  import opened SinkCycles
  import opened Sorting

  type Collation = (string, string) -> int

  type Comparator = (Package, Package) -> int

  // ----- The comparator (lines 152-158) -----

  function IndexOf(s: seq<string>, x: string): int {
    if s == [] then -1
    else if s[0] == x then 0
    else var rest := IndexOf(s[1..], x); if rest == -1 then -1 else rest + 1
  }

  function GroupRank(group: string, groupOrder: seq<string>): int {
    var index := IndexOf(groupOrder, group);
    if index == -1 then MAX_SAFE_INTEGER else index
  }

  function ComparePackages(a: Package, b: Package, groupOrder: seq<string>, locale: Collation): int {
    var byRank := GroupRank(a.group, groupOrder) - GroupRank(b.group, groupOrder);
    if byRank != 0 then byRank
    else if locale(a.group, b.group) != 0 then locale(a.group, b.group)
    else locale(a.short, b.short)
  }

  function By(groupOrder: seq<string>, locale: Collation): Comparator {
    (a: Package, b: Package) => ComparePackages(a, b, groupOrder, locale)
  }

  lemma ByConsistent(groupOrder: seq<string>, locale: Collation)
    requires Consistent(locale)
    ensures Consistent(By(groupOrder, locale))
  {
    var cmp := By(groupOrder, locale);
    forall a, b ensures cmp(a, b) < 0 <==> cmp(b, a) > 0 {
      Total(locale, a.group, b.group);
      Total(locale, a.short, b.short);
    }
    forall a, b, c | cmp(a, b) <= 0 && cmp(b, c) <= 0 ensures cmp(a, c) <= 0 {
      ByTransitive(groupOrder, locale, a, b, c);
    }
  }

  lemma ByTransitive(groupOrder: seq<string>, locale: Collation, a: Package, b: Package, c: Package)
    requires Consistent(locale)
    requires ComparePackages(a, b, groupOrder, locale) <= 0 && ComparePackages(b, c, groupOrder, locale) <= 0
    ensures ComparePackages(a, c, groupOrder, locale) <= 0
  {
    hide Consistent, GroupRank;
    var ra, rb, rc := GroupRank(a.group, groupOrder), GroupRank(b.group, groupOrder), GroupRank(c.group, groupOrder);
    assert ra <= rb <= rc;
    if ra == rc {
      Transitive(locale, a.group, b.group, c.group);
      if locale(a.group, c.group) == 0 {
        Total(locale, a.group, c.group);
        Total(locale, a.group, b.group);
        Total(locale, b.group, c.group);
        Transitive(locale, b.group, c.group, a.group);
        Transitive(locale, c.group, a.group, b.group);
        Transitive(locale, a.short, b.short, c.short);
      }
    }
  }

  // ----- One batch of the order -----

  /** Packages none of whose dependencies remain. */
  ghost function ReadyNames(g: Graph): set<string> {
    set n | n in g && forall d | d in g[n].deps :: d !in g
  }

  ghost predicate Lists(g: Graph, b: seq<Package>, names: set<string>) {
    Held(g, b) && Distinct(Names(b)) && NameSet(b) == names
  }

  /** `b` heads a sink cycle and no sorted sink cycle starts with a lesser package. */
  ghost predicate FirstCycle(g: Graph, b: seq<Package>, cmp: Comparator) {
    && b != [] && ListsSinkCycle(g, b)
    && forall c | ListsSinkCycle(g, c) && Sorted(c, cmp) && c != [] :: cmp(b[0], c[0]) <= 0
  }

  /** What one round of the loop places: every ready package, or else the first sink cycle. */
  ghost predicate IsBatch(g: Graph, b: seq<Package>, cmp: Comparator) {
    && b != [] && Sorted(b, cmp)
    && if ReadyNames(g) != {} then Lists(g, b, ReadyNames(g)) else FirstCycle(g, b, cmp)
  }

  function Without(g: Graph, b: seq<Package>): Graph { g - NameSet(b) }

  /** `out` places `g` batch by batch. */
  ghost predicate Layered(g: Graph, out: seq<Package>, cmp: Comparator)
    decreases |out|
  {
    if g.Keys == {} then out == []
    else exists k :: 0 < k <= |out| && IsBatch(g, out[..k], cmp) && Layered(Without(g, out[..k]), out[k..], cmp)
  }

  // ----- What a layered order guarantees -----

  /** A batch is closed, and its members reach each other or reach nothing. */
  lemma BatchShape(g: Graph, b: seq<Package>, cmp: Comparator)
    requires Keyed(g) && IsBatch(g, b, cmp)
    ensures Held(g, b) && Distinct(Names(b)) && Closed(g, NameSet(b)) && NameSet(b) <= g.Keys
    ensures forall x, y | x in NameSet(b) && y in NameSet(b) && Reach(g, x, y) :: Reach(g, y, x)
  {
    var names := NameSet(b);
    if ReadyNames(g) != {} {
      forall x, y | x in names && Reach(g, x, y) ensures x == y { ReadyReach(g, x, y); }
    } else {
      assert IsComponent(g, names);
    }
  }

  /** Removing a closed set leaves reachability among the rest as it was. */
  lemma {:induction false} ReachInWithout(g: Graph, b: seq<Package>, x: string, y: string, n: nat)
    requires Closed(g, NameSet(b)) && ReachIn(g, x, y, n) && y !in NameSet(b)
    ensures ReachIn(Without(g, b), x, y, n) && x !in NameSet(b)
    decreases n
  {
    if n > 0 {
      var c :| Edge(g, x, c) && ReachIn(g, c, y, n - 1);
      ReachInWithout(g, b, c, y, n - 1);
      assert Edge(Without(g, b), x, c);
    }
  }

  lemma {:induction false} ReachInWithin(g: Graph, b: seq<Package>, x: string, y: string, n: nat)
    requires ReachIn(Without(g, b), x, y, n)
    ensures ReachIn(g, x, y, n)
    decreases n
  {
    if n > 0 {
      var c :| Edge(Without(g, b), x, c) && ReachIn(Without(g, b), c, y, n - 1);
      ReachInWithin(g, b, c, y, n - 1);
      assert Edge(g, x, c);
    }
  }

  lemma ReachWithout(g: Graph, b: seq<Package>, x: string, y: string)
    requires Closed(g, NameSet(b)) && y !in NameSet(b)
    ensures Reach(g, x, y) <==> Reach(Without(g, b), x, y)
  {
    if Reach(g, x, y) {
      var n: nat :| ReachIn(g, x, y, n);
      ReachInWithout(g, b, x, y, n);
    }
    if Reach(Without(g, b), x, y) {
      var n: nat :| ReachIn(Without(g, b), x, y, n);
      ReachInWithin(g, b, x, y, n);
    }
  }

  lemma SplitNames(a: seq<Package>, b: seq<Package>)
    ensures Names(a + b) == Names(a) + Names(b) && NameSet(a + b) == NameSet(a) + NameSet(b)
  {
    assert Names(a + b) == Names(a) + Names(b);
  }

  lemma ListsAppend(g: Graph, a: seq<Package>, b: seq<Package>)
    requires Held(g, a) && Distinct(Names(a)) && NameSet(a) <= g.Keys
    requires Lists(Without(g, a), b, Without(g, a).Keys)
    ensures Lists(g, a + b, g.Keys)
  {
    SplitNames(a, b);
    forall i, j | 0 <= i < |a| && 0 <= j < |b| ensures Names(a)[i] != Names(b)[j] {
      assert Names(a)[i] in NameSet(a) && Names(b)[j] in NameSet(b);
    }
    forall i | 0 <= i < |b| ensures b[i].short in g && g[b[i].short] == b[i] {
      assert Without(g, a)[b[i].short] == b[i];
    }
  }

  ghost function BatchSize(g: Graph, out: seq<Package>, cmp: Comparator): (k: nat)
    requires g.Keys != {} && Layered(g, out, cmp)
    ensures 0 < k <= |out| && IsBatch(g, out[..k], cmp) && Layered(Without(g, out[..k]), out[k..], cmp)
  {
    var k :| 0 < k <= |out| && IsBatch(g, out[..k], cmp) && Layered(Without(g, out[..k]), out[k..], cmp);
    k
  }

  lemma LayeredSome(g: Graph, out: seq<Package>, cmp: Comparator)
    requires Layered(g, out, cmp) && out != []
    ensures g.Keys != {}
  {}

  lemma KeyedWithout(g: Graph, b: seq<Package>)
    requires Keyed(g)
    ensures Keyed(Without(g, b))
  {}

  lemma LayeredNone(g: Graph, cmp: Comparator)
    requires Layered(g, [], cmp)
    ensures Lists(g, [], g.Keys)
  {}

  /** A layered order lists every package of `g` exactly once. */
  lemma {:induction false} LayeredComplete(g: Graph, out: seq<Package>, cmp: Comparator)
    requires Keyed(g) && Layered(g, out, cmp)
    ensures Lists(g, out, g.Keys)
    decreases |out|
  {
    hide *;
    if out == [] {
      LayeredNone(g, cmp);
    } else {
      LayeredSome(g, out, cmp);
      var k := BatchSize(g, out, cmp);
      BatchShape(g, out[..k], cmp);
      KeyedWithout(g, out[..k]);
      LayeredComplete(Without(g, out[..k]), out[k..], cmp);
      ListsAppend(g, out[..k], out[k..]);
      assert out == out[..k] + out[k..];
    }
  }

  lemma NamedIn(s: seq<Package>, i: nat)
    requires i < |s|
    ensures s[i].short in NameSet(s)
  {
    assert Names(s)[i] == s[i].short;
  }

  /** A nonempty layered order is a closed batch followed by a layered order of what is left. */
  lemma Unfold(g: Graph, out: seq<Package>, cmp: Comparator) returns (b: seq<Package>, rest: seq<Package>)
    requires Keyed(g) && Layered(g, out, cmp) && out != []
    ensures b != [] && out == b + rest && IsBatch(g, b, cmp) && Closed(g, NameSet(b))
    ensures Keyed(Without(g, b)) && Layered(Without(g, b), rest, cmp)
    ensures forall i | 0 <= i < |b| :: b[i].short in NameSet(b)
    ensures forall i | 0 <= i < |rest| :: rest[i].short !in NameSet(b)
  {
    hide *;
    LayeredSome(g, out, cmp);
    var k := BatchSize(g, out, cmp);
    b, rest := out[..k], out[k..];
    BatchShape(g, b, cmp);
    KeyedWithout(g, b);
    LayeredComplete(Without(g, b), rest, cmp);
    forall i | 0 <= i < |b| ensures b[i].short in NameSet(b) { NamedIn(b, i); }
    forall i | 0 <= i < |rest| ensures rest[i].short !in NameSet(b) { ListedOutside(g, b, rest, i); }
  }

  lemma ListedOutside(g: Graph, b: seq<Package>, rest: seq<Package>, i: nat)
    requires Lists(Without(g, b), rest, Without(g, b).Keys) && i < |rest|
    ensures rest[i].short !in NameSet(b)
  {
    NamedIn(rest, i);
  }

  /** Dependency-first up to cycles: whatever a package reaches, directly or not, comes before it,
      unless the two reach each other. */
  lemma {:induction false} DependenciesFirst(g: Graph, out: seq<Package>, cmp: Comparator, i: nat, j: nat)
    requires Keyed(g) && Layered(g, out, cmp) && i < j < |out|
    requires Reach(g, out[i].short, out[j].short)
    ensures Reach(g, out[j].short, out[i].short)
    decreases |out|
  {
    hide *;
    var b, rest := Unfold(g, out, cmp);
    var x, y := out[i].short, out[j].short;
    if i < |b| {
      ClosedReach(g, NameSet(b), x, y);
      BatchReach(g, b, cmp, i, j);
    } else {
      ReachWithout(g, b, x, y);
      DependenciesFirst(Without(g, b), rest, cmp, i - |b|, j - |b|);
      ReachWithout(g, b, y, x);
    }
  }

  lemma BatchReach(g: Graph, b: seq<Package>, cmp: Comparator, i: nat, j: nat)
    requires Keyed(g) && IsBatch(g, b, cmp) && i < |b| && j < |b| && Reach(g, b[i].short, b[j].short)
    ensures Reach(g, b[j].short, b[i].short)
  {
    NamedIn(b, i);
    NamedIn(b, j);
    BatchShape(g, b, cmp);
  }

  /** A dependency cycle stays together: nothing outside it comes between two of its members. */
  lemma {:induction false} CyclesTogether(g: Graph, out: seq<Package>, cmp: Comparator, i: nat, j: nat, l: nat)
    requires Keyed(g) && Layered(g, out, cmp) && i < j < l < |out|
    requires Reach(g, out[i].short, out[l].short) && Reach(g, out[l].short, out[i].short)
    ensures Reach(g, out[i].short, out[j].short) && Reach(g, out[j].short, out[i].short)
    decreases |out|
  {
    hide *;
    var b, rest := Unfold(g, out, cmp);
    var x, y, z := out[i].short, out[j].short, out[l].short;
    if i < |b| {
      ClosedReach(g, NameSet(b), x, z);
      BatchTogether(g, b, cmp, i, j, l);
    } else {
      ReachWithout(g, b, x, z);
      ReachWithout(g, b, z, x);
      CyclesTogether(Without(g, b), rest, cmp, i - |b|, j - |b|, l - |b|);
      ReachWithout(g, b, x, y);
      ReachWithout(g, b, y, x);
    }
  }

  lemma ReadyReach(g: Graph, x: string, y: string)
    requires x in ReadyNames(g) && Reach(g, x, y)
    ensures x == y
  {
    var n: nat :| ReachIn(g, x, y, n);
    assert n == 0 || exists c :: Edge(g, x, c);
  }

  lemma BatchTogether(g: Graph, b: seq<Package>, cmp: Comparator, i: nat, j: nat, l: nat)
    requires Keyed(g) && IsBatch(g, b, cmp) && i < j < l < |b| && Reach(g, b[i].short, b[l].short)
    ensures Reach(g, b[i].short, b[j].short) && Reach(g, b[j].short, b[i].short)
  {
    NamedIn(b, i);
    NamedIn(b, j);
    assert Names(b)[i] != Names(b)[l];
    if ReadyNames(g) != {} {
      ReadyReach(g, b[i].short, b[l].short);
      assert false;
    }
    assert IsComponent(g, NameSet(b));
  }

  // ----- Independence of the input order -----

  lemma HeldUnique(g: Graph, b: seq<Package>, c: seq<Package>, cmp: Comparator)
    requires Consistent(cmp) && Separates(cmp, g.Values)
    requires Held(g, b) && Held(g, c) && NameSet(b) == NameSet(c)
    requires Distinct(Names(b)) && Distinct(Names(c)) && Sorted(b, cmp) && Sorted(c, cmp)
    ensures b == c
  {
    SameMembers(g, b, c);
    SameMembers(g, c, b);
    DistinctPackages(b);
    DistinctPackages(c);
    forall x | x in b ensures x in g.Values { assert x.short in g && g[x.short] == x; }
    SortedUnique(b, c, cmp);
  }

  lemma SameMembers(g: Graph, b: seq<Package>, c: seq<Package>)
    requires Held(g, b) && Held(g, c) && NameSet(b) <= NameSet(c)
    ensures forall x | x in b :: x in c
  {
    forall i | 0 <= i < |b| ensures b[i] in c {
      NamedIn(b, i);
      var j :| 0 <= j < |c| && Names(c)[j] == b[i].short;
      assert c[j] == b[i];
    }
  }

  lemma DistinctPackages(b: seq<Package>)
    requires Distinct(Names(b))
    ensures Distinct(b)
  {
    forall i, j | 0 <= i < j < |b| ensures b[i] != b[j] { assert Names(b)[i] != Names(b)[j]; }
  }

  lemma BatchUnique(g: Graph, b: seq<Package>, c: seq<Package>, cmp: Comparator)
    requires Keyed(g) && Consistent(cmp) && Separates(cmp, g.Values)
    requires IsBatch(g, b, cmp) && IsBatch(g, c, cmp)
    ensures b == c
  {
    hide Consistent, Separates, IsSinkCycle;
    if ReadyNames(g) == {} {
      assert cmp(b[0], c[0]) <= 0 && cmp(c[0], b[0]) <= 0;
      HeadsAgree(g, b[0], c[0], cmp);
      NamedIn(b, 0);
      NamedIn(c, 0);
      SinkCyclesAgree(g, NameSet(b), NameSet(c), b[0].short);
    }
    HeldUnique(g, b, c, cmp);
  }

  lemma HeadsAgree(g: Graph, x: Package, y: Package, cmp: Comparator)
    requires Consistent(cmp) && Separates(cmp, g.Values)
    requires x.short in g && g[x.short] == x && y.short in g && g[y.short] == y
    requires cmp(x, y) <= 0 && cmp(y, x) <= 0
    ensures x == y
  {
    Total(cmp, x, y);
    assert x in g.Values && y in g.Values;
  }

  lemma SinkCyclesAgree(g: Graph, c: set<string>, d: set<string>, x: string)
    requires IsSinkCycle(g, c) && IsSinkCycle(g, d) && x in c && x in d
    ensures c == d
  {
    ComponentsAgree(g, c, d, x);
  }

  /** A graph has one layered order under a comparator without ties. */
  lemma {:induction false} LayeredUnique(g: Graph, out: seq<Package>, out': seq<Package>, cmp: Comparator)
    requires Keyed(g) && Consistent(cmp) && Separates(cmp, g.Values)
    requires Layered(g, out, cmp) && Layered(g, out', cmp)
    ensures out == out'
    decreases |out|
  {
    hide Consistent, Separates, IsBatch, Closed, Keyed, NameSet;
    if g.Keys != {} {
      var b, rest := Unfold(g, out, cmp);
      var c, rest' := Unfold(g, out', cmp);
      BatchUnique(g, b, c, cmp);
      SeparatesSubset(cmp, g, b);
      LayeredUnique(Without(g, b), rest, rest', cmp);
    }
  }

  lemma SeparatesSubset(cmp: Comparator, g: Graph, b: seq<Package>)
    requires Separates(cmp, g.Values)
    ensures Separates(cmp, Without(g, b).Values)
  {
    forall x | x in Without(g, b).Values ensures x in g.Values {
      var n :| n in Without(g, b) && Without(g, b)[n] == x;
      assert g[n] == x;
    }
  }

  // ----- The lookup table (lines 61-68) -----

  /** `new Map(packages.map(...))`: a later package with the same short name wins. */
  function FileByName(packages: seq<Package>): (g: Graph)
    ensures forall n | n in g :: g[n].short == n && g[n] in packages
    ensures forall p | p in packages :: p.short in g
  {
    if packages == [] then map[]
    else
      var last := packages[|packages| - 1];
      FileByName(packages[..|packages| - 1])[last.short := last]
  }

  lemma {:induction false} LastFiled(packages: seq<Package>, i: nat)
    requires i < |packages| && forall j | i < j < |packages| :: packages[j].short != packages[i].short
    ensures packages[i].short in FileByName(packages) && FileByName(packages)[packages[i].short] == packages[i]
  {
    if i < |packages| - 1 { LastFiled(packages[..|packages| - 1], i); }
  }

  /** The order a `Map` iterates in: first insertion of each key. */
  function InsertionOrder(packages: seq<Package>): (order: seq<string>)
    ensures Elems(order) == FileByName(packages).Keys && Distinct(order)
  {
    if packages == [] then []
    else
      var before := InsertionOrder(packages[..|packages| - 1]);
      var n := packages[|packages| - 1].short;
      if n in before then before else before + [n]
  }

  /** With distinct short names the table is the set of packages. */
  lemma FiledExactly(packages: seq<Package>, p: Package)
    requires Distinct(Names(packages)) && p in packages
    ensures FileByName(packages)[p.short] == p
  {
    SameShort(packages, p, FileByName(packages)[p.short]);
  }

  lemma SameShort(packages: seq<Package>, p: Package, q: Package)
    requires Distinct(Names(packages)) && p in packages && q in packages && p.short == q.short
    ensures p == q
  {
    var i :| 0 <= i < |packages| && packages[i] == p;
    var j :| 0 <= j < |packages| && packages[j] == q;
    assert Names(packages)[i] == Names(packages)[j];
  }

  lemma SamePackagesSameTable(packages: seq<Package>, packages': seq<Package>)
    requires Distinct(Names(packages)) && Distinct(Names(packages'))
    requires forall p :: p in packages <==> p in packages'
    ensures FileByName(packages) == FileByName(packages')
  {
    var g, g' := FileByName(packages), FileByName(packages');
    forall n | n in g ensures n in g' && g'[n] == g[n] { FiledExactly(packages', g[n]); }
    forall n | n in g' ensures n in g { assert g'[n] in packages; }
  }

  // ----- The loop -----

  /** Either the ordered packages or the first missing peer. */
  datatype Outcome = Ordered(order: seq<Package>) | MissingPeer(pkg: string, dependency: string)

  ghost predicate AllPresent(packages: seq<Package>, g: Graph) {
    forall p | p in packages :: forall d | d in p.deps :: d in g
  }

  /** Dependency `j` of package `i` is absent, and everything listed before it is present. */
  ghost predicate FirstMissing(packages: seq<Package>, g: Graph, i: nat, j: nat, pkg: string, dependency: string) {
    && i < |packages| && j < |packages[i].deps|
    && pkg == packages[i].name && dependency == packages[i].deps[j] && dependency !in g
    && AllPresent(packages[..i], g)
    && forall l | 0 <= l < j :: packages[i].deps[l] in g
  }

  /** Check that every peer is among the packages (lines 62-68). */
  method CheckPeers(packages: seq<Package>, g: Graph) returns (missing: bool, pkg: string, dependency: string)
    ensures missing <==> !AllPresent(packages, g)
    ensures missing ==> exists i, j :: FirstMissing(packages, g, i, j, pkg, dependency)
  {
    pkg, dependency := "", "";
    for i := 0 to |packages|
      invariant AllPresent(packages[..i], g)
    {
      for j := 0 to |packages[i].deps|
        invariant forall l | 0 <= l < j :: packages[i].deps[l] in g
      {
        if packages[i].deps[j] !in g {
          assert FirstMissing(packages, g, i, j, packages[i].name, packages[i].deps[j]);
          return true, packages[i].name, packages[i].deps[j];
        }
      }
      assert packages[..i + 1] == packages[..i] + [packages[i]];
    }
    assert packages[..|packages|] == packages;
    missing := false;
  }

  /** `remaining.values()`: the packages of `g` in insertion order. */
  function Values(order: seq<string>, g: Graph): seq<Package>
    requires Elems(order) == g.Keys
  {
    seq(|order|, i requires 0 <= i < |order| => assert order[i] in Elems(order); g[order[i]])
  }

  predicate AllPlaced(pkg: Package, placed: set<string>) {
    forall d | d in pkg.deps :: d in placed
  }

  /** The packages whose dependencies are all placed, sorted (lines 73-75). */
  function Ready(order: seq<string>, g: Graph, placed: set<string>, cmp: Comparator): seq<Package>
    requires Elems(order) == g.Keys
  {
    SortBy(Filter(Values(order, g), pkg => AllPlaced(pkg, placed)), cmp)
  }

  lemma ValuesHeld(order: seq<string>, g: Graph)
    requires Keyed(g) && Elems(order) == g.Keys && Distinct(order)
    ensures Held(g, Values(order, g)) && Names(Values(order, g)) == order && Distinct(Values(order, g))
    ensures forall n | n in g :: g[n] in Values(order, g)
  {
    var vs := Values(order, g);
    forall i | 0 <= i < |order| ensures vs[i].short == order[i] { assert order[i] in Elems(order); }
    forall n | n in g ensures g[n] in vs {
      assert n in Elems(order);
      var i :| 0 <= i < |order| && order[i] == n;
      assert vs[i] == g[n];
    }
  }

  lemma {:induction false} FilterDistinct<T(!new)>(s: seq<T>, keep: T -> bool)
    requires Distinct(s)
    ensures Distinct(Filter(s, keep))
  {
    if s != [] {
      FilterDistinct(s[1..], keep);
      FilterMembers(s[1..], keep);
      TailMember(s, s[0]);
    }
  }

  lemma SortDistinct<T(!new)>(s: seq<T>, cmp: (T, T) -> int)
    requires Distinct(s)
    ensures Distinct(SortBy(s, cmp))
  {
    SortKeeps(s, cmp);
    DistinctMultiset(s);
    DistinctMultiset(SortBy(s, cmp));
  }

  /** Members of `g` listed without repetition carry distinct names. */
  lemma HeldMembers(g: Graph, s: seq<Package>)
    requires Distinct(s) && forall p | p in s :: p.short in g && g[p.short] == p
    ensures Held(g, s) && Distinct(Names(s))
  {
    forall i, j | 0 <= i < j < |s| ensures Names(s)[i] != Names(s)[j] {
      assert s[i] in s && s[j] in s;
    }
  }

  lemma NameMembers(s: seq<Package>, n: string)
    ensures n in NameSet(s) <==> exists p :: p in s && p.short == n
  {
    if n in NameSet(s) {
      var i :| 0 <= i < |s| && Names(s)[i] == n;
      assert s[i] in s;
    }
    if p :| p in s && p.short == n {
      var i :| 0 <= i < |s| && s[i] == p;
      NamedIn(s, i);
    }
  }

  lemma ReadyMember(order: seq<string>, g: Graph, placed: set<string>, cmp: Comparator, p: Package)
    requires Keyed(g) && Elems(order) == g.Keys && Distinct(order)
    ensures p in Ready(order, g, placed, cmp) <==> p.short in g && g[p.short] == p && AllPlaced(p, placed)
  {
    var vs := Values(order, g);
    ValuesHeld(order, g);
    FilterMembers(vs, pkg => AllPlaced(pkg, placed));
    SortMember(Filter(vs, pkg => AllPlaced(pkg, placed)), cmp, p);
  }

  /** The ready packages are the ones none of whose dependencies remain. */
  lemma ReadyLists(order: seq<string>, g: Graph, all: set<string>, placed: set<string>, cmp: Comparator)
    requires Keyed(g) && Elems(order) == g.Keys && Distinct(order) && Consistent(cmp)
    requires g.Keys <= all && placed == all - g.Keys
    requires forall n | n in g :: forall d | d in g[n].deps :: d in all
    ensures var b := Ready(order, g, placed, cmp); Sorted(b, cmp) && Lists(g, b, ReadyNames(g))
  {
    var b := Ready(order, g, placed, cmp);
    var kept := Filter(Values(order, g), pkg => AllPlaced(pkg, placed));
    assert b == SortBy(kept, cmp);
    hide Consistent, Ready, Values;
    SortSorted(kept, cmp);
    ValuesHeld(order, g);
    FilterDistinct(Values(order, g), pkg => AllPlaced(pkg, placed));
    SortDistinct(kept, cmp);
    forall p ensures p in b <==> p.short in g && g[p.short] == p && AllPlaced(p, placed) {
      ReadyMember(order, g, placed, cmp, p);
    }
    HeldMembers(g, b);
    ReadyNamesMatch(g, b, all, placed);
  }

  lemma ReadyNamesMatch(g: Graph, b: seq<Package>, all: set<string>, placed: set<string>)
    requires Keyed(g) && g.Keys <= all && placed == all - g.Keys
    requires forall n | n in g :: forall d | d in g[n].deps :: d in all
    requires forall p :: p in b <==> p.short in g && g[p.short] == p && AllPlaced(p, placed)
    ensures NameSet(b) == ReadyNames(g)
  {
    forall n ensures n in NameSet(b) <==> n in ReadyNames(g) {
      NameMembers(b, n);
      if n in ReadyNames(g) { assert g[n] in b; }
    }
  }

  // ----- Breaking a cycle (lines 76-81) -----

  /** Order components by their first package; the empty case never arises. */
  function CompareHeads(a: seq<Package>, b: seq<Package>, cmp: Comparator): int {
    if a == [] then (if b == [] then 0 else -1) else if b == [] then 1 else cmp(a[0], b[0])
  }

  function SortEach(cs: seq<seq<Package>>, cmp: Comparator): seq<seq<Package>> {
    seq(|cs|, i requires 0 <= i < |cs| => SortBy(cs[i], cmp))
  }

  function ByHead(cmp: Comparator): (seq<Package>, seq<Package>) -> int {
    (a, b) => CompareHeads(a, b, cmp)
  }

  function SortedCycles(cs: seq<seq<Package>>, cmp: Comparator): seq<seq<Package>> {
    SortBy(SortEach(cs, cmp), ByHead(cmp))
  }

  lemma HeadsConsistent(cmp: Comparator)
    requires Consistent(cmp)
    ensures Consistent(ByHead(cmp))
  {
    var byHead := ByHead(cmp);
    forall a, b, c | byHead(a, b) <= 0 && byHead(b, c) <= 0 ensures byHead(a, c) <= 0 {
      if a != [] && b != [] && c != [] { Transitive(cmp, a[0], b[0], c[0]); }
    }
  }

  lemma SortedListing(g: Graph, c: seq<Package>, cmp: Comparator)
    requires ListsSinkCycle(g, c) && Consistent(cmp)
    ensures ListsSinkCycle(g, SortBy(c, cmp)) && NameSet(SortBy(c, cmp)) == NameSet(c)
    ensures Sorted(SortBy(c, cmp), cmp) && SortBy(c, cmp) != []
  {
    hide Consistent, IsSinkCycle;
    var s := SortBy(c, cmp);
    SortSorted(c, cmp);
    SortKeeps(c, cmp);
    DistinctPackages(c);
    SortDistinct(c, cmp);
    forall p | p in s ensures p.short in g && g[p.short] == p { SortMember(c, cmp, p); }
    HeldMembers(g, s);
    forall n ensures n in NameSet(s) <==> n in NameSet(c) {
      NameMembers(s, n);
      NameMembers(c, n);
      forall p ensures p in s <==> p in c { SortMember(c, cmp, p); }
    }
    assert NameSet(s) == NameSet(c);
    var x := SomeMember(g, NameSet(c));
    NameMembers(s, x);
  }

  /** The first of the sorted sink cycles is a batch when nothing is ready. */
  lemma FirstCycleIsBatch(g: Graph, cycles: seq<seq<Package>>, cmp: Comparator)
    requires Keyed(g) && Consistent(cmp) && AllSinkCycles(g, cycles) && ReadyNames(g) == {}
    requires cycles != []
    ensures var sorted := SortedCycles(cycles, cmp); sorted != [] && IsBatch(g, sorted[0], cmp)
  {
    var each, byHead := SortEach(cycles, cmp), ByHead(cmp);
    var sorted := SortBy(each, byHead);
    HeadsConsistent(cmp);
    hide Consistent, ListsSinkCycle, IsSinkCycle, Apart, SortBy, ByHead;
    SortSorted(each, byHead);
    SortKeeps(each, byHead);
    var b := sorted[0];
    SortMember(each, byHead, b);
    var k :| 0 <= k < |each| && each[k] == b;
    SortedListing(g, cycles[k], cmp);
    forall c | ListsSinkCycle(g, c) && Sorted(c, cmp) && c != [] ensures cmp(b[0], c[0]) <= 0 {
      var i := CycleNamed(g, cycles, c);
      SortedListing(g, cycles[i], cmp);
      SortMember(each, byHead, each[i]);
      HeadLeast(sorted, each[i], byHead);
      HeadsCompared(b, each[i], cmp);
      SharedMember(g, each[i], c);
      HeadLeast(each[i], c[0], cmp);
      Transitive(cmp, b[0], each[i][0], c[0]);
    }
  }

  lemma CycleNamed(g: Graph, cycles: seq<seq<Package>>, c: seq<Package>) returns (i: nat)
    requires AllSinkCycles(g, cycles) && ListsSinkCycle(g, c)
    ensures i < |cycles| && ListsSinkCycle(g, cycles[i]) && NameSet(cycles[i]) == NameSet(c)
  {
    i :| 0 <= i < |cycles| && NameSet(cycles[i]) == NameSet(c);
  }

  lemma SharedMember(g: Graph, b: seq<Package>, c: seq<Package>)
    requires ListsSinkCycle(g, b) && ListsSinkCycle(g, c) && NameSet(b) == NameSet(c) && c != []
    ensures c[0] in b
  {
    SameMembers(g, c, b);
  }

  lemma HeadsCompared(b: seq<Package>, c: seq<Package>, cmp: Comparator)
    requires b != [] && c != [] && ByHead(cmp)(b, c) <= 0
    ensures cmp(b[0], c[0]) <= 0
  { }

  lemma HeadLeast<T(!new)>(s: seq<T>, x: T, cmp: (T, T) -> int)
    requires Consistent(cmp) && Sorted(s, cmp) && x in s
    ensures cmp(s[0], x) <= 0
  {
    var i :| 0 <= i < |s| && s[i] == x;
    Total(cmp, x, x);
  }

  lemma CyclesExist(g: Graph, cycles: seq<seq<Package>>)
    requires Keyed(g) && AllSinkCycles(g, cycles) && ReadyNames(g) == {} && g.Keys != {}
    ensures cycles != []
  {
    forall a | a in g ensures exists b :: Edge(g, a, b) {
      assert a !in ReadyNames(g);
      var d :| d in g[a].deps && d in g;
      assert Edge(g, a, d);
    }
    var c := SinkCycleExists(g);
  }

  // ----- The sort -----

  method TopoSort(packages: seq<Package>, groupOrder: seq<string>, locale: Collation) returns (r: Outcome)
    requires Consistent(locale)
    ensures r.Ordered? <==> AllPresent(packages, FileByName(packages))
    ensures r.Ordered? ==> Layered(FileByName(packages), r.order, By(groupOrder, locale))
    ensures r.MissingPeer? ==>
              exists i, j :: FirstMissing(packages, FileByName(packages), i, j, r.pkg, r.dependency)
  {
    hide *;
    var byName := FileByName(packages);
    var missing, pkg, dependency := CheckPeers(packages, byName);
    if missing {
      return MissingPeer(pkg, dependency);
    }
    var cmp := By(groupOrder, locale);
    ByConsistent(groupOrder, locale);
    var remaining, order := byName, InsertionOrder(packages);
    var placed: set<string> := {};
    var out: seq<Package> := [];
    StartOrder(packages, cmp);
    while order != []
      invariant Placing(byName, remaining, order, placed)
      invariant Continues(byName, remaining, out, cmp)
      decreases remaining.Keys
    {
      PlacingFacts(byName, remaining, order, placed);
      var ready := NextBatch(byName, remaining, order, placed, cmp);
      ContinuesBatch(byName, remaining, out, ready, cmp);
      out, placed, remaining, order := Place(byName, ready, out, placed, remaining, order);
    }
    PlacingFacts(byName, remaining, order, placed);
    FinishOrder(byName, remaining, out, cmp);
    r := Ordered(out);
  }

  /** Completing `out` with a layered order of what remains completes the whole. */
  ghost predicate Continues(byName: Graph, remaining: Graph, out: seq<Package>, cmp: Comparator) {
    forall rest | Layered(remaining, rest, cmp) :: Layered(byName, out + rest, cmp)
  }

  lemma StartOrder(packages: seq<Package>, cmp: Comparator)
    requires AllPresent(packages, FileByName(packages))
    ensures var g := FileByName(packages);
            Placing(g, g, InsertionOrder(packages), {}) && Continues(g, g, [], cmp)
  {
    var g := FileByName(packages);
    forall rest | Layered(g, rest, cmp) ensures Layered(g, [] + rest, cmp) { assert [] + rest == rest; }
  }

  lemma PlacingFacts(byName: Graph, remaining: Graph, order: seq<string>, placed: set<string>)
    requires Placing(byName, remaining, order, placed)
    ensures Keyed(remaining) && (order == [] <==> remaining.Keys == {})
  {
    if order != [] { assert order[0] in Elems(order); }
  }

  lemma ContinuesBatch(byName: Graph, remaining: Graph, out: seq<Package>, b: seq<Package>, cmp: Comparator)
    requires Keyed(remaining) && Continues(byName, remaining, out, cmp) && IsBatch(remaining, b, cmp)
    ensures Continues(byName, Without(remaining, b), out + b, cmp)
    ensures Without(remaining, b).Keys < remaining.Keys
    ensures Held(remaining, b) && Distinct(Names(b))
  {
    BatchShape(remaining, b, cmp);
    NamedIn(b, 0);
    hide IsBatch, Held, NameSet;
    assert b[0].short in remaining && b[0].short !in Without(remaining, b);
    forall rest | Layered(Without(remaining, b), rest, cmp) ensures Layered(byName, out + b + rest, cmp) {
      assert (b + rest)[..|b|] == b && (b + rest)[|b|..] == rest;
      assert Layered(remaining, b + rest, cmp);
      assert out + b + rest == out + (b + rest);
    }
  }

  lemma FinishOrder(byName: Graph, remaining: Graph, out: seq<Package>, cmp: Comparator)
    requires Continues(byName, remaining, out, cmp) && remaining.Keys == {}
    ensures Layered(byName, out, cmp)
  {
    assert Layered(remaining, [], cmp);
    assert out + [] == out;
  }

  /** Move the batch from `remaining` to the output (lines 83-87). */
  method Place(ghost byName: Graph, ready: seq<Package>, out: seq<Package>, placed: set<string>, remaining: Graph,
               order: seq<string>)
    returns (out': seq<Package>, placed': set<string>, remaining': Graph, order': seq<string>)
    requires Placing(byName, remaining, order, placed)
    requires Held(remaining, ready) && Distinct(Names(ready))
    ensures out' == out + ready && remaining' == Without(remaining, ready)
    ensures Placing(byName, remaining', order', placed')
  {
    out', placed', remaining', order' := out, placed, remaining, order;
    assert Without(remaining, ready[..0]) == remaining;
    HeldAreFiled(byName, remaining, order, placed, ready);
    hide Placing, Held, Distinct, Filter;
    for i := 0 to |ready|
      invariant out' == out + ready[..i]
      invariant remaining' == Without(remaining, ready[..i])
      invariant Placing(byName, remaining', order', placed')
    {
      var n := ready[i].short;
      PlaceOne(byName, remaining', order', placed', n);
      assert ready[..i + 1] == ready[..i] + [ready[i]];
      NamesAppend(ready[..i], ready[i]);
      out' := out' + [ready[i]];
      placed' := placed' + {n};
      remaining' := remaining' - {n};
      order' := Filter(order', m => m != n);
    }
    assert ready[..|ready|] == ready;
  }

  lemma HeldAreFiled(byName: Graph, remaining: Graph, order: seq<string>, placed: set<string>, ready: seq<Package>)
    requires Placing(byName, remaining, order, placed) && Held(remaining, ready)
    ensures forall i | 0 <= i < |ready| :: ready[i].short in byName
  {}

  lemma PlaceOne(byName: Graph, remaining: Graph, order: seq<string>, placed: set<string>, n: string)
    requires Placing(byName, remaining, order, placed) && n in byName
    ensures Placing(byName, remaining - {n}, Filter(order, m => m != n), placed + {n})
  {
    FilterMembers(order, m => m != n);
    FilterDistinct(order, m => m != n);
  }

  /** The loop's bookkeeping: what is placed and what remains split the table between them. */
  ghost predicate Placing(byName: Graph, remaining: Graph, order: seq<string>, placed: set<string>) {
    && Keyed(remaining) && remaining.Keys <= byName.Keys
    && (forall n | n in remaining :: remaining[n] == byName[n])
    && placed == byName.Keys - remaining.Keys
    && Elems(order) == remaining.Keys && Distinct(order)
    && (forall n | n in byName :: forall d | d in byName[n].deps :: d in byName)
  }

  /** One round: the ready packages, or the first sink cycle when there are none. The throw for an
      empty list of cycles is dead. */
  method NextBatch(byName: Graph, remaining: Graph, order: seq<string>, placed: set<string>, cmp: Comparator)
    returns (ready: seq<Package>)
    requires Placing(byName, remaining, order, placed) && order != [] && Consistent(cmp)
    ensures IsBatch(remaining, ready, cmp)
  {
    hide Consistent;
    ready := Ready(order, remaining, placed, cmp);
    ReadyLists(order, remaining, byName.Keys, placed, cmp);
    if ready != [] {
      NamedIn(ready, 0);
    } else {
      assert order[0] in Elems(order);
      ValuesHeld(order, remaining);
      var cycles := FindSinkCycles(Values(order, remaining), remaining);
      CyclesExist(remaining, cycles);
      FirstCycleIsBatch(remaining, cycles, cmp);
      ready := SortedCycles(cycles, cmp)[0];
    }
  }

  // ----- Results for callers -----

  /** With distinct short names the output is a permutation of the input. */
  lemma OrderPermutes(packages: seq<Package>, out: seq<Package>, cmp: Comparator)
    requires Distinct(Names(packages)) && Layered(FileByName(packages), out, cmp)
    ensures multiset(out) == multiset(packages)
  {
    var g := FileByName(packages);
    LayeredComplete(g, out, cmp);
    DistinctPackages(out);
    DistinctPackages(packages);
    forall p ensures p in out <==> p in packages {
      if p in out { assert g[p.short] == p; }
      if p in packages {
        FiledExactly(packages, p);
        NameMembers(out, p.short);
        assert p.short in NameSet(out);
      }
    }
    SameMultiset(out, packages);
  }

  lemma SameMultiset<T(!new)>(s: seq<T>, t: seq<T>)
    requires Distinct(s) && Distinct(t) && forall x :: x in s <==> x in t
    ensures multiset(s) == multiset(t)
  {
    DistinctMultiset(s);
    DistinctMultiset(t);
    forall x ensures multiset(s)[x] == multiset(t)[x] {
      assert x in s <==> x in multiset(s);
      assert x in t <==> x in multiset(t);
    }
  }

  /** The order in which packages are listed does not matter for the sorted result, provided the
      comparator tells the packages apart. */
  lemma InputOrderIrrelevant(packages: seq<Package>, packages': seq<Package>, groupOrder: seq<string>,
                             locale: Collation,
                             out: seq<Package>, out': seq<Package>)
    requires Consistent(locale)
    requires forall p, q | p in packages && q in packages && By(groupOrder, locale)(p, q) == 0 :: p == q
    requires Distinct(Names(packages)) && Distinct(Names(packages')) && forall p :: p in packages <==> p in packages'
    requires Layered(FileByName(packages), out, By(groupOrder, locale))
    requires Layered(FileByName(packages'), out', By(groupOrder, locale))
    ensures out == out'
  {
    var g, cmp := FileByName(packages), By(groupOrder, locale);
    hide Consistent, Layered, Distinct, Names, FileByName;
    SamePackagesSameTable(packages, packages');
    ByConsistent(groupOrder, locale);
    LayeredUnique(g, out, out', cmp);
  }
}
