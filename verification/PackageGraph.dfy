/** Workspace packages, their dependency edges, and reachability along those edges
    (scripts/package-graph.ts). A `Graph` is what the source calls `remaining` or
    `byName`: packages keyed by their short name. */
module PackageGraph {
  import opened Sequences

  datatype Package = Package(short: string, name: string, group: string, rel: string, deps: seq<string>)

  type Graph = map<string, Package>

  /** Every package is filed under its own short name. */
  ghost predicate Keyed(g: Graph) {
    forall n | n in g :: g[n].short == n
  }

  predicate Edge(g: Graph, a: string, b: string) {
    a in g && b in g && b in g[a].deps
  }

  ghost predicate ReachIn(g: Graph, a: string, b: string, n: nat)
    decreases n
  {
    if n == 0 then a == b && a in g
    else exists c :: Edge(g, a, c) && ReachIn(g, c, b, n - 1)
  }

  ghost predicate Reach(g: Graph, a: string, b: string) {
    exists n: nat :: ReachIn(g, a, b, n)
  }

  ghost predicate Mutual(g: Graph, a: string, b: string) {
    Reach(g, a, b) && Reach(g, b, a)
  }

  /** `c` is a strongly connected component of `g`. */
  ghost predicate IsComponent(g: Graph, c: set<string>) {
    && c != {} && c <= g.Keys
    && (forall a, b {:trigger Reach(g, a, b)} | a in c && b in c :: Reach(g, a, b))
    && (forall a, b {:trigger Mutual(g, a, b)} | a in c && Mutual(g, a, b) :: b in c)
  }

  /** No edge leaves `c`. */
  ghost predicate Closed(g: Graph, c: set<string>) {
    forall a, b {:trigger Edge(g, a, b)} | a in c && Edge(g, a, b) :: b in c
  }

  /** A component that holds a cycle and depends on nothing else in `g`. */
  ghost predicate IsSinkCycle(g: Graph, c: set<string>) {
    IsComponent(g, c) && Closed(g, c) && exists a, b :: a in c && b in c && Edge(g, a, b)
  }

  lemma ReachRefl(g: Graph, a: string)
    requires a in g
    ensures Reach(g, a, a)
  {
    assert ReachIn(g, a, a, 0);
  }

  lemma ReachEdge(g: Graph, a: string, b: string)
    requires Edge(g, a, b)
    ensures Reach(g, a, b)
  {
    assert ReachIn(g, b, b, 0);
    assert ReachIn(g, a, b, 1);
  }

  lemma {:induction false} ReachInAppend(g: Graph, a: string, b: string, c: string, m: nat, n: nat)
    requires ReachIn(g, a, b, m) && ReachIn(g, b, c, n)
    ensures ReachIn(g, a, c, m + n)
    decreases m
  {
    if m > 0 {
      var d :| Edge(g, a, d) && ReachIn(g, d, b, m - 1);
      ReachInAppend(g, d, b, c, m - 1, n);
    }
  }

  lemma ReachTrans(g: Graph, a: string, b: string, c: string)
    requires Reach(g, a, b) && Reach(g, b, c)
    ensures Reach(g, a, c)
  {
    var m: nat :| ReachIn(g, a, b, m);
    var n: nat :| ReachIn(g, b, c, n);
    ReachInAppend(g, a, b, c, m, n);
  }

  lemma {:induction false} ReachInNodes(g: Graph, a: string, b: string, n: nat)
    requires ReachIn(g, a, b, n)
    ensures a in g && b in g
    decreases n
  {
    if n > 0 {
      var c :| Edge(g, a, c) && ReachIn(g, c, b, n - 1);
      ReachInNodes(g, c, b, n - 1);
    }
  }

  lemma ReachNodes(g: Graph, a: string, b: string)
    requires Reach(g, a, b)
    ensures a in g && b in g
  {
    var n: nat :| ReachIn(g, a, b, n);
    ReachInNodes(g, a, b, n);
  }

  /** A path that starts inside `s` and ends outside crosses an edge leaving `s`. */
  lemma {:induction false} ReachInLeaves(g: Graph, s: set<string>, a: string, b: string, n: nat) returns (x: string,
      y: string)
    requires ReachIn(g, a, b, n) && a in s && b !in s
    ensures Reach(g, a, x) && x in s && Edge(g, x, y) && y !in s && Reach(g, y, b)
    decreases n
  {
    ReachInNodes(g, a, b, n);
    var c :| Edge(g, a, c) && ReachIn(g, c, b, n - 1);
    if c in s {
      x, y := ReachInLeaves(g, s, c, b, n - 1);
      ReachEdge(g, a, c);
      ReachTrans(g, a, c, x);
    } else {
      x, y := a, c;
      ReachRefl(g, a);
    }
  }

  lemma ReachLeaves(g: Graph, s: set<string>, a: string, b: string) returns (x: string, y: string)
    requires Reach(g, a, b) && a in s && b !in s
    ensures Reach(g, a, x) && x in s && Edge(g, x, y) && y !in s && Reach(g, y, b)
  {
    var n: nat :| ReachIn(g, a, b, n);
    x, y := ReachInLeaves(g, s, a, b, n);
  }

  lemma ClosedReach(g: Graph, s: set<string>, a: string, b: string)
    requires Closed(g, s) && a in s && Reach(g, a, b)
    ensures b in s
  {
    if b !in s {
      var x, y := ReachLeaves(g, s, a, b);
    }
  }

  /** Two components that share a package are the same component. */
  lemma ComponentsAgree(g: Graph, c: set<string>, d: set<string>, x: string)
    requires IsComponent(g, c) && IsComponent(g, d) && x in c && x in d
    ensures c == d
  {
    forall y ensures y in c <==> y in d {
      if y in c { assert Mutual(g, x, y); }
      if y in d { assert Mutual(g, x, y); }
    }
  }

  ghost function ReachSet(g: Graph, a: string): set<string> {
    set b | b in g && Reach(g, a, b)
  }

  /** Following edges long enough ends in a component nothing leaves. */
  lemma {:induction false} SinkBelow(g: Graph, a: string) returns (c: set<string>)
    requires a in g
    ensures IsComponent(g, c) && Closed(g, c)
    decreases |ReachSet(g, a)|
  {
    c := ReachSet(g, a);
    ReachRefl(g, a);
    assert a in c;
    forall x, y | x in c && Edge(g, x, y) ensures y in c {
      ReachEdge(g, x, y);
      ReachTrans(g, a, x, y);
    }
    if b :| b in c && !Reach(g, b, a) {
      forall x | x in ReachSet(g, b) ensures x in c { ReachTrans(g, a, b, x); }
      assert a !in ReachSet(g, b);
      Smaller(ReachSet(g, b), c, a);
      c := SinkBelow(g, b);
    } else {
      forall x, y | x in c && y in c ensures Reach(g, x, y) { ReachTrans(g, x, a, y); }
      forall x, y | x in c && Mutual(g, x, y) ensures y in c {
        ReachNodes(g, x, y);
        ReachTrans(g, a, x, y);
      }
    }
  }

  lemma Smaller<T>(s: set<T>, t: set<T>, x: T)
    requires s <= t && x in t && x !in s
    ensures |s| < |t|
  {
    var u := t - {x};
    assert s <= u && |u| == |t| - 1;
    SubsetSize(s, u);
  }

  /** Where every package still waits on another, some cycle waits on nothing outside itself. */
  lemma SinkCycleExists(g: Graph) returns (c: set<string>)
    requires g.Keys != {}
    requires forall a | a in g :: exists b :: Edge(g, a, b)
    ensures IsSinkCycle(g, c)
  {
    var a :| a in g;
    c := SinkBelow(g, a);
    var x :| x in c;
    var y :| Edge(g, x, y);
  }
}
