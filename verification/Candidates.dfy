/** The packages a benchmark of the target would install (`discoverBenchmarkCandidates`,
    scripts/benchmark-next-package-dependency.ts:134-165): a queue worked off from the target, proved to
    reach exactly the packages connected to it. */
module Candidates {
  import opened Wrappers
  import opened PackageGraph
  import opened Sorting

  const CORDIS := "@deepseek-ai/cordis"

  /** `optionalPeers` are those `peerDependenciesMeta` marks optional; it may name others too. */
  datatype Manifest =
      Manifest(dependencies: seq<string>, optionalDependencies: seq<string>, peers: seq<string>,
               optionalPeers: set<string>)

  datatype Registry = Registry(index: map<string, map<string, Manifest>>, versions: map<string, string>)

  /** The manifest published for the workspace's version of a package. */
  function ManifestOf(r: Registry, name: string): Option<Manifest> {
    if name in r.versions && name in r.index && r.versions[name] in r.index[name]
    then Some(r.index[name][r.versions[name]]) else None
  }

  /** `m` is published for the version of the package that the workspace holds. */
  ghost predicate Published(r: Registry, name: string, m: Manifest) {
    exists version :: && name in r.versions && r.versions[name] == version
                      && name in r.index && version in r.index[name] && r.index[name][version] == m
  }

  lemma PublishedExactly(r: Registry, name: string, m: Manifest)
    ensures ManifestOf(r, name) == Some(m) <==> Published(r, name, m)
  {}

  /** A release package outside the policy that publishes a peer other than cordis. */
  ghost predicate Candidate(r: Registry, release: set<string>, policy: set<string>, name: string) {
    && name in release && name !in policy
    && exists m, peer :: Published(r, name, m) && peer in m.peers && peer != "@deepseek-ai/cordis"
  }

  lemma WantedExactly(r: Registry, release: set<string>, policy: set<string>, name: string)
    ensures Wanted(r, release, policy, name) <==> Candidate(r, release, policy, name)
  {
    if ManifestOf(r, name).Some? {
      var m := ManifestOf(r, name).value;
      PublishedExactly(r, name, m);
      forall other | Published(r, name, other) ensures other == m { PublishedExactly(r, name, other); }
      if i :| 0 <= i < |m.peers| && m.peers[i] != CORDIS { assert m.peers[i] in m.peers; }
      if peer :| peer in m.peers && peer != CORDIS {
        var i :| 0 <= i < |m.peers| && m.peers[i] == peer;
      }
    } else {
      forall m ensures !Published(r, name, m) { PublishedExactly(r, name, m); }
    }
  }

  function Required(peers: seq<string>, optional: set<string>): (ps: seq<string>)
    ensures forall p :: p in ps <==> p in peers && p !in optional
  {
    if peers == [] then []
    else (if peers[0] in optional then [] else [peers[0]]) + Required(peers[1..], optional)
  }

  /** `{ ...a, ...b }`: the keys of `a`, then those only `b` has. */
  function Spread(a: seq<string>, b: seq<string>): (s: seq<string>)
    ensures forall x :: x in s <==> x in a || x in b
    decreases |b|
  {
    if b == [] then a else Spread(if b[0] in a then a else a + [b[0]], b[1..])
  }

  /** The names installed along with a package (lines 149-154). */
  function Installed(m: Manifest): (s: seq<string>)
    ensures forall x :: x in s <==>
              x in m.dependencies || x in m.optionalDependencies || (x in m.peers && x !in m.optionalPeers)
  {
    Spread(Spread(m.dependencies, m.optionalDependencies), Required(m.peers, m.optionalPeers))
  }

  /** The packages with a manifest, each depending on what is installed along with it. */
  ghost function Links(r: Registry): Graph {
    map n | n in r.versions && ManifestOf(r, n).Some? :: Package(n, n, "", "", Installed(ManifestOf(r, n).value))
  }

  predicate Wanted(r: Registry, release: set<string>, policy: set<string>, name: string) {
    && name !in policy && name in release
    && ManifestOf(r, name).Some? && exists i ::
        0 <= i < |ManifestOf(r, name).value.peers| && ManifestOf(r, name).value.peers[i] != CORDIS
  }

  function Elements(s: seq<string>): set<string> { set n | n in s }

  /** What is known midway: `reached` is connected to the target, and what it needs is reached or queued. */
  ghost predicate Explored(g: Graph, target: string, reached: set<string>, queue: seq<string>, cursor: nat) {
    && cursor <= |queue| && (cursor == 0 || target in reached || target !in g)
    && queue != [] && queue[0] == target
    && (forall n | n in reached :: Reach(g, target, n))
    && (forall i | 0 <= i < |queue| && queue[i] in g :: Reach(g, target, queue[i]))
    && (forall i | 0 <= i < cursor && queue[i] in g :: queue[i] in reached)
    && (forall a, b {:trigger Edge(g, a, b)} | a in reached && Edge(g, a, b) :: b in reached || b in queue)
  }

  method DiscoverBenchmarkCandidates(r: Registry, target: string, release: set<string>, policy: set<string>,
                                     order: (string, string) -> int) returns (candidates: seq<string>)
    requires Consistent(order)
    ensures forall n :: n in candidates <==> Reach(Links(r), target, n) && Candidate(r, release, policy, n)
    ensures Sorted(candidates, order) && Distinct(candidates)
  {
    hide Reach, Links, Wanted, Candidate, SortBy;
    var reached := Explore(r, target, order);
    var kept := Filter(r, release, policy, reached);
    candidates := SortBy(kept, order);
    SortSorted(kept, order);
    SortKeeps(kept, order);
    DistinctMultiset(kept);
    DistinctMultiset(candidates);
    forall n ensures n in candidates <==> n in kept { SortMember(kept, order, n); }
    forall n ensures Wanted(r, release, policy, n) <==> Candidate(r, release, policy, n) {
      WantedExactly(r, release, policy, n);
    }
  }

  /** The queue (lines 141-158). */
  method Explore(r: Registry, target: string, order: (string, string) -> int) returns (reached: seq<string>)
    ensures Distinct(reached) && forall n :: n in reached <==> Reach(Links(r), target, n)
  {
    hide Reach, Installed, SortBy, Explored;
    reached := [];
    var queue := [target];
    var cursor := 0;
    ghost var g := Links(r);
    Starts(g, target);
    assert Elements(reached) == {};
    while cursor < |queue|
      invariant cursor <= |queue| && Explored(g, target, Elements(reached), queue, cursor) && Distinct(reached)
      decreases g.Keys - Elements(reached), |queue| - cursor
    {
      var name := queue[cursor];
      var manifest := ManifestOf(r, name);
      if name in reached || manifest.None? {
        Passes(g, target, Elements(reached), queue, cursor);
      } else {
        ghost var before, queued := Elements(reached), queue;
        reached := reached + [name];
        var dependencies := SortBy(Installed(manifest.value), order);
        queue := Enqueue(queue, dependencies, reached);
        forall d ensures d in dependencies <==> d in g[name].deps { SortMember(Installed(manifest.value), order, d); }
        Extends(g, target, before, name, queued, queue, dependencies, cursor);
        assert Elements(reached) == before + {name};
      }
      cursor := cursor + 1;
    }
    Complete(g, target, Elements(reached), queue);
  }

  lemma Starts(g: Graph, target: string)
    ensures Explored(g, target, {}, [target], 0)
  {
    if target in g { ReachRefl(g, target); }
  }

  lemma Passes(g: Graph, target: string, reached: set<string>, queue: seq<string>, cursor: nat)
    requires Explored(g, target, reached, queue, cursor) && cursor < |queue|
    requires queue[cursor] in reached || queue[cursor] !in g
    ensures Explored(g, target, reached, queue, cursor + 1)
  {}

  /** Queue the dependencies not yet reached (lines 155-157). */
  method Enqueue(queue: seq<string>, dependencies: seq<string>, reached: seq<string>) returns (longer: seq<string>)
    ensures queue <= longer
    ensures forall d | d in dependencies :: d in reached || d in longer
    ensures forall i | |queue| <= i < |longer| :: longer[i] in dependencies
  {
    longer := queue;
    for i := 0 to |dependencies|
      invariant queue <= longer
      invariant forall k | 0 <= k < i :: dependencies[k] in reached || dependencies[k] in longer
      invariant forall k | |queue| <= k < |longer| :: longer[k] in dependencies
    {
      if dependencies[i] !in reached { longer := longer + [dependencies[i]]; }
    }
  }

  method Filter(r: Registry, release: set<string>, policy: set<string>, names: seq<string>) returns (kept: seq<string>)
    requires Distinct(names)
    ensures Distinct(kept) && forall n :: n in kept <==> n in names && Wanted(r, release, policy, n)
  {
    kept := [];
    for i := 0 to |names|
      invariant Distinct(kept) && forall n :: n in kept <==> n in names[..i] && Wanted(r, release, policy, n)
    {
      if Wanted(r, release, policy, names[i]) { kept := kept + [names[i]]; }
    }
  }

  /** Reaching one more package keeps what is known. */
  lemma Extends(g: Graph, target: string, reached: set<string>, name: string, queue: seq<string>, longer: seq<string>,
                dependencies: seq<string>, cursor: nat)
    requires Explored(g, target, reached, queue, cursor) && cursor < |queue| && queue[cursor] == name
    requires name in g && forall d :: d in dependencies <==> d in g[name].deps
    requires queue <= longer && forall i | |queue| <= i < |longer| :: longer[i] in dependencies
    requires forall d | d in dependencies :: d in reached + {name} || d in longer
    ensures Explored(g, target, reached + {name}, longer, cursor + 1)
  {
    hide Reach;
    assert Reach(g, target, name);
    forall i | 0 <= i < |longer| && longer[i] in g ensures Reach(g, target, longer[i]) {
      if i < |queue| {
        assert longer[i] == queue[i];
      } else {
        ReachEdge(g, name, longer[i]);
        ReachTrans(g, target, name, longer[i]);
      }
    }
    forall a, b | a in reached + {name} && Edge(g, a, b) ensures b in reached + {name} || b in longer {
      if a == name { assert b in dependencies; }
    }
  }

  /** With the queue worked off, exactly the connected packages are reached. */
  lemma Complete(g: Graph, target: string, reached: set<string>, queue: seq<string>)
    requires Explored(g, target, reached, queue, |queue|)
    ensures forall n :: n in reached <==> Reach(g, target, n)
  {
    hide Reach;
    assert Closed(g, reached);
    forall n | Reach(g, target, n) ensures n in reached {
      ReachNodes(g, target, n);
      ClosedReach(g, reached, target, n);
    }
  }
}
