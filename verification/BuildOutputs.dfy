/** The build output directories the cleaner may delete (`buildOutputDirectories`,
    scripts/clean.ts:120-154): a stack worked off from the root config, proved to collect exactly the
    outputs of the configs project references reach, or to refuse because one of them is unacceptable. */
module BuildOutputs {
  import opened Wrappers
  import opened PackageGraph

  /** An absolute path, segment by segment. */
  type Path = seq<string>

  /** A parsed config: where it emits, and the configs it references, by resolved path. */
  datatype Config = Config(outDir: Option<Path>, references: seq<string>)

  datatype Failure = Unparsed(config: string) | NotTypes(directory: Path) | OutsideRepository(directory: Path)

  /** The directory to delete for a config, or why there is none. */
  function OutputOf(root: Path, native: Path, outDir: Path): Result<Path, Failure> {
    var output := if outDir != [] && outDir[|outDir| - 1] == "types" then Some(outDir[..|outDir| - 1])
                  else if outDir == native then Some(outDir) else None;
    match output
    case None => Err(NotTypes(outDir))
    case Some(directory) => if root < directory then Ok(directory) else Err(OutsideRepository(directory))
  }

  /** `d` lies below the repository's root. */
  predicate Below(root: Path, d: Path) { |root| < |d| && d[..|root|] == root }

  /** The directory a config's outputs go to: the parent of its `types` directory, or the native entry's own one. */
  predicate Stores(native: Path, outDir: Path, d: Path) {
    outDir == d + ["types"] || (outDir == native == d && !(outDir != [] && outDir[|outDir| - 1] == "types"))
  }

  /** A config is cleaned by deleting that directory, exactly if there is one and it lies in the repository; the
      error tells which of the two fails. */
  lemma OutputExactly(root: Path, native: Path, outDir: Path)
    ensures forall d :: OutputOf(root, native, outDir) == Ok(d) <==> Stores(native, outDir, d) && Below(root, d)
    ensures OutputOf(root, native, outDir) == Err(NotTypes(outDir)) <==> forall d :: !Stores(native, outDir, d)
    ensures forall d :: OutputOf(root, native, outDir) == Err(OutsideRepository(d))
                   <==> Stores(native, outDir, d) && !Below(root, d)
  {
    forall d ensures Stores(native, outDir, d) <==>
                     if outDir != [] && outDir[|outDir| - 1] == "types" then d == outDir[..|outDir| - 1]
                     else outDir == native == d
    {
      if outDir != [] && outDir[|outDir| - 1] == "types" {
        assert outDir == outDir[..|outDir| - 1] + ["types"];
        if outDir == d + ["types"] { assert outDir[..|outDir| - 1] == d; }
      }
    }
    hide Stores;
    forall d: Path ensures root < d <==> Below(root, d) { }
    if outDir != [] && outDir[|outDir| - 1] == "types" { assert Stores(native, outDir, outDir[..|outDir| - 1]); }
    else if outDir == native { assert Stores(native, outDir, outDir); }
  }

  /** The configs and their references, as a graph of names. */
  ghost function Links(configs: map<string, Config>): Graph {
    map c | c in configs :: Package(c, c, "", "", configs[c].references)
  }

  ghost predicate Reached(configs: map<string, Config>, start: string, c: string) { Reach(Links(configs), start, c) }

  predicate Refers(configs: map<string, Config>, a: string, c: string) { a in configs && c in configs[a].references }

  /** The walk comes to ask for `c`, parsed or not. */
  ghost predicate Asked(configs: map<string, Config>, start: string, c: string) {
    c == start || exists a :: Reached(configs, start, a) && Refers(configs, a, c)
  }

  datatype Repository = Repository(root: Path, native: Path, configs: map<string, Config>, start: string)

  predicate Acceptable(r: Repository, c: string) {
    c in r.configs && (r.configs[c].outDir.Some? ==> OutputOf(r.root, r.native, r.configs[c].outDir.value).Ok?)
  }

  /** `directory` is where some reached config emits. */
  ghost predicate IsOutput(r: Repository, directory: Path) {
    exists c :: Emits(r, c, directory) && Reached(r.configs, r.start, c)
  }

  predicate Emits(r: Repository, c: string, directory: Path) {
    c in r.configs && r.configs[c].outDir.Some? &&
        OutputOf(r.root, r.native, r.configs[c].outDir.value) == Ok(directory)
  }

  /** The error a config is refused with. */
  predicate Refused(r: Repository, c: string, e: Failure) {
    if c !in r.configs then e == Unparsed(c)
    else r.configs[c].outDir.Some? && OutputOf(r.root, r.native, r.configs[c].outDir.value) == Err(e)
  }

  // ----- What is known midway -----

  ghost predicate Walked(r: Repository, visited: set<string>, pending: seq<string>, outputs: set<Path>) {
    && (r.start in visited || r.start in pending)
    && (forall c | c in visited :: Acceptable(r, c) && Reached(r.configs, r.start, c))
    && (forall c | c in pending :: Asked(r.configs, r.start, c))
    && (forall a, c {:trigger Refers(r.configs, a, c)} | a in visited && Refers(r.configs, a, c) ::
        c in visited || c in pending)
    && (forall d :: d in outputs <==> exists c :: c in visited && Emits(r, c, d))
  }

  lemma AskedReached(r: Repository, c: string)
    requires Asked(r.configs, r.start, c) && c in r.configs
    ensures Reached(r.configs, r.start, c)
  {
    var g := Links(r.configs);
    if c == r.start {
      ReachRefl(g, c);
    } else {
      var a :| Reached(r.configs, r.start, a) && Refers(r.configs, a, c);
      ReachNodes(g, r.start, a);
      ReachEdge(g, a, c);
      ReachTrans(g, r.start, a, c);
    }
  }

  lemma Visits(r: Repository, visited: set<string>, pending: seq<string>, outputs: set<Path>, more: set<Path>)
    requires pending != [] && Walked(r, visited, pending, outputs) && Acceptable(r, pending[|pending| - 1])
    requires forall d :: d in more <==> Emits(r, pending[|pending| - 1], d)
    ensures var c := pending[|pending| - 1];
            Walked(r, visited + {c}, pending[..|pending| - 1] + r.configs[c].references, outputs + more)
  {
    hide Reached, OutputOf, Emits;
    var c := pending[|pending| - 1];
    var rest := pending[..|pending| - 1] + r.configs[c].references;
    assert Asked(r.configs, r.start, c);
    AskedReached(r, c);
    assert forall x :: x in pending ==> x == c || x in pending[..|pending| - 1];
    assert forall x :: x in rest ==> x in pending || Refers(r.configs, c, x);
    forall a, x | a in visited + {c} && Refers(r.configs, a, x) ensures x in visited + {c} || x in rest {
      if a in visited { assert x in visited || x in pending; }
    }
  }

  /** With nothing pending, the visited configs are those reached, and all that was asked for is acceptable. */
  lemma Complete(r: Repository, visited: set<string>, outputs: set<Path>)
    requires Walked(r, visited, [], outputs)
    ensures forall d :: d in outputs <==> IsOutput(r, d)
    ensures forall c | Asked(r.configs, r.start, c) :: Acceptable(r, c)
  {
    hide Emits;
    var g := Links(r.configs);
    forall c | Reached(r.configs, r.start, c) ensures c in visited {
      assert Closed(g, visited) by {
        forall a, b | a in visited && Edge(g, a, b) ensures b in visited { assert Refers(r.configs, a, b); }
      }
      ClosedReach(g, visited, r.start, c);
    }
    forall c | Asked(r.configs, r.start, c) ensures Acceptable(r, c) {
      if c != r.start {
        var a :| Reached(r.configs, r.start, a) && Refers(r.configs, a, c);
      }
    }
  }

  method BuildOutputDirectories(r: Repository) returns (result: Result<set<Path>, Failure>)
    ensures result.Ok? <==> forall c | Asked(r.configs, r.start, c) :: Acceptable(r, c)
    ensures result.Ok? ==> forall d :: d in result.value <==> IsOutput(r, d)
    ensures result.Ok? ==> forall d | d in result.value :: r.root < d
    ensures result.Err? ==> exists c :: Asked(r.configs, r.start, c) && Refused(r, c, result.error)
  {
    hide Asked, Reached, OutputOf, IsOutput, Walked;
    var outputs: set<Path> := {};
    var pending := [r.start];
    var visited: set<string> := {};
    Begins(r);
    while pending != []
      invariant Walked(r, visited, pending, outputs)
      decreases r.configs.Keys - visited, |pending|
    {
      ghost var stack := pending;
      var config := pending[|pending| - 1];
      pending := pending[..|pending| - 1];
      Pops(r, visited, stack, outputs);
      if config in visited { continue; }
      if config !in r.configs { return Err(Unparsed(config)); }
      var parsed := r.configs[config];
      if parsed.outDir.Some? {
        var output := OutputOf(r.root, r.native, parsed.outDir.value);
        if output.Err? { return Err(output.error); }
        Visits(r, visited, stack, outputs, {output.value});
        outputs := outputs + {output.value};
      } else {
        Visits(r, visited, stack, outputs, {});
        assert outputs + {} == outputs;
      }
      visited := visited + {config};
      pending := pending + parsed.references;
    }
    Complete(r, visited, outputs);
    forall d | d in outputs ensures r.root < d { OutputInside(r, d); }
    return Ok(outputs);
  }

  lemma OutputInside(r: Repository, directory: Path)
    requires IsOutput(r, directory)
    ensures r.root < directory
  {}

  lemma Begins(r: Repository)
    ensures Walked(r, {}, [r.start], {})
  {}

  lemma Pops(r: Repository, visited: set<string>, pending: seq<string>, outputs: set<Path>)
    requires pending != [] && Walked(r, visited, pending, outputs)
    ensures Asked(r.configs, r.start, pending[|pending| - 1])
    ensures pending[|pending| - 1] in visited ==> Walked(r, visited, pending[..|pending| - 1], outputs)
  {
    var c := pending[|pending| - 1];
    assert forall x :: x in pending ==> x == c || x in pending[..|pending| - 1];
  }
}
