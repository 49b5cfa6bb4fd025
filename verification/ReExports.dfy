/** Finding an exported type through re-export chains (`findExportedTypeDecl`,
    scripts/gen-config-catalog.ts:321-345). */
module ReExports {
  import opened Wrappers

  /** `export * from` a file, `export { name as exported } from` a file, or a statement the search skips. */
  datatype Export = Star(target: string) | Named(target: string, elements: seq<Specifier>) | Skipped

  datatype Specifier = Specifier(exported: string, name: string)

  /** The types a file declares itself and what it re-exports. */
  datatype File = File(locals: set<string>, exports: seq<Export>)

  /** A file and the name looked for in it. */
  datatype Query = Query(file: string, name: string)

  /** Every re-export leads to a file that can be loaded. */
  ghost predicate Loadable(files: map<string, File>) {
    forall f, i | f in files && 0 <= i < |files[f].exports| && !files[f].exports[i].Skipped? ::
      files[f].exports[i].target in files
  }

  function FindSpecifier(elements: seq<Specifier>, name: string): Option<string> {
    if elements == [] then None
    else if elements[0].exported == name then Some(elements[0].name)
    else FindSpecifier(elements[1..], name)
  }

  /** The name to look for behind an export statement (lines 331-339). */
  function LookFor(e: Export, name: string): Option<Query> {
    match e
    case Star(target) => Some(Query(target, name))
    case Named(target, elements) => (
      match FindSpecifier(elements, name)
      case Some(n) => Some(Query(target, n))
      case None => None)
    case Skipped => None
  }

  /** The first specifier that exports something under the name. */
  predicate Exports(elements: seq<Specifier>, name: string, j: nat) {
    j < |elements| && elements[j].exported == name && forall l | 0 <= l < j :: elements[l].exported != name
  }

  lemma {:induction false} SpecifierExactly(elements: seq<Specifier>, name: string)
    ensures FindSpecifier(elements, name).None? <==> forall j | 0 <= j < |elements| :: elements[j].exported != name
    ensures forall j | 0 <= j < |elements| && Exports(elements, name, j) ::
              FindSpecifier(elements, name) == Some(elements[j].name)
  {
    if elements != [] {
      SpecifierExactly(elements[1..], name);
      assert forall i | 0 < i < |elements| :: elements[i] == elements[1..][i - 1];
      forall j | 0 < j < |elements| && Exports(elements, name, j) ensures Exports(elements[1..], name, j - 1) {
        assert forall l | 0 <= l < j - 1 :: elements[1..][l] == elements[l + 1];
      }
      if elements[0].exported != name {
        forall j | 0 <= j < |elements| && Exports(elements, name, j)
          ensures FindSpecifier(elements, name) == Some(elements[j].name)
        {
          assert Exports(elements[1..], name, j - 1);
        }
      }
    }
  }

  /** `export *` keeps the name asked for; `export { name as exported }` asks for `name` in the target when its
      first specifier of that exported name is met. */
  lemma LooksForExactly(e: Export, name: string)
    ensures e.Star? ==> LookFor(e, name) == Some(Query(e.target, name))
    ensures e.Skipped? ==> LookFor(e, name) == None
    ensures e.Named? ==>
              && (LookFor(e, name) == None <==> forall j | 0 <= j < |e.elements| :: e.elements[j].exported != name)
              && forall j | 0 <= j < |e.elements| && Exports(e.elements, name, j) ::
                   LookFor(e, name) == Some(Query(e.target, e.elements[j].name))
  {
    if e.Named? {
      SpecifierExactly(e.elements, name);
      hide Exports, FindSpecifier;
    }
  }

  ghost predicate Declared(files: map<string, File>, q: Query) {
    q.file in files && q.name in files[q.file].locals
  }

  ghost predicate Step(files: map<string, File>, q: Query, r: Query) {
    q.file in files && exists i ::
        0 <= i < |files[q.file].exports| && LookFor(files[q.file].exports[i], q.name) == Some(r)
  }

  ghost predicate Leads(files: map<string, File>, q: Query, r: Query, n: nat)
    decreases n
  {
    if n == 0 then q == r else exists s :: Step(files, q, s) && Leads(files, s, r, n - 1)
  }

  // ----- The search -----

  /** The names in play: the one asked for and every name a specifier stands for. */
  function SpecifierNames(elements: seq<Specifier>): set<string> {
    set i | 0 <= i < |elements| :: elements[i].name
  }

  ghost function NamesIn(files: map<string, File>): set<string> {
    set f, i, n | f in files && 0 <= i < |files[f].exports| && files[f].exports[i].Named?
                  && n in SpecifierNames(files[f].exports[i].elements) :: n
  }

  ghost function Queries(files: map<string, File>, names: set<string>): set<Query> {
    set f, n | f in files && n in names :: Query(f, n)
  }

  ghost predicate ClosedNames(files: map<string, File>, names: set<string>) { NamesIn(files) <= names }

  lemma {:induction false} SpecifierNamed(elements: seq<Specifier>, name: string)
    requires FindSpecifier(elements, name).Some?
    ensures FindSpecifier(elements, name).value in SpecifierNames(elements)
  {
    if elements[0].exported == name {
      assert elements[0].name in SpecifierNames(elements);
    } else {
      SpecifierNamed(elements[1..], name);
      var i :| 0 <= i < |elements[1..]| && elements[1..][i].name == FindSpecifier(elements, name).value;
      assert elements[i + 1].name in SpecifierNames(elements);
    }
  }

  lemma StepStays(files: map<string, File>, names: set<string>, q: Query, i: nat)
    requires ClosedNames(files, names) && q in Queries(files, names)
    requires i < |files[q.file].exports| && LookFor(files[q.file].exports[i], q.name).Some?
    requires LookFor(files[q.file].exports[i], q.name).value.file in files
    ensures LookFor(files[q.file].exports[i], q.name).value in Queries(files, names)
  {
    var e := files[q.file].exports[i];
    if e.Named? {
      SpecifierNamed(e.elements, q.name);
      assert FindSpecifier(e.elements, q.name).value in NamesIn(files);
    }
  }

  /** The declaring file and name, nothing, or the file that cannot be loaded, over which the script throws. */
  datatype Answer = Hit(query: Query) | Miss | Absent(file: string)

  /** What the search answers, and everything it has entered. */
  datatype Search = Search(answer: Answer, seen: set<Query>)

  function Find(files: map<string, File>, q: Query, seen: set<Query>, ghost names: set<string>): (r: Search)
    requires ClosedNames(files, names) && q in Queries(files, names)
    ensures seen <= r.seen
    decreases Queries(files, names) - seen, 1, 0
  {
    if q in seen then Search(Miss, seen)
    else if q.name in files[q.file].locals then Search(Hit(q), seen + {q})
    else FindFrom(files, q, 0, seen + {q}, names)
  }

  /** The export statements of a file from position `i` on (lines 328-341). */
  function FindFrom(files: map<string, File>, q: Query, i: nat, seen: set<Query>, ghost names: set<string>): (r: Search)
    requires ClosedNames(files, names) && q in Queries(files, names) && q in seen
    requires i <= |files[q.file].exports|
    ensures seen <= r.seen
    decreases Queries(files, names) - seen, 2, |files[q.file].exports| - i
  {
    var exports := files[q.file].exports;
    if i == |exports| then Search(Miss, seen)
    else
      match LookFor(exports[i], q.name)
      case None => FindFrom(files, q, i + 1, seen, names)
      case Some(next) =>
        if next.file !in files then Search(Absent(next.file), seen)
        else
          StepStays(files, names, q, i);
          var r := Find(files, next, seen, names);
          if r.answer != Miss then r else FindFrom(files, q, i + 1, r.seen, names)
  }

  /** `findExportedTypeDecl`; the set it shares between calls is handed in and back. */
  method FindExportedTypeDecl(files: map<string, File>, q: Query, entered: set<Query>, ghost names: set<string>)
    returns (answer: Answer, seen: set<Query>)
    requires ClosedNames(files, names) && q in Queries(files, names)
    ensures Search(answer, seen) == Find(files, q, entered, names)
    decreases Queries(files, names) - entered
  {
    seen := entered;
    if q in seen { return Miss, seen; }
    seen := seen + {q};
    if q.name in files[q.file].locals { return Hit(q), seen; }
    var exports := files[q.file].exports;
    for i := 0 to |exports|
      invariant entered + {q} <= seen
      invariant FindFrom(files, q, i, seen, names) == Find(files, q, entered, names)
    {
      var next := LookFor(exports[i], q.name);
      if next.Some? {
        if next.value.file !in files { return Absent(next.value.file), seen; }
        StepStays(files, names, q, i);
        answer, seen := FindExportedTypeDecl(files, next.value, seen, names);
        if answer != Miss { return answer, seen; }
      }
    }
    return Miss, seen;
  }

  // ----- What the answers mean -----

  lemma LeadsStep(files: map<string, File>, q: Query, s: Query, r: Query, n: nat)
    requires Step(files, q, s) && Leads(files, s, r, n)
    ensures Leads(files, q, r, n + 1)
  { }

  /** `d` bears an answer out: it is the declaration hit, or a query for the file that is absent. */
  ghost predicate Bears(files: map<string, File>, answer: Answer, d: Query) {
    match answer
    case Hit(query) => d == query && Declared(files, d)
    case Miss => true
    case Absent(file) => d.file == file && file !in files
  }

  /** Re-exports lead to what is hit, and to the file that is absent. */
  lemma {:induction false} AnswerIsReached(files: map<string, File>, q: Query, seen: set<Query>, names: set<string>)
    returns (d: Query, n: nat)
    requires ClosedNames(files, names) && q in Queries(files, names)
    requires Find(files, q, seen, names).answer != Miss
    ensures Bears(files, Find(files, q, seen, names).answer, d) && Leads(files, q, d, n)
    decreases Queries(files, names) - seen, 1, 0
  {
    if q.name in files[q.file].locals {
      d, n := q, 0;
    } else {
      d, n := AnswerFrom(files, q, 0, seen + {q}, names);
    }
  }

  lemma {:induction false} AnswerFrom(files: map<string, File>, q: Query, i: nat, seen: set<Query>, names: set<string>)
    returns (d: Query, n: nat)
    requires ClosedNames(files, names) && q in Queries(files, names) && q in seen
    requires i <= |files[q.file].exports| && FindFrom(files, q, i, seen, names).answer != Miss
    ensures Bears(files, FindFrom(files, q, i, seen, names).answer, d) && Leads(files, q, d, n)
    decreases Queries(files, names) - seen, 2, |files[q.file].exports| - i
  {
    match LookFor(files[q.file].exports[i], q.name)
    case None => d, n := AnswerFrom(files, q, i + 1, seen, names);
    case Some(next) =>
      if next.file !in files {
        assert Leads(files, next, next, 0);
        LeadsStep(files, q, next, next, 0);
        d, n := next, 1;
      } else {
        StepStays(files, names, q, i);
        var r := Find(files, next, seen, names);
        if r.answer != Miss {
          d, n := AnswerIsReached(files, next, seen, names);
          LeadsStep(files, q, next, d, n);
          n := n + 1;
        } else {
          d, n := AnswerFrom(files, q, i + 1, r.seen, names);
        }
      }
  }

  /** The queries of `s` can be loaded, declare nothing and lead only into `t`. */
  ghost predicate Exhausted(files: map<string, File>, s: set<Query>, t: set<Query>) {
    forall q | q in s :: q.file in files && !Declared(files, q) && forall r | Step(files, q, r) :: r in t
  }

  /** After a miss, everything newly entered has been followed to its end. */
  lemma {:induction false} MissExhausts(files: map<string, File>, q: Query, seen: set<Query>, names: set<string>)
    requires ClosedNames(files, names) && q in Queries(files, names)
    requires Find(files, q, seen, names).answer == Miss
    ensures var t := Find(files, q, seen, names).seen; q in t && Exhausted(files, t - seen, t)
    decreases Queries(files, names) - seen, 1, 0
  {
    if q !in seen {
      MissFrom(files, q, 0, seen + {q}, names);
      var t := Find(files, q, seen, names).seen;
      assert t - seen == (t - (seen + {q})) + {q};
      assert Exhausted(files, {q}, t);
    }
  }

  lemma {:induction false} MissFrom(files: map<string, File>, q: Query, i: nat, seen: set<Query>, names: set<string>)
    requires ClosedNames(files, names) && q in Queries(files, names) && q in seen
    requires i <= |files[q.file].exports| && FindFrom(files, q, i, seen, names).answer == Miss
    ensures var t := FindFrom(files, q, i, seen, names).seen;
            && Exhausted(files, t - seen, t)
            && forall j | i <= j < |files[q.file].exports| && LookFor(files[q.file].exports[j], q.name).Some? ::
                 LookFor(files[q.file].exports[j], q.name).value in t
    decreases Queries(files, names) - seen, 2, |files[q.file].exports| - i
  {
    if i < |files[q.file].exports| {
      match LookFor(files[q.file].exports[i], q.name)
      case None => MissFrom(files, q, i + 1, seen, names);
      case Some(next) =>
        StepStays(files, names, q, i);
        MissExhausts(files, next, seen, names);
        MissFrom(files, q, i + 1, Find(files, next, seen, names).seen, names);
    }
  }

  lemma {:induction false} ExhaustedLeads(files: map<string, File>, t: set<Query>, q: Query, r: Query, n: nat)
    requires Exhausted(files, t, t) && q in t && Leads(files, q, r, n)
    ensures r in t
    decreases n
  {
    if n > 0 {
      var s :| Step(files, q, s) && Leads(files, s, r, n - 1);
      ExhaustedLeads(files, t, s, r, n - 1);
    }
  }

  /** `findExportedTypeDecl` as it is first called. */
  function FindExported(files: map<string, File>, q: Query): Answer
    requires q.file in files
  {
    Find(files, q, {}, NamesIn(files) + {q.name}).answer
  }

  ghost predicate LeadsTo(files: map<string, File>, q: Query, d: Query) { exists n: nat :: Leads(files, q, d, n) }

  /** What the search finds is declared where some chain of re-exports leads; what it trips over is a file some
      chain leads to that cannot be loaded; and when it finds nothing, every chain stays among files that can,
      none of which declares the name looked for there. Cycles do not matter. */
  lemma FindsExactly(files: map<string, File>, q: Query)
    requires q.file in files
    ensures FindExported(files, q).Hit? ==>
              var d := FindExported(files, q).query; Declared(files, d) && LeadsTo(files, q, d)
    ensures FindExported(files, q).Absent? ==>
              var file := FindExported(files, q).file; file !in files && exists name ::
                  LeadsTo(files, q, Query(file, name))
    ensures FindExported(files, q) == Miss <==>
              forall d | LeadsTo(files, q, d) :: d.file in files && !Declared(files, d)
  {
    var names := NamesIn(files) + {q.name};
    var r := Find(files, q, {}, names);
    if r.answer != Miss {
      var d, n := AnswerIsReached(files, q, {}, names);
      assert d == Query(d.file, d.name) && LeadsTo(files, q, d);
    } else {
      MissExhausts(files, q, {}, names);
      assert r.seen - {} == r.seen;
      forall d, n: nat | Leads(files, q, d, n) ensures d.file in files && !Declared(files, d) {
        ExhaustedLeads(files, r.seen, q, d, n);
      }
    }
  }

  /** When every re-exported file can be loaded, a declaration is found exactly when some chain leads to one. */
  lemma FindsWhenLoadable(files: map<string, File>, q: Query)
    requires Loadable(files) && q.file in files
    ensures FindExported(files, q).Hit? <==> exists d :: Declared(files, d) && LeadsTo(files, q, d)
  {
    FindsExactly(files, q);
    forall d, n: nat | Leads(files, q, d, n) ensures d.file in files { StaysLoaded(files, q, d, n); }
  }

  lemma {:induction false} StaysLoaded(files: map<string, File>, q: Query, d: Query, n: nat)
    requires Loadable(files) && q.file in files && Leads(files, q, d, n)
    ensures d.file in files
    decreases n
  {
    if n > 0 {
      var s :| Step(files, q, s) && Leads(files, s, d, n - 1);
      StaysLoaded(files, s, d, n - 1);
    }
  }
}
