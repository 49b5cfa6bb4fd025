/** Validating the chain of session format migrations (`collectSessionFormatMigrations`,
    scripts/gen-session-format-catalog.ts:82-170), from the point where each manifest has been read. */
module SessionMigrations {
  import opened Wrappers
  import opened Sorting

  /** `dependencies` are those of the migration's own manifest. */
  datatype Declaration =
      Declaration(name: string, from: nat, target: nat, sourceCodec: string, targetCodec: string,
                  dependencies: set<string>)

  datatype Failure =
    | NotAdjacent(name: string)
    | NotExactlyOne(version: nat, found: nat)
    | WrongInventory
    | CatalogLacks(name: string)
    | CodecBreaks(from: nat)
    | LacksPrevious(name: string)

  /** One migration per version from 0 up to the current one, each continuing the one before. */
  ghost predicate IsChain(ds: seq<Declaration>, current: nat, catalog: set<string>) {
    |ds| == current && forall i | 0 <= i < |ds| :: Continues(ds, i, catalog)
  }

  predicate Continues(ds: seq<Declaration>, i: nat, catalog: set<string>)
    requires i < |ds|
  {
    && ds[i].from == i && ds[i].target == i + 1 && ds[i].name in catalog
    && (i > 0 ==> ds[i].sourceCodec == ds[i - 1].targetCodec && ds[i - 1].name in ds[i].dependencies)
  }

  /** Some order of the declarations is a chain. */
  ghost predicate Chainable(items: seq<Declaration>, current: nat, catalog: set<string>) {
    exists ds :: multiset(ds) == multiset(items) && IsChain(ds, current, catalog)
  }

  function ByFrom(): (Declaration, Declaration) -> int {
    (a: Declaration, b: Declaration) => a.from - b.from
  }

  /** How many declarations start at a version: `filter(...).length`. */
  function Matches(ds: seq<Declaration>, version: nat): nat {
    if ds == [] then 0 else Matches(ds[..|ds| - 1], version) + if ds[|ds| - 1].from == version then 1 else 0
  }

  ghost predicate OnePerVersion(ds: seq<Declaration>,
                                current: nat) { forall v: nat | v < current :: Matches(ds, v) == 1 }

  lemma {:induction false} MatchesAt(ds: seq<Declaration>, version: nat)
    ensures Matches(ds, version) > 0 <==> exists i :: 0 <= i < |ds| && ds[i].from == version
    ensures Matches(ds, version) > 1 <==> exists i, j :: 0 <= i < j < |ds| && ds[i].from == version == ds[j].from
  {
    if ds != [] {
      var init := ds[..|ds| - 1];
      MatchesAt(init, version);
      assert forall i | 0 <= i < |init| :: init[i] == ds[i];
    }
  }

  ghost predicate InOrder(ds: seq<Declaration>) { forall i, j | 0 <= i < j < |ds| :: ds[i].from <= ds[j].from }

  /** Sorted, exactly one per version and none beyond, the declarations stand at their own versions. */
  lemma {:induction false} Aligned(ds: seq<Declaration>, current: nat)
    requires InOrder(ds) && |ds| == current && OnePerVersion(ds, current)
    requires forall i | 0 <= i < |ds| :: ds[i].from < current
    ensures forall i | 0 <= i < |ds| :: ds[i].from == i
  {
    if current > 0 {
      var n := current - 1;
      MatchesAt(ds, n);
      var at :| 0 <= at < |ds| && ds[at].from == n;
      assert ds[n].from == n;
      var init := ds[..n];
      forall v: nat | v < n ensures Matches(init, v) == 1 { assert Matches(ds, v) == 1; }
      forall i | 0 <= i < |init| ensures init[i].from < n {
        assert ds[i].from != n;
      }
      Aligned(init, n);
      assert forall i | 0 <= i < n :: init[i] == ds[i];
    }
  }

  function Without(ds: seq<Declaration>, k: nat): seq<Declaration>
    requires k < |ds|
  {
    ds[..k] + ds[k + 1..]
  }

  lemma {:induction false} MatchesConcat(a: seq<Declaration>, b: seq<Declaration>, v: nat)
    ensures Matches(a + b, v) == Matches(a, v) + Matches(b, v)
  {
    if b == [] {
      assert a + b == a;
    } else {
      var init := b[..|b| - 1];
      assert (a + b)[..|a + b| - 1] == a + init;
      MatchesConcat(a, init, v);
    }
  }

  lemma MatchesWithout(ds: seq<Declaration>, k: nat, v: nat)
    requires k < |ds|
    ensures Matches(ds, v) == Matches(Without(ds, k), v) + if ds[k].from == v then 1 else 0
  {
    assert ds == ds[..k] + ([ds[k]] + ds[k + 1..]);
    MatchesConcat(ds[..k], [ds[k]] + ds[k + 1..], v);
    MatchesConcat([ds[k]], ds[k + 1..], v);
    MatchesConcat(ds[..k], ds[k + 1..], v);
    assert [ds[k]][..0] == [];
  }

  /** Exactly one per version and no more declarations than versions leave none beyond: the search for
      an extra one (line 132) never decides anything the counts have not. */
  lemma {:induction false} NoneBeyond(ds: seq<Declaration>, current: nat)
    requires |ds| == current && OnePerVersion(ds, current)
    ensures forall i | 0 <= i < |ds| :: ds[i].from < current
  {
    if current > 0 {
      var n := current - 1;
      MatchesAt(ds, n);
      var at :| 0 <= at < |ds| && ds[at].from == n;
      var rest := Without(ds, at);
      forall v: nat | v < n ensures Matches(rest, v) == 1 { MatchesWithout(ds, at, v); }
      NoneBeyond(rest, n);
      forall i | 0 <= i < |ds| ensures ds[i].from < current {
        if i < at { assert rest[i] == ds[i]; } else if i > at { assert rest[i - 1] == ds[i]; }
      }
    }
  }

  // ----- The checks -----

  method Collect(items: seq<Declaration>, current: nat, catalog: set<string>) returns (r: Result<seq<Declaration>,
                                                                                       Failure>)
    ensures r.Ok? <==> Chainable(items, current, catalog)
    ensures r.Ok? ==> IsChain(r.value, current, catalog) && multiset(r.value) == multiset(items)
  {
    hide Chainable, IsChain, Continues, OnePerVersion, SortBy, Matches, InOrder;
    for i := 0 to |items|
      invariant forall k | 0 <= k < i :: items[k].target == items[k].from + 1
    {
      if items[i].target != items[i].from + 1 {
        BadItem(items, i, current, catalog);
        return Err(NotAdjacent(items[i].name));
      }
    }
    var declarations := SortBy(items, ByFrom());
    SortedByFrom(items);
    for version := 0 to current
      invariant forall v: nat | v < version :: Matches(declarations, v) == 1
    {
      var found := CountFrom(declarations, version);
      if found != 1 {
        BadCount(items, declarations, version, current, catalog);
        return Err(NotExactlyOne(version, found));
      }
    }
    var extra := exists i :: 0 <= i < |declarations| && declarations[i].from >= current;
    if extra || |declarations| != current {
      BadInventory(items, declarations, current, catalog);
      return Err(WrongInventory);
    }
    OneEach(declarations, current);
    Aligned(declarations, current);
    Adjacent(items, declarations);
    for index := 0 to |declarations|
      invariant forall k | 0 <= k < index :: Continues(declarations, k, catalog)
    {
      var declaration := declarations[index];
      Decisive(items, declarations, index, current, catalog);
      if declaration.name !in catalog { return Err(CatalogLacks(declaration.name)); }
      if index > 0 {
        var previous := declarations[index - 1];
        if declaration.sourceCodec != previous.targetCodec { return Err(CodecBreaks(declaration.from)); }
        if previous.name !in declaration.dependencies { return Err(LacksPrevious(declaration.name)); }
      }
      Good(declarations, index, catalog);
    }
    Accept(items, declarations, current, catalog);
    return Ok(declarations);
  }

  method CountFrom(ds: seq<Declaration>, version: nat) returns (found: nat)
    ensures found == Matches(ds, version)
  {
    found := 0;
    for i := 0 to |ds|
      invariant found == Matches(ds[..i], version)
    {
      assert ds[..i + 1][..i] == ds[..i];
      if ds[i].from == version { found := found + 1; }
    }
    assert ds[..|ds|] == ds;
  }

  lemma ByFromConsistent()
    ensures Consistent(ByFrom())
  {}

  lemma SortedByFrom(items: seq<Declaration>)
    ensures var ds := SortBy(items, ByFrom()); multiset(ds) == multiset(items) && InOrder(ds)
  {
    ByFromConsistent();
    SortSorted(items, ByFrom());
    SortKeeps(items, ByFrom());
  }

  lemma SameMembers(a: seq<Declaration>, b: seq<Declaration>, x: Declaration)
    requires multiset(a) == multiset(b)
    ensures x in a <==> x in b
  {
    assert x in multiset(a) <==> x in multiset(b);
  }

  lemma MultisetWithout(ds: seq<Declaration>, k: nat)
    requires k < |ds|
    ensures multiset(ds) == multiset(Without(ds, k)) + multiset{ds[k]}
  {
    assert ds == ds[..k] + ([ds[k]] + ds[k + 1..]);
  }

  lemma Cancel<T>(x: multiset<T>, y: multiset<T>, e: T)
    requires x + multiset{e} == y + multiset{e}
    ensures x == y
  {
    assert x == (x + multiset{e}) - multiset{e};
  }

  lemma {:induction false} MatchesMultiset(a: seq<Declaration>, b: seq<Declaration>, v: nat)
    requires multiset(a) == multiset(b)
    ensures Matches(a, v) == Matches(b, v)
  {
    if a == [] {
      assert |multiset(b)| == 0;
    } else {
      var n := |a| - 1;
      SameMembers(a, b, a[n]);
      var k :| 0 <= k < |b| && b[k] == a[n];
      assert a == a[..n] + [a[n]];
      assert multiset(a) == multiset(a[..n]) + multiset{a[n]};
      MultisetWithout(b, k);
      Cancel(multiset(a[..n]), multiset(Without(b, k)), a[n]);
      MatchesMultiset(a[..n], Without(b, k), v);
      MatchesWithout(b, k, v);
    }
  }

  /** In a chain each version occurs once and none is beyond. */
  lemma ChainCounts(ds: seq<Declaration>, current: nat, catalog: set<string>)
    requires IsChain(ds, current, catalog)
    ensures OnePerVersion(ds, current) && forall i | 0 <= i < |ds| ::
              ds[i].from < current && ds[i].target == ds[i].from + 1
  {
    forall i | 0 <= i < |ds| ensures ds[i].from == i && ds[i].target == i + 1 { assert Continues(ds, i, catalog); }
    forall v: nat | v < current ensures Matches(ds, v) == 1 {
      assert ds[v].from == v;
      MatchesAt(ds, v);
    }
  }

  lemma BadItem(items: seq<Declaration>, i: nat, current: nat, catalog: set<string>)
    requires i < |items| && items[i].target != items[i].from + 1
    ensures !Chainable(items, current, catalog)
  {
    forall ds | multiset(ds) == multiset(items) ensures !IsChain(ds, current, catalog) {
      SameMembers(items, ds, items[i]);
      if IsChain(ds, current, catalog) { ChainCounts(ds, current, catalog); }
    }
  }

  lemma BadCount(items: seq<Declaration>, sorted: seq<Declaration>, version: nat, current: nat, catalog: set<string>)
    requires multiset(sorted) == multiset(items) && version < current && Matches(sorted, version) != 1
    ensures !Chainable(items, current, catalog)
  {
    forall ds | multiset(ds) == multiset(items) ensures !IsChain(ds, current, catalog) {
      MatchesMultiset(sorted, ds, version);
      if IsChain(ds, current, catalog) { ChainCounts(ds, current, catalog); }
    }
  }

  lemma BadInventory(items: seq<Declaration>, sorted: seq<Declaration>, current: nat, catalog: set<string>)
    requires multiset(sorted) == multiset(items)
    requires |sorted| != current || exists i :: 0 <= i < |sorted| && sorted[i].from >= current
    ensures !Chainable(items, current, catalog)
  {
    forall ds | multiset(ds) == multiset(items) ensures !IsChain(ds, current, catalog) {
      assert |ds| == |multiset(ds)| && |sorted| == |multiset(sorted)|;
      if IsChain(ds, current, catalog) {
        ChainCounts(ds, current, catalog);
        if i :| 0 <= i < |sorted| && sorted[i].from >= current { SameMembers(sorted, ds, sorted[i]); }
      }
    }
  }

  lemma OneEach(ds: seq<Declaration>, current: nat)
    requires forall v: nat | v < current :: Matches(ds, v) == 1
    ensures OnePerVersion(ds, current)
  {}

  lemma Adjacent(items: seq<Declaration>, ds: seq<Declaration>)
    requires multiset(ds) == multiset(items) && forall k | 0 <= k < |items| :: items[k].target == items[k].from + 1
    ensures forall k | 0 <= k < |ds| :: ds[k].target == ds[k].from + 1
  {
    forall k | 0 <= k < |ds| ensures ds[k].target == ds[k].from + 1 { SameMembers(ds, items, ds[k]); }
  }

  /** Aligned declarations are the only order that can be a chain. */
  lemma Decisive(items: seq<Declaration>, ds: seq<Declaration>, index: nat, current: nat, catalog: set<string>)
    requires multiset(ds) == multiset(items) && |ds| == current && forall i | 0 <= i < |ds| :: ds[i].from == i
    requires index < |ds| && ds[index].target == index + 1
    ensures Chainable(items, current, catalog) ==> Continues(ds, index, catalog)
  {
    if Chainable(items, current, catalog) {
      var chain :| multiset(chain) == multiset(items) && IsChain(chain, current, catalog);
      OnlyOrder(chain, ds, current, catalog);
    }
  }

  lemma OnlyOrder(chain: seq<Declaration>, ds: seq<Declaration>, current: nat, catalog: set<string>)
    requires multiset(ds) == multiset(chain) && IsChain(chain, current, catalog)
    requires |ds| == current && forall i | 0 <= i < |ds| :: ds[i].from == i
    ensures ds == chain
  {
    assert |ds| == |multiset(ds)| && |chain| == |multiset(chain)|;
    forall i | 0 <= i < |ds| ensures ds[i] == chain[i] {
      assert Continues(chain, i, catalog);
      SameMembers(chain, ds, chain[i]);
      var k :| 0 <= k < |ds| && ds[k] == chain[i];
    }
  }

  lemma Good(ds: seq<Declaration>, i: nat, catalog: set<string>)
    requires i < |ds| && ds[i].from == i && ds[i].target == ds[i].from + 1 && ds[i].name in catalog
    requires i > 0 ==> ds[i].sourceCodec == ds[i - 1].targetCodec && ds[i - 1].name in ds[i].dependencies
    ensures Continues(ds, i, catalog)
  {}

  lemma Accept(items: seq<Declaration>, ds: seq<Declaration>, current: nat, catalog: set<string>)
    requires multiset(ds) == multiset(items) && |ds| == current
    requires forall k | 0 <= k < |ds| :: Continues(ds, k, catalog)
    ensures IsChain(ds, current, catalog) && Chainable(items, current, catalog)
  {}
}
