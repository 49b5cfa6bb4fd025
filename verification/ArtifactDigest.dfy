/** The digest over the client artifacts (`clientArtifactDigest`, scripts/client-build-environment.ts:331-347)
    and the record check that relies on it (lines 302-328). Paths and contents are strings of bytes. */
module ArtifactDigest {
  import opened Sequences
  import opened Wrappers
  import opened Decimals
  import opened Sorting

  /** A built tree: the content at each artifact path. */
  type Tree = map<string, string>

  type Order = (string, string) -> int

  type Hash = string -> string

  datatype Digest = Digest(fileCount: nat, sha256: string)

  datatype Failure = NoArtifacts | Differs

  // ----- Feeding the hash -----

  function Framed(field: string): string { Decimal(|field|) + ":" + field }

  function Preimage(tree: Tree, paths: seq<string>): string
    requires forall p | p in paths :: p in tree
  {
    if paths == [] then []
    else Preimage(tree, paths[..|paths| - 1]) + (Framed(paths[|paths| - 1]) + Framed(tree[paths[|paths| - 1]]))
  }

  /** `listing` is what the glob returned: every artifact once, in whatever order. */
  ghost predicate Lists(listing: seq<string>, tree: Tree) {
    Distinct(listing) && forall p :: p in listing <==> p in tree
  }

  function DigestOf(tree: Tree, listing: seq<string>, order: Order, hash: Hash): Result<Digest, Failure>
    requires forall p | p in listing :: p in tree
  {
    if listing == [] then Err(NoArtifacts)
    else
      assert forall p :: p in SortBy(listing, order) ==> p in listing by {
        forall p ensures p in SortBy(listing, order) <==> p in listing { SortMember(listing, order, p); }
      }
      Ok(Digest(|listing|, hash(Preimage(tree, SortBy(listing, order)))))
  }

  method ClientArtifactDigest(tree: Tree, listing: seq<string>, order: Order, hash: Hash)
    returns (r: Result<Digest, Failure>)
    requires forall p | p in listing :: p in tree
    ensures r == DigestOf(tree, listing, order, hash)
  {
    var paths := SortBy(listing, order);
    SortKeeps(listing, order);
    forall p ensures p in paths <==> p in listing { SortMember(listing, order, p); }
    if |paths| == 0 { return Err(NoArtifacts); }
    var fed := "";
    for i := 0 to |paths|
      invariant fed == Preimage(tree, paths[..i])
    {
      assert paths[..i + 1][..i] == paths[..i];
      assert paths[i] in paths;
      var content := tree[paths[i]];
      fed := fed + (Decimal(|paths[i]|) + ":" + paths[i] + (Decimal(|content|) + ":" + content));
    }
    assert paths[..|paths|] == paths;
    return Ok(Digest(|paths|, hash(fed)));
  }

  /** What reading a record checks once it has parsed: the artifacts still have the recorded digest (lines 321-326). */
  function Accepts(recorded: Digest, tree: Tree, listing: seq<string>, order: Order, hash: Hash): Result<(), Failure>
    requires forall p | p in listing :: p in tree
  {
    match DigestOf(tree, listing, order, hash)
    case Err(e) => Err(e)
    case Ok(current) =>
      if current.fileCount != recorded.fileCount || current.sha256 != recorded.sha256 then Err(Differs) else Ok(())
  }

  // ----- The bytes fed determine the tree -----

  /** The fields in the order they are fed. */
  function Fields(tree: Tree, paths: seq<string>): seq<string>
    requires forall p | p in paths :: p in tree
  {
    if paths == [] then [] else [paths[0], tree[paths[0]]] + Fields(tree, paths[1..])
  }

  function FramedAll(fields: seq<string>): string {
    if fields == [] then [] else Framed(fields[0]) + FramedAll(fields[1..])
  }

  lemma {:induction false} FramedConcat(a: seq<string>, b: seq<string>)
    ensures FramedAll(a + b) == FramedAll(a) + FramedAll(b)
  {
    if a == [] {
      assert a + b == b;
    } else {
      assert (a + b)[1..] == a[1..] + b;
      FramedConcat(a[1..], b);
      Associate(Framed(a[0]), FramedAll(a[1..]), FramedAll(b));
    }
  }

  lemma {:induction false} FieldsSnoc(tree: Tree, paths: seq<string>)
    requires paths != [] && forall p | p in paths :: p in tree
    ensures var last := paths[|paths| - 1];
            Fields(tree, paths) == Fields(tree, paths[..|paths| - 1]) + [last, tree[last]]
  {
    if |paths| == 1 {
      assert paths[1..] == [] && paths[..0] == [];
    } else {
      FieldsSnoc(tree, paths[1..]);
      assert paths[1..][..|paths| - 2] == paths[..|paths| - 1][1..];
      Associate([paths[0], tree[paths[0]]], Fields(tree, paths[1..][..|paths| - 2]),
                [paths[|paths| - 1], tree[paths[|paths| - 1]]]);
    }
  }

  lemma FramedTwo(s: string, t: string)
    ensures FramedAll([s, t]) == Framed(s) + Framed(t)
  {
    assert [s, t][1..] == [t] && [t][1..] == [];
    assert Framed(t) + FramedAll([]) == Framed(t);
  }

  lemma FramedNone(tree: Tree)
    ensures FramedAll(Fields(tree, [])) == []
  {}

  lemma {:induction false} PreimageIsFramed(tree: Tree, paths: seq<string>)
    requires forall p | p in paths :: p in tree
    ensures Preimage(tree, paths) == FramedAll(Fields(tree, paths))
  {
    hide FramedAll, Fields, Framed;
    if paths == [] {
      FramedNone(tree);
    } else {
      var init, last := paths[..|paths| - 1], paths[|paths| - 1];
      PreimageIsFramed(tree, init);
      FieldsSnoc(tree, paths);
      FramedConcat(Fields(tree, init), [last, tree[last]]);
      FramedTwo(last, tree[last]);
    }
  }

  lemma FramedUnique(s: string, t: string, rest: string, more: string)
    requires Framed(s) + rest == Framed(t) + more
    ensures s == t && rest == more
  {
    assert Framed(s) + rest == Decimal(|s|) + ":" + (s + rest);
    assert Framed(t) + more == Decimal(|t|) + ":" + (t + more);
    DecimalPrefixFree(|s|, |t|, s + rest, t + more);
    assert (s + rest)[..|s|] == s && (t + more)[..|t|] == t;
    assert (s + rest)[|s|..] == rest && (t + more)[|t|..] == more;
  }

  /** Length-prefixed fields can be told apart again, however many there are. */
  lemma {:induction false} FramedAllUnique(a: seq<string>, b: seq<string>)
    requires FramedAll(a) == FramedAll(b)
    ensures a == b
  {
    if a != [] && b != [] {
      FramedUnique(a[0], b[0], FramedAll(a[1..]), FramedAll(b[1..]));
      FramedAllUnique(a[1..], b[1..]);
      assert a == [a[0]] + a[1..] && b == [b[0]] + b[1..];
    }
  }

  lemma {:induction false} FieldsUnique(s: Tree, t: Tree, ps: seq<string>, qs: seq<string>)
    requires forall p | p in ps :: p in s
    requires forall q | q in qs :: q in t
    requires Fields(s, ps) == Fields(t, qs)
    ensures ps == qs && forall p | p in ps :: s[p] == t[p]
  {
    if ps != [] && qs != [] {
      var f, g := Fields(s, ps), Fields(t, qs);
      assert f[0] == ps[0] && f[1] == s[ps[0]] && g[0] == qs[0] && g[1] == t[qs[0]];
      assert f[2..] == Fields(s, ps[1..]) && g[2..] == Fields(t, qs[1..]);
      FieldsUnique(s, t, ps[1..], qs[1..]);
      assert ps == [ps[0]] + ps[1..] && qs == [qs[0]] + qs[1..];
    }
  }

  ghost predicate Injective(hash: Hash) { forall a, b {:trigger hash(a), hash(b)} | hash(a) == hash(b) :: a == b }

  /** One order of paths per set of them: what makes the digest independent of the glob's order. */
  lemma SortedListing(tree: Tree, listing: seq<string>, order: Order)
    requires Consistent(order) && Lists(listing, tree)
    ensures var paths := SortBy(listing, order); Sorted(paths, order) && Lists(paths, tree) && |paths| == |listing|
  {
    SortSorted(listing, order);
    SortKeeps(listing, order);
    DistinctMultiset(listing);
    DistinctMultiset(SortBy(listing, order));
    forall p ensures p in SortBy(listing, order) <==> p in tree { SortMember(listing, order, p); }
  }

  /** One tree, however listed, is sorted into one list of paths. */
  lemma SamePaths(t: Tree, ps: seq<string>, qs: seq<string>, order: Order)
    requires Consistent(order) && Separates(order, t.Keys)
    requires Lists(ps, t) && Lists(qs, t) && Sorted(ps, order) && Sorted(qs, order)
    ensures ps == qs
  {
    assert (set x | x in ps) == t.Keys;
    hide Consistent, Separates, Sorted;
    SortedUnique(ps, qs, order);
  }

  lemma SameTree(s: Tree, t: Tree, paths: seq<string>)
    requires Lists(paths, s) && Lists(paths, t) && forall p | p in paths :: s[p] == t[p]
    ensures s == t
  {
    forall p ensures p in s <==> p in t { assert p in paths <==> p in s; }
  }

  lemma ListsIs(listing: seq<string>, tree: Tree)
    requires Lists(listing, tree)
    ensures forall p :: p in listing ==> p in tree
  {}

  lemma SameDigest(s: Tree, t: Tree, first: seq<string>, second: seq<string>, order: Order, hash: Hash)
    requires Lists(first, s) && Lists(second, t) && first != [] && second != []
    requires Consistent(order) && Separates(order, s.Keys) && Injective(hash)
    ensures DigestOf(s, first, order, hash).value.sha256 == DigestOf(t, second, order, hash).value.sha256 <==> s == t
    ensures s == t ==> |first| == |second|
  {
    hide Injective, SortBy, Preimage, Lists, Sorted, Consistent, Separates, Distinct;
    SortedListing(s, first, order);
    SortedListing(t, second, order);
    var ps, qs := SortBy(first, order), SortBy(second, order);
    ListsIs(ps, s);
    ListsIs(qs, t);
    if s == t {
      SamePaths(s, ps, qs, order);
    } else if hash(Preimage(s, ps)) == hash(Preimage(t, qs)) {
      SamePreimage(s, t, ps, qs, hash);
      SameTree(s, t, ps);
    }
  }

  lemma SamePreimage(s: Tree, t: Tree, ps: seq<string>, qs: seq<string>, hash: Hash)
    requires forall p | p in ps :: p in s
    requires forall q | q in qs :: q in t
    requires Injective(hash) && hash(Preimage(s, ps)) == hash(Preimage(t, qs))
    ensures ps == qs && forall p | p in ps :: s[p] == t[p]
  {
    assert Preimage(s, ps) == Preimage(t, qs);
    hide *;
    PreimageIsFramed(s, ps);
    PreimageIsFramed(t, qs);
    FramedAllUnique(Fields(s, ps), Fields(t, qs));
    FieldsUnique(s, t, ps, qs);
  }

  /** A record written over one build is accepted over another exactly when both have the same artifacts
      with the same contents, in whatever order the glob lists them. */
  lemma AcceptsExactly(s: Tree, t: Tree, first: seq<string>, second: seq<string>, order: Order, hash: Hash)
    requires Lists(first, s) && Lists(second, t) && first != []
    requires Consistent(order) && Separates(order, s.Keys) && Injective(hash)
    ensures Accepts(DigestOf(s, first, order, hash).value, t, second, order, hash).Ok? <==> s == t
  {
    if second == [] {
      assert first[0] in s && first[0] !in t;
    } else {
      hide Injective, Consistent, Separates;
      SameDigest(s, t, first, second, order, hash);
    }
  }
}
