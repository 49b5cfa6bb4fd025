/** The order inside each round of `topoSort` (scripts/package-graph.ts:73-79 and 152-158), told by where groups
    stand in the group order and by the collation. */
module RoundOrder {
  import opened Numbers
  import opened PackageGraph
  import opened Components
  import opened SinkCycles
  import opened Sorting
  import opened TopoSort

  /** The group is first listed at position `p`. */
  ghost predicate FirstAt(groupOrder: seq<string>, group: string, p: nat) {
    p < |groupOrder| && groupOrder[p] == group && forall q | 0 <= q < p :: groupOrder[q] != group
  }

  /** Group `a` is listed, and `b` later or not at all. */
  ghost predicate Ahead(groupOrder: seq<string>, a: string, b: string) {
    exists p: nat ::
        FirstAt(groupOrder, a, p) && (b !in groupOrder || exists q: nat :: p < q && FirstAt(groupOrder, b, q))
  }

  /** The groups are the same, or neither is listed. */
  predicate Level(groupOrder: seq<string>, a: string, b: string) {
    a == b || (a !in groupOrder && b !in groupOrder)
  }

  /** `a` may stand before `b` in a round. */
  ghost predicate MayPrecede(a: Package, b: Package, groupOrder: seq<string>, locale: Collation) {
    || Ahead(groupOrder, a.group, b.group)
    || (Level(groupOrder, a.group, b.group) &&
        (locale(a.group, b.group) < 0 || (locale(a.group, b.group) == 0 && locale(a.short, b.short) <= 0)))
  }

  lemma {:induction false} IndexFirst(s: seq<string>, x: string)
    ensures if x in s then IndexOf(s, x) >= 0 && FirstAt(s, x, IndexOf(s, x)) else IndexOf(s, x) == -1
  {
    if s != [] && s[0] != x {
      IndexFirst(s[1..], x);
      assert s == [s[0]] + s[1..];
    }
  }

  lemma FirstOnce(s: seq<string>, x: string, p: nat, q: nat)
    requires FirstAt(s, x, p) && FirstAt(s, x, q)
    ensures p == q
  {}

  /** A group ranks by where it is first listed, unlisted ones last. */
  lemma RanksExactly(groupOrder: seq<string>, a: string, b: string)
    requires |groupOrder| <= MAX_ARRAY_LENGTH
    ensures GroupRank(a, groupOrder) < GroupRank(b, groupOrder) <==> Ahead(groupOrder, a, b)
    ensures GroupRank(a, groupOrder) == GroupRank(b, groupOrder) <==> Level(groupOrder, a, b)
  {
    IndexFirst(groupOrder, a);
    IndexFirst(groupOrder, b);
    hide IndexOf;
    if Ahead(groupOrder, a, b) {
      var p: nat :| FirstAt(groupOrder, a, p) &&
          (b !in groupOrder || exists q: nat :: p < q && FirstAt(groupOrder, b, q));
      assert groupOrder[p] in groupOrder;
      FirstOnce(groupOrder, a, p, IndexOf(groupOrder, a));
      if q: nat :| p < q && FirstAt(groupOrder, b, q) {
        assert groupOrder[q] in groupOrder;
        FirstOnce(groupOrder, b, q, IndexOf(groupOrder, b));
      }
    }
  }

  /** The comparator puts packages as told, and ties them exactly when the collation does. */
  lemma ComparesExactly(a: Package, b: Package, groupOrder: seq<string>, locale: Collation)
    requires |groupOrder| <= MAX_ARRAY_LENGTH && Consistent(locale)
    ensures By(groupOrder, locale)(a, b) <= 0 <==> MayPrecede(a, b, groupOrder, locale)
    ensures By(groupOrder, locale)(a, b) == 0
       <==> Level(groupOrder, a.group, b.group) && locale(a.group, b.group) == 0 && locale(a.short, b.short) == 0
  {
    RanksExactly(groupOrder, a.group, b.group);
    hide GroupRank, Consistent, Ahead, Level;
  }

  ghost predicate InOrder(b: seq<Package>, groupOrder: seq<string>, locale: Collation) {
    forall i, j | 0 <= i < j < |b| :: MayPrecede(b[i], b[j], groupOrder, locale)
  }

  /** `b` is what a round places of the packages `left`, in order: those that wait for none of them, or
      else, when all wait, a sink cycle whose head may stand before every package of every sink cycle. */
  ghost predicate Round(left: Graph, b: seq<Package>, groupOrder: seq<string>, locale: Collation) {
    && b != [] && InOrder(b, groupOrder, locale) && Held(left, b) && Distinct(Names(b))
    && if exists n :: n in left && forall d | d in left[n].deps :: d !in left
       then forall n :: n in NameSet(b) <==> n in left && forall d | d in left[n].deps :: d !in left
       else
         && ListsSinkCycle(left, b)
         && forall c, p | ListsSinkCycle(left, c) && p in c :: MayPrecede(b[0], p, groupOrder, locale)
  }

  lemma BatchIsRound(g: Graph, b: seq<Package>, groupOrder: seq<string>, locale: Collation)
    requires |groupOrder| <= MAX_ARRAY_LENGTH && Consistent(locale)
    requires Keyed(g) && IsBatch(g, b, By(groupOrder, locale))
    ensures Round(g, b, groupOrder, locale)
  {
    var cmp := By(groupOrder, locale);
    hide *;
    ByConsistent(groupOrder, locale);
    BatchShape(g, b, cmp);
    BatchInOrder(g, b, groupOrder, locale);
    BatchMembers(g, b, cmp);
    forall c, p | ReadyNames(g) == {} && ListsSinkCycle(g, c) && p in c
      ensures MayPrecede(b[0], p, groupOrder, locale)
    {
      HeadBefore(g, b, c, p, cmp);
      ComparesExactly(b[0], p, groupOrder, locale);
    }
    RoundFrom(g, b, groupOrder, locale);
  }

  lemma BatchInOrder(g: Graph, b: seq<Package>, groupOrder: seq<string>, locale: Collation)
    requires |groupOrder| <= MAX_ARRAY_LENGTH && Consistent(locale) && IsBatch(g, b, By(groupOrder, locale))
    ensures InOrder(b, groupOrder, locale)
  {
    hide By, Consistent, MayPrecede, Lists, FirstCycle, ReadyNames;
    forall i, j | 0 <= i < j < |b| ensures MayPrecede(b[i], b[j], groupOrder, locale) {
      ComparesExactly(b[i], b[j], groupOrder, locale);
    }
  }

  lemma BatchMembers(g: Graph, b: seq<Package>, cmp: Comparator)
    requires IsBatch(g, b, cmp)
    ensures b != [] && if ReadyNames(g) != {} then NameSet(b) == ReadyNames(g)
                       else FirstCycle(g, b, cmp) && ListsSinkCycle(g, b)
  {
    hide ReadyNames, ListsSinkCycle;
  }

  lemma RoundFrom(g: Graph, b: seq<Package>, groupOrder: seq<string>, locale: Collation)
    requires b != [] && InOrder(b, groupOrder, locale) && Held(g, b) && Distinct(Names(b))
    requires if ReadyNames(g) != {} then NameSet(b) == ReadyNames(g) else ListsSinkCycle(g, b)
    requires forall c, p | ReadyNames(g) == {} && ListsSinkCycle(g, c) && p in c ::
              MayPrecede(b[0], p, groupOrder, locale)
    ensures Round(g, b, groupOrder, locale)
  {
    hide InOrder, Held, ListsSinkCycle, MayPrecede, NameSet;
    forall n ensures n in ReadyNames(g) <==> n in g && forall d | d in g[n].deps :: d !in g { }
    assert ReadyNames(g) != {} ==> exists n :: n in ReadyNames(g);
  }

  lemma HeadBefore(g: Graph, b: seq<Package>, c: seq<Package>, p: Package, cmp: Comparator)
    requires Consistent(cmp) && FirstCycle(g, b, cmp) && ListsSinkCycle(g, c) && p in c
    ensures cmp(b[0], p) <= 0
  {
    hide Consistent, ListsSinkCycle, Sorted, SortBy;
    SortedListing(g, c, cmp);
    SortMember(c, cmp, p);
    HeadLeast(SortBy(c, cmp), p, cmp);
    Transitive(cmp, b[0], SortBy(c, cmp)[0], p);
  }

  /** `cuts` split the order into rounds. */
  ghost predicate Rounds(g: Graph, out: seq<Package>, cuts: seq<nat>, groupOrder: seq<string>, locale: Collation) {
    && cuts != [] && cuts[0] == 0 && cuts[|cuts| - 1] == |out|
    && forall r: nat | r < |cuts| - 1 :: RoundAt(g, out, cuts, r, groupOrder, locale)
  }

  /** Round `r` is what is placed once all before it is. */
  ghost predicate RoundAt(g: Graph, out: seq<Package>, cuts: seq<nat>, r: nat, groupOrder: seq<string>,
                          locale: Collation)
    requires r < |cuts| - 1
  {
    && cuts[r] < cuts[r + 1] <= |out|
    && Round(Without(g, out[..cuts[r]]), out[cuts[r]..cuts[r + 1]], groupOrder, locale)
  }

  function Shift(cuts: seq<nat>, k: nat): (shifted: seq<nat>)
    ensures |shifted| == |cuts| && forall r | 0 <= r < |cuts| :: shifted[r] == cuts[r] + k
  {
    seq(|cuts|, r requires 0 <= r < |cuts| => cuts[r] + k)
  }

  /** Every order `topoSort` gives is a sequence of such rounds, whatever the groups and names. */
  lemma {:induction false} LayeredRounds(g: Graph, out: seq<Package>, groupOrder: seq<string>, locale: Collation)
    returns (cuts: seq<nat>)
    requires |groupOrder| <= MAX_ARRAY_LENGTH && Consistent(locale)
    requires Keyed(g) && Layered(g, out, By(groupOrder, locale))
    ensures Rounds(g, out, cuts, groupOrder, locale)
    decreases |out|
  {
    hide *;
    if out == [] {
      cuts := [0];
      NoRounds(g, groupOrder, locale);
    } else {
      var b, rest := Unfold(g, out, By(groupOrder, locale));
      BatchIsRound(g, b, groupOrder, locale);
      var more := LayeredRounds(Without(g, b), rest, groupOrder, locale);
      cuts := [0] + Shift(more, |b|);
      MoreRounds(g, b, rest, more, groupOrder, locale);
    }
  }

  lemma NoRounds(g: Graph, groupOrder: seq<string>, locale: Collation)
    ensures Rounds(g, [], [0], groupOrder, locale)
  {}

  lemma WithoutBoth(g: Graph, b: seq<Package>, c: seq<Package>)
    ensures Without(Without(g, b), c) == Without(g, b + c)
  {
    assert NameSet(b + c) == NameSet(b) + NameSet(c) by { NamesConcat(b, c); }
  }

  lemma NamesConcat(b: seq<Package>, c: seq<Package>)
    ensures NameSet(b + c) == NameSet(b) + NameSet(c)
  {
    forall n ensures n in NameSet(b + c) <==> n in NameSet(b) || n in NameSet(c) {
      NameMembers(b + c, n);
      NameMembers(b, n);
      NameMembers(c, n);
    }
  }

  lemma MoreRounds(g: Graph, b: seq<Package>, rest: seq<Package>, more: seq<nat>, groupOrder: seq<string>,
                   locale: Collation)
    requires b != [] && Round(g, b, groupOrder, locale) && Rounds(Without(g, b), rest, more, groupOrder, locale)
    ensures Rounds(g, b + rest, [0] + Shift(more, |b|), groupOrder, locale)
  {
    hide Round, RoundAt;
    var cuts := [0] + Shift(more, |b|);
    forall r: nat | r < |cuts| - 1 ensures RoundAt(g, b + rest, cuts, r, groupOrder, locale) {
      if r == 0 {
        FirstRound(g, b, rest, cuts, groupOrder, locale);
      } else {
        assert RoundAt(Without(g, b), rest, more, r - 1, groupOrder, locale);
        NextRound(g, b, rest, more, r, groupOrder, locale);
      }
    }
  }

  lemma FirstRound(g: Graph, b: seq<Package>, rest: seq<Package>, cuts: seq<nat>, groupOrder: seq<string>,
                   locale: Collation)
    requires b != [] && Round(g, b, groupOrder, locale) && |cuts| > 1 && cuts[0] == 0 && cuts[1] == |b|
    ensures RoundAt(g, b + rest, cuts, 0, groupOrder, locale)
  {
    hide Round, Without;
    assert (b + rest)[..0] == [] && (b + rest)[0..|b|] == b;
    WithoutNone(g);
  }

  lemma NextRound(g: Graph, b: seq<Package>, rest: seq<Package>, more: seq<nat>, r: nat,
                  groupOrder: seq<string>, locale: Collation)
    requires 0 < r < |more| && RoundAt(Without(g, b), rest, more, r - 1, groupOrder, locale)
    ensures RoundAt(g, b + rest, [0] + Shift(more, |b|), r, groupOrder, locale)
  {
    hide Round, Without;
    var from, end := more[r - 1], more[r];
    assert (b + rest)[..|b| + from] == b + rest[..from] && (b + rest)[|b| + from..|b| + end] == rest[from..end];
    WithoutBoth(g, b, rest[..from]);
  }

  lemma WithoutNone(g: Graph)
    ensures Without(g, []) == g
  {}
}
