/** `Array.prototype.sort` with a comparator: a stable sort, here by insertion. */
module Sorting {

  /** A consistent comparator: what the sort needs for its result to be ordered. */
  ghost predicate Consistent<T(!new)>(cmp: (T, T) -> int) {
    && (forall a, b :: cmp(a, b) < 0 <==> cmp(b, a) > 0)
    && (forall a, b, c :: cmp(a, b) <= 0 && cmp(b, c) <= 0 ==> cmp(a, c) <= 0)
  }

  lemma Transitive<T(!new)>(cmp: (T, T) -> int, a: T, b: T, c: T)
    requires Consistent(cmp) && cmp(a, b) <= 0 && cmp(b, c) <= 0
    ensures cmp(a, c) <= 0
  { }

  lemma Total<T(!new)>(cmp: (T, T) -> int, a: T, b: T)
    requires Consistent(cmp)
    ensures cmp(a, b) > 0 <==> cmp(b, a) < 0
    ensures cmp(a, b) < 0 <==> cmp(b, a) > 0
    ensures cmp(a, b) == 0 <==> cmp(b, a) == 0
  { }

  /** Only equal values tie. */
  ghost predicate Separates<T(!new)>(cmp: (T, T) -> int, s: set<T>) {
    forall a, b {:trigger cmp(a, b)} | a in s && b in s && cmp(a, b) == 0 :: a == b
  }

  ghost predicate Sorted<T>(s: seq<T>, cmp: (T, T) -> int) {
    forall i, j | 0 <= i < j < |s| :: cmp(s[i], s[j]) <= 0
  }

  ghost predicate Distinct<T>(s: seq<T>) {
    forall i, j | 0 <= i < j < |s| :: s[i] != s[j]
  }

  function Insert<T>(x: T, s: seq<T>, cmp: (T, T) -> int): seq<T> {
    if s == [] || cmp(x, s[0]) <= 0 then [x] + s else [s[0]] + Insert(x, s[1..], cmp)
  }

  function SortBy<T>(s: seq<T>, cmp: (T, T) -> int): seq<T> {
    if s == [] then [] else Insert(s[0], SortBy(s[1..], cmp), cmp)
  }

  lemma {:induction false} InsertKeeps<T>(x: T, s: seq<T>, cmp: (T, T) -> int)
    ensures multiset(Insert(x, s, cmp)) == multiset(s) + multiset{x}
    ensures |Insert(x, s, cmp)| == |s| + 1
  {
    if s == [] || cmp(x, s[0]) <= 0 {
    } else {
      InsertKeeps(x, s[1..], cmp);
      assert s == [s[0]] + s[1..];
    }
  }

  lemma {:induction false} InsertSorted<T(!new)>(x: T, s: seq<T>, cmp: (T, T) -> int)
    requires Consistent(cmp) && Sorted(s, cmp)
    ensures Sorted(Insert(x, s, cmp), cmp)
  {
    hide Consistent;
    if s == [] {
    } else if cmp(x, s[0]) <= 0 {
      forall j | 0 <= j < |s| ensures cmp(x, s[j]) <= 0 {
        if j > 0 { Transitive(cmp, x, s[0], s[j]); }
      }
    } else {
      Total(cmp, x, s[0]);
      InsertSorted(x, s[1..], cmp);
      InsertMembers(x, s[1..], cmp);
      var rest := Insert(x, s[1..], cmp);
      forall j | 0 <= j < |rest| ensures cmp(s[0], rest[j]) <= 0 {
        assert rest[j] in rest;
      }
    }
  }

  lemma {:induction false} InsertMembers<T>(x: T, s: seq<T>, cmp: (T, T) -> int)
    ensures forall y :: y in Insert(x, s, cmp) <==> y == x || y in s
  {
    if s == [] || cmp(x, s[0]) <= 0 {
    } else {
      InsertMembers(x, s[1..], cmp);
      assert s == [s[0]] + s[1..];
    }
  }

  /** Sorting permutes. */
  lemma {:induction false} SortKeeps<T>(s: seq<T>, cmp: (T, T) -> int)
    ensures multiset(SortBy(s, cmp)) == multiset(s) && |SortBy(s, cmp)| == |s|
  {
    if s != [] {
      SortKeeps(s[1..], cmp);
      InsertKeeps(s[0], SortBy(s[1..], cmp), cmp);
      assert s == [s[0]] + s[1..];
    }
  }

  lemma SortMember<T>(s: seq<T>, cmp: (T, T) -> int, x: T)
    ensures x in SortBy(s, cmp) <==> x in s
  {
    SortKeeps(s, cmp);
    assert x in multiset(SortBy(s, cmp)) <==> x in multiset(s);
  }

  lemma {:induction false} DistinctMultiset<T>(s: seq<T>)
    ensures Distinct(s) <==> forall x :: multiset(s)[x] <= 1
  {
    if s != [] {
      DistinctMultiset(s[1..]);
      assert s == [s[0]] + s[1..];
      assert multiset(s)[s[0]] == 1 + multiset(s[1..])[s[0]];
      if Distinct(s) {
        assert s[0] !in s[1..];
      }
      if forall x :: multiset(s)[x] <= 1 {
        assert multiset(s[1..])[s[0]] == 0;
        assert forall x :: multiset(s[1..])[x] <= multiset(s)[x];
      }
    }
  }

  /** Sorting sorts. */
  lemma {:induction false} SortSorted<T(!new)>(s: seq<T>, cmp: (T, T) -> int)
    requires Consistent(cmp)
    ensures Sorted(SortBy(s, cmp), cmp)
  {
    if s != [] {
      SortSorted(s[1..], cmp);
      InsertSorted(s[0], SortBy(s[1..], cmp), cmp);
    }
  }

  lemma HeadIn<T>(s: seq<T>)
    requires s != []
    ensures s[0] in s
  { }

  lemma TailMember<T>(s: seq<T>, x: T)
    requires s != [] && Distinct(s)
    ensures x in s[1..] <==> x in s && x != s[0]
  {
    assert s == [s[0]] + s[1..];
  }

  /** A set has one sorted listing under a comparator without ties. */
  lemma {:induction false} SortedUnique<T(!new)>(s: seq<T>, t: seq<T>, cmp: (T, T) -> int)
    requires Consistent(cmp) && Separates(cmp, set x | x in s)
    requires Sorted(s, cmp) && Sorted(t, cmp) && Distinct(s) && Distinct(t)
    requires forall x :: x in s <==> x in t
    ensures s == t
  {
    if s == [] {
      if t != [] {
        HeadIn(t);
        assert false;
      }
    } else {
      hide Consistent;
      assert s[0] in t && t[0] in s;
      var i :| 0 <= i < |t| && t[i] == s[0];
      var j :| 0 <= j < |s| && s[j] == t[0];
      Total(cmp, s[0], s[0]);
      Total(cmp, s[0], t[0]);
      assert s[0] == t[0];
      forall x ensures x in s[1..] <==> x in t[1..] {
        TailMember(s, x);
        TailMember(t, x);
      }
      SortedUnique(s[1..], t[1..], cmp);
    }
  }

  // ----- Stability -----

  /** The elements that tie with `v`, in order. */
  function Tied<T>(s: seq<T>, v: T, cmp: (T, T) -> int): seq<T> {
    if s == [] then [] else (if cmp(s[0], v) == 0 then [s[0]] else []) + Tied(s[1..], v, cmp)
  }

  lemma {:induction false} InsertStable<T(!new)>(x: T, s: seq<T>, v: T, cmp: (T, T) -> int)
    requires Consistent(cmp)
    ensures Tied(Insert(x, s, cmp), v, cmp) == (if cmp(x, v) == 0 then [x] else []) + Tied(s, v, cmp)
  {
    hide Consistent, Tied;
    if s == [] || cmp(x, s[0]) <= 0 {
      TiedStep(x, s, v, cmp);
    } else {
      InsertStable(x, s[1..], v, cmp);
      TiedStep(s[0], Insert(x, s[1..], cmp), v, cmp);
      TiedStep(s[0], s[1..], v, cmp);
      assert [s[0]] + s[1..] == s;
      NotBoth(x, s[0], v, cmp);
    }
  }

  lemma TiedStep<T>(x: T, s: seq<T>, v: T, cmp: (T, T) -> int)
    ensures Tied([x] + s, v, cmp) == (if cmp(x, v) == 0 then [x] else []) + Tied(s, v, cmp)
  {
    assert ([x] + s)[1..] == s;
  }

  lemma NotBoth<T(!new)>(x: T, y: T, v: T, cmp: (T, T) -> int)
    requires Consistent(cmp) && cmp(x, y) > 0
    ensures cmp(x, v) != 0 || cmp(y, v) != 0
  {
    Total(cmp, y, v);
    if cmp(x, v) <= 0 && cmp(v, y) <= 0 { Transitive(cmp, x, v, y); }
  }

  /** Elements that tie keep their order. */
  lemma {:induction false} SortStable<T(!new)>(s: seq<T>, v: T, cmp: (T, T) -> int)
    requires Consistent(cmp)
    ensures Tied(SortBy(s, cmp), v, cmp) == Tied(s, v, cmp)
  {
    if s != [] {
      SortStable(s[1..], v, cmp);
      InsertStable(s[0], SortBy(s[1..], cmp), v, cmp);
    }
  }
}
