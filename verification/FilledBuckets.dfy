/** When a greedy, heaviest-first schedule leaves no bucket empty. */
module FilledBuckets {
  import opened Schedules

  ghost predicate NoneEmpty(a: seq<nat>, m: nat) {
    forall k | 0 <= k < m :: Count(a, k) > 0
  }

  function CountsBelow(a: seq<nat>, m: nat): nat {
    if m == 0 then 0 else CountsBelow(a, m - 1) + Count(a, m - 1)
  }

  lemma {:induction false} CountsBelowStep(a: seq<nat>, m: nat)
    requires a != []
    ensures CountsBelow(a, m) == CountsBelow(a[..|a| - 1], m) + if a[|a| - 1] < m then 1 else 0
  {
    if m > 0 { CountsBelowStep(a, m - 1); }
  }

  lemma {:induction false} CountsBelowEmpty(m: nat)
    ensures CountsBelow([], m) == 0
  {
    if m > 0 { CountsBelowEmpty(m - 1); }
  }

  lemma {:induction false} CountsAddUp(a: seq<nat>, m: nat)
    requires Into(a, m)
    ensures CountsBelow(a, m) == |a|
  {
    if a == [] {
      CountsBelowEmpty(m);
    } else {
      CountsBelowStep(a, m);
      CountsAddUp(a[..|a| - 1], m);
    }
  }

  /** Fewer jobs than buckets leave a bucket empty. */
  lemma {:induction false} EmptyBelow(a: seq<nat>, m: nat) returns (k: nat)
    requires CountsBelow(a, m) < m
    ensures k < m && Count(a, k) == 0
  {
    if Count(a, m - 1) == 0 { k := m - 1; } else { k := EmptyBelow(a, m - 1); }
  }

  lemma {:induction false} FullBelow(a: seq<nat>, m: nat, k: nat)
    requires CountsBelow(a, m) == m && k < m && forall l | 0 <= l < m :: Count(a, l) <= 1
    ensures Count(a, k) == 1
  {
    CountsAtMost(a, m - 1);
    if k < m - 1 { FullBelow(a, m - 1, k); }
  }

  lemma {:induction false} CountsAtMost(a: seq<nat>, m: nat)
    requires forall l | 0 <= l < m :: Count(a, l) <= 1
    ensures CountsBelow(a, m) <= m
  {
    if m > 0 { CountsAtMost(a, m - 1); }
  }

  lemma {:induction false} EmptyLoad(ws: seq<real>, a: seq<nat>, k: nat)
    requires |ws| == |a| && Count(a, k) == 0
    ensures Load(ws, a, k) == 0.0
  {
    if ws != [] { EmptyLoad(ws[..|ws| - 1], a[..|ws| - 1], k); }
  }

  lemma {:induction false} CountPrefix(a: seq<nat>, k: nat, n: nat)
    requires n <= |a|
    ensures Count(a[..n], k) <= Count(a, k)
  {
    if n == |a| {
      assert a[..n] == a;
    } else {
      CountPrefix(a[..|a| - 1], k, n);
      assert a[..|a| - 1][..n] == a[..n];
    }
  }

  lemma PrefixStep(ws: seq<real>, a: seq<nat>, i: nat, k: nat)
    requires |ws| == |a| && i < |a|
    ensures Load(ws[..i + 1], a[..i + 1], k) == Load(ws[..i], a[..i], k) + if a[i] == k then ws[i] else 0.0
    ensures Count(a[..i + 1], k) == Count(a[..i], k) + if a[i] == k then 1 else 0
  {
    Snoc(ws[..i], a[..i], ws[i], a[i], k);
    assert ws[..i + 1] == ws[..i] + [ws[i]] && a[..i + 1] == a[..i] + [a[i]];
  }

  /** With non-negative loads so far and a bucket still empty, the next job goes to an empty bucket. */
  lemma NextIsEmpty(ws: seq<real>, a: seq<nat>, m: nat, i: nat)
    requires |ws| == |a| && Greedy(ws, a, m) && i < |ws| && i < m && NonNegative(ws[..i])
    ensures Load(ws[..i], a[..i], a[i]) == 0.0 && Count(a[..i], a[i]) == 0
  {
    CountsAddUp(a[..i], m);
    var e := EmptyBelow(a[..i], m);
    EmptyLoad(ws[..i], a[..i], e);
    LoadNonNegative(ws[..i], a[..i], a[i]);
    assert Leanest(ws[..i], a[..i], m, a[i]);
    assert BinAt(ws[..i], a[..i], a[i]).AtMost(BinAt(ws[..i], a[..i], e));
  }

  /** The first jobs go to different buckets. */
  lemma {:induction false} FirstJobsSpread(ws: seq<real>, a: seq<nat>, m: nat, i: nat, k: nat)
    requires |ws| == |a| && Greedy(ws, a, m) && i <= |ws| && i <= m && k < m
    requires forall j | 0 <= j < i - 1 :: ws[j] >= 0.0
    ensures Count(a[..i], k) <= 1
  {
    if i > 0 {
      FirstJobsSpread(ws, a, m, i - 1, k);
      NextIsEmpty(ws, a, m, i - 1);
      PrefixStep(ws, a, i - 1, k);
    }
  }

  lemma JoinsNegative(ws: seq<real>, a: seq<nat>, m: nat, i: nat, q: nat)
    requires |ws| == |a| && Greedy(ws, a, m) && i < |ws| && q < m && Load(ws[..i], a[..i], q) < 0.0
    requires a[i] != q ==> Load(ws[..i], a[..i], a[i]) >= 0.0
    ensures a[i] == q
  {
    assert Leanest(ws[..i], a[..i], m, a[i]);
    assert BinAt(ws[..i], a[..i], a[i]).AtMost(BinAt(ws[..i], a[..i], q));
  }

  /** Once a bucket's load is negative, every later, still lighter job joins it. */
  lemma {:induction false} NegativeAbsorbs(ws: seq<real>, a: seq<nat>, m: nat, p: nat, i: nat, k: nat)
    requires |ws| == |a| && Greedy(ws, a, m) && p < i <= |ws| && p < m && k < m
    requires NonNegative(ws[..p]) && forall j | p <= j < |ws| :: ws[j] < 0.0
    ensures Load(ws[..i], a[..i], a[p]) < 0.0
    ensures k != a[p] ==> Load(ws[..i], a[..i], k) >= 0.0 && Count(a[..i], k) == Count(a[..p], k)
  {
    PrefixStep(ws, a, i - 1, k);
    PrefixStep(ws, a, i - 1, a[p]);
    hide Load, Count, Greedy;
    if i == p + 1 {
      NextIsEmpty(ws, a, m, p);
      LoadNonNegative(ws[..p], a[..p], k);
    } else {
      NegativeAbsorbs(ws, a, m, p, i - 1, k);
      NegativeAbsorbs(ws, a, m, p, i - 1, a[i - 1]);
      JoinsNegative(ws, a, m, i - 1, a[p]);
    }
  }

  /** No bucket is left empty exactly when there are at least `m` jobs and the first `m - 1` are not negative. */
  lemma FilledExactly(ws: seq<real>, a: seq<nat>, m: nat)
    requires |ws| == |a| && m > 0 && Greedy(ws, a, m) && NonIncreasing(ws)
    ensures NoneEmpty(a, m) <==> m <= |ws| && forall j | 0 <= j < m - 1 :: ws[j] >= 0.0
  {
    if m > |ws| {
      CountsAddUp(a, m);
      var e := EmptyBelow(a, m);
    } else if forall j | 0 <= j < m - 1 :: ws[j] >= 0.0 {
      CountsAddUp(a[..m], m);
      forall k | 0 <= k < m ensures Count(a, k) > 0 {
        forall l | 0 <= l < m ensures Count(a[..m], l) <= 1 { FirstJobsSpread(ws, a, m, m, l); }
        FullBelow(a[..m], m, k);
        CountPrefix(a, k, m);
      }
    } else {
      var p := FirstNegative(ws, m - 1);
      CountsAddUp(a[..p + 1], m);
      var e := EmptyBelow(a[..p + 1], m);
      PrefixStep(ws, a, p, e);
      NegativeAbsorbs(ws, a, m, p, |ws|, e);
      assert ws[..|ws|] == ws && a[..|ws|] == a;
      assert Count(a, e) == 0;
    }
  }

  lemma {:induction false} FirstNegative(ws: seq<real>, n: nat) returns (p: nat)
    requires n <= |ws| && NonIncreasing(ws) && exists j :: 0 <= j < n && ws[j] < 0.0
    ensures p < n && NonNegative(ws[..p]) && forall j | p <= j < |ws| :: ws[j] < 0.0
  {
    if ws[n - 1] >= 0.0 || !exists j :: 0 <= j < n - 1 && ws[j] < 0.0 {
      p := n - 1;
    } else {
      p := FirstNegative(ws, n - 1);
    }
  }
}
