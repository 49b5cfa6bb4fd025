/** Schedules of weighted jobs on `m` buckets: job `i` weighs `ws[i]` and goes to bucket `a[i]`.
    Greedy schedules, and Graham's bound on the longest-processing-time-first ones. */
module Schedules {

  function Sum(ws: seq<real>): real {
    if ws == [] then 0.0 else Sum(ws[..|ws| - 1]) + ws[|ws| - 1]
  }

  /** Total weight of the jobs that `a` sends to bucket `k`. */
  function Load(ws: seq<real>, a: seq<nat>, k: nat): real
    requires |a| == |ws|
  {
    if ws == [] then 0.0
    else
      var n := |ws| - 1;
      Load(ws[..n], a[..n], k) + if a[n] == k then ws[n] else 0.0
  }

  function Count(a: seq<nat>, k: nat): nat {
    if a == [] then 0 else Count(a[..|a| - 1], k) + if a[|a| - 1] == k then 1 else 0
  }

  ghost predicate Into(a: seq<nat>, m: nat) {
    forall i | 0 <= i < |a| :: a[i] < m
  }

  ghost predicate NonIncreasing(ws: seq<real>) {
    forall i, j | 0 <= i < j < |ws| :: ws[i] >= ws[j]
  }

  ghost predicate NonNegative(ws: seq<real>) {
    forall i | 0 <= i < |ws| :: ws[i] >= 0.0
  }

  /** Multiplication, named so that the bounds below can be combined without nonlinear reasoning. */
  function Times(r: real, x: real): real { r * x }

  // ----- Double counting -----

  function LoadsBelow(ws: seq<real>, a: seq<nat>, m: nat): real
    requires |a| == |ws|
  {
    if m == 0 then 0.0 else LoadsBelow(ws, a, m - 1) + Load(ws, a, m - 1)
  }

  lemma {:induction false} LoadsBelowStep(ws: seq<real>, a: seq<nat>, m: nat)
    requires |a| == |ws| && ws != []
    ensures var n := |ws| - 1;
            LoadsBelow(ws, a, m) == LoadsBelow(ws[..n], a[..n], m) + if a[n] < m then ws[n] else 0.0
  {
    if m > 0 { LoadsBelowStep(ws, a, m - 1); }
  }

  lemma {:induction false} LoadsBelowEmpty(m: nat)
    ensures LoadsBelow([], [], m) == 0.0
  {
    if m > 0 { LoadsBelowEmpty(m - 1); }
  }

  /** Every job is in exactly one bucket. */
  lemma {:induction false} LoadsAddUp(ws: seq<real>, a: seq<nat>, m: nat)
    requires |a| == |ws| && Into(a, m)
    ensures LoadsBelow(ws, a, m) == Sum(ws)
  {
    if ws == [] {
      LoadsBelowEmpty(m);
    } else {
      LoadsBelowStep(ws, a, m);
      LoadsAddUp(ws[..|ws| - 1], a[..|ws| - 1], m);
    }
  }

  lemma {:induction false} LoadsAtLeast(ws: seq<real>, a: seq<nat>, m: nat, c: real)
    requires |a| == |ws| && forall k | 0 <= k < m :: Load(ws, a, k) >= c
    ensures LoadsBelow(ws, a, m) >= Times(m as real, c)
  {
    if m > 0 {
      LoadsAtLeast(ws, a, m - 1, c);
      assert m as real * c == (m - 1) as real * c + c;
    }
  }

  lemma {:induction false} LoadsAtMost(ws: seq<real>, a: seq<nat>, m: nat, c: real)
    requires |a| == |ws| && forall k | 0 <= k < m :: Load(ws, a, k) <= c
    ensures LoadsBelow(ws, a, m) <= Times(m as real, c)
  {
    if m > 0 {
      LoadsAtMost(ws, a, m - 1, c);
      assert m as real * c == (m - 1) as real * c + c;
    }
  }

  // ----- Greedy schedules -----

  /** What a bucket holds; bins compare by load, then by number of jobs. */
  datatype Bin = Bin(load: real, jobs: nat) {
    predicate AtMost(that: Bin) {
      load < that.load || (load == that.load && jobs <= that.jobs)
    }
  }

  function BinAt(ws: seq<real>, a: seq<nat>, k: nat): Bin
    requires |a| == |ws|
  {
    Bin(Load(ws, a, k), Count(a, k))
  }

  /** No bucket below `m` is leaner than `p`. */
  ghost predicate Leanest(ws: seq<real>, a: seq<nat>, m: nat, p: nat)
    requires |a| == |ws|
  {
    p < m && forall k | 0 <= k < m :: BinAt(ws, a, p).AtMost(BinAt(ws, a, k))
  }

  /** Each job goes to a bucket that was leanest when the job was placed. */
  ghost predicate Greedy(ws: seq<real>, a: seq<nat>, m: nat)
    requires |a| == |ws|
  {
    Into(a, m) && forall i | 0 <= i < |ws| :: Leanest(ws[..i], a[..i], m, a[i])
  }

  lemma {:induction false} LoadNonNegative(ws: seq<real>, a: seq<nat>, k: nat)
    requires |a| == |ws| && NonNegative(ws)
    ensures Load(ws, a, k) >= 0.0
  {
    if ws != [] { LoadNonNegative(ws[..|ws| - 1], a[..|ws| - 1], k); }
  }

  lemma {:induction false} LoadPrefix(ws: seq<real>, a: seq<nat>, k: nat, n: nat)
    requires |a| == |ws| && NonNegative(ws) && n <= |ws|
    ensures Load(ws[..n], a[..n], k) <= Load(ws, a, k)
  {
    if n == |ws| {
      assert ws[..n] == ws && a[..n] == a;
    } else {
      var l := |ws| - 1;
      LoadPrefix(ws[..l], a[..l], k, n);
      assert ws[..l][..n] == ws[..n] && a[..l][..n] == a[..n];
    }
  }

  /** The last job of a bucket completes its load. */
  lemma {:induction false} LastJob(ws: seq<real>, a: seq<nat>, k: nat) returns (j: int)
    requires |a| == |ws|
    ensures -1 <= j < |ws|
    ensures j == -1 ==> Load(ws, a, k) == 0.0
    ensures j >= 0 ==> a[j] == k && Load(ws, a, k) == Load(ws[..j], a[..j], k) + ws[j]
  {
    if ws == [] {
      j := -1;
    } else {
      var n := |ws| - 1;
      if a[n] == k {
        j := n;
      } else {
        j := LastJob(ws[..n], a[..n], k);
        if j >= 0 { assert ws[..n][..j] == ws[..j] && a[..n][..j] == a[..j]; }
      }
    }
  }

  // ----- Graham's bound -----

  /** A job that overflows `opt` together with a job of weight `u` holds two tokens, any other one. */
  function Tokens(ws: seq<real>, u: real, opt: real): (ts: seq<real>)
    ensures |ts| == |ws|
  {
    seq(|ws|, i requires 0 <= i < |ws| => if ws[i] > opt - u then 2.0 else 1.0)
  }

  /** Jobs of at least `u > opt / 3` that fit within `opt` hold at most two tokens. */
  lemma {:induction false} FewTokens(ws: seq<real>, a: seq<nat>, k: nat, u: real, opt: real)
    requires |a| == |ws| && 3.0 * u > opt && (forall i | 0 <= i < |ws| :: ws[i] >= u) && u >= 0.0
    ensures var t, s := Load(Tokens(ws, u, opt), a, k), Load(ws, a, k);
            || (t == 0.0 && s >= 0.0) || (t == 1.0 && s >= u)
            || (t == 2.0 && s > opt - u) || (t >= 3.0 && s > opt)
  {
    if ws != [] {
      var n := |ws| - 1;
      FewTokens(ws[..n], a[..n], k, u, opt);
      assert Tokens(ws, u, opt)[..n] == Tokens(ws[..n], u, opt);
    }
  }

  lemma TwoTokens(ws: seq<real>, a: seq<nat>, k: nat, u: real, opt: real)
    requires |a| == |ws| && 3.0 * u > opt && (forall i | 0 <= i < |ws| :: ws[i] >= u) && u >= 0.0
    requires Load(ws, a, k) <= opt
    ensures Load(Tokens(ws, u, opt), a, k) <= 2.0
  {
    FewTokens(ws, a, k, u, opt);
  }

  /** A bucket loaded beyond `opt - u` holds at least two tokens. */
  lemma {:induction false} ManyTokens(ws: seq<real>, a: seq<nat>, k: nat, u: real, opt: real)
    requires |a| == |ws|
    ensures var t, s := Load(Tokens(ws, u, opt), a, k), Load(ws, a, k);
            (t == 0.0 && s == 0.0) || (t == 1.0 && s <= opt - u) || t >= 2.0
  {
    if ws != [] {
      var n := |ws| - 1;
      ManyTokens(ws[..n], a[..n], k, u, opt);
      assert Tokens(ws, u, opt)[..n] == Tokens(ws[..n], u, opt);
    }
  }

  /** If the job that tops a bucket weighs more than a third of `opt`, the bucket stays within `opt`. */
  lemma HeavyLastJob(ws: seq<real>, a: seq<nat>, b: seq<nat>, m: nat, j: nat, opt: real)
    requires m > 0 && j < |ws| == |a| == |b| && NonIncreasing(ws) && NonNegative(ws)
    requires Greedy(ws, a, m) && Into(b, m) && forall k | 0 <= k < m :: Load(ws, b, k) <= opt
    requires 3.0 * ws[j] > opt
    ensures Load(ws[..j], a[..j], a[j]) + ws[j] <= opt
  {
    var u, n := ws[j], j + 1;
    var before, full := Tokens(ws[..j], u, opt), Tokens(ws[..n], u, opt);
    assert full[..j] == before;
    assert Sum(full) == Sum(before) + full[j];
    FitsAlone(ws, b, m, j, opt);
    PrefixFits(ws, b, m, n, opt);
    TokensFit(ws[..n], b[..n], m, u, opt);
    if Load(ws[..j], a[..j], a[j]) + u > opt {
      TokensSpread(ws, a, m, j, opt);
      assert false;
    }
  }

  lemma FitsAlone(ws: seq<real>, b: seq<nat>, m: nat, j: nat, opt: real)
    requires j < |ws| == |b| && NonNegative(ws) && Into(b, m)
    requires forall k | 0 <= k < m :: Load(ws, b, k) <= opt
    ensures ws[j] <= opt
  {
    LoadPrefix(ws, b, b[j], j + 1);
    LoadNonNegative(ws[..j], b[..j], b[j]);
    assert ws[..j + 1][..j] == ws[..j] && b[..j + 1][..j] == b[..j];
  }

  lemma PrefixFits(ws: seq<real>, b: seq<nat>, m: nat, n: nat, opt: real)
    requires n <= |ws| == |b| && NonNegative(ws) && Into(b, m)
    requires forall k | 0 <= k < m :: Load(ws, b, k) <= opt
    ensures Into(b[..n], m) && forall k | 0 <= k < m :: Load(ws[..n], b[..n], k) <= opt
  {
    forall k | 0 <= k < m ensures Load(ws[..n], b[..n], k) <= opt { LoadPrefix(ws, b, k, n); }
  }

  /** A schedule that stays within `opt` has room for at most two tokens a bucket. */
  lemma TokensFit(ws: seq<real>, b: seq<nat>, m: nat, u: real, opt: real)
    requires |ws| == |b| && Into(b, m) && (forall i | 0 <= i < |ws| :: ws[i] >= u) && u >= 0.0
    requires (forall k | 0 <= k < m :: Load(ws, b, k) <= opt) && 3.0 * u > opt
    ensures Sum(Tokens(ws, u, opt)) <= Times(m as real, 2.0)
  {
    hide *;
    forall k | 0 <= k < m ensures Load(Tokens(ws, u, opt), b, k) <= 2.0 {
      TwoTokens(ws, b, k, u, opt);
    }
    LoadsAtMost(Tokens(ws, u, opt), b, m, 2.0);
    LoadsAddUp(Tokens(ws, u, opt), b, m);
  }

  /** The greedy schedule holds at least two tokens a bucket before a job that overflows them all. */
  lemma TokensSpread(ws: seq<real>, a: seq<nat>, m: nat, j: nat, opt: real)
    requires j < |ws| == |a| && Greedy(ws, a, m) && ws[j] <= opt
    requires Load(ws[..j], a[..j], a[j]) + ws[j] > opt
    ensures Sum(Tokens(ws[..j], ws[j], opt)) >= Times(m as real, 2.0)
  {
    var before, a' := Tokens(ws[..j], ws[j], opt), a[..j];
    forall k | 0 <= k < m ensures Load(before, a', k) >= 2.0 {
      assert BinAt(ws[..j], a', a[j]).AtMost(BinAt(ws[..j], a', k));
      ManyTokens(ws[..j], a', k, ws[j], opt);
    }
    LoadsAtLeast(before, a', m, 2.0);
    LoadsAddUp(before, a', m);
  }

  /** A schedule within `opt` bounds the total weight of the first jobs. */
  lemma FittedPrefixTotal(ws: seq<real>, b: seq<nat>, m: nat, j: nat, opt: real)
    requires j < |ws| == |b| && NonNegative(ws) && Into(b, m)
    requires forall k | 0 <= k < m :: Load(ws, b, k) <= opt
    ensures Sum(ws[..j]) + ws[j] <= Times(m as real, opt)
  {
    hide *;
    PrefixFits(ws, b, m, j + 1, opt);
    LoadsAtMost(ws[..j + 1], b[..j + 1], m, opt);
    LoadsAddUp(ws[..j + 1], b[..j + 1], m);
    SumPrefix(ws, j);
  }

  /** Before a greedy placement every bucket carries at least what the chosen one does. */
  lemma GreedyPrefixTotal(ws: seq<real>, a: seq<nat>, m: nat, j: nat)
    requires j < |ws| == |a| && Greedy(ws, a, m)
    ensures Sum(ws[..j]) >= Times(m as real, Load(ws[..j], a[..j], a[j]))
  {
    var c := Load(ws[..j], a[..j], a[j]);
    forall k | 0 <= k < m ensures Load(ws[..j], a[..j], k) >= c {
      assert BinAt(ws[..j], a[..j], a[j]).AtMost(BinAt(ws[..j], a[..j], k));
    }
    LoadsAtLeast(ws[..j], a[..j], m, c);
    LoadsAddUp(ws[..j], a[..j], m);
  }

  lemma SumPrefix(ws: seq<real>, j: nat)
    requires j < |ws|
    ensures Sum(ws[..j + 1]) == Sum(ws[..j]) + ws[j]
  {
    assert ws[..j + 1][..j] == ws[..j];
  }

  /** `load` is at most 4/3 - 1/(3m) times `opt`. */
  ghost predicate WithinFactor(m: nat, load: real, opt: real) {
    3.0 * m as real * load <= (4.0 * m as real - 1.0) * opt
  }

  /** The fullest bucket is within `opt`, or its last job `w` is light and came on top of a load `c`
      that averaging bounds. */
  lemma GrahamArithmetic(m: nat, l: real, c: real, w: real, total: real, opt: real)
    requires m > 0 && opt >= 0.0
    requires l <= opt ||
             (l == c + w && 3.0 * w <= opt && total >= Times(m as real, c) && total + w <= Times(m as real, opt))
    ensures WithinFactor(m, l, opt)
  {
    var r := m as real;
    hide Times;
    Identities(r, l, c, w, opt);
    if l <= opt {
      Monotone(r, l, opt);
      Monotone(r - 1.0, 0.0, opt);
    } else {
      Monotone(r - 1.0, 3.0 * w, opt);
    }
    assert 3.0 * Times(r, l) <= 3.0 * Times(r, opt) + Times(r - 1.0, opt);
  }

  lemma Identities(r: real, l: real, c: real, w: real, opt: real)
    ensures 3.0 * r * l == 3.0 * Times(r, l)
    ensures (4.0 * r - 1.0) * opt == 3.0 * Times(r, opt) + Times(r - 1.0, opt)
    ensures Times(r, c + w) == Times(r, c) + Times(r, w)
    ensures Times(r - 1.0, 3.0 * w) == 3.0 * Times(r, w) - 3.0 * w
    ensures Times(r - 1.0, 0.0) == 0.0
  { }

  lemma Monotone(r: real, x: real, y: real)
    requires r >= 0.0 && x <= y
    ensures Times(r, x) <= Times(r, y)
  { }

  /** Graham: placing jobs heaviest first, each into the lightest bucket, keeps every bucket within
      4/3 - 1/(3m) of the fullest bucket of any schedule whatsoever. */
  lemma GrahamBound(ws: seq<real>, a: seq<nat>, b: seq<nat>, m: nat, opt: real, k: nat)
    requires k < m && |ws| == |a| == |b| && NonIncreasing(ws) && NonNegative(ws)
    requires Greedy(ws, a, m) && Into(b, m) && forall l | 0 <= l < m :: Load(ws, b, l) <= opt
    ensures WithinFactor(m, Load(ws, a, k), opt)
  {
    hide *;
    LoadNonNegative(ws, b, k);
    var j := LastJob(ws, a, k);
    var c, w, total := 0.0, 0.0, 0.0;
    if j >= 0 {
      c, w, total := Load(ws[..j], a[..j], a[j]), ws[j], Sum(ws[..j]);
      GreedyPrefixTotal(ws, a, m, j);
      FittedPrefixTotal(ws, b, m, j, opt);
      if 3.0 * ws[j] > opt { HeavyLastJob(ws, a, b, m, j, opt); }
    }
    GrahamArithmetic(m, Load(ws, a, k), c, w, total, opt);
  }

  // ----- Negative weights -----

  /** Negative weights count as nothing. */
  function Clipped(ws: seq<real>): (cs: seq<real>)
    ensures |cs| == |ws|
  {
    seq(|ws|, i requires 0 <= i < |ws| => if ws[i] < 0.0 then 0.0 else ws[i])
  }

  function Front(ws: seq<real>): (n: nat)
    ensures n <= |ws| && NonNegative(ws[..n]) && (n < |ws| ==> ws[n] < 0.0)
  {
    if ws == [] || ws[0] < 0.0 then 0 else 1 + Front(ws[1..])
  }

  /** Negative jobs after the first `n` only lighten a bucket, and clipped they leave it alone. */
  lemma {:induction false} NegativeTail(ws: seq<real>, a: seq<nat>, k: nat, n: nat)
    requires |a| == |ws| && n <= |ws| && NonNegative(ws[..n]) && forall i | n <= i < |ws| :: ws[i] < 0.0
    ensures Load(ws, a, k) <= Load(ws[..n], a[..n], k) == Load(Clipped(ws), a, k)
  {
    if n == |ws| {
      assert Clipped(ws) == ws == ws[..n] && a[..n] == a;
    } else {
      var l := |ws| - 1;
      assert ws[..l][..n] == ws[..n] && a[..l][..n] == a[..n];
      NegativeTail(ws[..l], a[..l], k, n);
      assert Clipped(ws)[..l] == Clipped(ws[..l]);
    }
  }

  lemma GreedyPrefix(ws: seq<real>, a: seq<nat>, m: nat, n: nat)
    requires |a| == |ws| && Greedy(ws, a, m) && n <= |ws|
    ensures Greedy(ws[..n], a[..n], m)
  {
    forall i | 0 <= i < n ensures Leanest(ws[..n][..i], a[..n][..i], m, a[..n][i]) {
      assert ws[..n][..i] == ws[..i] && a[..n][..i] == a[..i];
    }
  }

  /** Graham's bound with weights of any sign, against schedules in which negative ones count as nothing. */
  lemma ClippedBound(ws: seq<real>, a: seq<nat>, b: seq<nat>, m: nat, opt: real, k: nat)
    requires k < m && |ws| == |a| == |b| && NonIncreasing(ws)
    requires Greedy(ws, a, m) && Into(b, m) && forall l | 0 <= l < m :: Load(Clipped(ws), b, l) <= opt
    ensures WithinFactor(m, Load(ws, a, k), opt)
  {
    var n := Front(ws);
    hide Load, Greedy, Clipped, WithinFactor;
    NegativeTail(ws, a, k, n);
    forall l | 0 <= l < m ensures Load(ws[..n], b[..n], l) <= opt { NegativeTail(ws, b, l, n); }
    GreedyPrefix(ws, a, m, n);
    GrahamBound(ws[..n], a[..n], b[..n], m, opt, k);
    LighterWithin(m, Load(ws, a, k), Load(ws[..n], a[..n], k), opt);
  }

  lemma LighterWithin(m: nat, light: real, heavy: real, opt: real)
    requires light <= heavy && WithinFactor(m, heavy, opt)
    ensures WithinFactor(m, light, opt)
  {
    Monotone(3.0 * m as real, light, heavy);
  }

  /** Counted as they are, a negative weight may cancel a heavy one, and then the bound fails: 3, 1 and -100
      greedily make 3 and -99, yet -97 and 1 is possible, without an empty bucket in either. */
  lemma NegativesCancel(ws: seq<real>, a: seq<nat>, b: seq<nat>)
    requires ws == [3.0, 1.0, -100.0] && a == [0, 1, 1] && b == [0, 1, 0]
    ensures NonIncreasing(ws) && Greedy(ws, a, 2) && Into(b, 2)
    ensures Load(ws, b, 0) <= 1.0 && Load(ws, b, 1) <= 1.0 && !WithinFactor(2, Load(ws, a, 0), 1.0)
  {
    hide Greedy, Load, Count;
    Unfilled(2);
    var ws', a', b';
    ws', a' := TwoBins([], [], Bin(0.0, 0), Bin(0.0, 0), 3.0, 0);
    ws', a' := TwoBins(ws', a', Bin(3.0, 1), Bin(0.0, 0), 1.0, 1);
    ws', a' := TwoBins(ws', a', Bin(3.0, 1), Bin(1.0, 1), -100.0, 1);
    assert ws' == ws && a' == a;
    ws', b' := TwoBins([], [], Bin(0.0, 0), Bin(0.0, 0), 3.0, 0);
    ws', b' := TwoBins(ws', b', Bin(3.0, 1), Bin(0.0, 0), 1.0, 1);
    ws', b' := TwoBins(ws', b', Bin(3.0, 1), Bin(1.0, 1), -100.0, 0);
    assert ws' == ws && b' == b;
  }

  /** Two buckets holding `x` and `y`, one more job for the first or for the second. */
  lemma TwoBins(ws: seq<real>, a: seq<nat>, x: Bin, y: Bin, w: real, p: nat) returns (ws': seq<real>, a': seq<nat>)
    requires |ws| == |a| && p < 2 && BinAt(ws, a, 0) == x && BinAt(ws, a, 1) == y
    ensures ws' == ws + [w] && a' == a + [p]
    ensures BinAt(ws', a', 0) == if p == 0 then Bin(x.load + w, x.jobs + 1) else x
    ensures BinAt(ws', a', 1) == if p == 1 then Bin(y.load + w, y.jobs + 1) else y
    ensures Greedy(ws, a, 2) && (if p == 0 then x.AtMost(y) else y.AtMost(x)) ==> Greedy(ws', a', 2)
  {
    ws', a' := ws + [w], a + [p];
    Snoc(ws, a, w, p, 0);
    Snoc(ws, a, w, p, 1);
    if Greedy(ws, a, 2) && (if p == 0 then x.AtMost(y) else y.AtMost(x)) {
      assert Leanest(ws, a, 2, p);
      GreedySnoc(ws, a, 2, w, p);
    }
  }

  // ----- Longer schedules -----

  lemma Snoc(ws: seq<real>, a: seq<nat>, w: real, p: nat, k: nat)
    requires |ws| == |a|
    ensures Load(ws + [w], a + [p], k) == Load(ws, a, k) + if p == k then w else 0.0
    ensures Count(a + [p], k) == Count(a, k) + if p == k then 1 else 0
  {
    assert (ws + [w])[..|ws|] == ws && (a + [p])[..|a|] == a;
  }

  /** Extending a greedy schedule by a job placed in a leanest bucket. */
  lemma GreedySnoc(ws: seq<real>, a: seq<nat>, m: nat, w: real, p: nat)
    requires |ws| == |a| && Greedy(ws, a, m) && Leanest(ws, a, m, p)
    ensures Greedy(ws + [w], a + [p], m)
  {
    var ws', a' := ws + [w], a + [p];
    forall i | 0 <= i < |ws'| ensures Leanest(ws'[..i], a'[..i], m, a'[i]) {
      if i < |ws| {
        assert ws'[..i] == ws[..i] && a'[..i] == a[..i];
      } else {
        assert ws'[..i] == ws && a'[..i] == a;
      }
    }
  }

  lemma GreedyInit(ws: seq<real>, a: seq<nat>, m: nat)
    requires |ws| == |a| && ws != [] && Greedy(ws, a, m)
    ensures var n := |ws| - 1; Greedy(ws[..n], a[..n], m) && Leanest(ws[..n], a[..n], m, a[n])
  {
    GreedyPrefix(ws, a, m, |ws| - 1);
  }

  // ----- The bound is attained -----

  /** Graham's worst case for `m` buckets: two jobs of each weight from 2m - 1 down to m + 1, three of weight m. */
  function Worst(m: nat, i: nat): int { if i < 2 * m then 2 * m - 1 - i / 2 else m }

  /** The first `n` of them. */
  predicate WorstJobs(ws: seq<real>, m: nat, n: nat) {
    |ws| == n && forall i | 0 <= i < n :: ws[i] == Worst(m, i) as real
  }

  /** Greedy fills the buckets once forth, once back, and puts the last job on the first. */
  function WorstBin(m: nat, n: nat, k: nat): Bin {
    if n <= k then Bin(0.0, 0)
    else if n < 2 * m - k then Bin(Worst(m, k) as real, 1)
    else if n == 2 * m + 1 && k == 0 then Bin((4 * m - 1) as real, 3)
    else Bin((3 * m - 1) as real, 2)
  }

  function WorstChoice(m: nat, i: nat): int {
    if i < m then i else if i < 2 * m then 2 * m - 1 - i else 0
  }

  lemma WorstBinSteps(m: nat, n: nat, k: nat)
    requires k < m && 0 < n <= 2 * m + 1
    ensures var bin := WorstBin(m, n - 1, k);
            WorstBin(m, n, k) == if k == WorstChoice(m, n - 1)
                then Bin(bin.load + Worst(m, n - 1) as real, bin.jobs + 1) else bin
  {}

  lemma {:induction false} WorstGreedy(m: nat, n: nat) returns (ws: seq<real>, a: seq<nat>)
    requires m > 0 && n <= 2 * m + 1
    ensures WorstJobs(ws, m, n) && |a| == n && Greedy(ws, a, m)
    ensures forall k | 0 <= k < m :: BinAt(ws, a, k) == WorstBin(m, n, k)
  {
    hide Greedy, Load, Count, WorstBin;
    if n == 0 {
      ws, a := [], [];
      Unfilled(m);
    } else {
      var w, p := Worst(m, n - 1) as real, WorstChoice(m, n - 1);
      ws, a := WorstGreedy(m, n - 1);
      WorstLeanest(m, n - 1);
      assert Leanest(ws, a, m, p);
      GreedySnoc(ws, a, m, w, p);
      forall k | 0 <= k < m ensures BinAt(ws + [w], a + [p], k) == WorstBin(m, n, k) {
        Snoc(ws, a, w, p, k);
        WorstBinSteps(m, n, k);
      }
      ws, a := ws + [w], a + [p];
    }
  }

  lemma Unfilled(m: nat)
    ensures Greedy([], [], m) && forall k :: BinAt([], [], k) == Bin(0.0, 0)
    ensures forall k :: Load([], [], k) == 0.0
    ensures forall k: nat :: WorstBin(m, 0, k) == Bin(0.0, 0)
  {}

  lemma WorstLeanest(m: nat, i: nat)
    requires m > 0 && i <= 2 * m
    ensures 0 <= WorstChoice(m, i) < m
    ensures forall k | 0 <= k < m :: WorstBin(m, i, WorstChoice(m, i)).AtMost(WorstBin(m, i, k))
  {}

  /** The best schedule pairs the jobs heavier than m, heaviest with lightest, and puts the last three together. */
  function BestChoice(m: nat, i: nat): int {
    if i < m - 1 then i else if i < 2 * m - 2 then 2 * m - 3 - i else m - 1
  }

  function BestLoad(m: nat, n: nat, k: nat): int {
    if k == m - 1 then if n <= 2 * m - 2 then 0 else m * (n - (2 * m - 2))
    else if n <= k then 0 else if n < 2 * m - 2 - k then Worst(m, k) else 3 * m
  }

  lemma BestLoadSteps(m: nat, n: nat, k: nat)
    requires k < m && 0 < n <= 2 * m + 1
    ensures BestLoad(m, n, k) == BestLoad(m, n - 1, k) + if k == BestChoice(m, n - 1) then Worst(m, n - 1) else 0
  {
    if k == m - 1 && n > 2 * m - 2 {
      assert n == 2 * m - 1 || n == 2 * m || n == 2 * m + 1;
    }
  }

  lemma {:induction false} WorstBest(m: nat, n: nat) returns (ws: seq<real>, b: seq<nat>)
    requires m > 0 && n <= 2 * m + 1
    ensures WorstJobs(ws, m, n) && |b| == n && Into(b, m)
    ensures forall k | 0 <= k < m :: Load(ws, b, k) == BestLoad(m, n, k) as real
  {
    hide Load, Count;
    if n == 0 {
      ws, b := [], [];
      Unfilled(m);
    } else {
      var w, p := Worst(m, n - 1) as real, BestChoice(m, n - 1);
      ws, b := WorstBest(m, n - 1);
      forall k | 0 <= k < m ensures Load(ws + [w], b + [p], k) == BestLoad(m, n, k) as real {
        Snoc(ws, b, w, p, k);
        BestLoadSteps(m, n, k);
      }
      ws, b := ws + [w], b + [p];
    }
  }

  /** The constant cannot be improved for any number of buckets: some jobs fit in 3m each, and greedy
      loads a bucket with 4m - 1. */
  lemma GrahamTight(m: nat) returns (ws: seq<real>, a: seq<nat>, b: seq<nat>, opt: real)
    requires m > 0
    ensures |ws| == |a| == |b| && NonIncreasing(ws) && NonNegative(ws) && Greedy(ws, a, m) && Into(b, m)
    ensures opt > 0.0 && forall k | 0 <= k < m :: Load(ws, b, k) == opt
    ensures 3.0 * m as real * Load(ws, a, 0) == (4.0 * m as real - 1.0) * opt
  {
    hide Greedy, Load, Count;
    var ws';
    ws, a := WorstGreedy(m, 2 * m + 1);
    ws', b := WorstBest(m, 2 * m + 1);
    assert ws == ws';
    opt := (3 * m) as real;
    assert BinAt(ws, a, 0) == WorstBin(m, 2 * m + 1, 0);
    Cross(m as real);
  }

  lemma Cross(r: real)
    ensures 3.0 * r * (4.0 * r - 1.0) == (4.0 * r - 1.0) * (3.0 * r)
  {}

  // ----- All greedy schedules balance alike -----

  function Bins(ws: seq<real>, a: seq<nat>, m: nat): (bins: seq<Bin>)
    requires |ws| == |a|
    ensures |bins| == m
  {
    seq(m, k requires 0 <= k => BinAt(ws, a, k))
  }

  lemma BinsSnoc(ws: seq<real>, a: seq<nat>, m: nat, w: real, p: nat)
    requires |ws| == |a| && p < m
    ensures var bins := Bins(ws, a, m);
            Bins(ws + [w], a + [p], m) == bins[p := Bin(bins[p].load + w, bins[p].jobs + 1)]
  {
    var bins, bins' := Bins(ws, a, m), Bins(ws + [w], a + [p], m);
    forall k | 0 <= k < m ensures bins'[k] == bins[p := Bin(bins[p].load + w, bins[p].jobs + 1)][k] {
      Snoc(ws, a, w, p, k);
    }
  }

  ghost predicate LeastBin(bins: seq<Bin>, b: Bin) {
    b in bins && forall c | c in bins :: b.AtMost(c)
  }

  lemma LeanestIsLeast(ws: seq<real>, a: seq<nat>, m: nat, p: nat)
    requires |ws| == |a| && Leanest(ws, a, m, p)
    ensures p < m && LeastBin(Bins(ws, a, m), Bins(ws, a, m)[p])
  {
    var bins := Bins(ws, a, m);
    forall c | c in bins ensures bins[p].AtMost(c) {
      var k :| 0 <= k < m && bins[k] == c;
      assert BinAt(ws, a, p).AtMost(BinAt(ws, a, k));
    }
  }

  /** Equal multisets of bins have equal least bins. */
  lemma LeastBinsAgree(s: seq<Bin>, t: seq<Bin>, b: Bin, c: Bin)
    requires multiset(s) == multiset(t) && LeastBin(s, b) && LeastBin(t, c)
    ensures b == c
  {
    assert b in multiset(t) && c in multiset(s);
    assert b in t && c in s;
  }

  lemma UpdateMultiset<T>(s: seq<T>, p: nat, x: T)
    requires p < |s|
    ensures multiset(s[p := x]) == multiset(s) - multiset{s[p]} + multiset{x}
  { }

  lemma UpdateBoth<T>(s: seq<T>, t: seq<T>, p: nat, q: nat, x: T)
    requires multiset(s) == multiset(t) && p < |s| && q < |t| && s[p] == t[q]
    ensures multiset(s[p := x]) == multiset(t[q := x])
  {
    UpdateMultiset(s, p, x);
    UpdateMultiset(t, q, x);
  }

  /** Whichever leanest bucket each step picks, the same loads and counts come out. */
  lemma {:induction false} GreedyBalancesAlike(ws: seq<real>, a: seq<nat>, a': seq<nat>, m: nat)
    requires |ws| == |a| == |a'| && Greedy(ws, a, m) && Greedy(ws, a', m)
    ensures multiset(Bins(ws, a, m)) == multiset(Bins(ws, a', m))
    decreases |ws|
  {
    if ws == [] {
      assert a == [] && a' == [];
    } else {
      var n := |ws| - 1;
      var v, w, b, b' := ws[..n], ws[n], a[..n], a'[..n];
      GreedyInit(ws, a, m);
      GreedyInit(ws, a', m);
      assert ws == v + [w] && a == b + [a[n]] && a' == b' + [a'[n]];
      GreedyBalancesAlike(v, b, b', m);
      SameStep(v, b, b', m, w, a[n], a'[n]);
    }
  }

  lemma SameStep(ws: seq<real>, a: seq<nat>, a': seq<nat>, m: nat, w: real, p: nat, p': nat)
    requires |ws| == |a| == |a'| && Leanest(ws, a, m, p) && Leanest(ws, a', m, p')
    requires multiset(Bins(ws, a, m)) == multiset(Bins(ws, a', m))
    ensures multiset(Bins(ws + [w], a + [p], m)) == multiset(Bins(ws + [w], a' + [p'], m))
  {
    hide *;
    LeanestIsLeast(ws, a, m, p);
    LeanestIsLeast(ws, a', m, p');
    BinsSnoc(ws, a, m, w, p);
    BinsSnoc(ws, a', m, w, p');
    SameUpdate(Bins(ws, a, m), Bins(ws, a', m), p, p', w);
  }

  lemma SameUpdate(s: seq<Bin>, t: seq<Bin>, p: nat, q: nat, w: real)
    requires multiset(s) == multiset(t) && p < |s| && q < |t| && LeastBin(s, s[p]) && LeastBin(t, t[q])
    ensures multiset(s[p := Bin(s[p].load + w, s[p].jobs + 1)]) == multiset(t[q := Bin(t[q].load + w, t[q].jobs + 1)])
  {
    hide *;
    LeastBinsAgree(s, t, s[p], t[q]);
    UpdateBoth(s, t, p, q, Bin(s[p].load + w, s[p].jobs + 1));
  }

  /** The first leanest of the buckets `0..m`, found by scanning. */
  function Scan(ws: seq<real>, a: seq<nat>, m: nat): nat
    requires |ws| == |a| && m > 0
  {
    if m == 1 then 0
    else
      var p := Scan(ws, a, m - 1);
      if BinAt(ws, a, p).AtMost(BinAt(ws, a, m - 1)) then p else m - 1
  }

  lemma {:induction false} ScanLeanest(ws: seq<real>, a: seq<nat>, m: nat)
    requires |ws| == |a| && m > 0
    ensures Leanest(ws, a, m, Scan(ws, a, m))
  {
    if m > 1 {
      ScanLeanest(ws, a, m - 1);
      var p, q := Scan(ws, a, m - 1), Scan(ws, a, m);
      forall k | 0 <= k < m ensures BinAt(ws, a, q).AtMost(BinAt(ws, a, k)) {
        if k < m - 1 { assert BinAt(ws, a, p).AtMost(BinAt(ws, a, k)); }
      }
    }
  }

  /** The greedy schedule that scans all buckets at every step. */
  function LinearScan(ws: seq<real>, m: nat): (a: seq<nat>)
    requires m > 0
    ensures |a| == |ws|
  {
    if ws == [] then []
    else
      var before := LinearScan(ws[..|ws| - 1], m);
      before + [Scan(ws[..|ws| - 1], before, m)]
  }

  lemma {:induction false} LinearScanGreedy(ws: seq<real>, m: nat)
    requires m > 0
    ensures Greedy(ws, LinearScan(ws, m), m)
  {
    if ws != [] {
      var v := ws[..|ws| - 1];
      LinearScanGreedy(v, m);
      ScanLeanest(v, LinearScan(v, m), m);
      GreedySnoc(v, LinearScan(v, m), m, ws[|ws| - 1], Scan(v, LinearScan(v, m), m));
      assert ws == v + [ws[|ws| - 1]];
    }
  }
}
