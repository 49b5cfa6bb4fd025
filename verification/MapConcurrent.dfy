/** The worker pool `mapConcurrent` (scripts/benchmark-next-package-dependency.ts:182-199) under every
    interleaving of its workers. The workers share the counter `next` and the array `results`; each
    one runs undisturbed between two awaits. */
module MapConcurrent {
  import opened Wrappers

  /** A worker about to look at the counter, awaiting the operation on an index, returned, or thrown. */
  datatype Worker = Ready | Awaiting(index: nat) | Returned | Threw(at: nat)

  datatype State<!R> = State(next: nat, workers: seq<Worker>, results: map<nat, R>)

  /** The pool's input: the values, where `None` stands for `undefined`, the number of jobs, and the
      operation. */
  datatype Pool<!T, !R> = Pool(values: seq<Option<T>>, jobs: nat, operation: T -> R) {
    function Workers(): nat { if jobs < |values| then jobs else |values| }
  }

  function Init<T, R>(p: Pool<T, R>): State<R> {
    State(0, seq(p.Workers(), _ => Ready), map[])
  }

  /** Worker `i` claims the next index, or returns on an undefined value or past the end (lines 190-194). */
  ghost predicate Claim<T, R>(p: Pool<T, R>, s: State<R>, s': State<R>, i: nat) {
    && i < |s.workers| && s.workers[i] == Ready && s'.results == s.results
    && if s.next >= |p.values| then s'.next == s.next && s'.workers == s.workers[i := Returned]
       else if p.values[s.next] == None then s'.next == s.next + 1 && s'.workers == s.workers[i := Returned]
       else s'.next == s.next + 1 && s'.workers == s.workers[i := Awaiting(s.next)]
  }

  /** The operation worker `i` awaits resolves (line 195). */
  ghost predicate Resolve<T, R>(p: Pool<T, R>, s: State<R>, s': State<R>, i: nat) {
    && i < |s.workers| && s.workers[i].Awaiting? && s.workers[i].index < |p.values| &&
        p.values[s.workers[i].index].Some?
    && s'.next == s.next && s'.workers == s.workers[i := Ready]
    && s'.results == s.results[s.workers[i].index := p.operation(p.values[s.workers[i].index].value)]
  }

  /** It rejects instead; the other workers go on. */
  ghost predicate Reject<T, R>(p: Pool<T, R>, s: State<R>, s': State<R>, i: nat) {
    && i < |s.workers| && s.workers[i].Awaiting?
    && s' == s.(workers := s.workers[i := Threw(s.workers[i].index)])
  }

  ghost predicate Step<T, R>(p: Pool<T, R>, s: State<R>, s': State<R>) {
    exists i: nat :: Claim(p, s, s', i) || Resolve(p, s, s', i) || Reject(p, s, s', i)
  }

  ghost predicate Run<T, R>(p: Pool<T, R>, trace: seq<State<R>>) {
    && trace != [] && trace[0] == Init(p)
    && forall i | 0 < i < |trace| :: Step(p, trace[i - 1], trace[i])
  }

  /** Every worker has returned or thrown. */
  predicate Over<R>(s: State<R>) {
    forall i | 0 <= i < |s.workers| :: s.workers[i].Returned? || s.workers[i].Threw?
  }

  /** `Promise.all` resolves: no worker threw. */
  predicate Succeeds<R>(s: State<R>) {
    forall i | 0 <= i < |s.workers| :: s.workers[i].Returned?
  }

  // ----- The invariant -----

  /** Worker `i` holds index `k`, still working on it or thrown over it. */
  predicate Holds<R>(s: State<R>, i: nat, k: nat) {
    i < |s.workers| && match s.workers[i] case Awaiting(index) => index == k case Threw(at) => at == k case _ => false
  }

  ghost predicate Held<R>(s: State<R>, k: nat) { exists i :: Holds(s, i, k) }

  /** Every claimed index with a value is either held by a worker or has its result; none is held twice. */
  ghost predicate Accounted<T, R>(p: Pool<T, R>, s: State<R>) {
    && s.next <= |p.values| && |s.workers| == p.Workers()
    && (forall i: nat, k: nat | Holds(s, i, k) :: k < s.next && p.values[k].Some? && k !in s.results)
    && (forall i: nat, j: nat, k: nat | Holds(s, i, k) && Holds(s, j, k) :: i == j)
    && (forall k | k in s.results :: k < s.next && p.values[k].Some? && s.results[k] == p.operation(p.values[k].value))
    && (forall k: nat | k < s.next && p.values[k].Some? :: k in s.results || Held(s, k))
  }

  lemma InitAccounted<T, R>(p: Pool<T, R>)
    ensures Accounted(p, Init(p))
  {
    assert forall i | 0 <= i < p.Workers() :: Init(p).workers[i] == Ready;
  }

  lemma ClaimAccounted<T, R>(p: Pool<T, R>, s: State<R>, s': State<R>, i: nat)
    requires Accounted(p, s) && Claim(p, s, s', i)
    ensures Accounted(p, s')
  {
    var claimed := s.next < |p.values| && p.values[s.next].Some?;
    forall j: nat, k: nat ensures Holds(s', j, k) <==> Holds(s, j, k) || (claimed && j == i && k == s.next) { }
    forall k: nat | k < s'.next && p.values[k].Some? ensures k in s'.results || Held(s', k) {
      if k == s.next {
        assert Holds(s', i, k);
      } else if k !in s.results {
        var j :| Holds(s, j, k);
        assert Holds(s', j, k);
      }
    }
  }

  lemma ResolveAccounted<T, R>(p: Pool<T, R>, s: State<R>, s': State<R>, i: nat)
    requires Accounted(p, s) && Resolve(p, s, s', i)
    ensures Accounted(p, s')
  {
    var done := s.workers[i].index;
    assert Holds(s, i, done);
    forall j: nat, k: nat ensures Holds(s', j, k) <==> Holds(s, j, k) && j != i { }
    forall k: nat | k < s'.next && p.values[k].Some? ensures k in s'.results || Held(s', k) {
      if k != done && k !in s.results {
        var j :| Holds(s, j, k);
        assert Holds(s', j, k);
      }
    }
  }

  lemma RejectAccounted<T, R>(p: Pool<T, R>, s: State<R>, s': State<R>, i: nat)
    requires Accounted(p, s) && Reject(p, s, s', i)
    ensures Accounted(p, s')
  {
    forall j: nat, k: nat ensures Holds(s', j, k) <==> Holds(s, j, k) { }
    forall k: nat | k < s'.next && p.values[k].Some? ensures k in s'.results || Held(s', k) {
      if k !in s.results {
        var j :| Holds(s, j, k);
        assert Holds(s', j, k);
      }
    }
  }

  // ----- Where claiming stops -----

  /** Where `w` workers that each return at the first undefined value they meet stop claiming. */
  function Stop<T>(values: seq<Option<T>>, from: nat, w: nat): nat
    requires from <= |values|
    decreases |values| - from
  {
    if w == 0 || from == |values| then from
    else Stop(values, from + 1, if values[from] == None then w - 1 else w)
  }

  /** Workers that have not returned. */
  function Live(ws: seq<Worker>): nat {
    if ws == [] then 0 else Live(ws[..|ws| - 1]) + if ws[|ws| - 1].Returned? then 0 else 1
  }

  lemma {:induction false} LiveUpdate(ws: seq<Worker>, i: nat, w: Worker)
    requires i < |ws|
    ensures Live(ws[i := w]) == Live(ws) - (if ws[i].Returned? then 0 else 1) + (if w.Returned? then 0 else 1)
    ensures !ws[i].Returned? ==> Live(ws) > 0
  {
    var n := |ws| - 1;
    if i == n {
      assert ws[i := w][..n] == ws[..n];
    } else {
      LiveUpdate(ws[..n], i, w);
      assert ws[i := w][..n] == ws[..n][i := w];
    }
  }

  lemma {:induction false} AllReturned(ws: seq<Worker>)
    requires forall i | 0 <= i < |ws| :: ws[i].Returned?
    ensures Live(ws) == 0
  {
    if ws != [] { AllReturned(ws[..|ws| - 1]); }
  }

  lemma {:induction false} AllReady(n: nat)
    ensures Live(seq(n, _ => Ready)) == n
  {
    if n > 0 {
      AllReady(n - 1);
      assert seq(n, _ => Ready)[..n - 1] == seq(n - 1, _ => Ready);
    }
  }

  /** Claiming from here with the live workers stops where claiming from the start with all of them
      would; once the values are exhausted it does not matter how many are left. */
  ghost predicate OnCourse<T, R>(p: Pool<T, R>, s: State<R>) {
    s.next <= |p.values| && Stop(p.values, s.next, Live(s.workers)) == Stop(p.values, 0, p.Workers())
  }

  lemma StepKeeps<T, R>(p: Pool<T, R>, s: State<R>, s': State<R>)
    requires Accounted(p, s) && OnCourse(p, s) && Step(p, s, s')
    ensures Accounted(p, s') && OnCourse(p, s')
  {
    var i: nat :| Claim(p, s, s', i) || Resolve(p, s, s', i) || Reject(p, s, s', i);
    hide Accounted;
    if Claim(p, s, s', i) {
      ClaimAccounted(p, s, s', i);
      LiveUpdate(s.workers, i, s'.workers[i]);
    } else if Resolve(p, s, s', i) {
      ResolveAccounted(p, s, s', i);
      LiveUpdate(s.workers, i, Ready);
    } else {
      RejectAccounted(p, s, s', i);
      LiveUpdate(s.workers, i, s'.workers[i]);
    }
  }

  /** At every point of every run the invariant holds. */
  lemma {:induction false} RunKeeps<T, R>(p: Pool<T, R>, trace: seq<State<R>>, i: nat)
    requires Run(p, trace) && i < |trace|
    ensures Accounted(p, trace[i]) && OnCourse(p, trace[i])
  {
    if i == 0 {
      InitAccounted(p);
      AllReady(p.Workers());
    } else {
      RunKeeps(p, trace, i - 1);
      StepKeeps(p, trace[i - 1], trace[i]);
    }
  }

  // ----- Results -----

  function InFlight(ws: seq<Worker>): nat {
    if ws == [] then 0 else InFlight(ws[..|ws| - 1]) + if ws[|ws| - 1].Awaiting? then 1 else 0
  }

  lemma {:induction false} InFlightBounded(ws: seq<Worker>)
    ensures InFlight(ws) <= |ws|
  {
    if ws != [] { InFlightBounded(ws[..|ws| - 1]); }
  }

  /** At most `jobs` operations are in flight, no two on the same index, and none on an index that
      already has its result. */
  lemma NeverOverlaps<T, R>(p: Pool<T, R>, trace: seq<State<R>>, i: nat)
    requires Run(p, trace) && i < |trace|
    ensures InFlight(trace[i].workers) <= p.jobs
    ensures forall a, b
              | 0 <= a < b < |trace[i].workers| && trace[i].workers[a].Awaiting? && trace[i].workers[b].Awaiting? ::
              trace[i].workers[a].index != trace[i].workers[b].index
    ensures forall a | 0 <= a < |trace[i].workers| && trace[i].workers[a].Awaiting? ::
              trace[i].workers[a].index !in trace[i].results
  {
    RunKeeps(p, trace, i);
    InFlightBounded(trace[i].workers);
    var s := trace[i];
    forall a | 0 <= a < |s.workers| && s.workers[a].Awaiting? ensures s.workers[a].index !in s.results {
      assert Holds(s, a, s.workers[a].index);
    }
    forall a, b | 0 <= a < b < |s.workers| && s.workers[a].Awaiting? && s.workers[b].Awaiting?
      ensures s.workers[a].index != s.workers[b].index
    {
      assert Holds(s, b, s.workers[b].index);
      assert Holds(s, a, s.workers[a].index);
    }
  }

  /** A resolved pool has the result of every value up to the point where its workers stop, and
      nothing else, whatever the interleaving. */
  lemma ResultsExactly<T, R>(p: Pool<T, R>, trace: seq<State<R>>)
    requires Run(p, trace) && Succeeds(trace[|trace| - 1])
    ensures var results := trace[|trace| - 1].results;
            forall k: nat ::
                (k in results <==> k < Stop(p.values, 0, p.Workers()) && k < |p.values| && p.values[k].Some?)
                          && (k in results ==> results[k] == p.operation(p.values[k].value))
  {
    var s := trace[|trace| - 1];
    RunKeeps(p, trace, |trace| - 1);
    AllReturned(s.workers);
    assert Stop(p.values, s.next, 0) == s.next;
    forall i: nat, k: nat ensures !Holds(s, i, k) { }
  }

  lemma {:induction false} StopAtEnd<T>(values: seq<Option<T>>, from: nat, w: nat)
    requires from <= |values| && w > 0 && forall k | from <= k < |values| :: values[k].Some?
    ensures Stop(values, from, w) == |values|
    decreases |values| - from
  {
    if from < |values| { StopAtEnd(values, from + 1, w); }
  }

  /** Every index has the result for its value. */
  ghost predicate Filled<T, R>(p: Pool<T, R>, s: State<R>) {
    forall k | 0 <= k < |p.values| ::
        p.values[k].Some? && k in s.results && s.results[k] == p.operation(p.values[k].value)
  }

  /** With at least one job and no undefined value, every value gets its result. */
  lemma AllResults<T, R>(p: Pool<T, R>, trace: seq<State<R>>)
    requires Run(p, trace) && Succeeds(trace[|trace| - 1])
    requires p.jobs > 0 && forall k | 0 <= k < |p.values| :: p.values[k].Some?
    ensures Filled(p, trace[|trace| - 1])
  {
    ResultsExactly(p, trace);
    if p.values != [] { StopAtEnd(p.values, 0, p.Workers()); }
  }

  // ----- Every run ends -----

  function WorkerRank(w: Worker): nat { match w case Awaiting(_) => 2 case Ready => 1 case _ => 0 }

  function Rank(ws: seq<Worker>): nat {
    if ws == [] then 0 else Rank(ws[..|ws| - 1]) + WorkerRank(ws[|ws| - 1])
  }

  lemma {:induction false} RankUpdate(ws: seq<Worker>, i: nat, w: Worker)
    requires i < |ws|
    ensures Rank(ws[i := w]) == Rank(ws) - WorkerRank(ws[i]) + WorkerRank(w)
  {
    var n := |ws| - 1;
    if i == n {
      assert ws[i := w][..n] == ws[..n];
    } else {
      RankUpdate(ws[..n], i, w);
      assert ws[i := w][..n] == ws[..n][i := w];
    }
  }

  function Left<T, R>(p: Pool<T, R>, s: State<R>): int { 2 * (|p.values| - s.next) + Rank(s.workers) }

  lemma StepProgresses<T, R>(p: Pool<T, R>, s: State<R>, s': State<R>)
    requires s.next <= |p.values| && Step(p, s, s')
    ensures Left(p, s') < Left(p, s)
  {
    var i: nat :| Claim(p, s, s', i) || Resolve(p, s, s', i) || Reject(p, s, s', i);
    RankUpdate(s.workers, i, s'.workers[i]);
  }

  lemma {:induction false} InitRank(n: nat)
    ensures Rank(seq(n, _ => Ready)) == n
  {
    if n > 0 {
      InitRank(n - 1);
      assert seq(n, _ => Ready)[..n - 1] == seq(n - 1, _ => Ready);
    }
  }

  /** A run takes at most two steps per value and one per worker. */
  lemma {:induction false} RunsEnd<T, R>(p: Pool<T, R>, trace: seq<State<R>>, i: nat)
    requires Run(p, trace) && i < |trace|
    ensures i + Left(p, trace[i]) <= 2 * |p.values| + p.Workers()
    ensures Left(p, trace[i]) >= 0
  {
    RunKeeps(p, trace, i);
    if i == 0 {
      InitRank(p.Workers());
    } else {
      RunsEnd(p, trace, i - 1);
      RunKeeps(p, trace, i - 1);
      StepProgresses(p, trace[i - 1], trace[i]);
    }
  }

  /** A step that rejects no operation. */
  ghost predicate Advance<T, R>(p: Pool<T, R>, s: State<R>, s': State<R>) {
    exists i: nat :: Claim(p, s, s', i) || Resolve(p, s, s', i)
  }

  ghost predicate Stuck<T, R(!new)>(p: Pool<T, R>, s: State<R>) { forall s' :: !Advance(p, s, s') }

  /** Until every worker is over, one can claim or has an operation that may resolve. */
  lemma NeverStuck<T, R>(p: Pool<T, R>, s: State<R>) returns (s': State<R>)
    requires Accounted(p, s) && !Over(s)
    ensures Advance(p, s, s')
  {
    var i :| 0 <= i < |s.workers| && !(s.workers[i].Returned? || s.workers[i].Threw?);
    if s.workers[i].Awaiting? {
      var index := s.workers[i].index;
      assert Holds(s, i, index);
      s' := s.(workers := s.workers[i := Ready], results := s.results[index := p.operation(p.values[index].value)]);
      assert Resolve(p, s, s', i);
    } else {
      s' := if s.next >= |p.values| then s.(workers := s.workers[i := Returned])
            else if p.values[s.next] == None then s.(next := s.next + 1, workers := s.workers[i := Returned])
            else s.(next := s.next + 1, workers := s.workers[i := Awaiting(s.next)]);
      assert Claim(p, s, s', i);
    }
  }

  /** A run in which every operation that settles resolves. */
  ghost predicate SmoothRun<T, R>(p: Pool<T, R>, trace: seq<State<R>>) {
    && trace != [] && trace[0] == Init(p)
    && forall i | 0 < i < |trace| :: Advance(p, trace[i - 1], trace[i])
  }

  lemma SmoothIsRun<T, R>(p: Pool<T, R>, trace: seq<State<R>>)
    requires SmoothRun(p, trace)
    ensures Run(p, trace)
  {
    forall i | 0 < i < |trace| ensures Step(p, trace[i - 1], trace[i]) {
      var w: nat :| Claim(p, trace[i - 1], trace[i], w) || Resolve(p, trace[i - 1], trace[i], w);
    }
  }

  lemma {:induction false} NobodyThrows<T, R>(p: Pool<T, R>, trace: seq<State<R>>, i: nat)
    requires SmoothRun(p, trace) && i < |trace|
    ensures forall w | 0 <= w < |trace[i].workers| :: !trace[i].workers[w].Threw?
  {
    if i > 0 {
      NobodyThrows(p, trace, i - 1);
      var w: nat :| Claim(p, trace[i - 1], trace[i], w) || Resolve(p, trace[i - 1], trace[i], w);
    }
  }

  /** A run without rejections can go no further exactly when the pool has resolved. */
  lemma StopsResolved<T, R(!new)>(p: Pool<T, R>, trace: seq<State<R>>)
    requires SmoothRun(p, trace)
    ensures Stuck(p, trace[|trace| - 1]) <==> Succeeds(trace[|trace| - 1])
  {
    var s := trace[|trace| - 1];
    SmoothIsRun(p, trace);
    RunKeeps(p, trace, |trace| - 1);
    NobodyThrows(p, trace, |trace| - 1);
    if !Over(s) { var s' := NeverStuck(p, s); }
  }

  /** Whatever a run without rejections has done so far, going on resolves the pool, and then, with at
      least one job and no undefined value, every value has its result. */
  lemma {:induction false} Completes<T, R>(p: Pool<T, R>, trace: seq<State<R>>) returns (whole: seq<State<R>>)
    requires SmoothRun(p, trace)
    requires p.jobs > 0 && forall k | 0 <= k < |p.values| :: p.values[k].Some?
    ensures trace <= whole && SmoothRun(p, whole) && Succeeds(whole[|whole| - 1])
    ensures |whole| <= 1 + 2 * |p.values| + p.Workers()
    ensures Filled(p, whole[|whole| - 1])
    decreases 2 * |p.values| + p.Workers() - |trace|
  {
    SmoothIsRun(p, trace);
    RunsEnd(p, trace, |trace| - 1);
    if Succeeds(trace[|trace| - 1]) {
      whole := trace;
      AllResults(p, trace);
    } else {
      RunKeeps(p, trace, |trace| - 1);
      NobodyThrows(p, trace, |trace| - 1);
      var s' := NeverStuck(p, trace[|trace| - 1]);
      SmoothIsRun(p, trace + [s']);
      RunsEnd(p, trace + [s'], |trace|);
      whole := Completes(p, trace + [s']);
    }
  }
}
