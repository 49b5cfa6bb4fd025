/** What `assignWeightedPartitions` promises in terms of recorded durations (scripts/coverage-partitions.ts:305-328):
    a file weighs what is recorded for it, and one unit where nothing is. */
module PartitionDurations {
  import opened Schedules
  import opened Sorting
  import opened CoveragePartitions
  import opened PartitionGuarantees

  /** `w` is the recorded duration of each file, and 1 for files without one. */
  ghost predicate Durations(w: string -> real, weights: map<string, real>) {
    && (forall f | f in weights :: w(f) == weights[f])
    && (forall f | f !in weights :: w(f) == 1.0)
  }

  function Total(w: string -> real, files: seq<string>): real {
    if files == [] then 0.0 else Total(w, files[..|files| - 1]) + w(files[|files| - 1])
  }

  /** Negative durations count as nothing. */
  function Floored(w: string -> real): string -> real { f => if w(f) < 0.0 then 0.0 else w(f) }

  function Lasting(w: string -> real, files: seq<string>): nat {
    if files == [] then 0 else Lasting(w, files[1..]) + if w(files[0]) >= 0.0 then 1 else 0
  }

  lemma {:induction false} TotalIsWeight(w: string -> real, weights: map<string, real>, files: seq<string>)
    requires Durations(w, weights)
    ensures PartitionWeight(files, weights) == Total(w, files)
    ensures PartitionWeight(files, ClippedWeights(weights)) == Total(Floored(w), files)
  {
    if files != [] { TotalIsWeight(w, weights, files[..|files| - 1]); }
  }

  lemma {:induction false} LastingAre(w: string -> real, weights: map<string, real>, files: seq<string>)
    requires Durations(w, weights)
    ensures NonNegativeFiles(files, weights) == Lasting(w, files)
  {
    if files != [] { LastingAre(w, weights, files[1..]); }
  }

  /** The partitions of a call that succeeded. */
  ghost predicate Assigns(files: seq<string>, weights: map<string, real>, locale: Collation, m: nat,
                          parts: seq<seq<string>>) {
    exists a :: Realizes(SortedJobs(files, weights, locale), m, parts, a)
  }

  /** No partition lasts longer than the longest one of any other split of the same files, in which negative
      durations count as nothing, by more than 4/3 - 1/(3m). */
  lemma WithinFactorByDuration(files: seq<string>, weights: map<string, real>, w: string -> real, locale: Collation,
                               m: nat,
                               parts: seq<seq<string>>, other: seq<seq<string>>, opt: real, k: nat)
    requires Consistent(locale) && Durations(w, weights) && Assigns(files, weights, locale, m, parts)
    requires |other| == m && Contents(other) == multiset(files)
    requires forall l | 0 <= l < m :: Total(Floored(w), other[l]) <= opt
    requires k < m
    ensures |parts| == m && WithinFactor(m, Total(w, parts[k]), opt)
  {
    var a :| Realizes(SortedJobs(files, weights, locale), m, parts, a);
    assert |parts| == m;
    forall l | 0 <= l < m ensures PartitionWeight(other[l], ClippedWeights(weights)) <= opt {
      TotalIsWeight(w, weights, other[l]);
    }
    hide *;
    WithinGrahamFactor(files, weights, locale, m, parts, a, other, opt, k);
    TotalIsWeight(w, weights, parts[k]);
  }

  lemma {:induction false} NothingFloored(w: string -> real, files: seq<string>)
    requires forall i | 0 <= i < |files| :: w(files[i]) >= 0.0
    ensures Total(Floored(w), files) == Total(w, files)
  {
    if files != [] { NothingFloored(w, files[..|files| - 1]); }
  }

  /** Where no file has a negative duration, the other split's durations count in full. */
  lemma WithinFactorInFull(files: seq<string>, weights: map<string, real>, w: string -> real, locale: Collation, m: nat,
                           parts: seq<seq<string>>, other: seq<seq<string>>, opt: real, k: nat)
    requires Consistent(locale) && Durations(w, weights) && Assigns(files, weights, locale, m, parts)
    requires forall f | f in files :: w(f) >= 0.0
    requires |other| == m && Contents(other) == multiset(files)
    requires forall l | 0 <= l < m :: Total(w, other[l]) <= opt
    requires k < m
    ensures |parts| == m && WithinFactor(m, Total(w, parts[k]), opt)
  {
    forall l | 0 <= l < m ensures Total(Floored(w), other[l]) <= opt {
      forall i | 0 <= i < |other[l]| ensures w(other[l][i]) >= 0.0 {
        InContents(other, l, i);
        assert other[l][i] in multiset(files);
      }
      NothingFloored(w, other[l]);
    }
    hide *;
    WithinFactorByDuration(files, weights, w, locale, m, parts, other, opt, k);
  }

  /** No partition is empty exactly when there are at least `m` files, at least `m - 1` of which do not last
      a negative time. */
  lemma NoneEmptyByDuration(files: seq<string>, weights: map<string, real>, w: string -> real, locale: Collation,
                            m: nat,
                            parts: seq<seq<string>>)
    requires m > 0 && Consistent(locale) && Durations(w, weights) && Assigns(files, weights, locale, m, parts)
    ensures |parts| == m
    ensures (forall k | 0 <= k < m :: parts[k] != []) <==> |files| >= m && Lasting(w, files) >= m - 1
  {
    var a :| Realizes(SortedJobs(files, weights, locale), m, parts, a);
    assert |parts| == m;
    LastingAre(w, weights, files);
    NoEmptyPartition(files, weights, locale, m, parts, a);
  }

  // ----- The order of the files -----

  /** Longest first, then by name. */
  ghost predicate LongestFirst(w: string -> real, order: seq<string>, locale: Collation) {
    forall i, j | 0 <= i < j < |order| ::
      w(order[i]) > w(order[j]) || (w(order[i]) == w(order[j]) && locale(order[i], order[j]) <= 0)
  }

  /** The durations of the files in turn. */
  function DurationsOf(w: string -> real, order: seq<string>): (ws: seq<real>)
    ensures |ws| == |order|
  {
    seq(|order|, i requires 0 <= i < |order| => w(order[i]))
  }

  lemma SortedByDuration(files: seq<string>, weights: map<string, real>, w: string -> real, locale: Collation)
    requires Consistent(locale) && Durations(w, weights)
    ensures var jobs := SortedJobs(files, weights, locale); var order := FileNames(jobs);
            && LongestFirst(w, order, locale) && multiset(order) == multiset(files) &&
                Weights(jobs) == DurationsOf(w, order)
  {
    var all, cmp := JobsOf(files, weights), ByWeight(locale);
    var jobs := SortedJobs(files, weights, locale);
    SortedJobsShape(files, weights, locale);
    ByWeightConsistent(locale);
    SortSorted(all, cmp);
    forall i | 0 <= i < |jobs| ensures jobs[i].weight == w(jobs[i].file) { }
    forall i, j | 0 <= i < j < |jobs|
      ensures jobs[i].weight > jobs[j].weight ||
                (jobs[i].weight == jobs[j].weight && locale(jobs[i].file, jobs[j].file) <= 0)
    {
      assert cmp(jobs[i], jobs[j]) <= 0;
    }
  }

  /** The durations and counts of the partitions are those of scanning all buckets at every step, the files
      taken longest first. */
  lemma ScanByDuration(files: seq<string>, weights: map<string, real>, w: string -> real, locale: Collation, m: nat,
                       parts: seq<seq<string>>) returns (order: seq<string>)
    requires m > 0 && Consistent(locale) && Durations(w, weights) && Assigns(files, weights, locale, m, parts)
    ensures multiset(order) == multiset(files) && LongestFirst(w, order, locale) && |parts| == m
    ensures var ws := DurationsOf(w, order);
            multiset(seq(m, k requires 0 <= k < m => Bin(Total(w, parts[k]), |parts[k]|))) ==
                multiset(Bins(ws, LinearScan(ws, m), m))
  {
    var a :| Realizes(SortedJobs(files, weights, locale), m, parts, a);
    assert |parts| == m;
    var jobs := SortedJobs(files, weights, locale);
    order := FileNames(jobs);
    SortedByDuration(files, weights, w, locale);
    HeapMatchesScan(files, weights, locale, m, parts, a);
    var bins := seq(m, k requires 0 <= k < m => Bin(Total(w, parts[k]), |parts[k]|));
    forall k | 0 <= k < m ensures bins[k] == PartitionBins(parts, weights)[k] { TotalIsWeight(w, weights, parts[k]); }
    assert bins == PartitionBins(parts, weights);
  }

  /** Where the files of a bucket stand among the jobs. */
  lemma {:induction false} FilesStand(jobs: seq<Job>, a: seq<nat>, k: nat) returns (at: seq<nat>)
    requires |jobs| == |a|
    ensures |at| == |FilesOf(jobs, a, k)| &&
              (forall i | 0 <= i < |at| :: at[i] < |jobs| && FilesOf(jobs, a, k)[i] == jobs[at[i]].file)
    ensures forall i, j | 0 <= i < j < |at| :: at[i] < at[j]
  {
    at := [];
    if jobs != [] {
      var n := |jobs| - 1;
      at := FilesStand(jobs[..n], a[..n], k);
      if a[n] == k { at := at + [n]; }
    }
  }

  lemma FilesInOrder(jobs: seq<Job>, a: seq<nat>, k: nat, w: string -> real, locale: Collation)
    requires |jobs| == |a| && LongestFirst(w, FileNames(jobs), locale)
    ensures LongestFirst(w, FilesOf(jobs, a, k), locale)
  {
    var at := FilesStand(jobs, a, k);
    hide FilesOf;
    forall i, j | 0 <= i < j < |at|
      ensures var f, g := FilesOf(jobs, a, k)[i], FilesOf(jobs, a, k)[j];
              w(f) > w(g) || (w(f) == w(g) && locale(f, g) <= 0)
    {
      assert FileNames(jobs)[at[i]] == FilesOf(jobs, a, k)[i] && FileNames(jobs)[at[j]] == FilesOf(jobs, a, k)[j];
    }
  }

  /** Within a partition files never get longer, and files that last as long stand by name. */
  lemma NeverLonger(files: seq<string>, weights: map<string, real>, w: string -> real, locale: Collation, m: nat,
                    parts: seq<seq<string>>, k: nat)
    requires Consistent(locale) && Durations(w, weights) && Assigns(files, weights, locale, m, parts) && k < m
    ensures |parts| == m && LongestFirst(w, parts[k], locale)
  {
    var a :| Realizes(SortedJobs(files, weights, locale), m, parts, a);
    SortedByDuration(files, weights, w, locale);
    FilesInOrder(SortedJobs(files, weights, locale), a, k, w, locale);
  }
}
