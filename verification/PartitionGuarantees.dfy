/** What callers of `assignWeightedPartitions` may rely on: no file is lost or duplicated, the heap
    does as well as scanning, no split of the same files is better by more than Graham's factor, and
    exactly when the coordinator's refusal of empty partitions (scripts/coverage-partitions.ts:494-502)
    can fire. */
module PartitionGuarantees {
  import opened Schedules
  import opened Sorting
  import opened FilledBuckets
  import opened CoveragePartitions

  type Collation = (string, string) -> int

  function FileNames(jobs: seq<Job>): (names: seq<string>)
    ensures |names| == |jobs|
  {
    seq(|jobs|, i requires 0 <= i < |jobs| => jobs[i].file)
  }

  function Contents(parts: seq<seq<string>>): multiset<string> {
    if parts == [] then multiset{} else Contents(parts[..|parts| - 1]) + multiset(parts[|parts| - 1])
  }

  /** `partitionWeight` (lines 382-384). */
  function PartitionWeight(files: seq<string>, weights: map<string, real>): real {
    if files == [] then 0.0
    else PartitionWeight(files[..|files| - 1], weights) + WeightOf(files[|files| - 1], weights)
  }

  /** Every job weighs what its file does. */
  ghost predicate Weighed(jobs: seq<Job>, weights: map<string, real>) {
    forall i | 0 <= i < |jobs| :: jobs[i].weight == WeightOf(jobs[i].file, weights)
  }

  // ----- The sorted jobs -----

  lemma {:induction false} InsertNames(x: Job, s: seq<Job>, cmp: (Job, Job) -> int)
    ensures multiset(FileNames(Insert(x, s, cmp))) == multiset(FileNames(s)) + multiset{x.file}
  {
    if s == [] || cmp(x, s[0]) <= 0 {
      assert FileNames([x] + s) == [x.file] + FileNames(s);
    } else {
      InsertNames(x, s[1..], cmp);
      assert FileNames([s[0]] + Insert(x, s[1..], cmp)) == [s[0].file] + FileNames(Insert(x, s[1..], cmp));
      assert FileNames(s) == [s[0].file] + FileNames(s[1..]);
    }
  }

  lemma {:induction false} SortNames(s: seq<Job>, cmp: (Job, Job) -> int)
    ensures multiset(FileNames(SortBy(s, cmp))) == multiset(FileNames(s))
  {
    if s != [] {
      SortNames(s[1..], cmp);
      InsertNames(s[0], SortBy(s[1..], cmp), cmp);
      assert FileNames(s) == [s[0].file] + FileNames(s[1..]);
    }
  }

  /** The jobs are the files, weighed, heaviest first. */
  lemma SortedJobsShape(files: seq<string>, weights: map<string, real>, locale: Collation)
    requires Consistent(locale)
    ensures var jobs := SortedJobs(files, weights, locale);
            && |jobs| == |files| && multiset(FileNames(jobs)) == multiset(files)
            && Weighed(jobs, weights) && NonIncreasing(Weights(jobs))
  {
    var all, cmp := JobsOf(files, weights), ByWeight(locale);
    var jobs := SortedJobs(files, weights, locale);
    ByWeightConsistent(locale);
    SortSorted(all, cmp);
    SortKeeps(all, cmp);
    SortNames(all, cmp);
    assert FileNames(all) == files;
    forall i | 0 <= i < |jobs| ensures jobs[i].weight == WeightOf(jobs[i].file, weights) {
      SortMember(all, cmp, jobs[i]);
    }
    forall i, j | 0 <= i < j < |jobs| ensures Weights(jobs)[i] >= Weights(jobs)[j] {
      assert cmp(jobs[i], jobs[j]) <= 0;
    }
  }

  // ----- Conservation -----

  lemma {:induction false} ContentsStep(parts: seq<seq<string>>, k: nat, f: string)
    requires k < |parts|
    ensures Contents(parts[k := parts[k] + [f]]) == Contents(parts) + multiset{f}
  {
    var n := |parts| - 1;
    var parts' := parts[k := parts[k] + [f]];
    if k == n {
      assert parts'[..n] == parts[..n];
    } else {
      ContentsStep(parts[..n], k, f);
      assert parts'[..n] == parts[..n][k := parts[k] + [f]];
    }
  }

  function Split(jobs: seq<Job>, a: seq<nat>, m: nat): (parts: seq<seq<string>>)
    requires |jobs| == |a|
    ensures |parts| == m
  {
    seq(m, k requires 0 <= k => FilesOf(jobs, a, k))
  }

  lemma {:induction false} EmptySplit(parts: seq<seq<string>>)
    requires forall k | 0 <= k < |parts| :: parts[k] == []
    ensures Contents(parts) == multiset{}
  {
    if parts != [] { EmptySplit(parts[..|parts| - 1]); }
  }

  lemma SplitStep(jobs: seq<Job>, a: seq<nat>, m: nat)
    requires jobs != [] && |jobs| == |a| && Into(a, m)
    ensures var n := |jobs| - 1; var before := Split(jobs[..n], a[..n], m);
            Split(jobs, a, m) == before[a[n] := before[a[n]] + [jobs[n].file]]
  {
    var n := |jobs| - 1;
    var before := Split(jobs[..n], a[..n], m);
    var after := before[a[n] := before[a[n]] + [jobs[n].file]];
    forall k | 0 <= k < m ensures Split(jobs, a, m)[k] == after[k] { }
  }

  lemma SplitNothing(m: nat)
    ensures Contents(Split([], [], m)) == multiset(FileNames([]))
  {
    EmptySplit(Split([], [], m));
  }

  lemma FileNamesStep(jobs: seq<Job>)
    requires jobs != []
    ensures multiset(FileNames(jobs)) == multiset(FileNames(jobs[..|jobs| - 1])) + multiset{jobs[|jobs| - 1].file}
  {
    assert FileNames(jobs) == FileNames(jobs[..|jobs| - 1]) + [jobs[|jobs| - 1].file];
  }

  lemma IntoPrefix(a: seq<nat>, n: nat, m: nat)
    requires n < |a| && Into(a, m)
    ensures Into(a[..n], m) && a[n] < m
  {}

  lemma {:induction false} SplitConserves(jobs: seq<Job>, a: seq<nat>, m: nat)
    requires |jobs| == |a| && Into(a, m)
    ensures Contents(Split(jobs, a, m)) == multiset(FileNames(jobs))
  {
    hide *;
    if jobs == [] {
      SplitNothing(m);
    } else {
      var n := |jobs| - 1;
      IntoPrefix(a, n, m);
      SplitConserves(jobs[..n], a[..n], m);
      SplitStep(jobs, a, m);
      ContentsStep(Split(jobs[..n], a[..n], m), a[n], jobs[n].file);
      FileNamesStep(jobs);
    }
  }

  /** The partitions hold exactly the given files. */
  lemma FilesConserved(files: seq<string>, weights: map<string, real>, locale: Collation, m: nat,
                       parts: seq<seq<string>>, a: seq<nat>)
    requires Consistent(locale) && Realizes(SortedJobs(files, weights, locale), m, parts, a)
    ensures Contents(parts) == multiset(files)
  {
    var jobs := SortedJobs(files, weights, locale);
    SortedJobsShape(files, weights, locale);
    SplitConserves(jobs, a, m);
    assert parts == Split(jobs, a, m);
  }

  // ----- Weights of partitions and loads of schedules -----

  lemma {:induction false} WeightConcat(fs: seq<string>, gs: seq<string>, weights: map<string, real>)
    ensures PartitionWeight(fs + gs, weights) == PartitionWeight(fs, weights) + PartitionWeight(gs, weights)
  {
    if gs == [] {
      assert fs + gs == fs;
    } else {
      var n := |gs| - 1;
      WeightConcat(fs, gs[..n], weights);
      assert (fs + gs)[..|fs + gs| - 1] == fs + gs[..n];
    }
  }

  lemma {:induction false} SplitWeight(jobs: seq<Job>, a: seq<nat>, k: nat, weights: map<string, real>)
    requires |jobs| == |a| && Weighed(jobs, weights)
    ensures PartitionWeight(FilesOf(jobs, a, k), weights) == Load(Weights(jobs), a, k)
  {
    if jobs != [] {
      var n := |jobs| - 1;
      SplitWeight(jobs[..n], a[..n], k, weights);
      var fs, f := FilesOf(jobs[..n], a[..n], k), jobs[n].file;
      assert FilesOf(jobs, a, k) == if a[n] == k then fs + [f] else fs;
      assert (fs + [f])[..|fs + [f]| - 1] == fs;
      assert Weights(jobs)[..n] == Weights(jobs[..n]);
    }
  }

  lemma RemoveWeight(files: seq<string>, p: nat, weights: map<string, real>)
    requires p < |files|
    ensures PartitionWeight(files, weights) ==
              PartitionWeight(files[..p] + files[p + 1..], weights) + WeightOf(files[p], weights)
    ensures multiset(files) == multiset(files[..p] + files[p + 1..]) + multiset{files[p]}
  {
    var f := files[p];
    assert files == files[..p] + ([f] + files[p + 1..]);
    WeightConcat(files[..p], [f] + files[p + 1..], weights);
    WeightConcat([f], files[p + 1..], weights);
    WeightConcat(files[..p], files[p + 1..], weights);
    assert [f][..0] == [];
  }

  lemma {:induction false} FindFile(parts: seq<seq<string>>, f: string) returns (k: nat, p: nat)
    requires f in Contents(parts)
    ensures k < |parts| && p < |parts[k]| && parts[k][p] == f
  {
    var n := |parts| - 1;
    if f in parts[n] {
      k := n;
      p :| 0 <= p < |parts[n]| && parts[n][p] == f;
    } else {
      k, p := FindFile(parts[..n], f);
    }
  }

  lemma {:induction false} ContentsWithout(parts: seq<seq<string>>, k: nat, fs: seq<string>, f: string)
    requires k < |parts| && multiset(parts[k]) == multiset(fs) + multiset{f}
    ensures Contents(parts) == Contents(parts[k := fs]) + multiset{f}
  {
    var n := |parts| - 1;
    if k == n {
      assert parts[k := fs][..n] == parts[..n];
    } else {
      ContentsWithout(parts[..n], k, fs, f);
      assert parts[k := fs][..n] == parts[..n][k := fs];
    }
  }

  /** Taking the file of the last job out of a split of all the files. */
  lemma TakeOut(jobs: seq<Job>, other: seq<seq<string>>, weights: map<string, real>) returns (k: nat,
                                                                                              rest: seq<seq<string>>)
    requires jobs != [] && Contents(other) == multiset(FileNames(jobs))
    ensures k < |other| == |rest| && Contents(rest) == multiset(FileNames(jobs[..|jobs| - 1]))
    ensures PartitionWeight(other[k], weights) ==
              PartitionWeight(rest[k], weights) + WeightOf(jobs[|jobs| - 1].file, weights)
    ensures forall l | 0 <= l < |other| && l != k :: rest[l] == other[l]
  {
    var n := |jobs| - 1;
    var f, p := jobs[n].file, 0;
    assert FileNames(jobs) == FileNames(jobs[..n]) + [f];
    k, p := FindFile(other, f);
    var fs := other[k][..p] + other[k][p + 1..];
    RemoveWeight(other[k], p, weights);
    ContentsWithout(other, k, fs, f);
    rest := other[k := fs];
    hide *;
    assert Contents(rest) == Contents(rest) + multiset{f} - multiset{f};
  }

  /** Any split of the same files into `m` lists is a schedule of the same jobs. */
  lemma {:induction false} SplitIsSchedule(jobs: seq<Job>, other: seq<seq<string>>, weights: map<string,
                                           real>) returns (b: seq<nat>)
    requires Weighed(jobs, weights) && Contents(other) == multiset(FileNames(jobs))
    ensures |b| == |jobs| && Into(b, |other|)
    ensures forall k | 0 <= k < |other| :: Load(Weights(jobs), b, k) == PartitionWeight(other[k], weights)
    decreases |jobs|
  {
    if jobs == [] {
      b := [];
      forall k | 0 <= k < |other| ensures other[k] == [] { AllEmpty(other, k); }
    } else {
      var n := |jobs| - 1;
      var k, rest := TakeOut(jobs, other, weights);
      var b' := SplitIsSchedule(jobs[..n], rest, weights);
      b := b' + [k];
      assert Weights(jobs) == Weights(jobs[..n]) + [jobs[n].weight];
      hide PartitionWeight, Contents, Load;
      forall l | 0 <= l < |other| ensures Load(Weights(jobs), b, l) == PartitionWeight(other[l], weights) {
        Snoc(Weights(jobs[..n]), b', jobs[n].weight, k, l);
      }
    }
  }

  lemma {:induction false} AllEmpty(parts: seq<seq<string>>, k: nat)
    requires Contents(parts) == multiset{} && k < |parts|
    ensures parts[k] == []
  {
    var n := |parts| - 1;
    assert |Contents(parts)| == |Contents(parts[..n])| + |parts[n]|;
    if k < n { AllEmpty(parts[..n], k); }
  }

  /** The weights with negative ones counted as nothing. */
  function ClippedWeights(weights: map<string, real>): map<string, real> {
    map f | f in weights :: if weights[f] < 0.0 then 0.0 else weights[f]
  }

  function ClippedJobs(jobs: seq<Job>): (clipped: seq<Job>)
    ensures |clipped| == |jobs|
  {
    seq(|jobs|, i requires 0 <= i < |jobs| => Job(jobs[i].file, if jobs[i].weight < 0.0 then 0.0 else jobs[i].weight))
  }

  lemma ClippedShape(jobs: seq<Job>, weights: map<string, real>)
    requires Weighed(jobs, weights)
    ensures Weighed(ClippedJobs(jobs), ClippedWeights(weights))
    ensures Weights(ClippedJobs(jobs)) == Clipped(Weights(jobs)) && FileNames(ClippedJobs(jobs)) == FileNames(jobs)
  {}

  /** No partition outweighs the heaviest one of any other split of the same files, negative weights
      counting as nothing there, by more than 4/3 - 1/(3m). */
  lemma WithinGrahamFactor(files: seq<string>, weights: map<string, real>, locale: Collation, m: nat,
                           parts: seq<seq<string>>, a: seq<nat>, other: seq<seq<string>>, opt: real, k: nat)
    requires Consistent(locale) && Realizes(SortedJobs(files, weights, locale), m, parts, a)
    requires |other| == m && Contents(other) == multiset(files)
    requires forall l | 0 <= l < m :: PartitionWeight(other[l], ClippedWeights(weights)) <= opt
    requires k < m
    ensures WithinFactor(m, PartitionWeight(parts[k], weights), opt)
  {
    var jobs := SortedJobs(files, weights, locale);
    var ws := Weights(jobs);
    assert |a| == |jobs| && Greedy(ws, a, m) && parts[k] == FilesOf(jobs, a, k);
    hide *;
    SortedJobsShape(files, weights, locale);
    ClippedShape(jobs, weights);
    var b := SplitIsSchedule(ClippedJobs(jobs), other, ClippedWeights(weights));
    SplitWeight(jobs, a, k, weights);
    ClippedBound(ws, a, b, m, opt, k);
  }

  lemma {:induction false} NothingClipped(files: seq<string>, weights: map<string, real>)
    requires forall i | 0 <= i < |files| :: WeightOf(files[i], weights) >= 0.0
    ensures PartitionWeight(files, ClippedWeights(weights)) == PartitionWeight(files, weights)
  {
    if files != [] { NothingClipped(files[..|files| - 1], weights); }
  }

  lemma {:induction false} InContents(parts: seq<seq<string>>, k: nat, i: nat)
    requires k < |parts| && i < |parts[k]|
    ensures parts[k][i] in Contents(parts)
  {
    if k < |parts| - 1 { InContents(parts[..|parts| - 1], k, i); }
  }

  /** Where no weight is negative, no partition outweighs the heaviest one of any other split of the same
      files by more than 4/3 - 1/(3m). */
  lemma WithinFactorOfAny(files: seq<string>, weights: map<string, real>, locale: Collation, m: nat,
                          parts: seq<seq<string>>, a: seq<nat>, other: seq<seq<string>>, opt: real, k: nat)
    requires Consistent(locale) && Realizes(SortedJobs(files, weights, locale), m, parts, a)
    requires forall f | f in files :: WeightOf(f, weights) >= 0.0
    requires |other| == m && Contents(other) == multiset(files)
    requires forall l | 0 <= l < m :: PartitionWeight(other[l], weights) <= opt
    requires k < m
    ensures WithinFactor(m, PartitionWeight(parts[k], weights), opt)
  {
    forall l | 0 <= l < m ensures PartitionWeight(other[l], ClippedWeights(weights)) <= opt {
      forall i | 0 <= i < |other[l]| ensures WeightOf(other[l][i], weights) >= 0.0 {
        InContents(other, l, i);
        assert other[l][i] in multiset(files);
      }
      NothingClipped(other[l], weights);
    }
    hide *;
    WithinGrahamFactor(files, weights, locale, m, parts, a, other, opt, k);
  }

  // ----- The heap does as well as scanning -----

  /** Weight and number of files of each partition. */
  function PartitionBins(parts: seq<seq<string>>, weights: map<string, real>): seq<Bin> {
    seq(|parts|, k requires 0 <= k < |parts| => Bin(PartitionWeight(parts[k], weights), |parts[k]|))
  }

  /** The weights and counts are those of the greedy that scans every bucket at every step. */
  lemma HeapMatchesScan(files: seq<string>, weights: map<string, real>, locale: Collation, m: nat,
                        parts: seq<seq<string>>, a: seq<nat>)
    requires m > 0 && Consistent(locale) && Realizes(SortedJobs(files, weights, locale), m, parts, a)
    ensures var ws := Weights(SortedJobs(files, weights, locale));
            multiset(PartitionBins(parts, weights)) == multiset(Bins(ws, LinearScan(ws, m), m))
  {
    var jobs := SortedJobs(files, weights, locale);
    var ws := Weights(jobs);
    SortedJobsShape(files, weights, locale);
    LinearScanGreedy(ws, m);
    GreedyBalancesAlike(ws, a, LinearScan(ws, m), m);
    forall k | 0 <= k < m ensures PartitionBins(parts, weights)[k] == Bins(ws, a, m)[k] {
      SplitWeight(jobs, a, k, weights);
    }
    assert PartitionBins(parts, weights) == Bins(ws, a, m);
  }

  // ----- Empty partitions -----

  /** How many files have a non-negative weight. */
  function NonNegativeFiles(files: seq<string>, weights: map<string, real>): nat {
    if files == [] then 0
    else NonNegativeFiles(files[1..], weights) + if WeightOf(files[0], weights) >= 0.0 then 1 else 0
  }

  function NonNegativeJobs(jobs: seq<Job>): nat {
    if jobs == [] then 0 else NonNegativeJobs(jobs[1..]) + if jobs[0].weight >= 0.0 then 1 else 0
  }

  lemma {:induction false} InsertNonNegative(x: Job, s: seq<Job>, cmp: (Job, Job) -> int)
    ensures NonNegativeJobs(Insert(x, s, cmp)) == NonNegativeJobs(s) + if x.weight >= 0.0 then 1 else 0
  {
    if s == [] || cmp(x, s[0]) <= 0 {
      assert ([x] + s)[1..] == s;
    } else {
      InsertNonNegative(x, s[1..], cmp);
      assert ([s[0]] + Insert(x, s[1..], cmp))[1..] == Insert(x, s[1..], cmp);
    }
  }

  lemma {:induction false} SortNonNegative(s: seq<Job>, cmp: (Job, Job) -> int)
    ensures NonNegativeJobs(SortBy(s, cmp)) == NonNegativeJobs(s)
  {
    if s != [] {
      SortNonNegative(s[1..], cmp);
      InsertNonNegative(s[0], SortBy(s[1..], cmp), cmp);
    }
  }

  lemma {:induction false} CountsFiles(files: seq<string>, weights: map<string, real>)
    ensures NonNegativeJobs(JobsOf(files, weights)) == NonNegativeFiles(files, weights)
  {
    if files != [] {
      CountsFiles(files[1..], weights);
      assert JobsOf(files, weights)[1..] == JobsOf(files[1..], weights);
    }
  }

  /** In a sorted list the non-negative weights come first. */
  lemma {:induction false} NonNegativePrefix(jobs: seq<Job>, c: nat)
    requires NonIncreasing(Weights(jobs)) && c <= |jobs|
    ensures NonNegativeJobs(jobs) >= c <==> forall j | 0 <= j < c :: Weights(jobs)[j] >= 0.0
  {
    if jobs != [] && c > 0 {
      forall i, j | 0 <= i < j < |jobs[1..]| ensures Weights(jobs[1..])[i] >= Weights(jobs[1..])[j] {
        assert Weights(jobs)[i + 1] >= Weights(jobs)[j + 1];
      }
      NonNegativePrefix(jobs[1..], c - 1);
      assert Weights(jobs)[0] == jobs[0].weight;
      if jobs[0].weight < 0.0 {
        AllNegative(jobs);
      } else {
        assert forall j | 0 <= j < c - 1 :: Weights(jobs[1..])[j] == Weights(jobs)[j + 1];
        assert forall j | 0 < j < c :: Weights(jobs)[j] == Weights(jobs[1..])[j - 1];
      }
    }
  }

  lemma {:induction false} AllNegative(jobs: seq<Job>)
    requires NonIncreasing(Weights(jobs)) && (jobs != [] ==> jobs[0].weight < 0.0)
    ensures NonNegativeJobs(jobs) == 0
  {
    if |jobs| > 1 {
      assert Weights(jobs)[0] >= Weights(jobs)[1];
      forall i, j | 0 <= i < j < |jobs[1..]| ensures Weights(jobs[1..])[i] >= Weights(jobs[1..])[j] {
        assert Weights(jobs)[i + 1] >= Weights(jobs)[j + 1];
      }
      AllNegative(jobs[1..]);
    }
  }

  /** No partition is empty exactly when there are at least `m` files and at least `m - 1` of them
      have a non-negative weight. */
  lemma NoEmptyPartition(files: seq<string>, weights: map<string, real>, locale: Collation, m: nat,
                         parts: seq<seq<string>>, a: seq<nat>)
    requires m > 0 && Consistent(locale) && Realizes(SortedJobs(files, weights, locale), m, parts, a)
    ensures (forall k | 0 <= k < m :: parts[k] != []) <==> |files| >= m && NonNegativeFiles(files, weights) >= m - 1
  {
    var jobs := SortedJobs(files, weights, locale);
    SortedJobsShape(files, weights, locale);
    SortNonNegative(JobsOf(files, weights), ByWeight(locale));
    CountsFiles(files, weights);
    FilledExactly(Weights(jobs), a, m);
    if m <= |files| { NonNegativePrefix(jobs, m - 1); }
    forall k | 0 <= k < m ensures parts[k] != [] <==> Count(a, k) > 0 { }
  }
}
