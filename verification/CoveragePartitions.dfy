/** `assignWeightedPartitions` (scripts/coverage-partitions.ts:305-379): files, heaviest first, each
    into the bucket at the root of a min-heap of bucket indices. */
module CoveragePartitions {
  import opened Schedules
  import opened Sorting

  // ----- Buckets and the heap over them -----

  class Bucket {
    var sum: real
    var files: seq<string>

    constructor ()
      ensures sum == 0.0 && files == []
    {
      sum, files := 0.0, [];
    }

    function Held(): Bin
      reads this
    {
      Bin(sum, |files|)
    }
  }

  ghost function Holdings(buckets: seq<Bucket>): (bins: seq<Bin>)
    reads buckets
    ensures |bins| == |buckets| && forall k | 0 <= k < |bins| :: bins[k] == buckets[k].Held()
  {
    seq(|buckets|, k requires 0 <= k < |buckets| reads buckets => buckets[k].Held())
  }

  /** `left` comes strictly before `right` (lines 372-379). */
  predicate BucketLess(left: Bin, right: Bin) {
    if left.load != right.load then left.load < right.load else left.jobs < right.jobs
  }

  /** `h` lists each of the indices `0..n` once. */
  ghost predicate IsPermutation(h: seq<nat>, n: nat) {
    && |h| == n && (forall i | 0 <= i < n :: h[i] < n) && Distinct(h) && forall k: nat | k < n :: k in h
  }

  predicate Child(i: nat, c: nat) { c == 2 * i + 1 || c == 2 * i + 2 }

  ghost predicate InOrder(bins: seq<Bin>, h: seq<nat>, i: nat, c: nat)
    requires i < |h| && c < |h|
  {
    h[i] < |bins| && h[c] < |bins| && bins[h[i]].AtMost(bins[h[c]])
  }

  /** Parents come no later than their children. */
  ghost predicate IsHeap(bins: seq<Bin>, h: seq<nat>) {
    forall i: nat, c: nat | Child(i, c) && c < |h| :: InOrder(bins, h, i, c)
  }

  /** The heap property but for the children of `x`, which come no earlier than the parent of `x`. */
  ghost predicate HeapExcept(bins: seq<Bin>, h: seq<nat>, x: nat) {
    && (forall i: nat, c: nat | Child(i, c) && c < |h| && i != x :: InOrder(bins, h, i, c))
    && (forall g: nat, c: nat | Child(g, x) && Child(x, c) && c < |h| :: InOrder(bins, h, g, c))
  }

  function Swap(h: seq<nat>, i: nat, j: nat): seq<nat>
    requires i < |h| && j < |h|
  {
    h[i := h[j]][j := h[i]]
  }

  lemma SwapPermutes(h: seq<nat>, n: nat, i: nat, j: nat)
    requires IsPermutation(h, n) && i < n && j < n
    ensures IsPermutation(Swap(h, i, j), n)
  {
    var t := Swap(h, i, j);
    forall k: nat | k < n ensures k in t {
      assert k in h;
      var l :| 0 <= l < n && h[l] == k;
      assert t[if l == i then j else if l == j then i else l] == k;
    }
  }

  /** Swapping an element with its smaller child moves the disorder to the child. */
  lemma SwapSifts(bins: seq<Bin>, h: seq<nat>, x: nat, s: nat)
    requires IsPermutation(h, |bins|) && HeapExcept(bins, h, x) && Child(x, s) && s < |h|
    requires forall c: nat | Child(x, c) && c < |h| :: InOrder(bins, h, s, c)
    requires BucketLess(bins[h[s]], bins[h[x]])
    ensures HeapExcept(bins, Swap(h, x, s), s)
  {
    var t := Swap(h, x, s);
    forall i: nat, c: nat | Child(i, c) && c < |t| && i != s ensures InOrder(bins, t, i, c) {
      if c == x {
        assert InOrder(bins, h, i, s);
      } else if i == x {
        assert InOrder(bins, h, s, c);
      } else {
        assert InOrder(bins, h, i, c);
      }
    }
    forall g: nat, c: nat | Child(g, s) && Child(s, c) && c < |t| ensures InOrder(bins, t, g, c) {
      assert g == x;
      assert InOrder(bins, h, s, c);
    }
  }

  /** The root of a heap is least. */
  lemma {:induction false} RootLeast(bins: seq<Bin>, h: seq<nat>, i: nat)
    requires IsHeap(bins, h) && IsPermutation(h, |bins|) && i < |h|
    ensures bins[h[0]].AtMost(bins[h[i]])
  {
    if i > 0 {
      var p: nat := (i - 1) / 2;
      assert Child(p, i);
      assert InOrder(bins, h, p, i);
      RootLeast(bins, h, p);
    }
  }

  /** Restore the heap after the bucket at `start` changed (lines 331-359). */
  method SiftDown(buckets: seq<Bucket>, heap: array<nat>, start: nat)
    requires IsPermutation(heap[..], |buckets|) && start < heap.Length
    requires HeapExcept(Holdings(buckets), heap[..], start)
    modifies heap
    ensures IsPermutation(heap[..], |buckets|) && IsHeap(Holdings(buckets), heap[..])
  {
    var size := heap.Length;
    var index := start;
    ghost var bins := Holdings(buckets);
    while true
      invariant index < size && Holdings(buckets) == bins
      invariant IsPermutation(heap[..], |buckets|) && HeapExcept(bins, heap[..], index)
      decreases size - index
    {
      var left, right := 2 * index + 1, 2 * index + 2;
      var smallest := index;
      if left < size && BucketLess(buckets[heap[left]].Held(), buckets[heap[smallest]].Held()) {
        smallest := left;
      }
      if right < size && BucketLess(buckets[heap[right]].Held(), buckets[heap[smallest]].Held()) {
        smallest := right;
      }
      if smallest == index {
        return;
      }
      ghost var h := heap[..];
      SwapPermutes(h, |buckets|, index, smallest);
      SwapSifts(bins, h, index, smallest);
      heap[index], heap[smallest] := heap[smallest], heap[index];
      assert heap[..] == Swap(h, index, smallest);
      index := smallest;
    }
  }

  // ----- The inputs -----

  const UNKNOWN_FILE_WEIGHT := 1.0

  datatype Job = Job(file: string, weight: real)

  function WeightOf(file: string, weights: map<string, real>): real {
    if file in weights then weights[file] else UNKNOWN_FILE_WEIGHT
  }

  /** Heavier first, then by name (line 313). */
  function ByWeight(locale: (string, string) -> int): (Job, Job) -> int {
    (a: Job, b: Job) => if b.weight < a.weight then -1 else if b.weight > a.weight then 1 else locale(a.file, b.file)
  }

  lemma ByWeightConsistent(locale: (string, string) -> int)
    requires Consistent(locale)
    ensures Consistent(ByWeight(locale))
  {
    var cmp := ByWeight(locale);
    forall a, b ensures cmp(a, b) < 0 <==> cmp(b, a) > 0 { Total(locale, a.file, b.file); }
    forall a, b, c | cmp(a, b) <= 0 && cmp(b, c) <= 0 ensures cmp(a, c) <= 0 {
      if a.weight == c.weight { Transitive(locale, a.file, b.file, c.file); }
    }
  }

  function JobsOf(files: seq<string>, weights: map<string, real>): seq<Job> {
    seq(|files|, i requires 0 <= i < |files| => Job(files[i], WeightOf(files[i], weights)))
  }

  function SortedJobs(files: seq<string>, weights: map<string, real>, locale: (string, string) -> int): seq<Job> {
    SortBy(JobsOf(files, weights), ByWeight(locale))
  }

  function Weights(jobs: seq<Job>): (ws: seq<real>)
    ensures |ws| == |jobs|
  {
    seq(|jobs|, i requires 0 <= i < |jobs| => jobs[i].weight)
  }

  /** The files that `a` sends to bucket `k`, in order. */
  function FilesOf(jobs: seq<Job>, a: seq<nat>, k: nat): (fs: seq<string>)
    requires |jobs| == |a|
    ensures |fs| == Count(a, k)
  {
    if jobs == [] then []
    else
      var n := |jobs| - 1;
      FilesOf(jobs[..n], a[..n], k) + if a[n] == k then [jobs[n].file] else []
  }

  // ----- The assignment -----

  /** Either one file list per partition, or the error for a heap without a root. */
  datatype Outcome = Assigned(parts: seq<seq<string>>) | HeapOutOfBounds

  /** `parts` comes from the greedy schedule `a` of the sorted jobs. */
  ghost predicate Realizes(jobs: seq<Job>, m: nat, parts: seq<seq<string>>, a: seq<nat>) {
    && |a| == |jobs| && Greedy(Weights(jobs), a, m)
    && |parts| == m && forall k | 0 <= k < m :: parts[k] == FilesOf(jobs, a, k)
  }

  /** What the buckets and the heap hold once the jobs `done` have been placed by `a`. */
  ghost predicate Placed(done: seq<Job>, a: seq<nat>, buckets: seq<Bucket>, heap: seq<nat>)
    reads buckets
  {
    var m := |buckets|;
    && |a| == |done| && Greedy(Weights(done), a, m)
    && (forall i, j | 0 <= i < j < m :: buckets[i] != buckets[j])
    && (forall k | 0 <= k < m :: buckets[k].sum == Load(Weights(done), a, k) && buckets[k].files == FilesOf(done, a, k))
    && IsPermutation(heap, m) && IsHeap(Holdings(buckets), heap)
  }

  lemma HoldingsAre(done: seq<Job>, a: seq<nat>, buckets: seq<Bucket>, heap: seq<nat>)
    requires Placed(done, a, buckets, heap)
    ensures Holdings(buckets) == Bins(Weights(done), a, |buckets|)
  { }

  /** The root of the heap is a leanest bucket. */
  lemma RootLeanest(ws: seq<real>, a: seq<nat>, bins: seq<Bin>, h: seq<nat>)
    requires |ws| == |a| && bins == Bins(ws, a, |bins|) && |bins| > 0
    requires IsPermutation(h, |bins|) && IsHeap(bins, h)
    ensures Leanest(ws, a, |bins|, h[0])
  {
    forall k: nat | k < |bins| ensures BinAt(ws, a, h[0]).AtMost(BinAt(ws, a, k)) {
      assert k in h;
      var i :| 0 <= i < |h| && h[i] == k;
      RootLeast(bins, h, i);
      assert bins[k] == BinAt(ws, a, k) && bins[h[0]] == BinAt(ws, a, h[0]);
    }
  }

  /** Changing the bucket at the root only disturbs the root. */
  lemma RootChanged(bins: seq<Bin>, h: seq<nat>, b: Bin)
    requires IsPermutation(h, |bins|) && IsHeap(bins, h) && |bins| > 0
    ensures HeapExcept(bins[h[0] := b], h, 0)
  {
    var bins' := bins[h[0] := b];
    forall i: nat, c: nat | Child(i, c) && c < |h| && i != 0 ensures InOrder(bins', h, i, c) {
      assert InOrder(bins, h, i, c);
    }
  }

  method MakeBuckets(m: nat) returns (buckets: seq<Bucket>)
    ensures |buckets| == m && forall k | 0 <= k < m ::
              fresh(buckets[k]) && buckets[k].sum == 0.0 && buckets[k].files == []
    ensures forall i, j | 0 <= i < j < m :: buckets[i] != buckets[j]
  {
    buckets := [];
    for n := 0 to m
      invariant |buckets| == n
      invariant forall k | 0 <= k < n :: fresh(buckets[k]) && buckets[k].sum == 0.0 && buckets[k].files == []
      invariant forall i, j | 0 <= i < j < n :: buckets[i] != buckets[j]
    {
      var b := new Bucket();
      buckets := buckets + [b];
    }
  }

  /** Adding a job to the bucket at the root extends the greedy schedule and disturbs only the root. */
  lemma JobPlaced(done: seq<Job>, a: seq<nat>, buckets: seq<Bucket>, h: seq<nat>, job: Job)
    requires Placed(done, a, buckets, h) && |buckets| > 0
    ensures |h| == |buckets| && h[0] < |buckets| && |a| == |done|
    ensures Greedy(Weights(done + [job]), a + [h[0]], |buckets|)
    ensures var bins := Holdings(buckets); HeapExcept(bins[h[0] := Bin(bins[h[0]].load + job.weight,
                                                                       bins[h[0]].jobs + 1)], h, 0)
    ensures forall k | 0 <= k < |buckets| ::
              && Load(Weights(done + [job]), a + [h[0]], k) == buckets[k].sum + (if k == h[0] then job.weight else 0.0)
              && FilesOf(done + [job], a + [h[0]], k) == buckets[k].files + (if k == h[0] then [job.file] else [])
  {
    var ws, bins := Weights(done), Holdings(buckets);
    HoldingsAre(done, a, buckets, h);
    RootLeanest(ws, a, bins, h);
    GreedySnoc(ws, a, |buckets|, job.weight, h[0]);
    RootChanged(bins, h, Bin(bins[h[0]].load + job.weight, bins[h[0]].jobs + 1));
    assert Weights(done + [job]) == ws + [job.weight];
    hide Greedy, IsHeap, HeapExcept, Leanest;
    forall k | 0 <= k < |buckets|
      ensures Load(Weights(done + [job]), a + [h[0]], k) == buckets[k].sum + (if k == h[0] then job.weight else 0.0)
      ensures FilesOf(done + [job], a + [h[0]], k) == buckets[k].files + (if k == h[0] then [job.file] else [])
    {
      Snoc(ws, a, job.weight, h[0], k);
      assert (done + [job])[..|done|] == done && (a + [h[0]])[..|a|] == a;
    }
  }

  /** Put one job into the bucket at the root (lines 319-325). */
  method PlaceJob(buckets: seq<Bucket>, heap: array<nat>, job: Job, ghost done: seq<Job>, ghost a: seq<nat>)
    requires Placed(done, a, buckets, heap[..]) && |buckets| > 0
    modifies buckets, heap
    ensures Placed(done + [job], a + [old(heap[0])], buckets, heap[..])
  {
    hide Greedy, IsHeap, HeapExcept, Load, FilesOf, IsPermutation;
    ghost var bins, h := Holdings(buckets), heap[..];
    JobPlaced(done, a, buckets, h, job);
    var top := heap[0];
    var bucket := buckets[top];
    bucket.sum := bucket.sum + job.weight;
    bucket.files := bucket.files + [job.file];
    assert Holdings(buckets) == bins[top := Bin(bins[top].load + job.weight, bins[top].jobs + 1)];
    SiftDown(buckets, heap, 0);
  }

  lemma HeapHasRoot(buckets: seq<Bucket>, heap: seq<nat>)
    requires Placed([], [], buckets, heap) && |buckets| > 0
    ensures |heap| > 0
  {}

  method PlaceAll(buckets: seq<Bucket>, heap: array<nat>, weighted: seq<Job>) returns (ghost a: seq<nat>)
    requires Placed([], [], buckets, heap[..]) && |buckets| > 0
    modifies buckets, heap
    ensures Placed(weighted, a, buckets, heap[..])
  {
    hide *;
    HeapHasRoot(buckets, heap[..]);
    a := [];
    assert weighted[..0] == [];
    for i := 0 to |weighted|
      invariant Placed(weighted[..i], a, buckets, heap[..])
    {
      ghost var top := heap[0];
      PlaceJob(buckets, heap, weighted[i], weighted[..i], a);
      a := a + [top];
      assert weighted[..i + 1] == weighted[..i] + [weighted[i]];
    }
    assert weighted[..|weighted|] == weighted;
  }

  method AssignWeightedPartitions(files: seq<string>, weights: map<string, real>, partitions: nat,
                                  locale: (string, string) -> int)
    returns (r: Outcome)
    ensures r.Assigned? <==> files == [] || partitions > 0
    ensures r.Assigned? ==> exists a :: Realizes(SortedJobs(files, weights, locale), partitions, r.parts, a)
  {
    var weighted := SortedJobs(files, weights, locale);
    if files == [] {
      r := Assigned(seq(partitions, _ => []));
      assert Realizes(weighted, partitions, r.parts, []);
      return;
    }
    if partitions == 0 {
      return HeapOutOfBounds;
    }
    var buckets := MakeBuckets(partitions);
    var heap := new nat[partitions](i => i);
    StartPlaced(buckets, heap[..]);
    ghost var a := PlaceAll(buckets, heap, weighted);
    var parts := seq(partitions, k requires 0 <= k < |buckets| reads buckets => buckets[k].files);
    PlacedRealizes(weighted, a, buckets, heap[..], parts);
    r := Assigned(parts);
  }

  lemma PlacedRealizes(jobs: seq<Job>, a: seq<nat>, buckets: seq<Bucket>, heap: seq<nat>, parts: seq<seq<string>>)
    requires Placed(jobs, a, buckets, heap)
    requires |parts| == |buckets| && forall k | 0 <= k < |parts| :: parts[k] == buckets[k].files
    ensures Realizes(jobs, |buckets|, parts, a)
  { }

  lemma StartPlaced(buckets: seq<Bucket>, h: seq<nat>)
    requires |h| == |buckets| && forall i | 0 <= i < |h| :: h[i] == i
    requires forall k | 0 <= k < |buckets| :: buckets[k].sum == 0.0 && buckets[k].files == []
    requires forall i, j | 0 <= i < j < |buckets| :: buckets[i] != buckets[j]
    ensures Placed([], [], buckets, h)
  {
    forall k: nat | k < |h| ensures k in h { assert h[k] == k; }
  }
}
