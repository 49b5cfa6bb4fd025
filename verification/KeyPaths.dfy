/** Key paths such as `agents[].id`: how the schema walk writes them and how `parsePath`
    (scripts/gen-config-catalog.ts:299-312) reads them back. */
module KeyPaths {
  import opened Sequences
  import opened Text
  import opened ConfigTypes

  // ----- Reading -----

  predicate EndsWithBrackets(name: string) {
    |name| >= 2 && name[|name| - 2..] == "[]"
  }

  /** The name without its trailing `[]` pairs. */
  function Stem(name: string): string {
    if EndsWithBrackets(name) then Stem(name[..|name| - 2]) else name
  }

  /** How many trailing `[]` pairs the name has. */
  function Arrays(name: string): nat {
    if EndsWithBrackets(name) then Arrays(name[..|name| - 2]) + 1 else 0
  }

  function Elements(n: nat): (es: seq<Step>)
    ensures |es| == n && forall i | 0 <= i < n :: es[i] == Element
  {
    seq(n, _ => Element)
  }

  function ChunkSteps(chunk: string): seq<Step> {
    [Member(Stem(chunk))] + Elements(Arrays(chunk))
  }

  function AllChunkSteps(chunks: seq<string>): seq<Step> {
    if chunks == [] then [] else AllChunkSteps(chunks[..|chunks| - 1]) + ChunkSteps(chunks[|chunks| - 1])
  }

  /** The steps a path denotes. */
  function StepsOf(path: string): seq<Step> {
    AllChunkSteps(Split(path, '.'))
  }

  /** Strip the `[]` pairs off a chunk, counting them (lines 302-307). */
  method StripArrays(chunk: string) returns (name: string, arrays: nat)
    ensures name == Stem(chunk) && arrays == Arrays(chunk)
  {
    name, arrays := chunk, 0;
    while EndsWithBrackets(name)
      invariant Stem(chunk) == Stem(name) && Arrays(chunk) == arrays + Arrays(name)
      decreases |name|
    {
      name := name[..|name| - 2];
      arrays := arrays + 1;
    }
  }

  /** `parsePath`. */
  method ParsePath(path: string) returns (steps: seq<Step>)
    ensures steps == StepsOf(path)
  {
    hide Stem, Arrays, EndsWithBrackets, Split;
    steps := [];
    var chunks := Split(path, '.');
    for c := 0 to |chunks|
      invariant steps == AllChunkSteps(chunks[..c])
    {
      var name, arrays := StripArrays(chunks[c]);
      steps := steps + [Member(name)];
      ghost var before := steps;
      for i := 0 to arrays
        invariant steps == before + Elements(i)
      {
        steps := steps + [Element];
        assert Elements(i + 1) == Elements(i) + [Element];
      }
      assert chunks[..c + 1][..c] == chunks[..c];
    }
    assert chunks[..|chunks|] == chunks;
  }

  // ----- Writing -----

  /** What a step adds to a path that already has a key. */
  function RenderStep(step: Step): string {
    match step
    case Member(name) => "." + name
    case Element => "[]"
  }

  function Render(steps: seq<Step>): string {
    if steps == [] then "" else Render(steps[..|steps| - 1]) + RenderStep(steps[|steps| - 1])
  }

  /** The path of a key and the steps below it. */
  function PathString(key: string, steps: seq<Step>): string {
    key + Render(steps)
  }

  /** A key that can be told apart within a path. */
  predicate Plain(name: string) {
    '.' !in name && !EndsWithBrackets(name)
  }

  ghost predicate AllPlain(steps: seq<Step>) {
    forall i | 0 <= i < |steps| && steps[i].Member? :: Plain(steps[i].name)
  }

  // ----- Reading back what was written -----

  lemma StemAppend(name: string)
    ensures Stem(name + "[]") == Stem(name) && Arrays(name + "[]") == Arrays(name) + 1
  {
    var t := name + "[]";
    assert t[|t| - 2..] == "[]" && t[..|t| - 2] == name;
  }

  lemma {:induction false} ChunksConcat(a: seq<string>, b: seq<string>)
    ensures AllChunkSteps(a + b) == AllChunkSteps(a) + AllChunkSteps(b)
  {
    hide ChunkSteps;
    if b == [] {
      assert a + b == a;
    } else {
      var init, last := b[..|b| - 1], b[|b| - 1];
      ChunksConcat(a, init);
      assert (a + b)[..|a + b| - 1] == a + init && (a + b)[|a + b| - 1] == last;
      Associate(AllChunkSteps(a), AllChunkSteps(init), ChunkSteps(last));
    }
  }

  /** Appending `[]` appends an element hop, whatever the path. */
  lemma StepsOfBrackets(s: string)
    ensures StepsOf(s + "[]") == StepsOf(s) + [Element]
  {
    hide *;
    var cs := Split(s, '.');
    var init, last := cs[..|cs| - 1], cs[|cs| - 1];
    assert cs == init + [last];
    SplitAppend(s, "[]", '.');
    StepsOfChunks(s, init, last);
    StepsOfChunks(s + "[]", init, last + "[]");
    ChunkBrackets(last);
    assert AllChunkSteps(init) + (ChunkSteps(last) + [Element]) == AllChunkSteps(init) + ChunkSteps(last) + [Element];
  }

  lemma StepsOfChunks(s: string, init: seq<string>, last: string)
    requires Split(s, '.') == init + [last]
    ensures StepsOf(s) == AllChunkSteps(init) + ChunkSteps(last)
  {
    assert (init + [last])[..|init|] == init;
  }

  lemma ChunkBrackets(chunk: string)
    ensures ChunkSteps(chunk + "[]") == ChunkSteps(chunk) + [Element]
  {
    StemAppend(chunk);
    assert Elements(Arrays(chunk) + 1) == Elements(Arrays(chunk)) + [Element];
  }

  /** Appending a dotted key appends the steps the key reads as. */
  lemma StepsOfDot(s: string, t: string)
    ensures StepsOf(s + "." + t) == StepsOf(s) + StepsOf(t)
  {
    SplitBetween(s, t, '.');
    ChunksConcat(Split(s, '.'), Split(t, '.'));
  }

  lemma StepsOfKey(name: string)
    requires '.' !in name
    ensures StepsOf(name) == [Member(Stem(name))] + Elements(Arrays(name))
  {
    SplitWhole(name, '.');
    assert [name][..0] == [];
  }

  function Members(steps: seq<Step>): nat {
    if steps == [] then 0 else Members(steps[..|steps| - 1]) + if steps[|steps| - 1].Member? then 1 else 0
  }

  lemma {:induction false} MembersConcat(a: seq<Step>, b: seq<Step>)
    ensures Members(a + b) == Members(a) + Members(b)
  {
    if b == [] {
      assert a + b == a;
    } else {
      MembersConcat(a, b[..|b| - 1]);
      assert (a + b)[..|a + b| - 1] == a + b[..|b| - 1];
    }
  }

  lemma {:induction false} ElementsMembers(n: nat)
    ensures Members(Elements(n)) == 0
  {
    if n > 0 {
      ElementsMembers(n - 1);
      assert Elements(n)[..n - 1] == Elements(n - 1);
    }
  }

  lemma {:induction false} ChunksMembers(chunks: seq<string>)
    ensures Members(AllChunkSteps(chunks)) == |chunks|
  {
    if chunks != [] {
      var c := chunks[|chunks| - 1];
      ChunksMembers(chunks[..|chunks| - 1]);
      MembersConcat([Member(Stem(c))], Elements(Arrays(c)));
      ElementsMembers(Arrays(c));
      MembersConcat(AllChunkSteps(chunks[..|chunks| - 1]), ChunkSteps(c));
      assert [Member(Stem(c))][..0] == [];
    }
  }

  /** A key reads back as itself exactly when it is plain, and otherwise reads longer. */
  lemma KeyReadsBack(name: string)
    ensures StepsOf(name) == [Member(name)] <==> Plain(name)
    ensures |StepsOf(name)| >= 1 && (!Plain(name) ==> |StepsOf(name)| > 1)
  {
    ChunksMembers(Split(name, '.'));
    MembersShort(StepsOf(name));
    if '.' in name {
      SplitMany(name, '.');
    } else {
      StepsOfKey(name);
    }
  }

  lemma {:induction false} MembersShort(steps: seq<Step>)
    ensures Members(steps) <= |steps|
  {
    if steps != [] { MembersShort(steps[..|steps| - 1]); }
  }

  /** The steps of a path are at least as many as were written, and as many only when every key is plain. */
  lemma {:induction false} RenderReadsBack(key: string, steps: seq<Step>)
    ensures |StepsOf(PathString(key, steps))| >= 1 + |steps|
    ensures |StepsOf(PathString(key, steps))| == 1 + |steps| ==> Plain(key) && AllPlain(steps)
    ensures Plain(key) && AllPlain(steps) ==> StepsOf(PathString(key, steps)) == [Member(key)] + steps
  {
    hide *;
    if steps == [] {
      RenderNothing(key);
      KeyReadsBack(key);
    } else {
      var init, last := steps[..|steps| - 1], steps[|steps| - 1];
      var path := PathString(key, init);
      RenderReadsBack(key, init);
      RenderLast(key, steps);
      assert steps == init + [last];
      assert [Member(key)] + (init + [last]) == [Member(key)] + init + [last];
      match last
      case Element => StepsOfBrackets(path);
      case Member(name) =>
        StepsOfDot(path, name);
        KeyReadsBack(name);
    }
  }

  lemma RenderNothing(key: string)
    ensures PathString(key, []) == key && AllPlain([])
  { }

  lemma RenderLast(key: string, steps: seq<Step>)
    requires steps != []
    ensures var init, last := steps[..|steps| - 1], steps[|steps| - 1];
            && (AllPlain(steps) <==> AllPlain(init) && (last.Member? ==> Plain(last.name)))
            && (last == Element ==> PathString(key, steps) == PathString(key, init) + "[]")
            && (last.Member? ==> PathString(key, steps) == PathString(key, init) + "." + last.name)
  {
    var init, last := steps[..|steps| - 1], steps[|steps| - 1];
    assert PathString(key, steps) == PathString(key, init) + RenderStep(last);
    if last.Member? { assert PathString(key, init) + ("." + last.name) == PathString(key, init) + "." + last.name; }
    if AllPlain(init) && (last.Member? ==> Plain(last.name)) {
      forall i | 0 <= i < |steps| && steps[i].Member? ensures Plain(steps[i].name) {
        if i < |init| { assert init[i] == steps[i]; }
      }
    }
    if AllPlain(steps) {
      forall i | 0 <= i < |init| && init[i].Member? ensures Plain(init[i].name) { assert init[i] == steps[i]; }
    }
  }

  /** A written path reads back as itself exactly when every key in it is free of dots and does not
      end in `[]`. */
  lemma ReadsBackExactly(key: string, steps: seq<Step>)
    ensures StepsOf(PathString(key, steps)) == [Member(key)] + steps <==> Plain(key) && AllPlain(steps)
  {
    RenderReadsBack(key, steps);
  }
}
