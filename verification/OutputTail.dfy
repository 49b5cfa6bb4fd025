/** The bounded tail of a child's output (`appendOutputTail`, scripts/coverage-partitions.ts:641-662). */
module OutputTail {
  import opened Sequences

  const LIMIT := 65_536

  function Last(s: string, n: nat): string { if |s| <= n then s else s[|s| - n..] }

  function Appended(previous: string, chunk: string): string { Last(previous + chunk, LIMIT) }

  function Whole(chunks: seq<string>): string {
    if chunks == [] then [] else Whole(chunks[..|chunks| - 1]) + chunks[|chunks| - 1]
  }

  function Tail(chunks: seq<string>): string {
    if chunks == [] then [] else Appended(Tail(chunks[..|chunks| - 1]), chunks[|chunks| - 1])
  }

  lemma Drops(a: string, x: string, k: nat)
    requires k <= |x|
    ensures (a + x)[|a| + k..] == x[k..]
  {}

  lemma LastAppended(s: string, t: string, n: nat)
    ensures Last(Last(s, n) + t, n) == Last(s + t, n)
  {
    if |s| > n {
      var a, u := s[..|s| - n], s[|s| - n..];
      assert s == a + u;
      Associate(a, u, t);
      Drops(a, u + t, |u + t| - n);
      if |t| == 0 { assert (u + t)[0..] == u + t; }
    }
  }

  lemma {:induction false} TailFolds(chunks: seq<string>)
    ensures Tail(chunks) == Last(Whole(chunks), LIMIT)
  {
    if chunks != [] {
      TailFolds(chunks[..|chunks| - 1]);
      LastAppended(Whole(chunks[..|chunks| - 1]), chunks[|chunks| - 1], LIMIT);
    }
  }

  /** However the output was cut into chunks, the tail kept is the end of the whole output: all of it up to
      65536 characters, and the last 65536 of what is longer. */
  lemma TailIsLast(chunks: seq<string>)
    ensures |Tail(chunks)| == if |Whole(chunks)| < 65536 then |Whole(chunks)| else 65536
    ensures exists dropped :: Whole(chunks) == dropped + Tail(chunks)
  {
    var whole := Whole(chunks);
    TailFolds(chunks);
    var kept := if |whole| < 65536 then |whole| else 65536;
    assert whole == whole[..|whole| - kept] + Tail(chunks);
  }
}
