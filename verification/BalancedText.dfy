/** Text with balanced or escaped brackets, and the depth-counting scan of scripts/markdown.ts:90-104 and
    127-140 that must stop exactly where such a text ends. */
module BalancedText {
  import opened Sequences
  import opened Wrappers
  import opened Text

  /** What a scan looks for: a closing character not matched inside, or, where `spaces` holds, whitespace
      outside all brackets. A backslash hides the character after it. */
  datatype Brackets = Brackets(open: Option<char>, close: char, spaces: bool)

  const SQUARE := Brackets(Some('['), ']', false)
  const ROUND := Brackets(Some('('), ')', true)
  const ANGLE := Brackets(None, '>', false)

  datatype Piece = Plain(c: char) | Escaped(c: char) | Nested(inner: seq<Piece>)

  function PrintPiece(b: Brackets, p: Piece): string
    decreases p, 1
  {
    match p
    case Plain(c) => [c]
    case Escaped(c) => ['\\', c]
    case Nested(inner) => (if b.open.Some? then [b.open.value] else []) + Print(b, inner) + [b.close]
  }

  function Print(b: Brackets, ps: seq<Piece>): string
    decreases ps, 0
  {
    if ps == [] then [] else PrintPiece(b, ps[0]) + Print(b, ps[1..])
  }

  predicate PieceFits(b: Brackets, p: Piece, top: bool)
    decreases p, 1
  {
    match p
    case Plain(c) => c != '\\' && c != b.close && Some(c) != b.open && (top && b.spaces ==> !IsSpace(c))
    case Escaped(_) => true
    case Nested(inner) => b.open.Some? && Fits(b, inner, false)
  }

  /** Every bracket is matched or escaped, and no whitespace stands outside brackets where it would end the text. */
  predicate Fits(b: Brackets, ps: seq<Piece>, top: bool)
    decreases ps, 0
  {
    ps != [] ==> PieceFits(b, ps[0], top) && Fits(b, ps[1..], top)
  }

  ghost predicate IsPrinted(b: Brackets, ps: seq<Piece>, text: string) { Fits(b, ps, true) && Print(b, ps) == text }

  ghost predicate Balanced(b: Brackets, text: string) { exists ps :: IsPrinted(b, ps, text) }

  // ----- Where the scan stops -----

  /** How far the scan goes from inside `depth` open brackets; the whole length when nothing stops it. */
  function Stop(b: Brackets, text: string, depth: nat): (k: nat)
    ensures k <= |text|
  {
    if text == [] then 0
    else if text[0] == '\\' then if |text| == 1 then 1 else 2 + Stop(b, text[2..], depth)
    else if Some(text[0]) == b.open then 1 + Stop(b, text[1..], depth + 1)
    else if text[0] == b.close then if depth == 0 then 0 else 1 + Stop(b, text[1..], depth - 1)
    else if b.spaces && IsSpace(text[0]) && depth == 0 then 0
    else 1 + Stop(b, text[1..], depth)
  }

  predicate Sane(b: Brackets) {
    b.close != '\\' && b.open != Some('\\') && b.open != Some(b.close) && !IsSpace(b.close)
  }

  /** `rest` begins with something that ends a text outside all brackets. */
  predicate Ends(b: Brackets, rest: string) {
    rest != [] && (rest[0] == b.close || (b.spaces && IsSpace(rest[0]) && rest[0] != '\\' && Some(rest[0]) != b.open))
  }

  /** The scan passes over balanced text. */
  lemma {:induction false} PassPiece(b: Brackets, p: Piece, rest: string, depth: nat)
    requires Sane(b) && PieceFits(b, p, depth == 0)
    ensures Stop(b, PrintPiece(b, p) + rest, depth) == |PrintPiece(b, p)| + Stop(b, rest, depth)
    decreases p, 1
  {
    var text := PrintPiece(b, p) + rest;
    match p
    case Plain(c) => assert text[1..] == rest;
    case Escaped(c) => assert text[2..] == rest;
    case Nested(inner) =>
      assert text[1..] == Print(b, inner) + ([b.close] + rest);
      Pass(b, inner, [b.close] + rest, depth + 1);
      assert ([b.close] + rest)[1..] == rest;
  }

  lemma {:induction false} Pass(b: Brackets, ps: seq<Piece>, rest: string, depth: nat)
    requires Sane(b) && Fits(b, ps, depth == 0)
    ensures Stop(b, Print(b, ps) + rest, depth) == |Print(b, ps)| + Stop(b, rest, depth)
    decreases ps, 0
  {
    if ps == [] {
      assert Print(b, ps) + rest == rest;
    } else {
      Associate(PrintPiece(b, ps[0]), Print(b, ps[1..]), rest);
      PassPiece(b, ps[0], Print(b, ps[1..]) + rest, depth);
      Pass(b, ps[1..], rest, depth);
    }
  }

  /** Texts at ever lower depths with a closing bracket after each but the last. */
  function Join(b: Brackets, levels: seq<seq<Piece>>): string
    requires levels != []
  {
    if |levels| == 1 then Print(b, levels[0]) else Print(b, levels[0]) + [b.close] + Join(b, levels[1..])
  }

  predicate LevelsFit(b: Brackets, levels: seq<seq<Piece>>) {
    forall i | 0 <= i < |levels| :: Fits(b, levels[i], i == |levels| - 1)
  }

  function Push(p: Piece, levels: seq<seq<Piece>>): seq<seq<Piece>>
    requires levels != []
  {
    [[p] + levels[0]] + levels[1..]
  }

  lemma PushJoins(b: Brackets, p: Piece, levels: seq<seq<Piece>>)
    requires levels != [] && PieceFits(b, p, |levels| == 1) && LevelsFit(b, levels)
    ensures LevelsFit(b, Push(p, levels))
    ensures Join(b, Push(p, levels)) == PrintPiece(b, p) + Join(b, levels)
  {
    assert ([p] + levels[0])[1..] == levels[0];
    if |levels| > 1 {
      assert Push(p, levels)[1..] == levels[1..];
    }
  }

  lemma OpenJoins(b: Brackets, levels: seq<seq<Piece>>)
    requires |levels| > 1 && b.open.Some? && LevelsFit(b, levels)
    ensures LevelsFit(b, Push(Nested(levels[0]), levels[1..]))
    ensures Join(b, Push(Nested(levels[0]), levels[1..])) == [b.open.value] + Join(b, levels)
  {
    assert forall i | 0 <= i < |levels| - 1 :: levels[1..][i] == levels[i + 1];
    assert Fits(b, levels[0], false);
    PushJoins(b, Nested(levels[0]), levels[1..]);
    Associate([b.open.value], Print(b, levels[0]) + [b.close], Join(b, levels[1..]));
  }

  lemma CloseJoins(b: Brackets, levels: seq<seq<Piece>>)
    requires levels != [] && LevelsFit(b, levels)
    ensures LevelsFit(b, [[]] + levels)
    ensures Join(b, [[]] + levels) == [b.close] + Join(b, levels)
  {
    assert ([[]] + levels)[1..] == levels;
    assert forall i | 0 < i <= |levels| :: ([[]] + levels)[i] == levels[i - 1];
  }

  lemma EmptyJoins(b: Brackets)
    ensures LevelsFit(b, [[]]) && Join(b, [[]]) == []
  {}

  lemma Cut(text: string, j: nat, k: nat)
    requires j <= k <= |text|
    ensures text[..k] == text[..j] + text[j..][..k - j]
  {}

  /** What the scan went over is balanced text, level by level. */
  lemma {:induction false} Passed(b: Brackets, text: string, depth: nat) returns (levels: seq<seq<Piece>>)
    requires Sane(b) && Stop(b, text, depth) < |text|
    ensures |levels| == depth + 1 && LevelsFit(b, levels)
    ensures Join(b, levels) == text[..Stop(b, text, depth)]
    decreases |text|
  {
    hide Join, LevelsFit, Fits, Print;
    var k := Stop(b, text, depth);
    if k == 0 {
      levels := [[]];
      EmptyJoins(b);
    } else if text[0] == '\\' {
      var inner := Passed(b, text[2..], depth);
      levels := Push(Escaped(text[1]), inner);
      PushJoins(b, Escaped(text[1]), inner);
      Cut(text, 2, k);
    } else if Some(text[0]) == b.open {
      var inner := Passed(b, text[1..], depth + 1);
      levels := Push(Nested(inner[0]), inner[1..]);
      OpenJoins(b, inner);
      Cut(text, 1, k);
    } else if text[0] == b.close {
      var inner := Passed(b, text[1..], depth - 1);
      levels := [[]] + inner;
      CloseJoins(b, inner);
      Cut(text, 1, k);
    } else {
      var inner := Passed(b, text[1..], depth);
      levels := Push(Plain(text[0]), inner);
      PushJoins(b, Plain(text[0]), inner);
      Cut(text, 1, k);
    }
  }

  /** The scan finds where a text ends, whatever ends it, exactly when the text is balanced. */
  lemma StopsExactly(b: Brackets, text: string, rest: string)
    requires Sane(b) && Ends(b, rest)
    ensures Stop(b, text + rest, 0) == |text| <==> Balanced(b, text)
  {
    if Stop(b, text + rest, 0) == |text| {
      var levels := Passed(b, text + rest, 0);
      assert (text + rest)[..|text|] == text;
      assert IsPrinted(b, levels[0], text);
    }
    if Balanced(b, text) {
      var ps :| IsPrinted(b, ps, text);
      Pass(b, ps, rest, 0);
      assert Stop(b, rest, 0) == 0;
    }
  }

  // ----- At the end of the source -----

  ghost predicate Completable(b: Brackets, text: string) { exists more :: Balanced(b, text + more) }

  /** Any number of closing brackets, then what ends the text. */
  lemma {:induction false} CloseAll(b: Brackets, rest: string, depth: nat) returns (closers: string)
    requires Sane(b) && Ends(b, rest)
    ensures Stop(b, closers + rest, depth) == |closers|
  {
    closers := [];
    assert Stop(b, rest, 0) == 0;
    assert [] + rest == rest;
    if depth > 0 {
      var fewer := CloseAll(b, rest, depth - 1);
      closers := [b.close] + fewer;
      assert (closers + rest)[1..] == fewer + rest;
    }
  }

  /** A text that nothing stops can be completed: its last escape, then its brackets. */
  lemma {:induction false} Complete(b: Brackets, text: string, rest: string, depth: nat) returns (more: string)
    requires Sane(b) && Ends(b, rest) && Stop(b, text, depth) == |text|
    ensures Stop(b, text + (more + rest), depth) == |text| + |more|
    decreases |text|
  {
    if text == [] {
      more := CloseAll(b, rest, depth);
      assert [] + (more + rest) == more + rest;
    } else if text[0] == '\\' && |text| == 1 {
      var closers := CloseAll(b, rest, depth);
      more := ['\\'] + closers;
      assert (text + (more + rest))[2..] == closers + rest;
    } else if text[0] == '\\' {
      more := Complete(b, text[2..], rest, depth);
      assert (text + (more + rest))[2..] == text[2..] + (more + rest);
    } else {
      var inside := if Some(text[0]) == b.open then depth + 1 else if text[0] == b.close then depth - 1 else depth;
      more := Complete(b, text[1..], rest, inside);
      assert (text + (more + rest))[1..] == text[1..] + (more + rest);
    }
  }

  /** What stops the scan stops it whatever follows. */
  lemma {:induction false} StopsEarly(b: Brackets, text: string, more: string, depth: nat)
    requires Stop(b, text, depth) < |text|
    ensures Stop(b, text + more, depth) == Stop(b, text, depth)
    decreases |text|
  {
    if text[0] == '\\' {
      StopsEarly(b, text[2..], more, depth);
      assert (text + more)[2..] == text[2..] + more;
    } else if Stop(b, text, depth) > 0 {
      var inside := if Some(text[0]) == b.open then depth + 1 else if text[0] == b.close then depth - 1 else depth;
      StopsEarly(b, text[1..], more, inside);
      assert (text + more)[1..] == text[1..] + more;
    }
  }

  /** At the end of the source, the scan passes over a text whole exactly when some balanced text begins with it. */
  lemma RunsOutExactly(b: Brackets, text: string)
    requires Sane(b)
    ensures Stop(b, text, 0) == |text| <==> Completable(b, text)
  {
    if Stop(b, text, 0) == |text| {
      var more := Complete(b, text, [b.close], 0);
      Associate(text, more, [b.close]);
      StopsExactly(b, text + more, [b.close]);
    }
    if Completable(b, text) {
      var more :| Balanced(b, text + more);
      StopsExactly(b, text + more, [b.close]);
      Associate(text, more, [b.close]);
      if Stop(b, text, 0) < |text| { StopsEarly(b, text, more + [b.close], 0); }
    }
  }
}
