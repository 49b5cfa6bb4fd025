/** Finding the comments in the HTML of a Markdown source (scripts/markdown.ts:203-216). */
module HtmlComments {
  import opened Wrappers
  import opened Sequences
  import opened CommentedLines

  const OPEN := "<!--"
  const CLOSE := "-->"

  /** An HTML node: where it starts in the source, and its text. */
  datatype HtmlNode = HtmlNode(offset: nat, value: string)

  predicate Occurs(s: string, mark: string, i: nat) { i + |mark| <= |s| && s[i..i + |mark|] == mark }

  /** `s.indexOf(mark, from)`. */
  function Find(s: string, mark: string, from: nat): (i: Option<nat>)
    ensures i.Some? ==> from <= i.value && i.value + |mark| <= |s| && Occurs(s, mark, i.value)
    ensures forall j | from <= j < (if i.Some? then i.value else |s|) :: !Occurs(s, mark, j)
    decreases |s| - from
  {
    if from >= |s| then None else if Occurs(s, mark, from) then Some(from) else Find(s, mark, from + 1)
  }

  /** The comments of a node from `cursor` on, in source offsets. */
  function CommentsFrom(node: HtmlNode, cursor: nat): seq<Range>
    decreases |node.value| - cursor
  {
    match Find(node.value, OPEN, cursor)
    case None => []
    case Some(start) =>
      var close := Find(node.value, CLOSE, start + |OPEN|);
      var end := if close.None? then |node.value| else close.value + |CLOSE|;
      [Range(node.offset + start, node.offset + end)] + CommentsFrom(node, end)
  }

  function CommentsOf(nodes: seq<HtmlNode>): seq<Range> {
    if nodes == [] then [] else CommentsOf(nodes[..|nodes| - 1]) + CommentsFrom(nodes[|nodes| - 1], 0)
  }

  method FindIn(node: HtmlNode) returns (comments: seq<Range>)
    ensures comments == CommentsFrom(node, 0)
  {
    hide Find, Occurs, CommentsFrom, OPEN, CLOSE;
    comments := [];
    var cursor: nat := 0;
    while true
      invariant cursor <= |node.value| && comments + CommentsFrom(node, cursor) == CommentsFrom(node, 0)
      decreases |node.value| - cursor
    {
      CommentsStep(node, cursor);
      var start := Find(node.value, OPEN, cursor);
      if start.None? { return; }
      var close := Find(node.value, CLOSE, start.value + |OPEN|);
      var end := if close.None? then |node.value| else close.value + |CLOSE|;
      Associate(comments, [Range(node.offset + start.value, node.offset + end)], CommentsFrom(node, end));
      comments := comments + [Range(node.offset + start.value, node.offset + end)];
      cursor := end;
    }
  }

  lemma CommentsStep(node: HtmlNode, cursor: nat)
    requires cursor <= |node.value|
    ensures var start := Find(node.value, OPEN, cursor);
            if start.None? then CommentsFrom(node, cursor) == []
            else
              var close := Find(node.value, CLOSE, start.value + |OPEN|);
              var end := if close.None? then |node.value| else close.value + |CLOSE|;
              && cursor < end <= |node.value|
              && CommentsFrom(node, cursor) ==
                  [Range(node.offset + start.value, node.offset + end)] + CommentsFrom(node, end)
  {
    hide Find, Occurs;
  }

  method FindComments(nodes: seq<HtmlNode>) returns (comments: seq<Range>)
    ensures comments == CommentsOf(nodes)
  {
    hide CommentsFrom;
    comments := [];
    for i := 0 to |nodes|
      invariant comments == CommentsOf(nodes[..i])
    {
      assert nodes[..i + 1][..i] == nodes[..i];
      var found := FindIn(nodes[i]);
      comments := comments + found;
    }
    assert nodes[..|nodes|] == nodes;
  }

  // ----- What comments are -----

  /** The text of a node, taken apart: plain text, then a comment and more, or one that is never closed. */
  datatype Html =
      Plain(text: string) | Comment(text: string, body: string, rest: Html) | Unclosed(text: string, body: string)

  function Print(h: Html): string {
    match h
    case Plain(text) => text
    case Comment(text, body, rest) => text + ("<!--" + (body + ("-->" + Print(rest))))
    case Unclosed(text, body) => text + ("<!--" + body)
  }

  ghost predicate Without(s: string, mark: string) { forall i | 0 <= i < |s| :: !Occurs(s, mark, i) }

  /** Plain text opens no comment, and the body of a comment does not close it. */
  ghost predicate Fits(h: Html) {
    match h
    case Plain(text) => Without(text, "<!--")
    case Comment(text, body, rest) => Without(text, "<!--") && Without(body, "-->") && Fits(rest)
    case Unclosed(text, body) => Without(text, "<!--") && Without(body, "-->")
  }

  /** Where its comments lie, when it begins at `at`. */
  function Spans(h: Html, at: nat): seq<Range> {
    match h
    case Plain(_) => []
    case Comment(text, body, rest) =>
      var start := at + |text|;
      var end := start + 4 + |body| + 3;
      [Range(start, end)] + Spans(rest, end)
    case Unclosed(text, body) => [Range(at + |text|, at + |text| + 4 + |body|)]
  }

  /** No mark begins inside `s` and ends in a mark that follows it. */
  predicate Unbordered(mark: string) {
    forall k | 0 < k < |mark| :: mark[k..] != mark[..|mark| - k]
  }

  lemma MarksUnbordered()
    ensures Unbordered(OPEN) && Unbordered(CLOSE) && OPEN == "<!--" && CLOSE == "-->"
    ensures |OPEN| == 4 && |CLOSE| == 3
  {
    assert OPEN[1..][0] == '!' && OPEN[2..][0] == '-' && OPEN[3..][0] == '-';
    assert CLOSE[1..][1] == '>' && CLOSE[..2][1] == '-' && CLOSE[2..][0] == '>' && CLOSE[..1][0] == '-';
  }

  lemma OccursShift(a: string, s: string, mark: string, i: nat)
    ensures Occurs(a + s, mark, |a| + i) <==> Occurs(s, mark, i)
  {
    if i + |mark| <= |s| {
      assert (a + s)[|a| + i..|a| + i + |mark|] == s[i..i + |mark|];
    }
  }

  /** The first mark in `s + mark` is the one after `s`. */
  lemma NotBefore(s: string, mark: string, rest: string, i: nat)
    requires Without(s, mark) && Unbordered(mark) && i < |s|
    ensures !Occurs(s + (mark + rest), mark, i)
  {
    var t := s + (mark + rest);
    assert !Occurs(s, mark, i);
    if i + |mark| <= |s| {
      assert t[i..i + |mark|] == s[i..i + |mark|];
    } else {
      var k := |s| - i;
      assert t[i..i + |mark|][k..] == t[|s|..i + |mark|] == mark[..|mark| - k];
    }
  }

  lemma FindIs(s: string, mark: string, from: nat, i: nat)
    requires from <= i < |s| && Occurs(s, mark, i) && forall j | from <= j < i :: !Occurs(s, mark, j)
    ensures Find(s, mark, from) == Some(i)
  {}

  /** After what comes before, the first mark is found where it stands. */
  lemma FindsMark(before: string, s: string, mark: string, rest: string)
    requires Without(s, mark) && Unbordered(mark) && mark != []
    ensures Find(before + (s + (mark + rest)), mark, |before|) == Some(|before| + |s|)
  {
    hide Find, Occurs, Without, Unbordered;
    var t := s + (mark + rest);
    forall j | |before| <= j < |before| + |s| ensures !Occurs(before + t, mark, j) {
      NotBefore(s, mark, rest, j - |before|);
      OccursShift(before, t, mark, j - |before|);
    }
    OccursHere(s, mark, rest);
    OccursShift(before, t, mark, |s|);
    FindIs(before + t, mark, |before|, |before| + |s|);
  }

  lemma OccursHere(s: string, mark: string, rest: string)
    ensures Occurs(s + (mark + rest), mark, |s|)
  {
    assert (s + (mark + rest))[|s|..|s| + |mark|] == mark;
  }

  lemma FindsNone(before: string, s: string, mark: string)
    requires Without(s, mark) && mark != []
    ensures Find(before + s, mark, |before|) == None
  {
    hide Find, Occurs, Without;
    forall j | |before| <= j < |before + s| ensures !Occurs(before + s, mark, j) {
      OccursShift(before, s, mark, j - |before|);
      NotIn(s, mark, j - |before|);
    }
  }

  lemma NotIn(s: string, mark: string, i: nat)
    requires Without(s, mark) && i < |s|
    ensures !Occurs(s, mark, i)
  {}

  /** Exactly the comments are found, in order, whatever stands in them or between them. */
  lemma {:induction false} FindsExactly(before: string, h: Html, offset: nat)
    requires Fits(h)
    ensures CommentsFrom(HtmlNode(offset, before + Print(h)), |before|) == Spans(h, offset + |before|)
    decreases h
  {
    hide Find, Occurs, Without, Unbordered, OPEN, CLOSE, CommentsFrom;
    MarksUnbordered();
    var s := before + Print(h);
    var node := HtmlNode(offset, s);
    CommentsStep(node, |before|);
    match h
    case Plain(text) => FindsNone(before, text, OPEN);
    case Comment(text, body, rest) =>
      var inside := before + text + OPEN;
      var past := inside + body + CLOSE;
      FindsMark(before, text, OPEN, body + (CLOSE + Print(rest)));
      assert s == inside + (body + (CLOSE + Print(rest)));
      FindsMark(inside, body, CLOSE, Print(rest));
      assert s == past + Print(rest);
      FindsExactly(past, rest, offset);
    case Unclosed(text, body) =>
      var inside := before + text + OPEN;
      FindsMark(before, text, OPEN, body);
      assert s == inside + body;
      FindsNone(inside, body, CLOSE);
      NothingLeft(node);
  }

  lemma NothingLeft(node: HtmlNode)
    ensures CommentsFrom(node, |node.value|) == []
  {}

  lemma WithoutPrefix(s: string, mark: string, from: nat, n: nat)
    requires from <= n <= |s| && forall j | from <= j < n :: !Occurs(s, mark, j)
    ensures Without(s[from..n], mark)
  {
    forall j | 0 <= j < n - from ensures !Occurs(s[from..n], mark, j) {
      assert !Occurs(s, mark, from + j);
      if j + |mark| <= n - from { Slices(s, from, n, j, j + |mark|); }
    }
  }

  lemma Slices(s: string, from: nat, n: nat, i: nat, j: nat)
    requires from <= n <= |s| && i <= j <= n - from
    ensures s[from..n][i..j] == s[from + i..from + j]
  {
    assert forall k | 0 <= k < j - i :: s[from..n][i..j][k] == s[from + i..from + j][k];
  }

  /** Every text can be taken apart so. */
  lemma {:induction false} TakesApart(s: string) returns (h: Html)
    ensures Fits(h) && Print(h) == s
    decreases |s|
  {
    hide *;
    MarksUnbordered();
    var start := Find(s, OPEN, 0);
    if start.None? {
      WithoutPrefix(s, OPEN, 0, |s|);
      h := Plain(s[0..|s|]);
      Ends(s, 0, 0);
    } else {
      var inside := start.value + |OPEN|;
      var close := Find(s, CLOSE, inside);
      WithoutPrefix(s, OPEN, 0, start.value);
      WithoutPrefix(s, CLOSE, inside, if close.Some? then close.value else |s|);
      MarkAt(s, OPEN, start.value);
      if close.None? {
        h := Unclosed(s[0..start.value], s[inside..|s|]);
        Ends(s, start.value, inside);
      } else {
        var past := close.value + |CLOSE|;
        MarkAt(s, CLOSE, close.value);
        var rest := TakesApart(s[past..]);
        h := Comment(s[0..start.value], s[inside..close.value], rest);
        Goes(s, start.value, inside, close.value, past, rest);
      }
    }
  }

  lemma MarkAt(s: string, mark: string, i: nat)
    requires i + |mark| <= |s| && Occurs(s, mark, i)
    ensures s[i..i + |mark|] == mark
  {}

  lemma Ends(s: string, a: nat, b: nat)
    requires a <= b <= |s|
    ensures Fits(Plain(s[0..|s|])) <==> Without(s[0..|s|], OPEN)
    ensures Print(Plain(s[0..|s|])) == s
    ensures Fits(Unclosed(s[0..a], s[b..|s|])) <==> Without(s[0..a], OPEN) && Without(s[b..|s|], CLOSE)
    ensures s[a..b] == OPEN ==> Print(Unclosed(s[0..a], s[b..|s|])) == s
  {
    hide Without;
    assert s == s[0..a] + (s[a..b] + s[b..|s|]);
  }

  lemma Goes(s: string, a: nat, b: nat, c: nat, d: nat, rest: Html)
    requires a <= b <= c <= d <= |s| && s[a..b] == OPEN && s[c..d] == CLOSE && Print(rest) == s[d..]
    ensures var h := Comment(s[0..a], s[b..c], rest);
            && Print(h) == s && (Fits(h) <==> Without(s[0..a], OPEN) && Without(s[b..c], CLOSE) && Fits(rest))
  {
    hide Without;
    assert s == s[0..a] + (s[a..b] + (s[b..c] + (s[c..d] + s[d..])));
  }
}
