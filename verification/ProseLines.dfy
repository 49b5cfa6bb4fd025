/** The lines of a Markdown source outside code blocks and HTML comments (`markdownProseLines`,
    scripts/markdown.ts:203-271). The parsed code blocks and HTML nodes are given. */
module ProseLines {
  import opened Wrappers
  import opened Text
  import opened CommentedLines
  import opened HtmlComments

  // ----- Where lines stand -----

  /** Where line `i` starts, each line before it being followed by a line break. */
  function Start(lines: seq<string>, i: nat): nat
    requires i <= |lines|
  {
    if i == 0 then 0 else |lines[0]| + 1 + Start(lines[1..], i - 1)
  }

  lemma {:induction false} StartNext(lines: seq<string>, i: nat)
    requires i < |lines|
    ensures Start(lines, i + 1) == Start(lines, i) + |lines[i]| + 1
  {
    if i > 0 { StartNext(lines[1..], i - 1); }
  }

  /** Line `i` of a text stands there, ended by a line break or by the end of the text. */
  lemma {:induction false} LineStands(source: string, i: nat)
    requires i < |Split(source, '\n')|
    ensures var lines := Split(source, '\n'); var end := Start(lines, i) + |lines[i]|;
            && end <= |source| && source[Start(lines, i)..end] == lines[i] && '\n' !in lines[i]
            && (if i + 1 < |lines| then end < |source| && source[end] == '\n' else end == |source|)
    decreases |source|
  {
    var lines := Split(source, '\n');
    if source != "" {
      var rest := Split(source[1..], '\n');
      SplitStep(source, '\n');
      hide Split;
      if source[0] == '\n' {
        assert lines[1..] == rest;
        if i > 0 {
          LineStands(source[1..], i - 1);
          Shifted(source, Start(rest, i - 1), Start(rest, i - 1) + |rest[i - 1]|);
        }
      } else {
        LineStands(source[1..], i);
        assert lines[1..] == rest[1..];
        Shifted(source, Start(rest, i), Start(rest, i) + |rest[i]|);
      }
    }
  }

  lemma Shifted(s: string, from: nat, end: nat)
    requires from <= end < |s|
    ensures s[1..][from..end] == s[from + 1..end + 1]
  {}

  /** Where line `i` of a text starts and ends. */
  ghost function Line(source: string, i: nat): (line: Range)
    requires i < |Split(source, '\n')|
    ensures line.start <= line.end <= |source|
  {
    LineStands(source, i);
    Range(Start(Split(source, '\n'), i), Start(Split(source, '\n'), i) + |Split(source, '\n')[i]|)
  }

  // ----- The two loops -----

  /** The column ranges of every line that has any (lines 218-235), by line number. */
  method RangesByLine(comments: seq<Range>, lines: seq<string>) returns (ranges: map<nat, seq<Range>>)
    ensures forall i | 0 <= i < |lines| :: RangesAt(ranges, i) == LineRanges(comments, Start(lines, i), |lines[i]|)
  {
    hide LineRanges;
    ranges := map[];
    var lineOffset := 0;
    for index := 0 to |lines|
      invariant lineOffset == Start(lines, index)
      invariant forall i | 0 <= i < index :: RangesAt(ranges, i) == LineRanges(comments, Start(lines, i), |lines[i]|)
      invariant forall n | n in ranges :: n <= index
    {
      var lineRanges := RangesOf(comments, lineOffset, |lines[index]|);
      if lineRanges.Some? { ranges := ranges[index + 1 := lineRanges.value]; }
      StartNext(lines, index);
      lineOffset := lineOffset + |lines[index]| + 1;
    }
  }

  function RangesAt(ranges: map<nat, seq<Range>>, i: nat): Option<seq<Range>> {
    if i + 1 in ranges then Some(ranges[i + 1]) else None
  }

  datatype ProseLine = ProseLine(index: nat, raw: string)

  /** No comment covers a character of the line, or the line break of an empty line, or else some character of
      the line outside all comments is not whitespace. */
  ghost predicate Remains(source: string, comments: seq<Range>, line: Range)
    requires line.start <= line.end <= |source|
  {
    || (line.start < line.end && forall p | line.start <= p < line.end :: !Covered(comments, p))
    || (line.start == line.end && !Covered(comments, line.start))
    || exists p {:trigger Covered(comments, p)} ::
        line.start <= p < line.end && !Covered(comments, p) && !IsSpace(source[p])
  }

  /** Line `i` of the source is outside code blocks and remains. */
  ghost predicate IsProse(source: string, comments: seq<Range>, fenced: set<nat>, i: nat)
    requires i < |Split(source, '\n')|
  {
    i + 1 !in fenced && Remains(source, comments, Line(source, i))
  }

  /** The first `n` lines without those that are no prose. */
  ghost function Prose(source: string, comments: seq<Range>, fenced: set<nat>, n: nat): seq<ProseLine>
    requires n <= |Split(source, '\n')|
  {
    if n == 0 then []
    else
      Prose(source, comments, fenced, n - 1) +
      if IsProse(source, comments, fenced, n - 1) then [ProseLine(n, Split(source, '\n')[n - 1])] else []
  }

  lemma RemainsExactly(source: string, comments: seq<Range>, i: nat)
    requires i < |Split(source, '\n')|
    ensures var lines := Split(source, '\n');
            var ranges := LineRanges(comments, Start(lines, i), |lines[i]|);
            && (ranges.Some? ==> forall j | 0 <= j < |ranges.value| ::
                ranges.value[j].start <= ranges.value[j].end <= |lines[i]|)
            && (ranges.None? || (exists k :: Speaks(lines[i], ranges.value, k)) <==>
                Remains(source, comments, Line(source, i)))
  {
    hide Covered, Touches, LineRanges, Speaks, Start;
    LineStands(source, i);
    var raw, start := Split(source, '\n')[i], Start(Split(source, '\n'), i);
    KeepsLine(raw, comments, start);
    NoneTouches(comments, start, |raw|);
    hide Split;
    SameSpeech(source, raw, comments, start);
  }

  lemma NoneTouches(comments: seq<Range>, start: nat, length: nat)
    ensures (forall i | 0 <= i < |comments| :: !Touches(comments[i], start, length))
       <==> if length == 0 then !Covered(comments, start)
            else forall p | start <= p < start + length :: !Covered(comments, p)
  {
    hide Touches, Covers;
    forall i | 0 <= i < |comments|
      ensures Touches(comments[i], start, length) <==>
                if length == 0 then Covers(comments[i], start)
                else exists p :: start <= p < start + length && Covers(comments[i], p)
    {
      TouchesExactly(comments[i], start, length);
    }
    if i :| 0 <= i < |comments| && Touches(comments[i], start, length) {
      if length > 0 {
        var p :| start <= p < start + length && Covers(comments[i], p);
        assert Covered(comments, p);
      }
    }
  }

  lemma SameSpeech(source: string, raw: string, comments: seq<Range>, start: nat)
    requires start + |raw| <= |source| && source[start..start + |raw|] == raw
    ensures (exists k :: 0 <= k < |raw| && !Covered(comments, start + k) && !IsSpace(raw[k])) <==>
            (exists p {:trigger Covered(comments, p)} ::
             start <= p < start + |raw| && !Covered(comments, p) && !IsSpace(source[p]))
  {
    hide Covered, IsSpace;
    if k :| 0 <= k < |raw| && !Covered(comments, start + k) && !IsSpace(raw[k]) {
      assert source[start + k] == raw[k];
    }
    if p {:trigger Covered(comments, p)} :| start <= p < start + |raw| && !Covered(comments, p) && !IsSpace(source[p]) {
      assert source[p] == raw[p - start] && !Covered(comments, start + (p - start));
    }
  }

  /** The prose lines, by number, in order. */
  method MarkdownProseLines(source: string, nodes: seq<HtmlNode>, fenced: set<nat>) returns (kept: seq<ProseLine>)
    ensures kept == Prose(source, CommentsOf(nodes), fenced, |Split(source, '\n')|)
  {
    hide *;
    var rawLines := Split(source, '\n');
    var comments := FindComments(nodes);
    var ranges := RangesByLine(comments, rawLines);
    kept := [];
    NoProse(source, comments, fenced);
    for i := 0 to |rawLines|
      invariant kept == Prose(source, comments, fenced, i)
    {
      RemainsExactly(source, comments, i);
      ProseStep(source, comments, fenced, i);
      if i + 1 !in fenced {
        var remains := HasRenderedTextOutsideComments(rawLines[i], RangesAt(ranges, i));
        if remains { kept := kept + [ProseLine(i + 1, rawLines[i])]; }
      }
    }
  }

  lemma NoProse(source: string, comments: seq<Range>, fenced: set<nat>)
    ensures Prose(source, comments, fenced, 0) == []
  {}

  lemma ProseStep(source: string, comments: seq<Range>, fenced: set<nat>, i: nat)
    requires i < |Split(source, '\n')|
    ensures Prose(source, comments, fenced, i + 1) == Prose(source, comments, fenced, i) +
              if i + 1 !in fenced && Remains(source, comments, Line(source, i))
              then [ProseLine(i + 1, Split(source, '\n')[i])] else []
  {}

  /** A line is among them exactly if it is prose, and as it stands in the source. */
  lemma {:induction false} ProseExactly(source: string, comments: seq<Range>, fenced: set<nat>, n: nat, line: ProseLine)
    requires n <= |Split(source, '\n')|
    ensures line in Prose(source, comments, fenced, n) <==>
              0 < line.index <= n && line.raw == Split(source, '\n')[line.index - 1] &&
                  IsProse(source, comments, fenced, line.index - 1)
    ensures var kept := Prose(source, comments, fenced, n);
            && (forall i | 0 <= i < |kept| :: kept[i].index <= n)
            && forall i, j | 0 <= i < j < |kept| :: kept[i].index < kept[j].index
  {
    hide IsProse, Split;
    if n > 0 { ProseExactly(source, comments, fenced, n - 1, line); }
  }
}
