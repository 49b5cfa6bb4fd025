/** Locating the destination of a link, an image or a definition inside its Markdown source
    (scripts/markdown.ts:84-152), proved to return exactly the destination that was printed there. */
module MarkdownDestinations {
  import opened Sequences
  import opened Text
  import opened Wrappers
  import opened BalancedText

  datatype Kind = Link | Image | Definition

  /** The range, or the error thrown. */
  datatype Located = At(start: nat, end: nat) | NoLabelEnd | NoSeparator | NoInlineDestination | NoAngleEnd

  // ----- The scans -----

  function Skip(s: string, start: nat): (i: nat)
    requires start <= |s|
    ensures start <= i <= |s| && (i < |s| ==> !IsSpace(s[i]))
    ensures forall j | start <= j < i :: IsSpace(s[j])
    decreases |s| - start
  {
    if start < |s| && IsSpace(s[start]) then Skip(s, start + 1) else start
  }

  function LabelStop(source: string): (e: Option<nat>)
    ensures e.Some? ==> e.value < |source|
  {
    match IndexOf(source, '[', 0)
    case None => None
    case Some(first) =>
      var e := first + 1 + Stop(SQUARE, source[first + 1..], 0);
      if e < |source| then Some(e) else None
  }

  function Locate(raw: string, kind: Kind): Located {
    match LabelStop(raw)
    case None => NoLabelEnd
    case Some(e) =>
      if kind == Definition then
        match IndexOf(raw, ':', e + 1)
        case None => NoSeparator
        case Some(colon) => LocateFrom(raw, Skip(raw, colon + 1))
      else if e + 1 < |raw| && raw[e + 1] == '(' then LocateFrom(raw, Skip(raw, e + 2))
      else NoInlineDestination
  }

  function LocateFrom(raw: string, start: nat): Located {
    if start >= |raw| then At(start, |raw|)
    else if raw[start] == '<' then
      var end := start + 1 + Stop(ANGLE, raw[start + 1..], 0);
      if end < |raw| then At(start + 1, end) else NoAngleEnd
    else At(start, start + Stop(ROUND, raw[start..], 0))
  }

  method SkipWhitespace(source: string, start: nat) returns (index: nat)
    requires start <= |source|
    ensures index == Skip(source, start)
  {
    index := start;
    while index < |source| && IsSpace(source[index])
      invariant index <= |source| && Skip(source, index) == Skip(source, start)
    {
      index := index + 1;
    }
  }

  /** A scan of `s` that stands at `i` inside `depth` brackets will stop at `stop`. */
  ghost predicate Scans(b: Brackets, s: string, i: nat, depth: nat, stop: nat) {
    if i < |s| then i + Stop(b, s[i..], depth) == stop else stop == |s|
  }

  lemma ScanStep(b: Brackets, s: string, i: nat, depth: nat, stop: nat)
    requires i < |s| && Scans(b, s, i, depth, stop)
    ensures if s[i] == '\\' then Scans(b, s, i + 2, depth, stop)
            else if Some(s[i]) == b.open then Scans(b, s, i + 1, depth + 1, stop)
            else if s[i] == b.close then if depth == 0 then stop == i else Scans(b, s, i + 1, depth - 1, stop)
            else if b.spaces && IsSpace(s[i]) && depth == 0 then stop == i
            else Scans(b, s, i + 1, depth, stop)
  {
    assert s[i..][1..] == s[i + 1..];
    if i + 1 < |s| { assert s[i..][2..] == s[i + 2..]; }
  }

  method LabelEnd(source: string) returns (e: Option<nat>)
    ensures e == LabelStop(source)
  {
    hide Scans, Stop;
    var first := IndexOf(source, '[', 0);
    if first.None? { return None; }
    var index, depth := first.value, 0;
    ghost var stop := first.value + 1 + Stop(SQUARE, source[first.value + 1..], 0);
    LabelScans(source, first.value);
    while index < |source|
      invariant first.value <= index && (index == first.value ==> depth == 0)
      invariant index > first.value ==> depth > 0 && Scans(SQUARE, source, index, depth - 1, stop)
    {
      if index > first.value { ScanStep(SQUARE, source, index, depth - 1, stop); }
      var c := source[index];
      if c == '\\' {
        index := index + 1;
      } else if c == '[' {
        depth := depth + 1;
      } else if c == ']' {
        depth := depth - 1;
        if depth == 0 { return Some(index); }
      }
      index := index + 1;
    }
    ScanOut(SQUARE, source, index, depth - 1, stop);
    return None;
  }

  lemma LabelScans(source: string, first: nat)
    requires first < |source|
    ensures Scans(SQUARE, source, first + 1, 0, first + 1 + Stop(SQUARE, source[first + 1..], 0))
  {}

  lemma ScanOut(b: Brackets, s: string, i: nat, depth: nat, stop: nat)
    requires i >= |s| && Scans(b, s, i, depth, stop)
    ensures stop == |s|
  {}

  method AngleRange(raw: string, start: nat) returns (r: Located)
    requires start < |raw| && raw[start] == '<'
    ensures r == LocateFrom(raw, start)
  {
    var index := start + 1;
    ghost var stop := index + Stop(ANGLE, raw[index..], 0);
    while index < |raw|
      invariant start < index && Scans(ANGLE, raw, index, 0, stop)
    {
      ScanStep(ANGLE, raw, index, 0, stop);
      if raw[index] == '\\' {
        index := index + 1;
      } else if raw[index] == '>' {
        return At(start + 1, index);
      }
      index := index + 1;
    }
    return NoAngleEnd;
  }

  method BareRange(raw: string, start: nat) returns (r: Located)
    requires start < |raw| ==> raw[start] != '<'
    ensures r == LocateFrom(raw, start)
  {
    if start >= |raw| { return At(start, |raw|); }
    var index, depth := start, 0;
    ghost var stop := start + Stop(ROUND, raw[start..], 0);
    assert Scans(ROUND, raw, start, 0, stop);
    hide Scans, Stop, IsSpace;
    while index < |raw|
      invariant start <= index && depth >= 0 && Scans(ROUND, raw, index, depth, stop)
    {
      ScanStep(ROUND, raw, index, depth, stop);
      var c := raw[index];
      if c == '\\' {
        index := index + 1;
      } else if c == '(' {
        depth := depth + 1;
      } else if c == ')' {
        if depth == 0 { return At(start, index); }
        depth := depth - 1;
      } else if IsSpace(c) && depth == 0 {
        return At(start, index);
      }
      index := index + 1;
    }
    ScanOut(ROUND, raw, index, depth, stop);
    return At(start, |raw|);
  }

  method DestinationRange(raw: string, kind: Kind) returns (r: Located)
    ensures r == Locate(raw, kind)
  {
    hide LocateFrom, LabelStop, IndexOf, Skip, Stop;
    var endOfLabel := LabelEnd(raw);
    if endOfLabel.None? { return NoLabelEnd; }
    var start: nat;
    if kind == Definition {
      var colon := IndexOf(raw, ':', endOfLabel.value + 1);
      if colon.None? { return NoSeparator; }
      start := SkipWhitespace(raw, colon.value + 1);
    } else {
      if endOfLabel.value + 1 >= |raw| || raw[endOfLabel.value + 1] != '(' { return NoInlineDestination; }
      start := SkipWhitespace(raw, endOfLabel.value + 2);
    }
    if start < |raw| && raw[start] == '<' {
      r := AngleRange(raw, start);
    } else {
      r := BareRange(raw, start);
    }
  }

  // ----- Printing, then locating -----

  /** A destination as written: bare, or between angle brackets. */
  datatype Destination = Bare(text: string) | Angled(text: string)

  function Opening(kind: Kind, caption: string): string { (if kind == Image then "!" else "") + "[" + caption }

  function Written(d: Destination): string {
    match d case Bare(text) => text case Angled(text) => "<" + text + ">"
  }

  /** A node: its label, the destination after `gap`, and whatever follows it: a title, the closing parenthesis. */
  function Node(kind: Kind, caption: string, gap: string, d: Destination, tail: string): string {
    Opening(kind, caption) + ("]" + (if kind == Definition then ":" else "(") + (gap + (Written(d) + tail)))
  }

  function Span(kind: Kind, caption: string, gap: string, d: Destination): Located {
    var start := |Opening(kind, caption)| + 2 + |gap| + (if d.Angled? then 1 else 0);
    At(start, start + |d.text|)
  }

  /** The destination can be told from what surrounds it: only a bare one is ended by what follows, and
      it begins neither with whitespace nor with an angle bracket (section 6.3 of CommonMark 0.31.2). */
  predicate Separate(gap: string, d: Destination, tail: string) {
    && AllSpace(gap)
    && (d.Bare? ==> Ends(ROUND, tail) && !IsSpace((d.text + tail)[0]) && (d.text + tail)[0] != '<')
  }

  ghost predicate WellFormed(d: Destination) {
    match d case Bare(text) => Balanced(ROUND, text) case Angled(text) => Balanced(ANGLE, text)
  }

  /** The label ends where it was printed to end exactly when its brackets are balanced. */
  lemma LabelFound(kind: Kind, caption: string, rest: string)
    ensures LabelStop(Opening(kind, caption) + ("]" + rest)) == Some(|Opening(kind, caption)|) <==>
              Balanced(SQUARE, caption)
  {
    var raw := Opening(kind, caption) + ("]" + rest);
    var first := if kind == Image then 1 else 0;
    assert IndexOf(raw, '[', 0) == Some(first);
    assert raw[first + 1..] == caption + ("]" + rest);
    StopsExactly(SQUARE, caption, "]" + rest);
  }

  /** Once the scan stands at the destination, it returns it exactly when the destination is well formed. */
  lemma DestinationFound(before: string, d: Destination, tail: string)
    requires Separate([], d, tail)
    ensures LocateFrom(before + (Written(d) + tail), |before|) ==
            (var start := |before| + (if d.Angled? then 1 else 0); At(start, start + |d.text|))
       <==> WellFormed(d)
  {
    var raw := before + (Written(d) + tail);
    match d
    case Bare(text) =>
      assert raw[|before|..] == text + tail;
      StopsExactly(ROUND, text, tail);
    case Angled(text) =>
      assert raw[|before|] == '<';
      assert raw[|before| + 1..] == text + (">" + tail);
      StopsExactly(ANGLE, text, ">" + tail);
  }

  lemma {:induction false} SkipTo(s: string, from: nat, end: nat)
    requires from <= end <= |s| && (end < |s| ==> !IsSpace(s[end]))
    requires forall j | from <= j < end :: IsSpace(s[j])
    ensures Skip(s, from) == end
    decreases |s| - from
  {
    if from < end {
      SkipTo(s, from + 1, end);
    }
  }

  /** What stands before the destination. */
  function Before(kind: Kind, caption: string, gap: string): string {
    Opening(kind, caption) + ("]" + (if kind == Definition then ":" else "(")) + gap
  }

  lemma NodeSplits(kind: Kind, caption: string, gap: string, d: Destination, tail: string)
    ensures Node(kind, caption, gap, d, tail) == Before(kind, caption, gap) + (Written(d) + tail)
    ensures Node(kind, caption, gap, d, tail)[|Before(kind, caption, gap)|..] == Written(d) + tail
  {
    var sep := if kind == Definition then ":" else "(";
    Associate(Opening(kind, caption), "]" + sep, gap + (Written(d) + tail));
    Associate(Opening(kind, caption) + ("]" + sep), gap, Written(d) + tail);
    assert "]" + sep + (gap + (Written(d) + tail)) == "]" + (sep + (gap + (Written(d) + tail)));
  }

  /** The scan enters the destination when the label end is found where it was printed, whatever the destination. */
  lemma EntersDestination(kind: Kind, caption: string, gap: string, d: Destination, tail: string)
    requires Separate(gap, d, tail)
    ensures Skip(Node(kind, caption, gap, d, tail), |Opening(kind, caption)| + 2) == |Before(kind, caption, gap)|
  {
    var raw := Node(kind, caption, gap, d, tail);
    var begin := |Before(kind, caption, gap)|;
    NodeSplits(kind, caption, gap, d, tail);
    assert raw[begin] == (Written(d) + tail)[0];
    hide Node;
    assert forall j | |Opening(kind, caption)| + 2 <= j < begin :: raw[j] == gap[j - |Opening(kind, caption)| - 2];
    SkipTo(raw, |Opening(kind, caption)| + 2, begin);
  }

  /** A label end found anywhere else leads nowhere near the destination. */
  lemma MissesDestination(raw: string, e: nat, begin: nat, wrong: nat)
    requires e + 2 <= begin < |raw| && raw[e] == ']' && raw[e + 1] == '(' && !IsSpace(raw[begin])
    requires forall j | e + 2 <= j < begin :: IsSpace(raw[j])
    requires wrong + 1 < |raw| && wrong != e && raw[wrong] == ']' && raw[wrong + 1] == '('
    ensures Skip(raw, wrong + 2) < begin - 1 || Skip(raw, wrong + 2) > begin + 1
  {
    if wrong < e {
      assert Skip(raw, wrong + 2) <= e;
    } else {
      assert wrong >= begin;
    }
  }

  lemma FromSpan(raw: string, start: nat)
    ensures LocateFrom(raw, start).At? ==>
              LocateFrom(raw, start).start == start || LocateFrom(raw, start).start == start + 1
  {}

  /** The characters around the gap. */
  lemma AroundGap(kind: Kind, caption: string, gap: string, d: Destination, tail: string)
    requires kind != Definition && Separate(gap, d, tail)
    ensures |Before(kind, caption, gap)| == |Opening(kind, caption)| + 2 + |gap|
    ensures |Before(kind, caption, gap)| < |Node(kind, caption, gap, d, tail)|
    ensures Node(kind, caption, gap, d, tail)[|Opening(kind, caption)|] == ']'
    ensures Node(kind, caption, gap, d, tail)[|Opening(kind, caption)| + 1] == '('
    ensures forall j | |Opening(kind, caption)| + 2 <= j < |Before(kind, caption, gap)| ::
              IsSpace(Node(kind, caption, gap, d, tail)[j])
    ensures !IsSpace(Node(kind, caption, gap, d, tail)[|Before(kind, caption, gap)|])
  {
    var raw := Node(kind, caption, gap, d, tail);
    var e := |Opening(kind, caption)|;
    NodeSplits(kind, caption, gap, d, tail);
    SeparateBegins(gap, d, tail);
    assert raw[e] == ']' && raw[e + 1] == '(';
    hide Written, Node;
    assert forall j | e + 2 <= j < e + 2 + |gap| :: raw[j] == gap[j - e - 2];
    assert raw[e + 2 + |gap|] == (Written(d) + tail)[0];
  }

  lemma RightLabel(kind: Kind, caption: string, gap: string, d: Destination, tail: string)
    requires kind != Definition && Separate(gap, d, tail)
    requires LabelStop(Node(kind, caption, gap, d, tail)) == Some(|Opening(kind, caption)|)
    ensures Locate(Node(kind, caption, gap, d, tail), kind) == Span(kind, caption, gap, d) <==> WellFormed(d)
  {
    hide Written, LabelStop, LocateFrom, Skip, WellFormed, Node, Opening, Before;
    EntersDestination(kind, caption, gap, d, tail);
    NodeSplits(kind, caption, gap, d, tail);
    SeparateBegins(gap, d, tail);
    AroundGap(kind, caption, gap, d, tail);
    DestinationFound(Before(kind, caption, gap), d, tail);
  }

  lemma WrongLabel(kind: Kind, caption: string, gap: string, d: Destination, tail: string)
    requires kind != Definition && Separate(gap, d, tail)
    requires LabelStop(Node(kind, caption, gap, d, tail)) != Some(|Opening(kind, caption)|)
    ensures Locate(Node(kind, caption, gap, d, tail), kind) != Span(kind, caption, gap, d)
  {
    hide Written, LabelStop, LocateFrom, Skip, Node, Opening, Before, Separate;
    var raw := Node(kind, caption, gap, d, tail);
    if LabelStop(raw).Some? {
      var wrong := LabelStop(raw).value;
      if wrong + 1 < |raw| && raw[wrong + 1] == '(' {
        AroundGap(kind, caption, gap, d, tail);
        LabelStopCloses(raw);
        MissesDestination(raw, |Opening(kind, caption)|, |Before(kind, caption, gap)|, wrong);
        FromSpan(raw, Skip(raw, wrong + 2));
      }
    }
  }

  /** Locating what was printed in the shape of a link or an image is exact if and only if the brackets
      of the label are balanced or escaped and the destination is well formed. */
  lemma InlineExact(kind: Kind, caption: string, gap: string, d: Destination, tail: string)
    requires kind != Definition && Separate(gap, d, tail)
    ensures Locate(Node(kind, caption, gap, d, tail), kind) == Span(kind, caption, gap, d)
       <==> Balanced(SQUARE, caption) && WellFormed(d)
  {
    hide Written, LabelStop, Locate, Span, WellFormed, Balanced, Separate, Opening;
    LabelFound(kind, caption, "(" + (gap + (Written(d) + tail)));
    assert "]" + ("(" + (gap + (Written(d) + tail))) == "]" + "(" + (gap + (Written(d) + tail));
    if LabelStop(Node(kind, caption, gap, d, tail)) == Some(|Opening(kind, caption)|) {
      RightLabel(kind, caption, gap, d, tail);
    } else {
      WrongLabel(kind, caption, gap, d, tail);
    }
  }

  lemma LabelStopCloses(raw: string)
    ensures LabelStop(raw).Some? ==> raw[LabelStop(raw).value] == ']'
  {
    if LabelStop(raw).Some? {
      var first := IndexOf(raw, '[', 0).value;
      StopAt(SQUARE, raw[first + 1..], 0);
    }
  }

  lemma {:induction false} StopAt(b: Brackets, text: string, depth: nat)
    ensures Stop(b, text, depth) < |text| && !b.spaces ==> text[Stop(b, text, depth)] == b.close
    decreases |text|
  {
    if text == [] {
    } else if text[0] == '\\' {
      if |text| > 1 { StopAt(b, text[2..], depth); }
    } else if Some(text[0]) == b.open {
      StopAt(b, text[1..], depth + 1);
    } else if text[0] == b.close {
      if depth > 0 { StopAt(b, text[1..], depth - 1); }
    } else if !b.spaces {
      StopAt(b, text[1..], depth);
    }
  }

  /** The destination begins with no whitespace, and there is always something to begin with. */
  lemma SeparateBegins(gap: string, d: Destination, tail: string)
    requires Separate(gap, d, tail)
    ensures Separate([], d, tail)
    ensures Written(d) + tail != [] && !IsSpace((Written(d) + tail)[0])
  {}

  /** In a definition, the scan goes on from the colon after the label. */
  lemma PastColon(caption: string, gap: string, d: Destination, tail: string)
    requires Balanced(SQUARE, caption)
    ensures Locate(Node(Definition, caption, gap, d, tail), Definition) ==
            LocateFrom(Node(Definition, caption, gap, d, tail),
                       Skip(Node(Definition, caption, gap, d, tail), |Opening(Definition, caption)| + 2))
  {
    hide Written, LabelStop, LocateFrom, Skip, Balanced;
    var raw := Node(Definition, caption, gap, d, tail);
    var e := |Opening(Definition, caption)|;
    LabelFound(Definition, caption, ":" + (gap + (Written(d) + tail)));
    assert "]" + (":" + (gap + (Written(d) + tail))) == "]" + ":" + (gap + (Written(d) + tail));
    assert raw[e + 1] == ':';
    assert IndexOf(raw, ':', e + 1) == Some(e + 1);
  }

  /** What may stand where the source ends: a bare destination whose brackets are still open runs to the end. */
  ghost predicate WellFormedLast(d: Destination) {
    match d case Bare(text) => Completable(ROUND, text) case Angled(text) => Balanced(ANGLE, text)
  }

  /** In a definition whose label is balanced, the destination is located exactly if and only if it is
      well formed, whether a title follows it or the source ends there. */
  lemma DefinitionExact(caption: string, gap: string, d: Destination, tail: string)
    requires Balanced(SQUARE, caption) && Separate(gap, d, if tail == [] then " " else tail)
    ensures Locate(Node(Definition, caption, gap, d, tail), Definition) == Span(Definition, caption, gap, d)
       <==> if tail == [] then WellFormedLast(d) else WellFormed(d)
  {
    hide Written, LocateFrom, Locate, Skip, WellFormed, WellFormedLast, Balanced, Node, Opening;
    PastColon(caption, gap, d, tail);
    NodeSplits(Definition, caption, gap, d, tail);
    if tail != [] {
      SeparateBegins(gap, d, tail);
      EntersDestination(Definition, caption, gap, d, tail);
      DestinationFound(Before(Definition, caption, gap), d, tail);
    } else {
      EntersLast(caption, gap, d);
      DestinationLast(Before(Definition, caption, gap), d);
    }
  }

  lemma EntersLast(caption: string, gap: string, d: Destination)
    requires Separate(gap, d, " ")
    ensures Skip(Node(Definition, caption, gap, d, []), |Opening(Definition, caption)| + 2) ==
              |Before(Definition, caption, gap)|
  {
    var raw := Node(Definition, caption, gap, d, []);
    var begin := |Before(Definition, caption, gap)|;
    NodeSplits(Definition, caption, gap, d, []);
    assert raw[begin] == Written(d)[0];
    hide Node;
    assert forall j | |Opening(Definition, caption)| + 2 <= j < begin ::
        raw[j] == gap[j - |Opening(Definition, caption)| - 2];
    SkipTo(raw, |Opening(Definition, caption)| + 2, begin);
  }

  lemma DestinationLast(before: string, d: Destination)
    requires Separate([], d, " ")
    ensures LocateFrom(before + (Written(d) + []), |before|) ==
            (var start := |before| + (if d.Angled? then 1 else 0); At(start, start + |d.text|))
       <==> WellFormedLast(d)
  {
    var raw := before + (Written(d) + []);
    match d
    case Bare(text) =>
      assert raw[|before|..] == text;
      RunsOutExactly(ROUND, text);
    case Angled(text) =>
      DestinationFound(before, d, []);
  }

  /** A code span may hold a bracket that the scan takes for the label's end: the link around it, which
      section 6.3 of CommonMark 0.31.2 allows, is refused. */
  lemma CodeSpanRefused()
    ensures Locate(Node(Link, "`]`", "", Bare("x"), ")"), Link) == NoInlineDestination
    ensures !Balanced(SQUARE, "`]`")
  {
    hide Scans, Stop, Balanced, IsPrinted;
    var raw := "[`]`](x)";
    assert Node(Link, "`]`", "", Bare("x"), ")") == raw == Opening(Link, "`]`") + ("]" + "(x)");
    hide Opening, Node;
    CodeSpanStops();
    LabelFound(Link, "`]`", "(x)");
    OpeningLong();
  }

  lemma OpeningLong()
    ensures |Opening(Link, "`]`")| == 4
  {}

  /** The label's end is found inside the code span. */
  lemma CodeSpanStops()
    ensures LabelStop("[`]`](x)") == Some(2)
  {
    hide Scans, Stop;
    var raw := "[`]`](x)";
    LabelScans(raw, 0);
    var stop := 1 + Stop(SQUARE, raw[1..], 0);
    ScanStep(SQUARE, raw, 1, 0, stop);
    ScanStep(SQUARE, raw, 2, 0, stop);
  }
}
