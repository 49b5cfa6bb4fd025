/** Which source lines of a Markdown document survive its HTML comments (the second half of `htmlCommentRanges`, and
    `hasRenderedTextOutsideComments`, scripts/markdown.ts:218-248): a line touched by comments is kept
    exactly when a character no comment covers is not whitespace. */
module CommentedLines {
  import opened Numbers
  import opened Wrappers
  import opened Text
  import opened Words
  import opened Sorting

  /** A half-open range of offsets or columns. */
  datatype Range = Range(start: nat, end: nat)

  predicate Covers(r: Range, k: nat) { r.start <= k < r.end }

  predicate Covered(rs: seq<Range>, k: nat) { exists i :: 0 <= i < |rs| && Covers(rs[i], k) }

  // ----- One line -----

  /** The ranges of a line that lies at `offset` (lines 220-233): `None` when no comment touches it. */
  function LineRanges(comments: seq<Range>, offset: nat, length: nat): Option<seq<Range>> {
    if comments == [] then None
    else
      var before := LineRanges(comments[..|comments| - 1], offset, length);
      var c := comments[|comments| - 1];
      if Touches(c, offset, length)
          then Some((if before.Some? then before.value else []) + [Portion(c, offset, length)])
      else before
  }

  /** The comment covers part of the line, or all of a line that is empty. */
  predicate Touches(c: Range, offset: nat, length: nat) {
    || Max(c.start, offset) < Min(c.end, offset + length)
    || (length == 0 && c.start <= offset < c.end)
  }

  /** That is, it covers a character of the line, or the line break of an empty one. */
  lemma TouchesExactly(c: Range, offset: nat, length: nat)
    ensures Touches(c, offset, length)
       <==> if length == 0 then Covers(c, offset) else exists p :: offset <= p < offset + length && Covers(c, p)
  {
    if Touches(c, offset, length) && length > 0 { assert Covers(c, Max(c.start, offset)); }
  }

  function Portion(c: Range, offset: nat, length: nat): Range
    requires Touches(c, offset, length)
  {
    Range(Max(c.start, offset) - offset, Min(c.end, offset + length) - offset)
  }

  method RangesOf(comments: seq<Range>, offset: nat, length: nat) returns (ranges: Option<seq<Range>>)
    ensures ranges == LineRanges(comments, offset, length)
  {
    ranges := None;
    for i := 0 to |comments|
      invariant ranges == LineRanges(comments[..i], offset, length)
    {
      assert comments[..i + 1][..i] == comments[..i];
      var c := comments[i];
      if Touches(c, offset, length) {
        ranges := Some((if ranges.Some? then ranges.value else []) + [Portion(c, offset, length)]);
      }
    }
    assert comments[..|comments|] == comments;
  }

  /** On a line, the ranges cover exactly the columns whose offset a comment covers, and there are ranges
      exactly when a comment touches the line. */
  lemma {:induction false} RangesExactly(comments: seq<Range>, offset: nat, length: nat)
    ensures LineRanges(comments, offset, length).Some? <==>
              exists i :: 0 <= i < |comments| && Touches(comments[i], offset, length)
    ensures LineRanges(comments, offset, length).Some? ==>
              Matches(LineRanges(comments, offset, length).value, comments, offset, length)
    ensures LineRanges(comments, offset, length).None? ==> Matches([], comments, offset, length)
  {
    if comments != [] {
      var init, c := comments[..|comments| - 1], comments[|comments| - 1];
      RangesExactly(init, offset, length);
      assert forall i | 0 <= i < |init| :: init[i] == comments[i];
      assert comments == init + [c];
      var before := LineRanges(init, offset, length);
      var base := if before.Some? then before.value else [];
      hide Matches, LineRanges, Touches, Portion;
      if Touches(c, offset, length) {
        MatchesMore(base, init, c, offset, length);
      } else {
        MatchesSame(base, init, c, offset, length);
      }
      assert LineRanges(comments, offset, length) ==
          (if Touches(c, offset, length) then Some(base + [Portion(c, offset, length)]) else before) by {
        LineRangesStep(comments, offset, length);
      }
    } else {
      assert forall p :: !Covered(comments, p);
    }
  }

  lemma LineRangesStep(comments: seq<Range>, offset: nat, length: nat)
    requires comments != []
    ensures var before := LineRanges(comments[..|comments| - 1], offset, length);
            var c := comments[|comments| - 1];
            LineRanges(comments, offset, length) ==
              if Touches(c, offset, length)
                  then Some((if before.Some? then before.value else []) + [Portion(c, offset, length)]) else before
  {}

  /** The ranges lie on the line and cover its columns as the comments cover the source. */
  ghost predicate Matches(ranges: seq<Range>, comments: seq<Range>, offset: nat, length: nat) {
    && (forall i | 0 <= i < |ranges| :: ranges[i].start <= ranges[i].end <= length)
    && (forall p {:trigger Covered(comments, p)} | offset <= p < offset + length :: Covered(ranges, p - offset) <==>
        Covered(comments, p))
  }

  lemma MatchesMore(base: seq<Range>, init: seq<Range>, c: Range, offset: nat, length: nat)
    requires Matches(base, init, offset, length) && Touches(c, offset, length)
    ensures Matches(base + [Portion(c, offset, length)], init + [c], offset, length)
  {
    hide Covered;
    forall p | offset <= p < offset + length
      ensures Covered(base + [Portion(c, offset, length)], p - offset) <==> Covered(init + [c], p)
    {
      CoveredPush(base, Portion(c, offset, length), p - offset);
      CoveredPush(init, c, p);
      assert Covered(base, p - offset) <==> Covered(init, p);
    }
  }

  lemma MatchesSame(base: seq<Range>, init: seq<Range>, c: Range, offset: nat, length: nat)
    requires Matches(base, init, offset, length) && !Touches(c, offset, length)
    ensures Matches(base, init + [c], offset, length)
  {
    hide Covered;
    forall p | offset <= p < offset + length ensures Covered(base, p - offset) <==> Covered(init + [c], p) {
      CoveredPush(init, c, p);
      assert Covered(base, p - offset) <==> Covered(init, p);
    }
  }

  lemma CoveredPush(rs: seq<Range>, r: Range, k: nat)
    ensures Covered(rs + [r], k) <==> Covered(rs, k) || Covers(r, k)
  {
    var all := rs + [r];
    if Covered(rs, k) {
      var i :| 0 <= i < |rs| && Covers(rs[i], k);
      assert all[i] == rs[i];
    }
    if Covers(r, k) { assert all[|rs|] == r; }
    if Covered(all, k) {
      var i :| 0 <= i < |all| && Covers(all[i], k);
      assert i < |rs| ==> all[i] == rs[i];
    }
  }

  // ----- What remains visible -----

  function ByStart(): (Range, Range) -> int { (a: Range, b: Range) => a.start - b.start }

  /** The first `n` characters of the line without those a range covers. */
  function Visible(raw: string, ranges: seq<Range>, n: nat): string
    requires n <= |raw|
  {
    if n == 0 then [] else Visible(raw, ranges, n - 1) + if Covered(ranges, n - 1) then [] else [raw[n - 1]]
  }

  /** `raw.slice(from, end)`. */
  function Slice(raw: string, from: nat, end: nat): string {
    if from < Min(end, |raw|) then raw[from..Min(end, |raw|)] else []
  }

  lemma {:induction false} AllVisible(raw: string, ranges: seq<Range>, m: nat, n: nat)
    requires m <= n <= |raw| && forall k | m <= k < n :: !Covered(ranges, k)
    ensures Visible(raw, ranges, n) == Visible(raw, ranges, m) + raw[m..n]
  {
    if m < n {
      AllVisible(raw, ranges, m, n - 1);
      assert raw[m..n] == raw[m..n - 1] + [raw[n - 1]];
    }
  }

  lemma {:induction false} AllHidden(raw: string, ranges: seq<Range>, m: nat, n: nat)
    requires m <= n <= |raw| && forall k | m <= k < n :: Covered(ranges, k)
    ensures Visible(raw, ranges, n) == Visible(raw, ranges, m)
  {
    if m < n { AllHidden(raw, ranges, m, n - 1); }
  }

  /** Ranges that start in order, all lying on the line. */
  ghost predicate Ordered(ranges: seq<Range>, length: nat) {
    && (forall i | 0 <= i < |ranges| :: ranges[i].start <= ranges[i].end <= length)
    && forall i, j | 0 <= i < j < |ranges| :: ranges[i].start <= ranges[j].start
  }

  /** Past the cursor nothing is covered before the next range, and then the range is. */
  lemma Advances(raw: string, ranges: seq<Range>, i: nat, cursor: nat)
    requires Ordered(ranges, |raw|) && i < |ranges| && cursor <= |raw|
    requires forall j | 0 <= j < i :: ranges[j].end <= cursor
    ensures Visible(raw, ranges, Max(cursor, ranges[i].end)) ==
              Visible(raw, ranges, cursor) + Slice(raw, cursor, ranges[i].start)
  {
    var r := ranges[i];
    var middle := Max(cursor, r.start);
    forall k | cursor <= k < middle ensures !Covered(ranges, k) {
      forall j | 0 <= j < |ranges| ensures !Covers(ranges[j], k) { }
    }
    AllVisible(raw, ranges, cursor, middle);
    forall k | middle <= k < Max(cursor, r.end) ensures Covered(ranges, k) { assert Covers(ranges[i], k); }
    AllHidden(raw, ranges, Min(middle, Max(cursor, r.end)), Max(cursor, r.end));
  }

  method VisibleText(raw: string, sorted: seq<Range>) returns (visible: string)
    requires Ordered(sorted, |raw|)
    ensures visible == Visible(raw, sorted, |raw|)
  {
    hide Ordered, Covered, Visible;
    var cursor: nat := 0;
    visible := "";
    Nothing(raw, sorted);
    for i := 0 to |sorted|
      invariant cursor <= |raw| && visible == Visible(raw, sorted, cursor)
      invariant forall j | 0 <= j < i :: sorted[j].end <= cursor
    {
      Advances(raw, sorted, i, cursor);
      OnLine(raw, sorted, i);
      visible := visible + Slice(raw, cursor, sorted[i].start);
      cursor := Max(cursor, sorted[i].end);
    }
    BeyondAll(raw, sorted, cursor);
    AllVisible(raw, sorted, cursor, |raw|);
    visible := visible + raw[cursor..];
  }

  lemma Nothing(raw: string, ranges: seq<Range>)
    ensures Visible(raw, ranges, 0) == ""
  {}

  lemma OnLine(raw: string, ranges: seq<Range>, i: nat)
    requires Ordered(ranges, |raw|) && i < |ranges|
    ensures ranges[i].end <= |raw|
  {}

  lemma BeyondAll(raw: string, ranges: seq<Range>, cursor: nat)
    requires forall j | 0 <= j < |ranges| :: ranges[j].end <= cursor
    ensures forall k | cursor <= k < |raw| :: !Covered(ranges, k)
  {}

  /** Column `k` shows the reader something. */
  predicate Speaks(raw: string, ranges: seq<Range>, k: nat) {
    k < |raw| && !Covered(ranges, k) && !IsSpace(raw[k])
  }

  lemma {:induction false} VisibleSpeaks(raw: string, ranges: seq<Range>, n: nat)
    requires n <= |raw|
    ensures AllSpace(Visible(raw, ranges, n)) <==> forall k | 0 <= k < n :: !Speaks(raw, ranges, k)
  {
    hide Covered, AllSpace;
    if n == 0 {
      SpaceOne('x');
    } else {
      VisibleSpeaks(raw, ranges, n - 1);
      SpaceConcat(Visible(raw, ranges, n - 1), if Covered(ranges, n - 1) then [] else [raw[n - 1]]);
      SpaceOne(raw[n - 1]);
      assert Speaks(raw, ranges, n - 1) <==> !Covered(ranges, n - 1) && !IsSpace(raw[n - 1]);
    }
  }

  lemma SpaceOne(c: char)
    ensures AllSpace([]) && (AllSpace([c]) <==> IsSpace(c))
  {
    assert [c][0] == c;
  }

  lemma SpaceConcat(s: string, t: string)
    ensures AllSpace(s + t) <==> AllSpace(s) && AllSpace(t)
  {
    if AllSpace(s + t) {
      assert forall i | 0 <= i < |s| :: s[i] == (s + t)[i];
      assert forall i | 0 <= i < |t| :: t[i] == (s + t)[|s| + i];
    }
  }

  lemma TrimSpeaks(s: string)
    ensures Trim(s) != [] <==> !AllSpace(s)
  {
    var n := Run(s, true);
    var t := s[n..];
    if n < |s| { assert t[0] == s[n] && !IsSpace(t[0]); }
  }

  lemma SortOrders(ranges: seq<Range>, length: nat)
    requires forall i | 0 <= i < |ranges| :: ranges[i].start <= ranges[i].end <= length
    ensures Ordered(SortBy(ranges, ByStart()), length)
    ensures forall k: nat :: Covered(SortBy(ranges, ByStart()), k) <==> Covered(ranges, k)
  {
    hide SortBy, Covered, Consistent;
    var sorted := SortBy(ranges, ByStart());
    ByStartConsistent();
    SortSorted(ranges, ByStart());
    forall r ensures r in sorted <==> r in ranges { SortMember(ranges, ByStart(), r); }
    Placed(ranges, sorted, length);
    forall k: nat ensures Covered(sorted, k) <==> Covered(ranges, k) {
      SameCover(sorted, ranges, k);
      SameCover(ranges, sorted, k);
    }
  }

  lemma ByStartConsistent()
    ensures Consistent(ByStart())
  {}

  lemma Placed(ranges: seq<Range>, sorted: seq<Range>, length: nat)
    requires forall i | 0 <= i < |ranges| :: ranges[i].start <= ranges[i].end <= length
    requires (forall r | r in sorted :: r in ranges) && Sorted(sorted, ByStart())
    ensures Ordered(sorted, length)
  {
    forall i | 0 <= i < |sorted| ensures sorted[i].start <= sorted[i].end <= length {
      assert sorted[i] in ranges;
      var j :| 0 <= j < |ranges| && ranges[j] == sorted[i];
    }
    forall i, j | 0 <= i < j < |sorted| ensures sorted[i].start <= sorted[j].start {
      assert ByStart()(sorted[i], sorted[j]) <= 0;
    }
  }

  lemma SameCover(a: seq<Range>, b: seq<Range>, k: nat)
    requires forall r | r in a :: r in b
    ensures Covered(a, k) ==> Covered(b, k)
  {
    if Covered(a, k) {
      var i :| 0 <= i < |a| && Covers(a[i], k);
      assert a[i] in b;
      var j :| 0 <= j < |b| && b[j] == a[i];
    }
  }

  method HasRenderedTextOutsideComments(raw: string, ranges: Option<seq<Range>>) returns (kept: bool)
    requires ranges.Some? ==> forall i | 0 <= i < |ranges.value| ::
              ranges.value[i].start <= ranges.value[i].end <= |raw|
    ensures kept <==> ranges.None? || exists k :: Speaks(raw, ranges.value, k)
  {
    hide Covered, Ordered, SortBy, Visible, Trim;
    if ranges.None? { return true; }
    var sorted := SortBy(ranges.value, ByStart());
    SortOrders(ranges.value, |raw|);
    var visible := VisibleText(raw, sorted);
    TrimSpeaks(visible);
    VisibleSpeaks(raw, sorted, |raw|);
    assert forall k: nat :: Speaks(raw, sorted, k) <==> Speaks(raw, ranges.value, k);
    return Trim(visible) != [];
  }

  /** A line is kept exactly when no comment touches it, or some character on it that no comment of the
      source covers is not whitespace. */
  lemma KeepsLine(raw: string, comments: seq<Range>, offset: nat)
    ensures var ranges := LineRanges(comments, offset, |raw|);
            && (ranges.Some? ==> forall i | 0 <= i < |ranges.value| ::
                ranges.value[i].start <= ranges.value[i].end <= |raw|)
            && (ranges.None? || (exists k :: Speaks(raw, ranges.value, k))
                <==> (forall i | 0 <= i < |comments| :: !Touches(comments[i], offset, |raw|))
                     || exists k :: 0 <= k < |raw| && !Covered(comments, offset + k) && !IsSpace(raw[k]))
  {
    hide Covered, Touches, LineRanges;
    var ranges := LineRanges(comments, offset, |raw|);
    RangesExactly(comments, offset, |raw|);
    if ranges.Some? {
      if k :| Speaks(raw, ranges.value, k) {
        assert !Covered(comments, offset + k);
      }
      if k :| 0 <= k < |raw| && !Covered(comments, offset + k) && !IsSpace(raw[k]) {
        assert Covered(ranges.value, offset + k - offset) <==> Covered(comments, offset + k);
        assert Speaks(raw, ranges.value, k);
      }
    }
  }
}
