/** Where the lines of a comment's prose stand in its description (scripts/jsdoc.ts:24-32 and 66-79): every list
    item and every paragraph is a line of its own, in order. */
module JsDocRows {
  import opened Sequences
  import opened Wrappers
  import opened Text
  import opened Words
  import opened Links
  import opened JsDoc
  import opened JsDocGuarantees

  /** A line that opens a list item. */
  predicate Hyphen(line: string) { |line| >= 2 && line[0] == '-' && IsSpace(line[1]) }

  lemma HyphensOpen(line: string)
    ensures Bullet(line) <==> Hyphen(line)
    ensures Hyphen(line) ==> !AllSpace(line)
  {
    if Hyphen(line) { assert !IsSpace(line[0]); }
  }

  /** How many lines the first one, which is not blank, makes one row with: those up to a blank line or one
      that opens an item. */
  function RowEnd(lines: seq<string>): (k: nat)
    requires lines != []
    ensures 0 < k <= |lines|
    ensures forall i | 0 < i < k :: !AllSpace(lines[i]) && !Hyphen(lines[i])
    ensures k < |lines| ==> AllSpace(lines[k]) || Hyphen(lines[k])
  {
    if |lines| == 1 || AllSpace(lines[1]) || Hyphen(lines[1]) then 1 else 1 + RowEnd(lines[1..])
  }

  /** The rows one below the other, with a blank line between two unless both open items of one list. */
  function LaidOut(lines: seq<string>): string
    decreases |lines|
  {
    if lines == [] then ""
    else if AllSpace(lines[0]) then LaidOut(lines[1..])
    else
      var k := RowEnd(lines);
      var row, more := Glue(AllWords(lines[..k]), " "), LaidOut(lines[k..]);
      if more == "" then row
      else row + (if Hyphen(lines[0]) && Hyphen(lines[k]) then "\n" else "\n\n") + more
  }

  // ----- The description is laid out so -----

  /** What a row and the lines after it look like. */
  lemma RowShape(lines: seq<string>)
    requires lines != [] && !AllSpace(lines[0])
    ensures var k := RowEnd(lines); var row, rest := lines[..k], lines[k..];
            && row + rest == lines && row != [] && (Bullet(row[0]) <==> Hyphen(lines[0]))
            && (NoneOf(Blank, row[1..]) && NoneOf(Bullet, row[1..]))
            && (rest != [] && !Bullet(rest[0]) ==> Blank(rest[0]))
            && (rest != [] ==> rest[0] == lines[k] && (Bullet(rest[0]) <==> Hyphen(rest[0])))
  {
    hide Bullet, Hyphen, AllSpace, RowEnd, NoneOf;
    var k := RowEnd(lines);
    HyphensOpen(lines[0]);
    if k < |lines| { HyphensOpen(lines[k]); }
    NoneInside(lines, k);
  }

  lemma NoneInside(lines: seq<string>, k: nat)
    requires 0 < k <= |lines| && forall i | 0 < i < k :: !AllSpace(lines[i]) && !Hyphen(lines[i])
    ensures NoneOf(Blank, lines[..k][1..]) && NoneOf(Bullet, lines[..k][1..])
  {
    hide Bullet, Hyphen, AllSpace;
    forall i | 0 <= i < k - 1 ensures !Blank(lines[..k][1..][i]) && !Bullet(lines[..k][1..][i]) {
      assert lines[..k][1..][i] == lines[i + 1];
      HyphensOpen(lines[i + 1]);
    }
  }

  lemma NoneFrom(p: string -> bool, row: seq<string>)
    requires row != [] && !p(row[0]) && NoneOf(p, row[1..])
    ensures NoneOf(p, row)
  {
    forall i | 0 <= i < |row| ensures !p(row[i]) {
      if i > 0 { assert row[i] == row[1..][i - 1]; }
    }
  }

  /** A row that opens no item is a block of its own. */
  lemma ParaRow(lines: seq<string>)
    requires lines != [] && !AllSpace(lines[0]) && !Hyphen(lines[0])
    ensures var k := RowEnd(lines); Layout(lines) == [Join(lines[..k])] + Layout(lines[k..])
  {
    hide *;
    var k := RowEnd(lines);
    var row, rest := lines[..k], lines[k..];
    RowShape(lines);
    SameBlank(row[0]);
    NoneFrom(Blank, row);
    NoneFrom(Bullet, row);
    if rest != [] && Bullet(rest[0]) { ParaBefore(row, rest); } else { ParaAlone(row, rest); }
  }

  lemma ParaBefore(row: seq<string>, tail: seq<string>)
    requires row != [] && NoneOf(Blank, row) && NoneOf(Bullet, row) && tail != [] && Bullet(tail[0])
    ensures Layout(row + tail) == [Join(row)] + Layout(tail)
  {
    hide *;
    assert [tail[0]] + tail[1..] == tail;
    ParaThen(row, tail[0], tail[1..]);
    ListBlock(tail[0], tail[1..]);
  }

  lemma Nothing<T>(s: seq<T>)
    ensures [] + s == s
  {}

  /** A row that opens an item heads the block of its list. */
  lemma ItemRow(lines: seq<string>)
    requires lines != [] && Hyphen(lines[0])
    ensures var k := RowEnd(lines); var more := Layout(lines[k..]);
            if k < |lines| && Hyphen(lines[k])
            then more != [] && Layout(lines) == [Join(lines[..k]) + "\n" + more[0]] + more[1..]
            else Layout(lines) == [Join(lines[..k])] + more
  {
    HyphensOpen(lines[0]);
    hide *;
    var k := RowEnd(lines);
    var row, rest := lines[..k], lines[k..];
    RowShape(lines);
    if rest != [] && Bullet(rest[0]) { OneOfMany(row, rest); } else { LastOfList(row, rest); }
  }

  lemma SameBlank(line: string)
    ensures Blank(line) <==> AllSpace(line)
  {}

  lemma Moves(a: seq<string>, b: seq<string>, m: nat)
    requires m <= |b|
    ensures (a + b)[..|a| + m] == a + b[..m] && (a + b)[|a| + m..] == b[m..]
  {}

  lemma LastOfList(row: seq<string>, rest: seq<string>)
    requires row != [] && Bullet(row[0]) && NoneOf(Blank, row[1..]) && NoneOf(Bullet, row[1..])
    requires rest != [] ==> Blank(rest[0])
    ensures Layout(row + rest) == [Join(row)] + Layout(rest)
  {
    hide *;
    NextAfter(Blank, row[1..], rest);
    BlankNext(rest);
    Moves(row[1..], rest, 0);
    assert row + rest == [row[0]] + (row[1..] + rest);
    ListBlock(row[0], row[1..] + rest);
    assert [row[0]] + (row[1..] + rest[..0]) == row && rest[0..] == rest;
    ItemAlone(row);
    GlueSingle(Join(row));
  }

  lemma BlankNext(rest: seq<string>)
    requires rest != [] ==> Blank(rest[0])
    ensures Next(Blank, rest) == 0
  {}

  lemma OneOfMany(row: seq<string>, tail: seq<string>)
    requires row != [] && Bullet(row[0]) && NoneOf(Blank, row[1..]) && NoneOf(Bullet, row[1..])
    requires tail != [] && Bullet(tail[0])
    ensures var more := Layout(tail); more != [] && Layout(row + tail) == [Join(row) + "\n" + more[0]] + more[1..]
  {
    hide *;
    var a, b := row[1..] + [tail[0]], tail[1..];
    BulletSpeaks(tail[0]);
    NoneAlso(row[1..], tail[0]);
    NextAfter(Blank, a, b);
    var m := Next(Blank, b);
    var items := [tail[0]] + b[..m];
    Rejoins(row, tail, m);
    ListBlock(row[0], a + b);
    ListBlock(tail[0], b);
    ItemThen(row, items);
    SomeItem(items);
    GlueItems(Join(row), Items(items));
    HeadAndTail(Glue(Items(items), "\n"), Layout(b[m..]));
  }

  lemma Rejoins(row: seq<string>, tail: seq<string>, m: nat)
    requires row != [] && tail != [] && m < |tail|
    ensures var a, b := row[1..] + [tail[0]], tail[1..];
            && row + tail == [row[0]] + (a + b) && [tail[0]] + b == tail && (a + b)[|a| + m..] == b[m..]
            && [row[0]] + (a + b)[..|a| + m] == row + ([tail[0]] + b[..m])
  {
    var a, b := row[1..] + [tail[0]], tail[1..];
    Moves(a, b, m);
  }

  lemma HeadAndTail<T>(x: T, xs: seq<T>)
    ensures ([x] + xs)[0] == x && ([x] + xs)[1..] == xs
  {}

  lemma NoneAlso(lines: seq<string>, line: string)
    requires NoneOf(Blank, lines) && !Blank(line)
    ensures NoneOf(Blank, lines + [line])
  {}

  lemma SomeItem(lines: seq<string>)
    requires lines != []
    ensures Items(lines) != []
  {}

  lemma ListBlock(line: string, rest: seq<string>)
    requires Bullet(line)
    ensures Layout([line] + rest) ==
              [Glue(Items([line] + rest[..Next(Blank, rest)]), "\n")] + Layout(rest[Next(Blank, rest)..])
  {
    hide Layout, Bullet, Glue, Items, Next, Join;
    ParaThen([], line, rest);
    Nothing([line] + rest);
    Nothing([Glue(Items([line] + rest[..Next(Blank, rest)]), "\n")] + Layout(rest[Next(Blank, rest)..]));
  }

  lemma GlueSingle(line: string)
    ensures Glue([line], "\n") == line
  {}

  lemma GlueItems(first: string, items: seq<string>)
    requires items != []
    ensures Glue([first] + items, "\n") == first + "\n" + Glue(items, "\n")
  {
    assert ([first] + items)[1..] == items;
  }

  /** Nothing is laid out exactly when there is nothing but blank lines. */
  lemma {:induction false} BlankLayout(lines: seq<string>)
    ensures LaidOut(lines) == "" <==> forall i | 0 <= i < |lines| :: AllSpace(lines[i])
    ensures Layout(lines) == [] <==> forall i | 0 <= i < |lines| :: AllSpace(lines[i])
    decreases |lines|
  {
    hide Glue, AllWords, Chunk, Join, Hyphen, Bullet;
    if lines != [] {
      if AllSpace(lines[0]) {
        BlankLayout(lines[1..]);
        forall i | 0 < i < |lines| ensures lines[i] == lines[1..][i - 1] { }
        forall i | 0 <= i < |lines| - 1 ensures lines[i + 1] == lines[1..][i] { }
      } else {
        RowSpeaks(lines);
        if Hyphen(lines[0]) { ItemRow(lines); } else { ParaRow(lines); }
      }
    }
  }

  lemma WordsInRow(lines: seq<string>)
    requires lines != [] && !AllSpace(lines[0])
    ensures AllWords(lines) != [] && AllWords(lines)[0] != []
  {
    SpeaksSomewhere(lines[0]);
    AreWords(lines[0]);
    assert AllWords(lines)[0] == WordsOf(lines[0])[0];
    assert WordsOf(lines[0])[0] in WordsOf(lines[0]);
  }

  lemma {:induction false} SpeaksSomewhere(line: string)
    requires !AllSpace(line)
    ensures WordsOf(line) != []
  {
    if IsSpace(line[0]) {
      assert forall i | 0 < i < |line| :: line[i] == line[1..][i - 1];
      SpeaksSomewhere(line[1..]);
    }
  }

  lemma RowSpeaks(lines: seq<string>)
    requires lines != [] && !AllSpace(lines[0])
    ensures Glue(AllWords(lines[..RowEnd(lines)]), " ") != ""
  {
    WordsInRow(lines[..RowEnd(lines)]);
    hide AllWords;
  }

  lemma GlueBlocks(block: string, more: seq<string>)
    ensures Glue([block] + more, "\n\n") == if more == [] then block else block + "\n\n" + Glue(more, "\n\n")
  {
    assert ([block] + more)[1..] == more;
  }

  lemma GlueOnto(row: string, more: seq<string>)
    requires more != []
    ensures Glue([row + "\n" + more[0]] + more[1..], "\n\n") == row + "\n" + Glue(more, "\n\n")
  {
    GlueBlocks(row + "\n" + more[0], more[1..]);
    assert more == [more[0]] + more[1..];
    GlueBlocks(more[0], more[1..]);
    hide Glue;
    if more[1..] != [] {
      Associate(row + "\n", more[0], "\n\n" + Glue(more[1..], "\n\n"));
      Associate(row + "\n" + more[0], "\n\n", Glue(more[1..], "\n\n"));
      Associate(more[0], "\n\n", Glue(more[1..], "\n\n"));
    }
  }

  /** The blocks of the description, one blank line between two, are the rows laid out. */
  lemma {:induction false} LayoutIsRows(lines: seq<string>)
    ensures Glue(Layout(lines), "\n\n") == LaidOut(lines)
    decreases |lines|
  {
    hide Glue, AllWords, Chunk, Join, Hyphen, Bullet;
    if lines == [] {
      GlueNothing();
    } else if AllSpace(lines[0]) {
      LayoutIsRows(lines[1..]);
    } else {
      var k := RowEnd(lines);
      JoinIsOneLine(lines[..k]);
      BlankLayout(lines[k..]);
      LayoutIsRows(lines[k..]);
      RowThen(lines);
    }
  }

  lemma GlueNothing()
    ensures Glue([], "\n\n") == ""
  {}

  lemma RowThen(lines: seq<string>)
    requires lines != [] && !AllSpace(lines[0])
    ensures var k := RowEnd(lines); var more := Layout(lines[k..]);
            Glue(Layout(lines), "\n\n") ==
              if more == [] then Join(lines[..k])
              else
                var gap := if Hyphen(lines[0]) && Hyphen(lines[k]) then "\n" else "\n\n";
                Join(lines[..k]) + gap + Glue(more, "\n\n")
  {
    hide Layout, Glue, Join, Hyphen;
    var k := RowEnd(lines);
    var more := Layout(lines[k..]);
    NoLayout();
    assert k == |lines| ==> lines[k..] == [];
    GlueBlocks(Join(lines[..k]), more);
    if Hyphen(lines[0]) {
      ItemRow(lines);
      if k < |lines| && Hyphen(lines[k]) { GlueOnto(Join(lines[..k]), more); }
    } else {
      ParaRow(lines);
    }
  }

  lemma NoLayout()
    ensures Layout([]) == []
  {}

  // ----- Where each row stands -----

  /** Lines `p` to `q` are an item with the lines that continue it, or a paragraph. */
  predicate IsRow(lines: seq<string>, p: nat, q: nat) {
    && p < q <= |lines| && !AllSpace(lines[p]) && (Hyphen(lines[p]) || p == 0 || AllSpace(lines[p - 1]))
    && (forall i | p < i < q :: !AllSpace(lines[i]) && !Hyphen(lines[i]))
    && (q < |lines| ==> AllSpace(lines[q]) || Hyphen(lines[q]))
  }

  /** Line `p` opens an item, and since the last blank line an earlier one does. */
  predicate SameList(lines: seq<string>, p: nat)
    requires p < |lines|
  {
    Hyphen(lines[p]) && exists j :: 0 <= j < p && Hyphen(lines[j]) && forall i | j < i < p :: !AllSpace(lines[i])
  }

  predicate Speaks(s: string) { s != "" && !IsSpace(s[|s| - 1]) }

  /** A row stands on a line of its own: what is above ends one line before it in its list, and else there is a
      blank line between. */
  ghost predicate Stands(lines: seq<string>, p: nat, q: nat, above: string, below: string)
    requires IsRow(lines, p, q)
  {
    && LaidOut(lines) ==
         above + (if above == "" then "" else if SameList(lines, p) then "\n" else "\n\n")
         + Glue(AllWords(lines[p..q]), " ") + below
    && WordsOf(above) == AllWords(lines[..p]) && (above != "" ==> Speaks(above))
    && WordsOf(below) == AllWords(lines[q..]) && (below != "" ==> below[0] == '\n')
  }

  lemma {:induction false} WordsEnd(ws: seq<string>)
    requires ws != [] && forall w | w in ws :: IsWord(w)
    ensures Speaks(Glue(ws, " "))
  {
    assert IsWord(ws[0]);
    if |ws| > 1 { WordsEnd(ws[1..]); }
  }

  lemma {:induction false} AllAreWords(lines: seq<string>)
    ensures forall w | w in AllWords(lines) :: IsWord(w)
  {
    if lines != [] {
      AreWords(lines[0]);
      AllAreWords(lines[1..]);
    }
  }

  /** The first row, its words, and what follows it. */
  lemma FirstRow(lines: seq<string>) returns (row: string, gap: string, more: string)
    requires lines != [] && !AllSpace(lines[0])
    ensures var k := RowEnd(lines);
            && row == Glue(AllWords(lines[..k]), " ") && more == LaidOut(lines[k..]) &&
                LaidOut(lines) == row + gap + more
            && Speaks(row) && WordsOf(row) == AllWords(lines[..k]) && AllSpace(gap)
            && (if more == "" then gap == "" else gap == if Hyphen(lines[0]) && Hyphen(lines[k]) then "\n" else "\n\n")
            && (more != "" ==> k < |lines|)
  {
    hide *;
    var k := RowEnd(lines);
    LaidStep(lines);
    row, more := Glue(AllWords(lines[..k]), " "), LaidOut(lines[k..]);
    gap := if more == "" then "" else if Hyphen(lines[0]) && Hyphen(lines[k]) then "\n" else "\n\n";
    AllSpaces();
    WordsInRow(lines[..k]);
    AllAreWords(lines[..k]);
    WordsEnd(AllWords(lines[..k]));
    JoinIsOneLine(lines[..k]);
    if more == "" { assert row + gap + more == row; }
  }

  lemma AllSpaces()
    ensures AllSpace("") && AllSpace("\n") && AllSpace("\n\n")
  {}

  lemma LaidStep(lines: seq<string>)
    requires lines != [] && !AllSpace(lines[0])
    ensures var k := RowEnd(lines); var row, more := Glue(AllWords(lines[..k]), " "), LaidOut(lines[k..]);
            && (more != "" ==> k < |lines|)
            && LaidOut(lines) ==
                 if more == "" then row
                     else row + (if Hyphen(lines[0]) && Hyphen(lines[k]) then "\n" else "\n\n") + more
  {
    hide AllWords, Glue, Hyphen;
  }

  lemma WordsAcross(row: string, gap: string, more: string)
    requires AllSpace(gap) && (gap == "" ==> more == "")
    ensures WordsOf(row + gap + more) == WordsOf(row) + WordsOf(more)
  {
    if gap != "" { Separated(row, gap, more); } else { assert row + gap + more == row; }
  }

  lemma {:induction false} LaidWords(lines: seq<string>)
    ensures WordsOf(LaidOut(lines)) == AllWords(lines)
  {
    LayoutIsRows(lines);
    LayoutKeepsWords(lines);
    GlueKeepsWords(Layout(lines), "\n\n");
  }

  /** Rows do not overlap. */
  lemma RowsApart(lines: seq<string>, p: nat, q: nat)
    requires IsRow(lines, p, q) && !AllSpace(lines[0])
    ensures p == 0 ==> q == RowEnd(lines)
    ensures p > 0 ==> p >= RowEnd(lines)
  {
    hide Hyphen, AllSpace;
    var k := RowEnd(lines);
    if p > 0 {
      var before, here := lines[p - 1], lines[p];
    } else {
      if q < |lines| { var after := lines[q]; }
      if k < |lines| { var next := lines[k]; }
    }
  }

  lemma RowShifts(lines: seq<string>, p: nat, q: nat, d: nat)
    requires IsRow(lines, p, q) && d <= p
    ensures IsRow(lines[d..], p - d, q - d)
  {
    hide Hyphen, AllSpace;
    var t := lines[d..];
    assert t[p - d] == lines[p];
    if p > d { assert t[p - d - 1] == lines[p - 1]; }
    if q < |lines| { assert t[q - d] == lines[q]; }
    forall i | p - d < i < q - d ensures !AllSpace(t[i]) && !Hyphen(t[i]) { assert t[i] == lines[i + d]; }
  }

  lemma ListShifts(lines: seq<string>, p: nat, d: nat)
    requires d < p < |lines| && SameList(lines[d..], p - d)
    ensures SameList(lines, p)
  {
    hide Hyphen, AllSpace;
    var t := lines[d..];
    var j :| 0 <= j < p - d && Hyphen(t[j]) && forall i | j < i < p - d :: !AllSpace(t[i]);
    assert Hyphen(lines[j + d]) && t[p - d] == lines[p];
    forall i | j + d < i < p ensures !AllSpace(lines[i]) { assert t[i - d] == lines[i]; }
  }

  /** What opens the list of a row further down is still there when a first row or a blank line goes. */
  lemma ListStays(lines: seq<string>, p: nat, d: nat)
    requires d < p < |lines| && SameList(lines, p)
    requires if AllSpace(lines[0]) then d == 1 else d == RowEnd(lines)
    ensures SameList(lines[d..], p - d)
  {
    HyphensOpen(lines[0]);
    hide Hyphen, AllSpace;
    var t := lines[d..];
    var j :| 0 <= j < p && Hyphen(lines[j]) && forall i | j < i < p :: !AllSpace(lines[i]);
    assert t[p - d] == lines[p];
    if j < d {
      assert j == 0;
      assert !AllSpace(lines[d]);
      assert Hyphen(t[0]);
      forall i | 0 < i < p - d ensures !AllSpace(t[i]) { assert t[i] == lines[i + d]; }
    } else {
      assert Hyphen(t[j - d]);
      forall i | j - d < i < p - d ensures !AllSpace(t[i]) { assert t[i] == lines[i + d]; }
    }
  }

  /** The row right after the first one is of its list when both open an item. */
  lemma NextInList(lines: seq<string>)
    requires lines != [] && !AllSpace(lines[0]) && RowEnd(lines) < |lines|
    ensures SameList(lines, RowEnd(lines)) <==> Hyphen(lines[0]) && Hyphen(lines[RowEnd(lines)])
  {
    hide Hyphen, AllSpace;
    var k := RowEnd(lines);
    if SameList(lines, k) {
      var j :| 0 <= j < k && Hyphen(lines[j]) && forall i | j < i < k :: !AllSpace(lines[i]);
      assert j == 0;
    }
  }

  /** With nothing but blank lines between, a row is not of the list of the one before. */
  lemma BlankApart(lines: seq<string>, p: nat, k: nat)
    requires k < p < |lines| && AllSpace(lines[p - 1])
    ensures !SameList(lines, p)
  {
    if SameList(lines, p) {
      var j :| 0 <= j < p && Hyphen(lines[j]) && forall i | j < i < p :: !AllSpace(lines[i]);
      HyphensOpen(lines[p - 1]);
      assert false;
    }
  }

  lemma WordsSplit(lines: seq<string>, d: nat, p: nat)
    requires d <= p <= |lines|
    ensures AllWords(lines[..p]) == AllWords(lines[..d]) + AllWords(lines[d..][..p - d])
  {
    AllWordsConcat(lines[..d], lines[d..][..p - d]);
    assert lines[..p] == lines[..d] + lines[d..][..p - d];
  }

  lemma BlankWordless(lines: seq<string>)
    requires forall i | 0 <= i < |lines| :: AllSpace(lines[i])
    ensures AllWords(lines) == []
  {
    if lines != [] {
      BlankHasNoWords(lines[0]);
      BlankWordless(lines[1..]);
    }
  }

  lemma AboveBlank(above: string, lines: seq<string>)
    requires WordsOf(above) == AllWords(lines) && (above != "" ==> Speaks(above))
    ensures above == "" <==> AllWords(lines) == []
  {
    if above != "" {
      assert !AllSpace(above);
      SpeaksSomewhere(above);
    }
  }

  lemma {:induction false} WordlessBlank(lines: seq<string>)
    requires AllWords(lines) == []
    ensures forall i | 0 <= i < |lines| :: AllSpace(lines[i])
  {
    if lines != [] {
      if !AllSpace(lines[0]) { SpeaksSomewhere(lines[0]); }
      WordlessBlank(lines[1..]);
      assert forall i | 0 < i < |lines| :: lines[i] == lines[1..][i - 1];
    }
  }

  lemma NoWordsAbove()
    ensures WordsOf("") == [] && AllWords([]) == []
  {}

  lemma AfterBlank(lines: seq<string>, p: nat, q: nat, above: string, below: string)
    requires IsRow(lines, p, q) && p > 0 && AllSpace(lines[0]) && IsRow(lines[1..], p - 1, q - 1)
    requires Stands(lines[1..], p - 1, q - 1, above, below)
    ensures Stands(lines, p, q, above, below)
  {
    hide *;
    RowSpeaksAt(lines, p, q);
    var t := lines[1..];
    var sep := StandsSo(t, p - 1, q - 1, above, below);
    LaidAfterBlank(lines);
    WordsSplit(lines, 1, p);
    assert lines[..1] == [lines[0]];
    BlankWordless(lines[..1]);
    SameSlices(lines, p, q, 1);
    NothingBefore(AllWords(t[..p - 1]));
    NoWordsAbove();
    AboveBlank(above, t[..p - 1]);
    if p > 1 {
      if SameList(lines, p) { ListStays(lines, p, 1); }
      if SameList(t, p - 1) { ListShifts(lines, p, 1); }
    } else {
      assert t[..0] == [];
    }
    StandsIf(lines, p, q, above, sep, below);
  }

  lemma NothingBefore<T>(s: seq<T>)
    ensures [] + s == s
  {}

  lemma LaidAfterBlank(lines: seq<string>)
    requires lines != [] && AllSpace(lines[0])
    ensures LaidOut(lines) == LaidOut(lines[1..])
  {}

  lemma StandsFirst(lines: seq<string>, row: string, gap: string, more: string)
    requires lines != [] && IsRow(lines, 0, RowEnd(lines)) && more == LaidOut(lines[RowEnd(lines)..])
    requires row == Glue(AllWords(lines[..RowEnd(lines)]), " ") && LaidOut(lines) == row + gap + more && AllSpace(gap)
    requires if more == "" then gap == "" else gap == "\n" || gap == "\n\n"
    ensures Stands(lines, 0, RowEnd(lines), "", gap + more)
  {
    hide *;
    var k := RowEnd(lines);
    NoWordsAbove();
    LaidWords(lines[k..]);
    NoWords(gap, more);
    assert lines[0..k] == lines[..k] && lines[..0] == [];
    assert "" + "" + row + (gap + more) == row + gap + more;
    BreakFirst(gap, more);
    StandsIf(lines, 0, k, "", "", gap + more);
  }

  lemma BreakFirst(gap: string, more: string)
    requires if more == "" then gap == "" else gap == "\n" || gap == "\n\n"
    ensures gap + more != "" ==> (gap + more)[0] == '\n'
  {}

  lemma StandsIf(lines: seq<string>, p: nat, q: nat, above: string, sep: string, below: string)
    requires IsRow(lines, p, q)
    requires sep == if above == "" then "" else if SameList(lines, p) then "\n" else "\n\n"
    requires LaidOut(lines) == above + sep + Glue(AllWords(lines[p..q]), " ") + below
    requires WordsOf(above) == AllWords(lines[..p]) && (above != "" ==> Speaks(above))
    requires WordsOf(below) == AllWords(lines[q..]) && (below != "" ==> below[0] == '\n')
    ensures Stands(lines, p, q, above, below)
  {
    hide IsRow, SameList, LaidOut, Glue, AllWords, WordsOf, Speaks;
  }

  lemma StandsSo(lines: seq<string>, p: nat, q: nat, above: string, below: string) returns (sep: string)
    requires IsRow(lines, p, q) && Stands(lines, p, q, above, below)
    ensures sep == if above == "" then "" else if SameList(lines, p) then "\n" else "\n\n"
    ensures LaidOut(lines) == above + sep + Glue(AllWords(lines[p..q]), " ") + below
    ensures WordsOf(above) == AllWords(lines[..p]) && (above != "" ==> Speaks(above))
    ensures WordsOf(below) == AllWords(lines[q..]) && (below != "" ==> below[0] == '\n')
  {
    RowSpeaksAt(lines, p, q);
    hide IsRow, SameList, LaidOut, Glue, AllWords, WordsOf, Speaks;
    sep := if above == "" then "" else if SameList(lines, p) then "\n" else "\n\n";
  }

  /** A first row goes above what stands further down. */
  lemma StandsLater(lines: seq<string>, p: nat, q: nat, row: string, gap: string, above: string, below: string)
    requires IsRow(lines, p, q) && !AllSpace(lines[0]) && RowEnd(lines) <= p
    requires IsRow(lines[RowEnd(lines)..], p - RowEnd(lines), q - RowEnd(lines))
    requires Stands(lines[RowEnd(lines)..], p - RowEnd(lines), q - RowEnd(lines), above, below)
    requires LaidOut(lines) == row + gap + LaidOut(lines[RowEnd(lines)..]) && Speaks(row) && AllSpace(gap)
    requires WordsOf(row) == AllWords(lines[..RowEnd(lines)])
    requires gap == if Hyphen(lines[0]) && Hyphen(lines[RowEnd(lines)]) then "\n" else "\n\n"
    ensures Stands(lines, p, q, if above == "" then row else row + gap + above, below)
  {
    hide *;
    var k := RowEnd(lines);
    RowSpeaksAt(lines, p, q);
    var sep := StandsSo(lines[k..], p - k, q - k, above, below);
    GapInList(lines, p, above);
    WordsSplit(lines, k, p);
    SameSlices(lines, p, q, k);
    var here := Glue(AllWords(lines[p..q]), " ");
    Regroups(row, gap, above, sep, here, below);
    SpeaksOn(row + gap, row, above);
    if above == "" {
      NoWordsAbove();
      NothingAdded(WordsOf(row));
      StandsIf(lines, p, q, row, gap, below);
    } else {
      WordsAcross(row, gap, above);
      StandsIf(lines, p, q, row + gap + above, sep, below);
    }
  }

  lemma NothingAdded<T>(s: seq<T>)
    ensures s + [] == s
  {}

  lemma RowSpeaksAt(lines: seq<string>, p: nat, q: nat)
    requires IsRow(lines, p, q)
    ensures p < q <= |lines| && !AllSpace(lines[p])
  {}

  lemma SameSlices(lines: seq<string>, p: nat, q: nat, k: nat)
    requires k <= p <= q <= |lines|
    ensures lines[k..][p - k..q - k] == lines[p..q] && lines[k..][q - k..] == lines[q..]
  {}

  lemma SpeaksOn(before: string, row: string, above: string)
    requires Speaks(row)
    ensures row != "" && (above != "" && Speaks(above) ==> before + above != "" && Speaks(before + above))
  {}

  lemma Regroups(row: string, gap: string, above: string, sep: string, here: string, below: string)
    ensures row + gap + (above + sep + here + below) == (row + gap + above) + sep + here + below
    ensures row + gap + ("" + "" + here + below) == row + gap + here + below
  {}

  /** Where nothing stands between, the gap after the first row is the one the list asks for. */
  lemma GapInList(lines: seq<string>, p: nat, above: string)
    requires lines != [] && !AllSpace(lines[0]) && RowEnd(lines) <= p < |lines|
    requires WordsOf(above) == AllWords(lines[RowEnd(lines)..][..p - RowEnd(lines)]) && (above != "" ==> Speaks(above))
    requires !AllSpace(lines[p])
    ensures var k := RowEnd(lines);
            if above == "" then SameList(lines, p) <==> Hyphen(lines[0]) && Hyphen(lines[k])
            else p > k && (SameList(lines, p) <==> SameList(lines[k..], p - k))
  {
    hide *;
    var k := RowEnd(lines);
    var t := lines[k..];
    AboveBlank(above, t[..p - k]);
    NoWordsAbove();
    if p == k {
      assert t[..p - k] == [];
      NextInList(lines);
    } else if above == "" {
      WordlessBlank(t[..p - k]);
      assert t[..p - k][0] == lines[k] && t[..p - k][p - k - 1] == lines[p - 1];
      HyphensOpen(lines[k]);
      BlankApart(lines, p, k);
    } else {
      if SameList(lines, p) { ListStays(lines, p, k); }
      if SameList(t, p - k) { ListShifts(lines, p, k); }
    }
  }

  /** Every item and every paragraph of the prose stands so in the laid-out text, all other words around it. */
  lemma {:induction false} RowStands(lines: seq<string>, p: nat, q: nat) returns (above: string, below: string)
    requires IsRow(lines, p, q)
    ensures Stands(lines, p, q, above, below)
    decreases |lines|
  {
    hide *;
    RowSpeaksAt(lines, p, q);
    if AllSpace(lines[0]) {
      RowShifts(lines, p, q, 1);
      above, below := RowStands(lines[1..], p - 1, q - 1);
      AfterBlank(lines, p, q, above, below);
    } else {
      RowsApart(lines, p, q);
      var k := RowEnd(lines);
      var row, gap, more := FirstRow(lines);
      if p == 0 {
        above, below := "", gap + more;
        StandsFirst(lines, row, gap, more);
      } else {
        RowShifts(lines, p, q, k);
        assert lines[k..][p - k] == lines[p];
        BlankLayout(lines[k..]);
        var above', below' := RowStands(lines[k..], p - k, q - k);
        above := if above' == "" then row else row + gap + above';
        below := below';
        StandsLater(lines, p, q, row, gap, above', below);
      }
    }
  }

  /** In the description of a comment, before its links are rewritten, every item and every paragraph of the
      prose is one line, its words with one blank between two; the words above and below are those of the
      prose before and after it. An item follows the one before it in its list on the next line; anything
      else that follows comes after a blank line. */
  lemma ItemsKeepTheirLines(raw: string, p: nat, q: nat) returns (above: string, below: string)
    requires IsRow(Prose(Inner(raw)), p, q)
    ensures Laid(raw) == LaidOut(Prose(Inner(raw))) && Stands(Prose(Inner(raw)), p, q, above, below)
    ensures Parsed(raw).doc == Trim(Unlinked(Laid(raw)))
    ensures !HasLink(Laid(raw)) ==> Parsed(raw).doc == Trim(Laid(raw))
  {
    hide *;
    LayoutIsRows(Prose(Inner(raw)));
    LaidIs(raw);
    DocIsLayout(raw);
    UnchangedExactly(Laid(raw));
    above, below := RowStands(Prose(Inner(raw)), p, q);
  }

  // ----- Delimiters and margins -----

  /** The delimiters go, and each line loses its margin. */
  lemma DelimitersGo(body: string)
    ensures Undelimited("/**" + body + "*/") == body
  {
    var raw := "/**" + body + "*/";
    assert raw[..3] == "/**" && raw[3..] == body + "*/";
    var rest := raw[3..];
    assert rest[|rest| - 2..] == "*/" && rest[..|rest| - 2] == body;
  }

  lemma MarginGoes(indent: string, text: string, trail: string)
    requires AllSpace(indent) && AllSpace(trail) && (text == "" || !IsSpace(text[|text| - 1]))
    ensures Unmargined(indent + ("* " + (text + trail))) == text && Unmargined(indent + "*") == ""
  {
    hide *;
    TrimsTo(text + trail, text, trail);
    Asterisk(indent, " " + (text + trail));
    Asterisk(indent, "");
    assert "* " + (text + trail) == "*" + (" " + (text + trail)) && "*" + "" == "*";
    assert (" " + (text + trail))[1..] == text + trail;
    Nobody();
  }

  lemma Nobody()
    ensures TrimEnd("") == "" && IsSpace(' ')
  {}

  lemma TrimsTo(whole: string, text: string, trail: string)
    requires whole == text + trail && AllSpace(trail) && (text == "" || !IsSpace(text[|text| - 1]))
    ensures TrimEnd(whole) == text
  {
    TrimEndIs(whole, text);
  }

  /** The margin is whitespace, one asterisk and at most one whitespace after it. */
  lemma Asterisk(indent: string, after: string)
    requires AllSpace(indent)
    ensures Unmargined(indent + ("*" + after)) ==
              TrimEnd(if after != "" && IsSpace(after[0]) then after[1..] else after)
  {
    hide *;
    TrimGap(indent, "*" + after);
    NoMargin(after);
    TrimNothing("*" + after);
    MarginIs(indent + ("*" + after), after);
  }

  lemma NoMargin(after: string)
    ensures ("*" + after)[1..] == after && !IsSpace(("*" + after)[0])
  {}

  lemma MarginIs(line: string, after: string)
    requires TrimStart(line) == "*" + after
    ensures Unmargined(line) == TrimEnd(if after != "" && IsSpace(after[0]) then after[1..] else after)
  {
    hide TrimEnd, TrimStart, IsSpace;
    assert TrimStart(line)[1..] == after;
  }

  // ----- Modes -----

  function Name(m: Mode): string {
    match m
    case Emit => "emit"
    case Waterfall => "waterfall"
    case Parallel => "parallel"
    case Serial => "serial"
    case Bail => "bail"
  }

  lemma NamesAreWords(m: Mode)
    ensures IsWord(Name(m)) && IsWord("@mode") && ModeNamed(Name(m)) == Some(m)
  {}

  /** A line names a mode exactly when it is the tag, whitespace, the name, and whitespace around. */
  lemma ModeExactly(line: string, m: Mode)
    ensures ModeOf(line) == Some(m) <==>
              exists lead, gap, trail :: IsModeLine(line, m, lead, gap, trail)
  {
    if lead, gap, trail :| IsModeLine(line, m, lead, gap, trail) { ModeReads(line, m, lead, gap, trail); }
    if ModeOf(line) == Some(m) {
      var lead, gap, trail := TwoWordLine(line);
      NamedBack(WordsOf(line)[1], m);
      assert IsModeLine(line, m, lead, gap, trail);
    }
  }

  ghost predicate IsModeLine(line: string, m: Mode, lead: string, gap: string, trail: string) {
    && line == lead + ("@mode" + (gap + (Name(m) + trail)))
    && AllSpace(lead) && AllSpace(gap) && gap != "" && AllSpace(trail)
  }

  lemma NamedBack(name: string, m: Mode)
    requires ModeNamed(name) == Some(m)
    ensures name == Name(m)
  {}

  lemma ModeReads(line: string, m: Mode, lead: string, gap: string, trail: string)
    requires IsModeLine(line, m, lead, gap, trail)
    ensures ModeOf(line) == Some(m)
  {
    NamesAreWords(m);
    hide Name;
    var tail := "@mode" + (gap + (Name(m) + trail));
    TrimGap(lead, tail);
    AtStart(gap + (Name(m) + trail));
    TrimNothing(tail);
    ModeWords(Name(m), lead, gap, trail);
    hide WordsOf, TrimStart, AllSpace, IsWord;
    assert Tag(line);
  }

  lemma AtStart(after: string)
    ensures ("@mode" + after)[0] == '@' && !IsSpace('@')
  {}

  lemma ModeWords(name: string, lead: string, gap: string, trail: string)
    requires IsWord(name) && AllSpace(lead) && AllSpace(gap) && gap != "" && AllSpace(trail)
    ensures WordsOf(lead + ("@mode" + (gap + (name + trail)))) == ["@mode", name]
  {
    TheTag();
    hide *;
    var tail := "@mode" + (gap + (name + trail));
    NoWords(lead, tail);
    Separated("@mode", gap, name + trail);
    assert "@mode" + gap + (name + trail) == tail;
    WordThen(name, trail);
    OneWord("@mode");
    assert ["@mode"] + [name] == ["@mode", name];
  }

  lemma TheTag()
    ensures IsWord("@mode")
  {}

  lemma WordThen(w: string, trail: string)
    requires IsWord(w) && AllSpace(trail)
    ensures WordsOf(w + trail) == [w]
  {
    OneWord(w);
    if trail == "" {
      assert w + trail == w;
    } else {
      Separated(w, trail, "");
      assert w + trail + "" == w + trail;
    }
  }

  lemma TwoWordLine(line: string) returns (lead: string, gap: string, trail: string)
    requires |WordsOf(line)| == 2
    ensures line == lead + (WordsOf(line)[0] + (gap + (WordsOf(line)[1] + trail)))
    ensures AllSpace(lead) && AllSpace(gap) && gap != "" && AllSpace(trail)
  {
    var first, rest;
    lead, first, rest := FirstWordOf(line);
    var second, more;
    gap, second, more := FirstWordOf(rest);
    trail := more;
    OnlySpace(trail);
  }

  lemma {:induction false} OnlySpace(s: string)
    requires WordsOf(s) == []
    ensures AllSpace(s)
  {
    if s != "" {
      OnlySpace(s[1..]);
      assert forall i | 0 < i < |s| :: s[i] == s[1..][i - 1];
    }
  }

  lemma FirstWordOf(s: string) returns (gap: string, w: string, rest: string)
    requires WordsOf(s) != []
    ensures s == gap + (w + rest) && AllSpace(gap) && WordsOf(s) == [w] + WordsOf(rest)
    ensures (s != "" && !IsSpace(s[0]) ==> gap == "") && (rest != "" ==> IsSpace(rest[0]))
    ensures s != "" && IsSpace(s[0]) ==> gap != ""
  {
    var n := Run(s, true);
    var t := s[n..];
    gap := s[..n];
    NoWords(gap, t);
    assert s == gap + t;
    w, rest := WordOff(t);
    hide WordsOf, Run;
    assert gap + (w + rest) == s;
  }

  lemma WordOff(t: string) returns (w: string, rest: string)
    requires WordsOf(t) != [] && (t != "" ==> !IsSpace(t[0]))
    ensures t == w + rest && WordsOf(t) == [w] + WordsOf(rest) && (rest != "" ==> IsSpace(rest[0]))
  {
    var m := Run(t, false);
    w, rest := t[..m], t[m..];
  }

  /** The tag is mentioned where its name ends with the line or before a character no word goes on with. */
  lemma MentionsExactly(rest: string)
    ensures MentionsMode("@mode" + rest) <==> rest == "" || !WordChar(rest[0])
  {
    var line := "@mode" + rest;
    RunIs(line, true, 0);
    assert line[0..] == line && line[..5] == "@mode" && line[5..] == rest;
  }

  /** Any tag line is one that opens with an at sign, whatever its indentation. */
  lemma TagExactly(line: string)
    ensures Tag(line) <==> exists lead, rest :: Opens(line, lead, rest)
  {
    if Tag(line) {
      var n := Run(line, true);
      assert line == line[..n] + (['@'] + line[n + 1..]);
      assert Opens(line, line[..n], line[n + 1..]);
    }
    if lead, rest :| Opens(line, lead, rest) {
      TrimGap(lead, ['@'] + rest);
      TrimNothing(['@'] + rest);
      assert TrimStart(line) == ['@'] + rest;
    }
  }

  predicate Opens(line: string, lead: string, rest: string) {
    line == lead + (['@'] + rest) && AllSpace(lead)
  }
}
