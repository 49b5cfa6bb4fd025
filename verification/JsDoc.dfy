/** The line machine that turns a JSDoc comment into prose and a dispatch mode (`parseJsDoc`,
    scripts/jsdoc.ts:32-82), and the layout it computes. */
module JsDoc {
  import opened Sequences
  import opened Wrappers
  import opened Text
  import opened Words
  import opened Links

  datatype Mode = Emit | Waterfall | Parallel | Serial | Bail

  // ----- The lines -----

  /** A line without its margin: leading whitespace, one asterisk and one whitespace after it; trailing
      whitespace goes too. */
  function Unmargined(line: string): string {
    var t := TrimStart(line);
    var u := if t != [] && t[0] == '*' then t[1..] else t;
    TrimEnd(if u != [] && IsSpace(u[0]) then u[1..] else u)
  }

  function Undelimited(raw: string): string {
    var body := if "/**" <= raw then raw[3..] else raw;
    if |body| >= 2 && body[|body| - 2..] == "*/" then body[..|body| - 2] else body
  }

  function Inner(raw: string): seq<string> {
    var ls := Split(Undelimited(raw), '\n');
    seq(|ls|, i requires 0 <= i < |ls| => Unmargined(ls[i]))
  }

  function ModeNamed(name: string): Option<Mode> {
    if name == "emit" then Some(Emit) else if name == "waterfall" then Some(Waterfall)
    else if name == "parallel" then Some(Parallel) else if name == "serial" then Some(Serial)
    else if name == "bail" then Some(Bail) else None
  }

  predicate WordChar(c: char) { 'a' <= c <= 'z' || 'A' <= c <= 'Z' || '0' <= c <= '9' || c == '_' }

  predicate Tag(line: string) { TrimStart(line) != [] && TrimStart(line)[0] == '@' }

  /** A tag line whose two words are `@mode` and a mode's name. */
  function ModeOf(line: string): Option<Mode> {
    var ws := WordsOf(line);
    if Tag(line) && |ws| == 2 && ws[0] == "@mode" then ModeNamed(ws[1]) else None
  }

  /** A line that opens with `@mode` and then no further word character. */
  predicate MentionsMode(line: string) {
    var t := TrimStart(line);
    "@mode" <= t && (|t| > 5 ==> !WordChar(t[5]))
  }

  predicate Blank(line: string) { AllSpace(line) }

  predicate Bullet(line: string) { |line| > 1 && line[0] == '-' && IsSpace(line[1]) }

  /** `parts.join(' ').replace(/\s+/g, ' ').trim()`. */
  function Join(parts: seq<string>): string { Trim(Collapse(Glue(parts, " "))) }

  // ----- The machine -----

  datatype State = State(blocks: seq<string>, para: seq<string>, list: seq<string>, item: seq<string>,
                         inTags: bool, mode: Option<Mode>, hasMode: bool)

  datatype Result = Result(doc: string, mode: Option<Mode>, hasMode: bool)

  const START := State([], [], [], [], false, None, false)

  function FlushedItem(s: State): State {
    if s.item == [] then s else s.(list := s.list + [Join(s.item)], item := [])
  }

  function FlushedList(s: State): State {
    var t := FlushedItem(s);
    if t.list == [] then t else t.(blocks := t.blocks + [Glue(t.list, "\n")], list := [])
  }

  function FlushedPara(s: State): State {
    var t := FlushedList(s);
    if t.para == [] then t else t.(blocks := t.blocks + [Join(t.para)], para := [])
  }

  function Took(s: State, line: string): State {
    if ModeOf(line).Some? then FlushedPara(s).(inTags := true, mode := ModeOf(line), hasMode := true)
    else if MentionsMode(line) then FlushedPara(s).(inTags := true, hasMode := true)
    else if Tag(line) then FlushedPara(s).(inTags := true)
    else if s.inTags then s
    else if Blank(line) then FlushedPara(s)
    else if Bullet(line) then
      var t := FlushedItem(s);
      var u := if t.para == [] then t else t.(blocks := t.blocks + [Join(t.para)], para := []);
      u.(item := u.item + [line])
    else if s.item != [] then s.(item := s.item + [line])
    else s.(para := s.para + [line])
  }

  function TookAll(s: State, lines: seq<string>): State
    decreases |lines|
  {
    if lines == [] then s else TookAll(Took(s, lines[0]), lines[1..])
  }

  function Finished(s: State): Result {
    Result(Trim(Unlinked(Glue(FlushedPara(s).blocks, "\n\n"))), s.mode, s.hasMode)
  }

  class Parser {
    var blocks: seq<string>
    var para: seq<string>
    var list: seq<string>
    var item: seq<string>
    var inTags: bool
    var mode: Option<Mode>
    var hasMode: bool

    ghost function View(): State
      reads this
    {
      State(blocks, para, list, item, inTags, mode, hasMode)
    }

    constructor ()
      ensures View() == START
    {
      blocks, para, list, item, inTags, mode, hasMode := [], [], [], [], false, None, false;
    }

    method FlushItem()
      modifies this
      ensures View() == FlushedItem(old(View()))
    {
      if item != [] { list := list + [Join(item)]; }
      item := [];
    }

    method FlushList()
      modifies this
      ensures View() == FlushedList(old(View()))
    {
      FlushItem();
      if list != [] { blocks := blocks + [Glue(list, "\n")]; }
      list := [];
    }

    method FlushPara()
      modifies this
      ensures View() == FlushedPara(old(View()))
    {
      FlushList();
      if para != [] { blocks := blocks + [Join(para)]; }
      para := [];
    }

    method Take(line: string)
      modifies this
      ensures View() == Took(old(View()), line)
    {
      hide ModeOf, MentionsMode, Tag, Blank, Bullet, Join, Glue;
      var m := ModeOf(line);
      if m.Some? { mode, hasMode := m, true; FlushPara(); inTags := true; return; }
      if MentionsMode(line) { hasMode := true; FlushPara(); inTags := true; return; }
      if Tag(line) { FlushPara(); inTags := true; return; }
      if inTags { return; }
      if Blank(line) { FlushPara(); return; }
      if Bullet(line) {
        FlushItem();
        if para != [] { blocks := blocks + [Join(para)]; para := []; }
        item := item + [line];
        return;
      }
      if item != [] { item := item + [line]; return; }
      para := para + [line];
    }
  }

  method ParseLines(lines: seq<string>) returns (r: Result)
    ensures r == Finished(TookAll(START, lines))
  {
    var parser := new Parser();
    var i := 0;
    while i < |lines|
      invariant 0 <= i <= |lines|
      invariant TookAll(parser.View(), lines[i..]) == TookAll(START, lines)
    {
      assert lines[i..][1..] == lines[i + 1..];
      parser.Take(lines[i]);
      i := i + 1;
    }
    parser.FlushPara();
    r := Result(Trim(Unlinked(Glue(parser.blocks, "\n\n"))), parser.mode, parser.hasMode);
  }

  // ----- The layout it computes -----

  /** The first line of a kind. */
  function Next(p: string -> bool, lines: seq<string>): (k: nat)
    ensures k <= |lines| && (k < |lines| ==> p(lines[k])) && forall i | 0 <= i < k :: !p(lines[i])
  {
    if lines == [] || p(lines[0]) then 0 else 1 + Next(p, lines[1..])
  }

  /** The lines before the first block tag. */
  function Prose(lines: seq<string>): seq<string> { lines[..Next(Tag, lines)] }

  /** Each bullet with the lines that continue it, on one line. */
  function Items(lines: seq<string>): seq<string>
    decreases |lines|
  {
    if lines == [] then []
    else
      var k := 1 + Next(Bullet, lines[1..]);
      [Join(lines[..k])] + Items(lines[k..])
  }

  /** A stretch without blank lines: its opening paragraph, if any, then its list, if any. */
  function Chunk(lines: seq<string>): seq<string> {
    var k := Next(Bullet, lines);
    (if k > 0 then [Join(lines[..k])] else []) + (if k < |lines| then [Glue(Items(lines[k..]), "\n")] else [])
  }

  function Layout(lines: seq<string>): seq<string>
    decreases |lines|
  {
    if lines == [] then []
    else if Blank(lines[0]) then Layout(lines[1..])
    else Chunk(lines[..Next(Blank, lines)]) + Layout(lines[Next(Blank, lines)..])
  }

  ghost predicate NoneOf(p: string -> bool, lines: seq<string>) { forall i | 0 <= i < |lines| :: !p(lines[i]) }

  lemma {:induction false} NextAfter(p: string -> bool, a: seq<string>, b: seq<string>)
    requires NoneOf(p, a)
    ensures Next(p, a + b) == |a| + Next(p, b)
  {
    if a == [] {
      assert a + b == b;
    } else {
      assert (a + b)[1..] == a[1..] + b;
      NextAfter(p, a[1..], b);
    }
  }

  /** A paragraph excludes an open item or list, a list has an open item, and an item opens with its bullet. */
  ghost predicate Shape(s: State) {
    && (s.para != [] ==> s.item == [] && s.list == [])
    && (s.list != [] ==> s.item != [])
    && NoneOf(Blank, s.para) && NoneOf(Bullet, s.para)
    && NoneOf(Blank, s.item) && (s.item != [] ==> Bullet(s.item[0]) && NoneOf(Bullet, s.item[1..]))
  }

  /** The blocks still to come from what is open and the lines ahead. */
  function Ahead(s: State, lines: seq<string>): seq<string> {
    if s.item == [] then Layout(s.para + lines)
    else
      var k := Next(Blank, lines);
      [Glue(s.list + Items(s.item + lines[..k]), "\n")] + Layout(lines[k..])
  }

  lemma ItemAlone(item: seq<string>)
    requires item != [] && NoneOf(Bullet, item[1..])
    ensures Items(item) == [Join(item)]
  {
    hide Join, Bullet;
    NextAfter(Bullet, item[1..], []);
    assert item[1..] + [] == item[1..];
    assert item[..|item|] == item && item[|item|..] == [];
  }

  lemma ItemThen(item: seq<string>, more: seq<string>)
    requires item != [] && NoneOf(Bullet, item[1..]) && more != [] && Bullet(more[0])
    ensures Items(item + more) == [Join(item)] + Items(more)
  {
    NextAfter(Bullet, item[1..], more);
    assert (item + more)[1..] == item[1..] + more;
    assert (item + more)[..|item|] == item;
    assert (item + more)[|item|..] == more;
  }

  lemma LayoutSplits(a: seq<string>, b: seq<string>)
    requires a != [] && NoneOf(Blank, a) && (b != [] ==> Blank(b[0]))
    ensures Layout(a + b) == Chunk(a) + Layout(b)
  {
    NextAfter(Blank, a, b);
    hide Chunk, Next;
    assert (a + b)[..|a|] == a && (a + b)[|a|..] == b;
    assert (a + b)[0] == a[0] && !Blank(a[0]);
  }

  lemma ChunkThen(para: seq<string>, bullets: seq<string>)
    requires NoneOf(Bullet, para) && (bullets != [] ==> Bullet(bullets[0]))
    ensures Chunk(para + bullets) ==
            (if para == [] then [] else [Join(para)]) + (if bullets == [] then [] else [Glue(Items(bullets), "\n")])
  {
    NextAfter(Bullet, para, bullets);
    assert (para + bullets)[..|para|] == para && (para + bullets)[|para|..] == bullets;
  }

  lemma ParaAlone(para: seq<string>, rest: seq<string>)
    requires para != [] && NoneOf(Blank, para) && NoneOf(Bullet, para) && (rest != [] ==> Blank(rest[0]))
    ensures Layout(para + rest) == [Join(para)] + Layout(rest)
  {
    hide Layout, Chunk;
    LayoutSplits(para, rest);
    ChunkThen(para, []);
    assert para + [] == para;
  }

  lemma ParaThen(para: seq<string>, bullet: string, rest: seq<string>)
    requires NoneOf(Blank, para) && NoneOf(Bullet, para) && Bullet(bullet)
    ensures Layout(para + ([bullet] + rest)) ==
            (if para == [] then [] else [Join(para)])
            + ([Glue(Items([bullet] + rest[..Next(Blank, rest)]), "\n")] + Layout(rest[Next(Blank, rest)..]))
  {
    hide Layout, Chunk, Items;
    var k := Next(Blank, rest);
    var bullets := [bullet] + rest[..k];
    assert para + ([bullet] + rest) == (para + bullets) + rest[k..];
    assert NoneOf(Blank, para + bullets) by { BulletSpeaks(bullet); }
    LayoutSplits(para + bullets, rest[k..]);
    ChunkThen(para, bullets);
    hide *;
    Associate(if para == [] then [] else [Join(para)], [Glue(Items(bullets), "\n")], Layout(rest[k..]));
  }

  lemma BulletSpeaks(line: string)
    requires Bullet(line)
    ensures !Blank(line)
  {
    assert !IsSpace(line[0]);
  }

  lemma ItemThenAll(list: seq<string>, item: seq<string>, more: seq<string>)
    requires item != [] && NoneOf(Bullet, item[1..]) && more != [] && Bullet(more[0])
    ensures list + Items(item + more) == (list + [Join(item)]) + Items(more)
  {
    ItemThen(item, more);
    hide *;
    Associate(list, [Join(item)], Items(more));
  }

  // ----- The machine computes the layout -----

  /** What flushing everything open emits. */
  function Open(s: State): seq<string> {
    if s.item != [] then [Glue(s.list + [Join(s.item)], "\n")] else if s.para != [] then [Join(s.para)] else []
  }

  lemma Flushes(s: State)
    requires Shape(s)
    ensures FlushedPara(s) == s.(blocks := s.blocks + Open(s), para := [], list := [], item := [])
  {}

  lemma NothingOpen(s: State, lines: seq<string>)
    requires s.para == [] && s.list == [] && s.item == []
    ensures Shape(s) && Ahead(s, lines) == Layout(lines)
  {
    hide Layout;
    assert [] + lines == lines;
  }

  lemma LayoutSkips(line: string, rest: seq<string>)
    requires Blank(line)
    ensures Layout([line] + rest) == Layout(rest)
  {
    assert ([line] + rest)[1..] == rest;
  }

  lemma ItemAhead(s: State, line: string, rest: seq<string>)
    requires Shape(s) && s.item != [] && Blank(line)
    ensures Ahead(s, [line] + rest) == Open(s) + Layout(rest)
  {
    ItemAlone(s.item);
    LayoutSkips(line, rest);
    hide Layout, Items;
    assert s.item + ([line] + rest)[..0] == s.item;
    assert ([line] + rest)[0..] == [line] + rest;
  }

  lemma ParaAhead(s: State, line: string, rest: seq<string>)
    requires Shape(s) && s.item == [] && Blank(line)
    ensures Ahead(s, [line] + rest) == Open(s) + Layout(rest)
  {
    hide Layout, Join, Glue, Items, Blank, Bullet;
    LayoutSkips(line, rest);
    if s.para != [] {
      ParaAlone(s.para, [line] + rest);
    } else {
      assert [] + ([line] + rest) == [line] + rest;
    }
  }

  /** Taking a line of prose moves blocks from those ahead to those done. */
  lemma BlankMoves(s: State, line: string, rest: seq<string>)
    requires Shape(s) && Blank(line)
    ensures FlushedPara(s).blocks + Layout(rest) == s.blocks + Ahead(s, [line] + rest)
  {
    if s.item != [] { ItemAhead(s, line, rest); } else { ParaAhead(s, line, rest); }
    Flushes(s);
    hide *;
    Associate(s.blocks, Open(s), Layout(rest));
  }

  lemma NextPast(p: string -> bool, line: string, rest: seq<string>)
    requires !p(line)
    ensures Next(p, [line] + rest) == 1 + Next(p, rest)
  {
    assert ([line] + rest)[1..] == rest;
  }

  lemma ItemGoesOn(s: State, line: string, rest: seq<string>)
    requires s.item != [] && !Blank(line)
    ensures Ahead(s, [line] + rest) ==
            [Glue(s.list + Items(s.item + ([line] + rest[..Next(Blank, rest)])), "\n")] +
                Layout(rest[Next(Blank, rest)..])
  {
    NextPast(Blank, line, rest);
    hide Layout, Items, Next, Glue;
    var k := Next(Blank, rest);
    assert ([line] + rest)[..1 + k] == [line] + rest[..k];
    assert ([line] + rest)[1 + k..] == rest[k..];
  }

  /** A line the machine neither ignores nor takes for a tag. */
  predicate Spoken(s: State, line: string) { !s.inTags && !Tag(line) && !Blank(line) }

  lemma TagsBlock(line: string)
    requires ModeOf(line).Some? || MentionsMode(line)
    ensures Tag(line)
  {}

  lemma TookBullet(s: State, line: string)
    requires Shape(s) && Spoken(s, line) && Bullet(line)
    ensures Shape(Took(s, line))
    ensures Took(s, line) ==
            if s.item != [] then s.(list := s.list + [Join(s.item)], item := [line])
            else s.(blocks := s.blocks + Open(s), para := [], item := [line])
  {
    hide Join, Glue, Tag, ModeOf, MentionsMode;
    if ModeOf(line).Some? || MentionsMode(line) {
      TagsBlock(line);
    }
  }

  lemma TookOther(s: State, line: string)
    requires Shape(s) && Spoken(s, line) && !Bullet(line)
    ensures Shape(Took(s, line))
    ensures Took(s, line) == if s.item != [] then s.(item := s.item + [line]) else s.(para := s.para + [line])
  {
    hide Join, Glue, Tag, ModeOf, MentionsMode, Blank, Bullet;
    if ModeOf(line).Some? || MentionsMode(line) {
      TagsBlock(line);
    }
    assert s.item != [] ==> (s.item + [line])[1..] == s.item[1..] + [line];
  }

  lemma AheadIs(s: State, lines: seq<string>)
    ensures Ahead(s, lines) ==
            if s.item == [] then Layout(s.para + lines)
            else
              var k := Next(Blank, lines);
              [Glue(s.list + Items(s.item + lines[..k]), "\n")] + Layout(lines[k..])
  {}

  lemma OpenIs(s: State)
    requires s.item == []
    ensures Open(s) == if s.para == [] then [] else [Join(s.para)]
  {}

  lemma ShapeIs(s: State)
    requires Shape(s)
    ensures s.item != [] ==> NoneOf(Bullet, s.item[1..])
    ensures NoneOf(Blank, s.para) && NoneOf(Bullet, s.para) && (s.item == [] ==> s.list == [])
  {}

  lemma BulletMoves(s: State, line: string, rest: seq<string>)
    requires Shape(s) && Spoken(s, line) && Bullet(line)
    ensures Took(s, line).blocks + Ahead(Took(s, line), rest) == s.blocks + Ahead(s, [line] + rest)
  {
    BulletSpeaks(line);
    hide *;
    var k := Next(Blank, rest);
    TookBullet(s, line);
    ShapeIs(s);
    AheadIs(Took(s, line), rest);
    if s.item != [] {
      ItemGoesOn(s, line, rest);
      ItemThenAll(s.list, s.item, [line] + rest[..k]);
    } else {
      AheadIs(s, [line] + rest);
      OpenIs(s);
      ParaThen(s.para, line, rest);
      assert [] + Items([line] + rest[..k]) == Items([line] + rest[..k]);
      Associate(s.blocks, Open(s), Ahead(Took(s, line), rest));
    }
  }

  lemma OtherMoves(s: State, line: string, rest: seq<string>)
    requires Shape(s) && Spoken(s, line) && !Bullet(line)
    ensures Took(s, line).blocks + Ahead(Took(s, line), rest) == s.blocks + Ahead(s, [line] + rest)
  {
    hide Shape, Layout, Items, Glue, Next, Took, Bullet;
    TookOther(s, line);
    if s.item != [] {
      ItemGoesOn(s, line, rest);
      Associate(s.item, [line], rest[..Next(Blank, rest)]);
    } else {
      Associate(s.para, [line], rest);
    }
  }

  /** In tag territory nothing adds prose. */
  lemma {:induction false} Ignored(s: State, lines: seq<string>)
    requires s.inTags && s.para == [] && s.list == [] && s.item == []
    ensures FlushedPara(TookAll(s, lines)).blocks == s.blocks
    decreases |lines|
  {
    if lines != [] {
      Ignored(Took(s, lines[0]), lines[1..]);
    }
  }

  lemma AheadNothing(s: State)
    requires Shape(s)
    ensures Ahead(s, []) == Open(s)
  {
    if s.item != [] {
      ItemAlone(s.item);
      assert s.item + [][..0] == s.item;
    } else if s.para != [] {
      ParaAlone(s.para, []);
    }
  }

  lemma TagFlushes(s: State, line: string)
    requires Tag(line) && Shape(s)
    ensures Took(s, line).inTags && Took(s, line).blocks == s.blocks + Open(s)
    ensures Took(s, line).para == [] && Took(s, line).list == [] && Took(s, line).item == []
  {
    hide Shape, Open, FlushedPara;
    Flushes(s);
  }

  lemma BlankTakes(s: State, line: string)
    requires Blank(line) && !s.inTags && Shape(s)
    ensures Took(s, line) == FlushedPara(s) && !Tag(line) && !FlushedPara(s).inTags && Shape(FlushedPara(s))
    ensures forall lines: seq<string> {:trigger Layout(lines)} :: Ahead(FlushedPara(s), lines) == Layout(lines)
  {
    Flushes(s);
    forall lines: seq<string> ensures Ahead(FlushedPara(s), lines) == Layout(lines) {
      NothingOpen(FlushedPara(s), lines);
    }
    hide FlushedPara, Shape, Ahead;
    assert !Tag(line);
    if ModeOf(line).Some? || MentionsMode(line) {
      TagsBlock(line);
    }
  }

  lemma ProseGoesOn(lines: seq<string>)
    ensures lines != [] && !Tag(lines[0]) ==> Prose(lines) == [lines[0]] + Prose(lines[1..])
    ensures lines == [] || Tag(lines[0]) ==> Prose(lines) == []
  {}

  /** Whatever is open, the blocks in the end are those done and those the layout finds ahead. */
  lemma {:induction false} Runs(s: State, lines: seq<string>)
    requires Shape(s) && !s.inTags
    ensures FlushedPara(TookAll(s, lines)).blocks == s.blocks + Ahead(s, Prose(lines))
    decreases |lines|
  {
    hide Shape, Ahead, Open, Prose, Layout, FlushedPara, Took, Blank, Bullet, Tag;
    ProseGoesOn(lines);
    if lines == [] {
      AheadNothing(s);
      Flushes(s);
    } else {
      var line, rest := lines[0], lines[1..];
      var t := Took(s, line);
      if Tag(line) {
        AheadNothing(s);
        TagFlushes(s, line);
        Ignored(t, rest);
      } else if Blank(line) {
        BlankTakes(s, line);
        BlankMoves(s, line, Prose(rest));
        Runs(t, rest);
      } else if Bullet(line) {
        TookBullet(s, line);
        BulletMoves(s, line, Prose(rest));
        Runs(t, rest);
      } else {
        TookOther(s, line);
        OtherMoves(s, line, Prose(rest));
        Runs(t, rest);
      }
    }
  }
}
