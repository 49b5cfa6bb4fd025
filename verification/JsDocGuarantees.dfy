/** What `parseJsDoc` promises (scripts/jsdoc.ts:24-32): prose ends at the first block tag, paragraphs
    collapse to one line, list items keep their own lines, and no word of the prose is lost. */
module JsDocGuarantees {
  import opened Text
  import opened Words
  import opened Links
  import opened JsDoc

  /** The parser's result for a whole comment. */
  function Parsed(raw: string): Result { Finished(TookAll(START, Inner(raw))) }

  method ParseJsDoc(raw: string) returns (r: Result)
    ensures r == Parsed(raw)
  {
    r := ParseLines(Inner(raw));
  }

  /** The description is the laid-out prose, block by block, with its links rewritten. */
  lemma DocIsLayout(raw: string)
    ensures Parsed(raw).doc == Trim(Unlinked(Glue(Layout(Prose(Inner(raw))), "\n\n")))
  {
    hide Layout, Took, Prose, Inner, Glue, Unlinked;
    NothingOpen(START, Prose(Inner(raw)));
    Runs(START, Inner(raw));
    assert [] + Layout(Prose(Inner(raw))) == Layout(Prose(Inner(raw)));
  }

  /** A paragraph or an item is one line: its words with one blank between two. */
  lemma JoinIsOneLine(lines: seq<string>)
    ensures Join(lines) == Glue(AllWords(lines), " ")
    ensures WordsOf(Join(lines)) == AllWords(lines)
  {
    hide Glue, Collapse, Trim, WordsOf, AllWords;
    OneLine(Glue(lines, " "));
    GlueKeepsWords(lines, " ");
  }

  lemma JoinedWords(lines: seq<string>)
    ensures AllWords([Join(lines)]) == AllWords(lines)
  {
    JoinIsOneLine(lines);
    assert [Join(lines)][1..] == [];
  }

  lemma FirstItem(lines: seq<string>)
    ensures lines == [] ==> Items(lines) == [] && AllWords(lines) == []
    ensures lines != [] ==>
              Items(lines) ==
                  [Join(lines[..1 + Next(Bullet, lines[1..])])] + Items(lines[1 + Next(Bullet, lines[1..])..])
  {}

  lemma {:induction false} ItemsKeepWords(lines: seq<string>)
    ensures AllWords(Items(lines)) == AllWords(lines)
    decreases |lines|
  {
    hide *;
    FirstItem(lines);
    if lines != [] {
      var k := 1 + Next(Bullet, lines[1..]);
      JoinedWords(lines[..k]);
      ItemsKeepWords(lines[k..]);
      AllWordsConcat([Join(lines[..k])], Items(lines[k..]));
      AllWordsConcat(lines[..k], lines[k..]);
      assert lines[..k] + lines[k..] == lines;
    }
  }

  lemma ListKeepsWords(lines: seq<string>)
    ensures AllWords([Glue(Items(lines), "\n")]) == AllWords(lines)
  {
    GlueKeepsWords(Items(lines), "\n");
    ItemsKeepWords(lines);
    hide Items, Glue;
    assert [Glue(Items(lines), "\n")][1..] == [];
  }

  lemma ChunkKeepsWords(lines: seq<string>)
    ensures AllWords(Chunk(lines)) == AllWords(lines)
  {
    hide AllWords, Join, Items, Glue;
    var k := Next(Bullet, lines);
    var intro := if k > 0 then [Join(lines[..k])] else [];
    var bullets := if k < |lines| then [Glue(Items(lines[k..]), "\n")] else [];
    JoinedWords(lines[..k]);
    ListKeepsWords(lines[k..]);
    AllWordsConcat(intro, bullets);
    AllWordsConcat(lines[..k], lines[k..]);
    assert lines[..k] + lines[k..] == lines;
    NoWordsInNothing(lines[..k]);
    NoWordsInNothing(lines[k..]);
  }

  lemma NoWordsInNothing(lines: seq<string>)
    ensures lines == [] ==> AllWords(lines) == []
  {}

  lemma BlankHasNoWords(line: string)
    requires Blank(line)
    ensures WordsOf(line) == []
  {
    NoWords(line, []);
    assert line + [] == line;
  }

  lemma {:induction false} LayoutKeepsWords(lines: seq<string>)
    ensures AllWords(Layout(lines)) == AllWords(lines)
    decreases |lines|
  {
    if lines == [] {
    } else if Blank(lines[0]) {
      BlankHasNoWords(lines[0]);
      LayoutKeepsWords(lines[1..]);
    } else {
      var k := Next(Blank, lines);
      hide AllWords, Chunk, Next;
      ChunkKeepsWords(lines[..k]);
      LayoutKeepsWords(lines[k..]);
      AllWordsConcat(Chunk(lines[..k]), Layout(lines[k..]));
      AllWordsConcat(lines[..k], lines[k..]);
      assert lines[..k] + lines[k..] == lines;
    }
  }

  /** The prose laid out, before its links are rewritten. */
  function Laid(raw: string): string { Glue(Layout(Prose(Inner(raw))), "\n\n") }

  /** The layout has the words of the comment before its first block tag, in order. The description has them
      as rewriting the links on one line leaves them, wherever lines and paragraphs break, exactly if no link
      vanishes, and as they stand exactly if there is no link. */
  lemma WordsConserved(raw: string)
    ensures var words := AllWords(Prose(Inner(raw)));
            && WordsOf(Laid(raw)) == words
            && (WordsOf(Parsed(raw).doc) == WordsOf(Unlinked(Glue(words, " "))) <==> !Vanishes(Laid(raw)))
            && (WordsOf(Parsed(raw).doc) == words <==> !HasLink(Laid(raw)))
  {
    hide Layout, Inner, Parsed, Prose, Glue, AllWords, Unlinked, Vanishes, WordsOf, Trim, HasLink, Collapse, Ink;
    DocIsLayout(raw);
    TrimKeepsWords(Unlinked(Laid(raw)));
    GlueKeepsWords(Layout(Prose(Inner(raw))), "\n\n");
    LayoutKeepsWords(Prose(Inner(raw)));
    RewrittenWords(Laid(raw));
    UnchangedExactly(Laid(raw));
    InkOfWords(Laid(raw));
    InkOfWords(Unlinked(Laid(raw)));
  }

  const VANISHING := "/** {@link\n *\n * } */"

  lemma SplitVanishing()
    ensures Split(" {@link\n *\n * } ", '\n') == [" {@link", " *", " * } "]
  {
    hide *;
    NoBreaks();
    SplitWhole(" {@link", '\n');
    SplitWhole(" *", '\n');
    SplitWhole(" * } ", '\n');
    SplitBetween(" *", " * } ", '\n');
    SplitBetween(" {@link", " *" + ['\n'] + " * } ", '\n');
  }

  lemma NoBreaks()
    ensures '\n' !in " {@link" && '\n' !in " *" && '\n' !in " * } "
    ensures " {@link\n *\n * } " == " {@link" + ['\n'] + (" *" + ['\n'] + " * } ")
    ensures [" {@link"] + ([" *"] + [" * } "]) == [" {@link", " *", " * } "]
  {}

  lemma UndelimitedVanishing()
    ensures Undelimited(VANISHING) == " {@link\n *\n * } "
  {}

  lemma InnerVanishing()
    ensures Inner(VANISHING) == ["{@link", "", "}"]
  {
    hide *;
    UndelimitedVanishing();
    SplitVanishing();
    FirstUnmargined();
    SecondUnmargined();
    ThirdUnmargined();
    InnerOfThree(VANISHING, " {@link", " *", " * } ");
  }

  lemma InnerOfThree(raw: string, a: string, b: string, c: string)
    requires Split(Undelimited(raw), '\n') == [a, b, c]
    ensures Inner(raw) == [Unmargined(a), Unmargined(b), Unmargined(c)]
  {
    hide Split, Undelimited, Unmargined;
  }

  lemma FirstUnmargined()
    ensures Unmargined(" {@link") == "{@link"
  {
    RunIs(" {@link", true, 1);
    assert " {@link"[1..] == "{@link";
    TrimEndIs("{@link", "{@link");
  }

  lemma SecondUnmargined()
    ensures Unmargined(" *") == ""
  {
    RunIs(" *", true, 1);
    assert " *"[1..] == "*" && "*"[1..] == "";
    TrimEndIs("", "");
  }

  lemma ThirdUnmargined()
    ensures Unmargined(" * } ") == "}"
  {
    RunIs(" * } ", true, 1);
    assert " * } "[1..] == "* } " && "* } "[1..] == " } " && " } "[1..] == "} ";
    TrimEndIs("} ", "}");
  }

  lemma OneWordLine(line: string)
    requires IsWord(line) && line[0] != '@' && line[0] != '-'
    ensures !Tag(line) && !Blank(line) && !Bullet(line) && Join([line]) == line && AllWords([line]) == [line]
  {
    RunIs(line, true, 0);
    OneWord(line);
    assert [line][1..] == [];
    JoinIsOneLine([line]);
    hide Join, WordsOf;
  }

  /** A word, a blank line and a word are two paragraphs. */
  lemma TwoWords(first: string, second: string)
    requires IsWord(first) && IsWord(second) && first[0] !in "@-" && second[0] !in "@-"
    ensures var lines := [first, "", second];
            Prose(lines) == lines && Layout(lines) == [first, second] && AllWords(lines) == [first, second]
  {
    hide Join, Tag, Bullet, WordsOf, Layout, Blank, IsWord, AllWords;
    OneWordLine(first);
    OneWordLine(second);
    BlankTag();
    TwoParagraphs(first, second);
    WordsApart(first, second);
  }

  lemma TwoParagraphs(first: string, second: string)
    requires !Blank(first) && !Bullet(first) && !Blank(second) && !Bullet(second)
    ensures Layout([first, "", second]) == [Join([first]), Join([second])]
  {
    hide Join, Bullet, Layout;
    BlankTag();
    LayoutOne(first, ["", second]);
    LayoutSkips("", [second]);
    LayoutOne(second, []);
    LayoutNothing();
    assert [first] + ["", second] == [first, "", second] && [second] + [] == [second] &&
        [""] + [second] == ["", second];
  }

  lemma LayoutNothing()
    ensures Layout([]) == []
  {}

  lemma WordsApart(first: string, second: string)
    requires AllWords([first]) == [first] && AllWords([second]) == [second]
    ensures AllWords([first, "", second]) == [first, second]
  {
    hide AllWords;
    AllWordsConcat([first], ["", second]);
    AllWordsConcat([""], [second]);
    NothingSaid();
    assert [first] + ["", second] == [first, "", second] && [""] + [second] == ["", second];
  }

  lemma NothingSaid()
    ensures AllWords([""]) == []
  {
    BlankTag();
  }

  lemma BlankTag()
    ensures !Tag("") && Blank("") && WordsOf("") == []
  {}

  lemma LayoutOne(line: string, rest: seq<string>)
    requires !Blank(line) && !Bullet(line) && (rest != [] ==> Blank(rest[0]))
    ensures Layout([line] + rest) == [Join([line])] + Layout(rest)
  {
    ParaAlone([line], rest);
  }

  /** On this comment the only link vanishes: the description is empty, though on one line, where the link holds
      a single blank, its two words stay. */
  lemma VanishingComment()
    ensures Parsed(VANISHING).doc == "" && Vanishes(Laid(VANISHING))
    ensures AllWords(Prose(Inner(VANISHING))) == ["{@link", "}"] && Unlinked(Glue(["{@link", "}"], " ")) == "{@link }"
  {
    hide *;
    InnerVanishing();
    TheWords();
    TwoWords("{@link", "}");
    DocIsLayout(VANISHING);
    BlankLinkVanishes();
    UnchangedExactly("{@link }");
    GlueVanishing();
    LaidIs(VANISHING);
  }

  lemma TheWords()
    ensures IsWord("{@link") && IsWord("}") && "{@link"[0] !in "@-" && "}"[0] !in "@-"
  {}

  lemma LaidIs(raw: string)
    ensures Laid(raw) == Glue(Layout(Prose(Inner(raw))), "\n\n")
  {}

  lemma GlueVanishing()
    ensures Glue(["{@link", "}"], "\n\n") == "{@link\n\n}" && Glue(["{@link", "}"], " ") == "{@link }" &&
            Trim("\n") == ""
  {
    assert ["{@link", "}"][1..] == ["}"];
    RunIs("\n", true, 1);
  }

  /** The prose stops before the first line that opens with an at sign. */
  lemma ProseStops(lines: seq<string>)
    ensures Prose(lines) <= lines && forall line | line in Prose(lines) :: !Tag(line)
    ensures |Prose(lines)| < |lines| ==> Tag(lines[|Prose(lines)|])
  {}

  // ----- The mode -----

  lemma ModeKept(s: State)
    ensures FlushedPara(s).mode == s.mode && FlushedPara(s).hasMode == s.hasMode
  {}

  lemma TookMode(s: State, line: string)
    ensures Took(s, line).mode == if ModeOf(line).Some? then ModeOf(line) else s.mode
    ensures Took(s, line).hasMode <==> s.hasMode || ModeOf(line).Some? || MentionsMode(line)
  {
    ModeKept(s);
    hide ModeOf, MentionsMode, Tag, Blank, Bullet, Join, Glue;
  }

  /** The last line that names a mode decides it, wherever it stands; any `@mode` line is noticed. */
  lemma {:induction false} LastModeWins(s: State, lines: seq<string>)
    ensures forall i
              | 0 <= i < |lines| && ModeOf(lines[i]).Some? && (forall j | i < j < |lines| :: ModeOf(lines[j]).None?) ::
              TookAll(s, lines).mode == ModeOf(lines[i])
    ensures (forall i | 0 <= i < |lines| :: ModeOf(lines[i]).None?) ==> TookAll(s, lines).mode == s.mode
    ensures TookAll(s, lines).hasMode <==>
              s.hasMode || exists i :: 0 <= i < |lines| && (ModeOf(lines[i]).Some? || MentionsMode(lines[i]))
    decreases |lines|
  {
    hide ModeOf, MentionsMode, Took;
    if lines != [] {
      TookMode(s, lines[0]);
      LastModeWins(Took(s, lines[0]), lines[1..]);
      assert forall i | 0 < i < |lines| :: lines[i] == lines[1..][i - 1];
    }
  }
}
