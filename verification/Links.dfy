/** The rewriting of `{@link name}` to the name (scripts/jsdoc.ts:80), and exactly when the layout of the text
    around links and inside them does not matter to its words. */
module Links {
  import opened Wrappers
  import opened Sequences
  import opened Text
  import opened Words

  const OPENING := "{@link"

  datatype Link = Link(name: string, rest: string)

  /** After the opening comes whitespace, the name, a closing brace. Where there is nothing else before the brace
      the last character of the whitespace is the name, provided that is not the first. */
  function LinkIn(body: string): (link: Option<Link>)
    ensures link.Some? ==> |link.value.name| + |link.value.rest| < |body|
  {
    var n := Run(body, true);
    match IndexOf(body, '}', n)
    case None => None
    case Some(close) =>
      var begin := if close == n then n - 1 else n;
      if begin <= 0 then None else Some(Link(body[begin..close], body[close + 1..]))
  }

  /** A link at the front of `s`, and what follows it. */
  function LinkAt(s: string): (link: Option<Link>)
    ensures link.Some? ==> |link.value.name| + |link.value.rest| < |s|
  {
    if OPENING <= s then LinkIn(s[|OPENING|..]) else None
  }

  /** `s.replace(/\{@link\s+([^}]+)\}/g, '$1')`. */
  function Unlinked(s: string): string
    decreases |s|
  {
    if s == [] then []
    else
      match LinkAt(s)
      case Some(link) => link.name + Unlinked(link.rest)
      case None => [s[0]] + Unlinked(s[1..])
  }

  // ----- What it leaves alone -----

  ghost predicate HasLink(s: string) { exists i :: 0 <= i < |s| && LinkAt(s[i..]).Some? }

  /** What a link in front is made of. */
  lemma LinkPieces(s: string) returns (skipped: string, name: string, rest: string)
    requires LinkAt(s).Some?
    ensures LinkAt(s) == Some(Link(name, rest))
    ensures s == OPENING + (skipped + (name + (['}'] + rest)))
  {
    hide LinkIn;
    var body := s[|OPENING|..];
    skipped, name, rest := BodyPieces(body);
    assert s == OPENING + body;
  }

  lemma BodyPieces(body: string) returns (skipped: string, name: string, rest: string)
    requires LinkIn(body).Some?
    ensures LinkIn(body) == Some(Link(name, rest)) && body == skipped + (name + (['}'] + rest))
  {
    var n := Run(body, true);
    var close := IndexOf(body, '}', n).value;
    var begin := if close == n then n - 1 else n;
    skipped, name, rest := body[..begin], body[begin..close], body[close + 1..];
    hide IndexOf, Run;
    Pieces(body, begin, close);
  }

  lemma OpeningIsWord()
    ensures IsWord(OPENING)
  {}

  lemma OpeningInk()
    ensures Ink(OPENING) == 6 && Ink(['}']) == 1
  {
    InkOfRun(OPENING, false);
    InkOfRun(['}'], false);
  }

  /** A text stays as it is exactly when it holds no link; a link costs it seven characters and more. */
  lemma {:induction false} UnchangedExactly(s: string)
    ensures Unlinked(s) == s <==> !HasLink(s)
    ensures if HasLink(s) then Ink(Unlinked(s)) < Ink(s) else Ink(Unlinked(s)) == Ink(s)
    decreases |s|
  {
    hide LinkAt, Ink;
    if s != [] {
      HasLinkStep(s);
      match LinkAt(s)
      case Some(link) =>
        var skipped, name, rest := LinkPieces(s);
        UnchangedExactly(rest);
        OpeningInk();
        InkConcat(OPENING, skipped + (name + (['}'] + rest)));
        InkConcat(skipped, name + (['}'] + rest));
        InkConcat(name, ['}'] + rest);
        InkConcat(['}'], rest);
        InkConcat(name, Unlinked(rest));
      case None =>
        UnchangedExactly(s[1..]);
        assert s == [s[0]] + s[1..];
        InkConcat([s[0]], s[1..]);
        InkConcat([s[0]], Unlinked(s[1..]));
    }
  }

  lemma HasLinkStep(s: string)
    requires s != []
    ensures HasLink(s) <==> LinkAt(s).Some? || HasLink(s[1..])
  {
    hide LinkAt;
    assert s[0..] == s;
    forall i | 0 < i < |s| ensures s[i..] == s[1..][i - 1..] { }
    if HasLink(s[1..]) {
      var i :| 0 <= i < |s[1..]| && LinkAt(s[1..][i..]).Some?;
      assert s[i + 1..] == s[1..][i..];
    }
  }

  // ----- Equal up to whitespace -----

  lemma CollapseStep(s: string)
    requires s != []
    ensures Collapse(s) == if IsSpace(s[0]) then " " + Collapse(TrimStart(s)) else [s[0]] + Collapse(s[1..])
    ensures IsSpace(s[0]) ==> |TrimStart(s)| < |s| && (TrimStart(s) != [] ==> !IsSpace(TrimStart(s)[0]))
  {}

  lemma TrimNothing(s: string)
    requires s == [] || !IsSpace(s[0])
    ensures TrimStart(s) == s
  {}

  lemma TrimGap(gap: string, t: string)
    requires AllSpace(gap)
    ensures TrimStart(gap + t) == TrimStart(t)
  {
    var n := |gap| + Run(t, true);
    assert forall i | |gap| <= i < |gap + t| :: (gap + t)[i] == t[i - |gap|];
    RunIs(gap + t, true, n);
    assert (gap + t)[n..] == t[Run(t, true)..];
  }

  /** A text that begins with whitespace: the whitespace, then the rest. */
  lemma GapSplits(s: string) returns (gap: string, t: string)
    requires s != [] && IsSpace(s[0])
    ensures gap != [] && AllSpace(gap) && s == gap + t && (t != [] ==> !IsSpace(t[0])) && |t| < |s| && TrimStart(s) == t
    ensures Collapse(s) == " " + Collapse(t)
  {
    var n := Run(s, true);
    gap, t := s[..n], s[n..];
  }

  /** Whitespace in front becomes one blank, whatever whitespace follows it. */
  lemma GapThen(gap: string, t: string)
    requires gap != [] && AllSpace(gap)
    ensures Collapse(gap + t) == " " + Collapse(TrimStart(t))
  {
    hide Collapse, TrimStart;
    CollapseStep(gap + t);
    TrimGap(gap, t);
  }

  lemma CharThen(c: char, t: string)
    requires !IsSpace(c)
    ensures Collapse([c] + t) == [c] + Collapse(t)
  {
    hide Collapse, TrimStart;
    CollapseStep([c] + t);
    assert ([c] + t)[1..] == t;
  }

  lemma CollapseBegins(s: string)
    requires s != []
    ensures Collapse(s) != [] && (IsSpace(Collapse(s)[0]) <==> IsSpace(s[0]))
  {
    hide Collapse, TrimStart;
    CollapseStep(s);
  }

  lemma {:induction false} CollapseOnce(s: string)
    ensures Collapse(Collapse(s)) == Collapse(s)
    decreases |s|
  {
    hide Collapse, TrimStart;
    if s == [] {
      CollapseNothing();
    } else if IsSpace(s[0]) {
      var gap, t := GapSplits(s);
      CollapseOnce(t);
      GapThen(" ", Collapse(t));
      if t != [] { CollapseBegins(t); } else { CollapseNothing(); }
      TrimNothing(Collapse(t));
    } else {
      CollapseStep(s);
      CollapseOnce(s[1..]);
      CharThen(s[0], Collapse(s[1..]));
    }
  }

  lemma TrimCollapsed(s: string)
    ensures TrimStart(Collapse(s)) == Collapse(TrimStart(s))
  {
    CollapseSkips(s);
  }

  /** Collapsing part of a text first makes no difference. */
  lemma {:induction false} CollapsePart(x: string, y: string)
    ensures Collapse(x + y) == Collapse(x + Collapse(y)) == Collapse(Collapse(x) + y)
    decreases |x|
  {
    hide Collapse, TrimStart;
    if x == [] {
      assert x + y == y && x + Collapse(y) == Collapse(y);
      CollapseNothing();
      assert Collapse(x) + y == y;
      CollapseOnce(y);
    } else if !IsSpace(x[0]) {
      CollapsePart(x[1..], y);
      CollapseStep(x);
      assert x == [x[0]] + x[1..];
      Associate([x[0]], x[1..], y);
      Associate([x[0]], x[1..], Collapse(y));
      Associate([x[0]], Collapse(x[1..]), y);
      CharThen(x[0], x[1..] + y);
      CharThen(x[0], x[1..] + Collapse(y));
      CharThen(x[0], Collapse(x[1..]) + y);
    } else {
      var gap, t := GapSplits(x);
      Associate(gap, t, y);
      Associate(gap, t, Collapse(y));
      Associate(" ", Collapse(t), y);
      GapThen(gap, t + y);
      GapThen(gap, t + Collapse(y));
      GapThen(" ", Collapse(t) + y);
      if t == [] {
        CollapseNothing();
        assert t + y == y && t + Collapse(y) == Collapse(y) && Collapse(t) + y == y;
        TrimCollapsed(y);
        CollapseOnce(TrimStart(y));
      } else {
        CollapseBegins(t);
        TrimNothing(t + y);
        TrimNothing(t + Collapse(y));
        TrimNothing(Collapse(t) + y);
        CollapsePart(t, y);
      }
    }
  }

  predicate Alike(s: string, t: string) { Collapse(s) == Collapse(t) }

  lemma AlikeConcat(x: string, x': string, y: string, y': string)
    requires Alike(x, x') && Alike(y, y')
    ensures Alike(x + y, x' + y')
  {
    hide Collapse;
    CollapsePart(x, y);
    CollapsePart(x', y);
    CollapsePart(x', y');
  }

  lemma AlikeWords(s: string, t: string)
    requires Alike(s, t)
    ensures WordsOf(s) == WordsOf(t)
  {
    OneLine(s);
    OneLine(t);
  }

  // ----- Links in collapsed text -----

  predicate BlankIn(body: string) {
    var n := Run(body, true);
    0 < n < |body| && body[n] == '}'
  }

  /** A link that holds nothing but whitespace. */
  predicate BlankLink(s: string) { OPENING <= s && BlankIn(s[|OPENING|..]) }

  /** The rewriting comes to a link that holds nothing but whitespace, two characters of it or more, and so
      drops all but one of these. */
  predicate Vanishes(s: string)
    decreases |s|
  {
    s != [] &&
      match LinkAt(s)
      case Some(link) => BlankLink(s) || Vanishes(link.rest)
      case None => Vanishes(s[1..])
  }

  /** What follows the opening of a link, by its parts. */
  function Body(gap: string, name: string, rest: string): string { gap + (name + (['}'] + rest)) }

  predicate Parts(gap: string, name: string) {
    gap != [] && AllSpace(gap) && name != [] && !IsSpace(name[0]) && '}' !in name
  }

  lemma LinkByParts(gap: string, name: string, rest: string)
    requires Parts(gap, name)
    ensures LinkIn(Body(gap, name, rest)) == Some(Link(name, rest))
  {
    var s, tail, n := Body(gap, name, rest), name + (['}'] + rest), |gap|;
    var close := n + |name|;
    assert s[n] == name[0];
    RunIs(s, true, n);
    BracesAt(gap, name, rest);
    assert IndexOf(s, '}', n) == Some(close);
  }

  lemma BracesAt(gap: string, name: string, rest: string)
    requires '}' !in name
    ensures var s, n := Body(gap, name, rest), |gap|; var close := n + |name|;
            && close < |s| && s[close] == '}' && (forall j | n <= j < close :: s[j] != '}')
            && s[n..close] == name && s[close + 1..] == rest
  {
    var s, n := Body(gap, name, rest), |gap|;
    assert forall j | n <= j < n + |name| :: s[j] == name[j - n];
  }

  lemma PartsOfLink(body: string) returns (gap: string, name: string, rest: string)
    requires !BlankIn(body) && LinkIn(body).Some?
    ensures Parts(gap, name) && body == Body(gap, name, rest)
  {
    var n := Run(body, true);
    var close := IndexOf(body, '}', n).value;
    gap, name, rest := body[..n], body[n..close], body[close + 1..];
    Pieces(body, n, close);
  }

  lemma Pieces(s: string, n: nat, close: nat)
    requires n <= close < |s|
    ensures s == s[..n] + (s[n..close] + ([s[close]] + s[close + 1..]))
  {}

  lemma {:induction false} CollapseBefore(x: string, c: char, y: string)
    requires !IsSpace(c)
    ensures Collapse(x + ([c] + y)) == Collapse(x) + ([c] + Collapse(y))
    decreases |x|
  {
    hide Collapse, TrimStart;
    CharThen(c, y);
    if x == [] {
      CollapseNothing();
      assert x + ([c] + y) == [c] + y;
    } else if !IsSpace(x[0]) {
      CollapseBefore(x[1..], c, y);
      CollapseStep(x);
      assert x == [x[0]] + x[1..];
      Associate([x[0]], x[1..], [c] + y);
      Associate([x[0]], Collapse(x[1..]), [c] + Collapse(y));
      CharThen(x[0], x[1..] + ([c] + y));
    } else {
      var gap, t := GapSplits(x);
      CollapseBefore(t, c, y);
      Associate(gap, t, [c] + y);
      Associate(" ", Collapse(t), [c] + Collapse(y));
      GapThen(gap, t + ([c] + y));
      TrimNothing(t + ([c] + y));
    }
  }

  lemma {:induction false} CollapseKeeps(s: string, c: char)
    requires !IsSpace(c)
    ensures c in Collapse(s) <==> c in s
    decreases |s|
  {
    hide Collapse, TrimStart;
    if s == [] {
      CollapseNothing();
    } else if IsSpace(s[0]) {
      var gap, t := GapSplits(s);
      CollapseKeeps(t, c);
    } else {
      CollapseStep(s);
      CollapseKeeps(s[1..], c);
      assert s == [s[0]] + s[1..];
    }
  }

  lemma CollapsedParts(gap: string, name: string, rest: string)
    requires Parts(gap, name)
    ensures Parts(" ", Collapse(name)) && Collapse(Body(gap, name, rest)) == Body(" ", Collapse(name), Collapse(rest))
  {
    hide Collapse, TrimStart;
    GapThen(gap, name + (['}'] + rest));
    TrimNothing(name + (['}'] + rest));
    CollapseBefore(name, '}', rest);
    CollapseBegins(name);
    CollapseKeeps(name, '}');
  }

  lemma {:induction false} CollapsePrefix(w: string, s: string)
    requires w <= Collapse(s) && forall i | 0 <= i < |w| :: !IsSpace(w[i])
    ensures w <= s && Collapse(s) == w + Collapse(s[|w|..])
  {
    hide Collapse, TrimStart;
    if w != [] {
      if s == [] { CollapseNothing(); }
      CollapseStep(s);
      assert !IsSpace(s[0]);
      assert w[1..] <= Collapse(s)[1..] == Collapse(s[1..]);
      CollapsePrefix(w[1..], s[1..]);
      assert s[1..][|w[1..]|..] == s[|w|..];
      assert w == [w[0]] + w[1..];
    } else {
      assert s[0..] == s;
    }
  }

  lemma FindsClose(s: string, n: nat)
    requires n <= |s|
    ensures IndexOf(s, '}', n).Some? <==> '}' in s[n..]
  {
    if IndexOf(s, '}', n).Some? { assert s[n..][IndexOf(s, '}', n).value - n] == '}'; }
  }

  /** No link appears by collapsing. */
  lemma LinkBefore(body: string)
    requires LinkIn(Collapse(body)).Some?
    ensures LinkIn(body).Some?
  {
    hide Collapse, IndexOf;
    if body == [] { CollapseNothing(); }
    CollapseBegins(body);
    if IsSpace(body[0]) {
      var n := Run(body, true);
      var gap, t := GapSplits(body);
      assert body[n..] == t;
      if t == [] { CollapseNothing(); } else { CollapseStep(t); }
      RunIs(Collapse(body), true, 1);
      assert Collapse(body)[1..] == Collapse(t);
      FindsClose(Collapse(body), 1);
      FindsClose(body, n);
      CollapseKeeps(t, '}');
    } else {
      NoLinkWithoutGap(Collapse(body));
      assert false;
    }
  }

  lemma NoLinkWithoutGap(body: string)
    requires body == [] || !IsSpace(body[0])
    ensures LinkIn(body).None?
  {
    RunIs(body, true, 0);
  }

  lemma NoLinkAtSpace(s: string)
    requires s != [] && IsSpace(s[0])
    ensures LinkAt(s).None?
  {
    hide LinkIn;
    assert OPENING[0] == '{';
  }

  lemma {:induction false} UnlinkedGap(gap: string, t: string)
    requires AllSpace(gap)
    ensures Unlinked(gap + t) == gap + Unlinked(t)
  {
    hide LinkAt, Unlinked;
    if gap == [] {
      assert gap + t == t;
    } else {
      assert (gap + t)[1..] == gap[1..] + t;
      UnlinkedGap(gap[1..], t);
      NoLinkAtSpace(gap + t);
      UnlinkedStep(gap + t);
    }
  }

  lemma UnlinkedStep(s: string)
    requires s != []
    ensures Unlinked(s) == match LinkAt(s) case Some(link) => link.name + Unlinked(link.rest) case None =>
              [s[0]] + Unlinked(s[1..])
  {}

  lemma VanishesStep(s: string)
    requires s != []
    ensures Vanishes(s) <==> match LinkAt(s) case Some(link) => BlankLink(s) || Vanishes(link.rest) case None =>
              Vanishes(s[1..])
  {}

  lemma {:induction false} VanishesGap(gap: string, t: string)
    requires AllSpace(gap)
    ensures Vanishes(gap + t) <==> Vanishes(t)
  {
    hide LinkAt, Vanishes, BlankLink;
    if gap == [] {
      assert gap + t == t;
    } else {
      assert (gap + t)[1..] == gap[1..] + t;
      VanishesGap(gap[1..], t);
      NoLinkAtSpace(gap + t);
      VanishesStep(gap + t);
    }
  }

  lemma SpaceAlike(gap: string)
    requires gap != [] && AllSpace(gap)
    ensures Alike(gap, " ")
  {
    GapThen(gap, []);
    GapThen(" ", []);
    assert gap + [] == gap && " " + [] == " ";
  }

  /** Rewriting a text and rewriting it collapsed come to the same up to whitespace, if no link vanishes. */
  lemma {:induction false} Collapses(s: string)
    requires !Vanishes(s)
    ensures Alike(Unlinked(s), Unlinked(Collapse(s)))
    decreases |s|
  {
    hide Collapse, TrimStart, Unlinked, LinkIn, BlankIn, Vanishes, Body, Parts;
    if s == [] {
      CollapseNothing();
    } else if IsSpace(s[0]) {
      var gap, t := GapSplits(s);
      VanishesGap(gap, t);
      Collapses(t);
      UnlinkedGap(gap, t);
      UnlinkedGap(" ", Collapse(t));
      SpaceAlike(gap);
      AlikeConcat(gap, " ", Unlinked(t), Unlinked(Collapse(t)));
    } else {
      VanishesStep(s);
      if LinkAt(s).Some? {
        var gap, name, rest := OpenedParts(s);
        Collapses(rest);
        CollapseOnce(name);
        AlikeConcat(name, Collapse(name), Unlinked(rest), Unlinked(Collapse(rest)));
      } else {
        CharStays(s);
        Collapses(s[1..]);
        AlikeConcat([s[0]], [s[0]], Unlinked(s[1..]), Unlinked(Collapse(s[1..])));
      }
    }
  }

  lemma CharStays(s: string)
    requires s != [] && !IsSpace(s[0]) && LinkAt(s).None?
    ensures Unlinked(s) == [s[0]] + Unlinked(s[1..]) && Unlinked(Collapse(s)) == [s[0]] + Unlinked(Collapse(s[1..]))
  {
    hide Collapse, TrimStart, Unlinked, LinkAt;
    CollapseStep(s);
    UnlinkedStep(s);
    UnlinkedStep(Collapse(s));
    NoLinkBefore(s);
    assert Collapse(s)[1..] == Collapse(s[1..]);
  }

  /** Collapsing first loses no more, and less where a link vanishes: there its seven characters stay. */
  lemma {:induction false} InkLost(s: string)
    ensures Ink(Unlinked(s)) <= Ink(Unlinked(Collapse(s)))
    ensures Vanishes(s) ==> Ink(Unlinked(s)) < Ink(Unlinked(Collapse(s)))
    decreases |s|
  {
    hide Collapse, TrimStart, Unlinked, LinkIn, BlankIn, Vanishes, Body, Parts, Ink;
    if s == [] {
      CollapseNothing();
      NothingVanishes();
    } else if IsSpace(s[0]) {
      var gap, t := GapSplits(s);
      VanishesGap(gap, t);
      InkLost(t);
      UnlinkedGap(gap, t);
      UnlinkedGap(" ", Collapse(t));
      InkConcat(gap, Unlinked(t));
      InkConcat(" ", Unlinked(Collapse(t)));
      InkOfRun(gap, true);
      InkOfRun(" ", true);
    } else {
      VanishesStep(s);
      if LinkAt(s).Some? && BlankLink(s) {
        var rest := BlankRewritten(s);
        InkLost(rest);
      } else if LinkAt(s).Some? {
        var gap, name, rest := OpenedParts(s);
        InkLost(rest);
        InkConcat(name, Unlinked(rest));
        InkConcat(Collapse(name), Unlinked(Collapse(rest)));
        SameInk(name);
      } else {
        CharStays(s);
        InkLost(s[1..]);
        InkConcat([s[0]], Unlinked(s[1..]));
        InkConcat([s[0]], Unlinked(Collapse(s[1..])));
      }
    }
  }

  lemma NothingVanishes()
    ensures !Vanishes([]) && Unlinked([]) == []
  {}

  lemma SameInk(s: string)
    ensures Ink(Collapse(s)) == Ink(s)
  {
    CollapseOnce(s);
    AlikeWords(s, Collapse(s));
    InkOfWords(s);
    InkOfWords(Collapse(s));
  }

  /** A link that vanishes leaves one character of whitespace; collapsed, it is none, and stays. */
  lemma BlankRewritten(s: string) returns (rest: string)
    requires BlankLink(s) && LinkAt(s).Some?
    ensures LinkAt(s).value.rest == rest && |rest| < |s|
    ensures Ink(Unlinked(s)) == Ink(Unlinked(rest)) && Ink(Unlinked(Collapse(s))) == 7 + Ink(Unlinked(Collapse(rest)))
  {
    hide *;
    var gap, name;
    gap, name, rest := BlankParts(s);
    BraceSpeaks();
    InkConcat(name, Unlinked(rest));
    InkOfRun(name, true);
    CollapseWord(OPENING, gap + (['}'] + rest));
    GapThen(gap, ['}'] + rest);
    TrimNothing(['}'] + rest);
    CharThen('}', rest);
    Stays(Collapse(rest));
    OpeningInk();
    InkConcat(OPENING, " " + (['}'] + Unlinked(Collapse(rest))));
    InkConcat(" ", ['}'] + Unlinked(Collapse(rest)));
    InkConcat(['}'], Unlinked(Collapse(rest)));
    InkOfRun(" ", true);
  }

  lemma BraceSpeaks()
    ensures !IsSpace('}') && IsSpace(' ') && forall i | 0 <= i < |OPENING| :: !IsSpace(OPENING[i])
  {}

  lemma BlankParts(s: string) returns (gap: string, name: string, rest: string)
    requires BlankLink(s) && LinkAt(s).Some?
    ensures LinkAt(s) == Some(Link(name, rest)) && Unlinked(s) == name + Unlinked(rest)
    ensures gap != [] && (forall i | 0 <= i < |gap| :: IsSpace(gap[i])) && AllSpace(gap) &&
            s == OPENING + (gap + (['}'] + rest))
    ensures |rest| < |s| && forall i | 0 <= i < |name| :: IsSpace(name[i])
  {
    hide LinkIn, Unlinked;
    var body := s[|OPENING|..];
    assert s == OPENING + body;
    gap, name, rest := BlankBody(body);
    UnlinkedStep(s);
  }

  lemma BlankBody(body: string) returns (gap: string, name: string, rest: string)
    requires BlankIn(body) && LinkIn(body).Some?
    ensures LinkIn(body) == Some(Link(name, rest)) && body == gap + (['}'] + rest)
    ensures gap != [] && AllSpace(gap) && AllSpace(name)
  {
    var n := Run(body, true);
    assert IndexOf(body, '}', n) == Some(n);
    gap, name, rest := body[..n], body[n - 1..n], body[n + 1..];
  }

  /** A blank link with a single blank is none. */
  lemma Stays(rest: string)
    ensures Unlinked(OPENING + (" " + (['}'] + rest))) == OPENING + (" " + (['}'] + Unlinked(rest)))
  {
    hide Unlinked;
    var body := " " + (['}'] + rest);
    RunIs(body, true, 1);
    assert LinkIn(body) == None;
    assert (OPENING + body)[|OPENING|..] == body;
    PlainStart(OPENING, body);
    UnlinkedGap(" ", ['}'] + rest);
    UnlinkedStep(['}'] + rest);
    assert (['}'] + rest)[1..] == rest;
  }

  /** Links begin with a brace only. */
  lemma {:induction false} PlainStart(w: string, t: string)
    requires w != [] && LinkAt(w + t).None? && forall i | 0 < i < |w| :: w[i] != '{'
    ensures Unlinked(w + t) == w + Unlinked(t)
  {
    hide Unlinked, LinkIn;
    UnlinkedStep(w + t);
    assert (w + t)[1..] == w[1..] + t;
    if |w| > 1 {
      assert (w[1..] + t)[0] != '{' == OPENING[0];
      PlainStart(w[1..], t);
      assert w == [w[0]] + w[1..];
      Associate([w[0]], w[1..], Unlinked(t));
    } else {
      assert w[1..] + t == t;
    }
  }

  /** Rewriting a text and rewriting it collapsed come to the same up to whitespace exactly if no link vanishes. */
  lemma CollapseFirst(s: string)
    ensures Alike(Unlinked(s), Unlinked(Collapse(s))) <==> !Vanishes(s)
  {
    hide *;
    if Vanishes(s) {
      InkLost(s);
      if Alike(Unlinked(s), Unlinked(Collapse(s))) {
        AlikeWords(Unlinked(s), Unlinked(Collapse(s)));
        InkOfWords(Unlinked(s));
        InkOfWords(Unlinked(Collapse(s)));
        assert false;
      }
    } else {
      Collapses(s);
    }
  }

  lemma NoLinkBefore(s: string)
    requires LinkAt(s).None?
    ensures LinkAt(Collapse(s)).None?
  {
    hide Collapse, LinkIn;
    if LinkAt(Collapse(s)).Some? {
      CollapsePrefix(OPENING, s);
      assert Collapse(s)[|OPENING|..] == Collapse(s[|OPENING|..]);
      LinkBefore(s[|OPENING|..]);
    }
  }

  /** What a link and its collapsed form are rewritten to. */
  lemma OpenedParts(s: string) returns (gap: string, name: string, rest: string)
    requires !BlankLink(s) && LinkAt(s).Some?
    ensures LinkAt(s).value.rest == rest && |rest| < |s|
    ensures Unlinked(s) == name + Unlinked(rest) && Unlinked(Collapse(s)) == Collapse(name) + Unlinked(Collapse(rest))
  {
    hide Collapse, LinkIn, BlankIn, Unlinked, Parts;
    var body := s[|OPENING|..];
    gap, name, rest := PartsOfLink(body);
    LinkByParts(gap, name, rest);
    CollapsedParts(gap, name, rest);
    LinkByParts(" ", Collapse(name), Collapse(rest));
    assert s == OPENING + body;
    CollapseWord(OPENING, body);
    assert Collapse(s)[|OPENING|..] == Collapse(body);
    UnlinkedStep(s);
    UnlinkedStep(Collapse(s));
  }

  // ----- The words of a rewritten text -----

  lemma LinkInTail(body: string, gap: string)
    requires AllSpace(gap)
    ensures LinkIn(body + gap) == match LinkIn(body) case Some(link) =>
              Some(Link(link.name, link.rest + gap)) case None => None
  {
    var n := Run(body, true);
    if n == |body| {
      RunIs(body + gap, true, |body + gap|);
    } else {
      RunIs(body + gap, true, n);
      match IndexOf(body, '}', n)
      case Some(close) =>
        assert forall j | 0 <= j <= close :: (body + gap)[j] == body[j];
        assert IndexOf(body + gap, '}', n) == Some(close);
        assert (body + gap)[close + 1..] == body[close + 1..] + gap;
        SameStart(body, gap, close);
      case None =>
        assert IndexOf(body + gap, '}', n) == None;
    }
  }

  lemma SameStart(s: string, t: string, k: nat)
    requires k <= |s|
    ensures forall i | 0 <= i <= k :: (s + t)[i..k] == s[i..k]
  {}

  lemma PrefixTail(w: string, s: string, gap: string)
    requires IsWord(w) && AllSpace(gap)
    ensures w <= s + gap <==> w <= s
  {
    if |s| < |w| <= |s + gap| { assert IsSpace((s + gap)[|s|]) && !IsSpace(w[|s|]); }
    assert |w| <= |s| ==> (s + gap)[..|w|] == s[..|w|];
  }

  lemma LinkAtTail(s: string, gap: string)
    requires AllSpace(gap) && s != []
    ensures LinkAt(s + gap) == match LinkAt(s) case Some(link) => Some(Link(link.name, link.rest + gap)) case None =>
              None
  {
    hide LinkIn, OPENING;
    OpeningIsWord();
    PrefixTail(OPENING, s, gap);
    if OPENING <= s {
      assert (s + gap)[|OPENING|..] == s[|OPENING|..] + gap;
      LinkInTail(s[|OPENING|..], gap);
    }
  }

  lemma {:induction false} UnlinkedTail(s: string, gap: string)
    requires AllSpace(gap)
    ensures Unlinked(s + gap) == Unlinked(s) + gap
    decreases |s|
  {
    hide LinkAt, Unlinked;
    if s == [] {
      UnlinkedGap(gap, []);
      assert gap + [] == gap && s + gap == gap;
      UnlinkedNothing();
    } else {
      LinkAtTail(s, gap);
      UnlinkedStep(s);
      if gap != [] { UnlinkedStep(s + gap); } else { assert s + gap == s; }
      match LinkAt(s)
      case Some(link) => UnlinkedTail(link.rest, gap);
      case None =>
        assert (s + gap)[1..] == s[1..] + gap;
        UnlinkedTail(s[1..], gap);
    }
  }

  lemma UnlinkedNothing()
    ensures Unlinked([]) == []
  {}

  lemma TrimSplits(s: string) returns (lead: string, trail: string)
    ensures AllSpace(lead) && AllSpace(trail) && s == lead + (Trim(s) + trail)
  {
    var t := TrimStart(s);
    lead, trail := s[..Run(s, true)], t[|TrimEnd(t)|..];
  }

  /** Whitespace around a text adds no words. */
  lemma WordsWithin(lead: string, t: string, trail: string)
    requires AllSpace(lead) && AllSpace(trail)
    ensures WordsOf(lead + (t + trail)) == WordsOf(t)
  {
    NoWords(lead, t + trail);
    if trail == [] {
      assert t + trail == t;
    } else {
      Separated(t, trail, []);
      assert t + trail + [] == t + trail;
    }
  }

  /** The words of a rewritten text are those of its words rewritten on one line exactly if no link vanishes. */
  lemma RewrittenWords(s: string)
    ensures WordsOf(Unlinked(s)) == WordsOf(Unlinked(Glue(WordsOf(s), " "))) <==> !Vanishes(s)
  {
    hide *;
    OneLine(s);
    var u := Trim(Collapse(s));
    var lead, trail := TrimSplits(Collapse(s));
    UnlinkedGap(lead, u + trail);
    UnlinkedTail(u, trail);
    WordsWithin(lead, Unlinked(u), trail);
    if Vanishes(s) {
      InkLost(s);
      InkOfWords(Unlinked(s));
      InkOfWords(Unlinked(Collapse(s)));
    } else {
      Collapses(s);
      AlikeWords(Unlinked(s), Unlinked(Collapse(s)));
    }
  }

  /** A link that holds nothing shows its layout: over a paragraph break it vanishes, on one line it stays. */
  lemma BlankLinkVanishes()
    ensures Unlinked("{@link\n\n}") == "\n" && Vanishes("{@link\n\n}") && !HasLink("{@link }")
  {
    SingleStays();
    BreakAlone();
    assert "{@link\n\n}"[|OPENING|..] == "\n\n}";
    hide HasLink, LinkIn, BlankIn;
    assert Unlinked([]) == [] && "\n" + [] == "\n";
  }

  lemma BreakAlone()
    ensures LinkIn("\n\n}") == Some(Link("\n", [])) && BlankIn("\n\n}")
  {
    var body := "\n\n}";
    RunIs(body, true, 2);
    assert IndexOf(body, '}', 2) == Some(2);
    assert body[1..2] == "\n" && body[3..] == [];
  }

  lemma SingleStays()
    ensures !HasLink("{@link }")
  {
    forall i | 0 <= i < 8 ensures LinkAt("{@link }"[i..]).None? {
      if i == 0 {
        RunIs(" }", true, 1);
        assert "{@link }"[0..][|OPENING|..] == " }";
      } else {
        assert "{@link }"[i..][0] != '{';
      }
    }
  }
}
