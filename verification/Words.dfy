/** The words of a text, and what joining, collapsing and trimming do to them. */
module Words {
  import opened Sequences
  import opened Text

  /** How many characters at the start of `s` are whitespace, or are not. */
  function Run(s: string, space: bool): (n: nat)
    ensures n <= |s| && forall i | 0 <= i < n :: IsSpace(s[i]) == space
    ensures n < |s| ==> IsSpace(s[n]) != space
  {
    if s != [] && IsSpace(s[0]) == space then 1 + Run(s[1..], space) else 0
  }

  /** The maximal runs of characters that are not whitespace. */
  function WordsOf(s: string): seq<string>
    decreases |s|
  {
    if s == [] then []
    else if IsSpace(s[0]) then WordsOf(s[1..])
    else [s[..Run(s, false)]] + WordsOf(s[Run(s, false)..])
  }

  function AllWords(lines: seq<string>): seq<string> {
    if lines == [] then [] else WordsOf(lines[0]) + AllWords(lines[1..])
  }

  /** `lines.join(sep)`. */
  function Glue(lines: seq<string>, sep: string): string {
    if lines == [] then [] else if |lines| == 1 then lines[0] else lines[0] + sep + Glue(lines[1..], sep)
  }

  /** `s.replace(/\s+/g, ' ')`. */
  function Collapse(s: string): string
    decreases |s|
  {
    if s == [] then []
    else if IsSpace(s[0]) then " " + Collapse(s[Run(s, true)..])
    else [s[0]] + Collapse(s[1..])
  }

  function TrimStart(s: string): string { s[Run(s, true)..] }

  function TrimEnd(s: string): (t: string)
    ensures t <= s && (t != [] ==> !IsSpace(t[|t| - 1]))
    ensures forall i | |t| <= i < |s| :: IsSpace(s[i])
  {
    if s != [] && IsSpace(s[|s| - 1]) then TrimEnd(s[..|s| - 1]) else s
  }

  function Trim(s: string): string { TrimEnd(TrimStart(s)) }

  // ----- Words across whitespace -----

  lemma RunIs(s: string, space: bool, n: nat)
    requires n <= |s| && forall i | 0 <= i < n :: IsSpace(s[i]) == space
    requires n < |s| ==> IsSpace(s[n]) != space
    ensures Run(s, space) == n
  {}

  lemma {:induction false} NoWords(s: string, t: string)
    requires AllSpace(s)
    ensures WordsOf(s + t) == WordsOf(t)
  {
    if s == [] {
      assert s + t == t;
    } else {
      assert (s + t)[1..] == s[1..] + t;
      NoWords(s[1..], t);
    }
  }

  lemma Cons(w: string, ws: seq<string>, vs: seq<string>)
    ensures ([w] + ws) + vs == [w] + (ws + vs)
  {}

  /** Whitespace separates the words before it from those after it. */
  lemma {:induction false} Separated(a: string, sep: string, b: string)
    requires sep != [] && AllSpace(sep)
    ensures WordsOf(a + sep + b) == WordsOf(a) + WordsOf(b)
    decreases |a|
  {
    if a == [] {
      assert a + sep + b == sep + b;
      NoWords(sep, b);
    } else if IsSpace(a[0]) {
      assert (a + sep + b)[1..] == a[1..] + sep + b;
      Separated(a[1..], sep, b);
    } else {
      var n := Run(a, false);
      RunIs(a + sep + b, false, n);
      assert (a + sep + b)[..n] == a[..n];
      assert (a + sep + b)[n..] == a[n..] + sep + b;
      Separated(a[n..], sep, b);
      Cons(a[..n], WordsOf(a[n..]), WordsOf(b));
    }
  }

  lemma {:induction false} GlueKeepsWords(lines: seq<string>, sep: string)
    requires sep != [] && AllSpace(sep)
    ensures WordsOf(Glue(lines, sep)) == AllWords(lines)
  {
    if |lines| == 1 {
      assert AllWords(lines[1..]) == [];
    } else if lines != [] {
      Separated(lines[0], sep, Glue(lines[1..], sep));
      GlueKeepsWords(lines[1..], sep);
    }
  }

  lemma {:induction false} AllWordsConcat(a: seq<string>, b: seq<string>)
    ensures AllWords(a + b) == AllWords(a) + AllWords(b)
  {
    if a == [] {
      assert a + b == b;
    } else {
      assert (a + b)[1..] == a[1..] + b;
      AllWordsConcat(a[1..], b);
      Associate(WordsOf(a[0]), AllWords(a[1..]), AllWords(b));
    }
  }

  predicate IsWord(w: string) { w != [] && forall i | 0 <= i < |w| :: !IsSpace(w[i]) }

  lemma {:induction false} AreWords(s: string)
    ensures forall w | w in WordsOf(s) :: IsWord(w)
    decreases |s|
  {
    if s != [] {
      if IsSpace(s[0]) { AreWords(s[1..]); } else { AreWords(s[Run(s, false)..]); }
    }
  }

  lemma {:induction false} WordsOfWords(ws: seq<string>)
    requires forall w | w in ws :: IsWord(w)
    ensures AllWords(ws) == ws
  {
    hide IsWord, WordsOf;
    if ws != [] {
      assert IsWord(ws[0]);
      OneWord(ws[0]);
      WordsOfWords(ws[1..]);
    }
  }

  lemma OneWord(w: string)
    requires IsWord(w)
    ensures WordsOf(w) == [w]
  {
    RunIs(w, false, |w|);
    assert w[..|w|] == w && w[|w|..] == [];
  }

  // ----- Collapsing to one line -----

  lemma {:induction false} CollapseWord(w: string, rest: string)
    requires forall i | 0 <= i < |w| :: !IsSpace(w[i])
    ensures Collapse(w + rest) == w + Collapse(rest)
  {
    if w == [] {
      assert w + rest == rest;
    } else {
      assert (w + rest)[1..] == w[1..] + rest;
      CollapseWord(w[1..], rest);
    }
  }

  lemma {:induction false} TrimEndIs(s: string, t: string)
    requires t <= s && (t != [] ==> !IsSpace(t[|t| - 1]))
    requires forall i | |t| <= i < |s| :: IsSpace(s[i])
    ensures TrimEnd(s) == t
  {
    if |t| < |s| {
      TrimEndIs(s[..|s| - 1], t);
    }
  }

  lemma TrimAfterWord(w: string, more: string)
    requires IsWord(w)
    ensures TrimEnd(w) == w
    ensures TrimEnd(w + (" " + more)) == if TrimEnd(more) == [] then w else w + " " + TrimEnd(more)
  {
    TrimEndIs(w, w);
    var t := TrimEnd(more);
    if t == [] {
      TrimEndIs(w + (" " + more), w);
    } else {
      assert w + (" " + t) == w + " " + t;
      TrimEndIs(w + (" " + more), w + (" " + t));
    }
  }

  lemma CollapseGap(s: string)
    requires s != [] && IsSpace(s[0])
    ensures Collapse(s) == " " + Collapse(TrimStart(s)) && WordsOf(s) == WordsOf(TrimStart(s))
    ensures |TrimStart(s)| < |s| && (TrimStart(s) != [] ==> !IsSpace(TrimStart(s)[0]))
  {
    var n := Run(s, true);
    NoWords(s[..n], s[n..]);
    assert s[..n] + s[n..] == s;
  }

  lemma FirstWord(s: string)
    requires s != [] && !IsSpace(s[0])
    ensures IsWord(s[..Run(s, false)])
    ensures Collapse(s) == s[..Run(s, false)] + Collapse(s[Run(s, false)..])
  {
    var n := Run(s, false);
    assert s == s[..n] + s[n..];
    CollapseWord(s[..n], s[n..]);
  }

  /** Collapsing from a word on, then trimming, leaves the words with one blank between two. */
  lemma {:induction false} CollapseFrom(s: string)
    requires s != [] ==> !IsSpace(s[0])
    ensures TrimEnd(Collapse(s)) == Glue(WordsOf(s), " ")
    ensures s != [] ==> WordsOf(s) != [] && Glue(WordsOf(s), " ") != []
    decreases |s|
  {
    hide Collapse, TrimEnd, TrimStart, Glue;
    if s == [] {
      CollapseNothing();
    } else {
      FirstWord(s);
      var w, rest := s[..Run(s, false)], s[Run(s, false)..];
      if rest == [] {
        CollapseNothing();
        assert w + [] == w;
        TrimAfterWord(w, []);
        GlueFirst(w, []);
      } else {
        CollapseGap(rest);
        CollapseFrom(TrimStart(rest));
        TrimAfterWord(w, Collapse(TrimStart(rest)));
        GlueFirst(w, WordsOf(TrimStart(rest)));
        CollapseNothing();
      }
    }
  }

  lemma CollapseNothing()
    ensures Collapse([]) == [] && TrimEnd([]) == [] && Glue([], " ") == []
  {}

  lemma GlueFirst(w: string, ws: seq<string>)
    requires w != []
    ensures Glue([w] + ws, " ") == if ws == [] then w else w + " " + Glue(ws, " ")
    ensures Glue([w] + ws, " ") != []
  {
    assert ([w] + ws)[1..] == ws;
  }

  lemma CollapseSkips(s: string)
    ensures TrimStart(Collapse(s)) == Collapse(TrimStart(s))
    ensures WordsOf(TrimStart(s)) == WordsOf(s)
  {
    var n := Run(s, true);
    NoWords(s[..n], s[n..]);
    assert s[..n] + s[n..] == s;
    var c := Collapse(s[n..]);
    if n == 0 {
      assert s[0..] == s;
      RunIs(Collapse(s), true, 0);
    } else {
      RunIs(" " + c, true, 1);
    }
  }

  /** Collapsing whitespace and trimming leaves exactly the words, one blank between two. */
  lemma OneLine(s: string)
    ensures Trim(Collapse(s)) == Glue(WordsOf(s), " ")
    ensures WordsOf(Trim(Collapse(s))) == WordsOf(s)
  {
    CollapseSkips(s);
    CollapseFrom(TrimStart(s));
    AreWords(s);
    GlueKeepsWords(WordsOf(s), " ");
    WordsOfWords(WordsOf(s));
  }

  lemma TrimKeepsWords(s: string)
    ensures WordsOf(Trim(s)) == WordsOf(s)
  {
    CollapseSkips(s);
    var t := TrimStart(s);
    var u := TrimEnd(t);
    assert t == u + t[|u|..];
    if |u| < |t| {
      Separated(u, t[|u|..], []);
      assert u + t[|u|..] + [] == t;
    }
  }

  // ----- Characters that are not whitespace -----

  function Ink(s: string): nat {
    if s == [] then 0 else (if IsSpace(s[0]) then 0 else 1) + Ink(s[1..])
  }

  lemma {:induction false} InkConcat(a: string, b: string)
    ensures Ink(a + b) == Ink(a) + Ink(b)
  {
    if a == [] {
      assert a + b == b;
    } else {
      assert (a + b)[1..] == a[1..] + b;
      InkConcat(a[1..], b);
    }
  }

  lemma {:induction false} InkOfRun(s: string, space: bool)
    requires forall i | 0 <= i < |s| :: IsSpace(s[i]) == space
    ensures Ink(s) == if space then 0 else |s|
  {
    if s != [] { InkOfRun(s[1..], space); }
  }

  function Letters(ws: seq<string>): nat {
    if ws == [] then 0 else |ws[0]| + Letters(ws[1..])
  }

  /** They are the letters of its words. */
  lemma {:induction false} InkOfWords(s: string)
    ensures Ink(s) == Letters(WordsOf(s))
    decreases |s|
  {
    if s != [] {
      if IsSpace(s[0]) {
        InkOfWords(s[1..]);
      } else {
        var n := Run(s, false);
        assert s == s[..n] + s[n..];
        InkConcat(s[..n], s[n..]);
        InkOfRun(s[..n], false);
        InkOfWords(s[n..]);
      }
    }
  }
}
