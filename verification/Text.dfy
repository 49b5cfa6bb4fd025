/** Whitespace, searching and splitting as the scripts use them. */
module Text {
  import opened Wrappers

  /** What `\s` and `trim` take for whitespace (section 12.2 of ECMA-262, and its line terminators). */
  predicate IsSpace(c: char) {
    || c == '\t' || c == '\n' || c == '\U{0b}' || c == '\U{0c}' || c == '\r' || c == ' ' || c == '\U{a0}'
    || c == '\U{1680}' || '\U{2000}' <= c <= '\U{200a}' || c == '\U{2028}' || c == '\U{2029}'
    || c == '\U{202f}' || c == '\U{205f}' || c == '\U{3000}' || c == '\U{feff}'
  }

  /** By code point, in ASCII and beyond. */
  lemma SpacesExactly(c: char)
    ensures c as int < 0x80 ==> (IsSpace(c) <==> 9 <= c as int <= 13 || c as int == 32)
    ensures c as int >= 0x80 ==>
              (IsSpace(c) <==> c as int in {0xa0, 0x1680, 0x2028, 0x2029, 0x202f, 0x205f, 0x3000, 0xfeff}
                                               || 0x2000 <= c as int <= 0x200a)
  {}

  predicate AllSpace(s: string) { forall i | 0 <= i < |s| :: IsSpace(s[i]) }

  // ----- Searching and splitting -----

  /** `s.indexOf(c, from)`. */
  function IndexOf(s: string, c: char, from: nat): (i: Option<nat>)
    ensures i.Some? ==> from <= i.value < |s| && s[i.value] == c
    ensures forall j | from <= j < (if i.Some? then i.value else |s|) :: s[j] != c
    decreases |s| - from
  {
    if from >= |s| then None else if s[from] == c then Some(from) else IndexOf(s, c, from + 1)
  }

  /** `text.split(sep)`. */
  function Split(text: string, sep: char): (parts: seq<string>)
    ensures parts != []
  {
    if text == "" then [""]
    else
      var rest := Split(text[1..], sep);
      if text[0] == sep then [""] + rest else [[text[0]] + rest[0]] + rest[1..]
  }

  lemma {:induction false} SplitWhole(t: string, sep: char)
    requires sep !in t
    ensures Split(t, sep) == [t]
  {
    if t != "" {
      SplitWhole(t[1..], sep);
      assert t == [t[0]] + t[1..];
    }
  }

  lemma SplitStep(s: string, sep: char)
    requires s != ""
    ensures Split(s, sep) == if s[0] == sep then [""] + Split(s[1..], sep)
                             else [[s[0]] + Split(s[1..], sep)[0]] + Split(s[1..], sep)[1..]
  { }

  lemma {:induction false} SplitAppend(s: string, t: string, sep: char)
    requires sep !in t
    ensures var cs := Split(s, sep); Split(s + t, sep) == cs[..|cs| - 1] + [cs[|cs| - 1] + t]
  {
    if s == "" {
      SplitWhole(t, sep);
      assert "" + t == t;
    } else {
      hide *;
      SplitAppend(s[1..], t, sep);
      assert (s + t)[1..] == s[1..] + t;
      SplitStep(s, sep);
      SplitStep(s + t, sep);
      LastAppend(Split(s[1..], sep), s[0], t);
    }
  }

  lemma LastAppend(cs: seq<string>, c: char, t: string)
    requires cs != []
    ensures var ds, es := cs[..|cs| - 1] + [cs[|cs| - 1] + t], [[c] + cs[0]] + cs[1..];
            [[c] + ds[0]] + ds[1..] == es[..|es| - 1] + [es[|es| - 1] + t]
    ensures var ds, es := cs[..|cs| - 1] + [cs[|cs| - 1] + t], [""] + cs;
            [""] + ds == es[..|es| - 1] + [es[|es| - 1] + t]
  {
    if |cs| == 1 {
      assert [c] + (cs[0] + t) == [c] + cs[0] + t;
    }
  }

  lemma {:induction false} SplitBetween(s: string, t: string, sep: char)
    ensures Split(s + [sep] + t, sep) == Split(s, sep) + Split(t, sep)
  {
    hide *;
    if s == "" {
      SplitFirst(t, sep);
      assert s + [sep] + t == [sep] + t;
    } else {
      SplitBetween(s[1..], t, sep);
      assert (s + [sep] + t)[1..] == s[1..] + [sep] + t && (s + [sep] + t)[0] == s[0];
      SplitStep(s, sep);
      SplitStep(s + [sep] + t, sep);
      FirstConcat(Split(s[1..], sep), Split(t, sep), s[0]);
    }
  }

  lemma SplitFirst(t: string, sep: char)
    ensures Split([sep] + t, sep) == Split("", sep) + Split(t, sep)
  {
    assert ([sep] + t)[1..] == t;
  }

  lemma FirstConcat(rest: seq<string>, more: seq<string>, c: char)
    requires rest != []
    ensures [""] + (rest + more) == [""] + rest + more
    ensures [[c] + (rest + more)[0]] + (rest + more)[1..] == [[c] + rest[0]] + rest[1..] + more
  { }

  lemma {:induction false} SplitMany(t: string, sep: char)
    requires sep in t
    ensures |Split(t, sep)| > 1
  {
    if t[0] != sep { SplitMany(t[1..], sep); }
  }
}
