/** Numbers as the scripts write them, and as `Number.parseInt` reads them. */
module Decimals {
  import opened Wrappers
  import opened Text
  import opened Numbers

  predicate IsDigit(c: char) { '0' <= c <= '9' }

  function DigitOf(n: nat): (c: char)
    requires n < 10
    ensures IsDigit(c)
  {
    ('0' as int + n) as char
  }

  function ValueOf(c: char): nat
    requires IsDigit(c)
  {
    c as int - '0' as int
  }

  /** The canonical decimal form. */
  function Decimal(n: nat): (s: string)
    ensures s != [] && forall i | 0 <= i < |s| :: IsDigit(s[i])
  {
    if n < 10 then [DigitOf(n)] else Decimal(n / 10) + [DigitOf(n % 10)]
  }

  function Value(s: string): nat
    requires forall i | 0 <= i < |s| :: IsDigit(s[i])
  {
    if s == [] then 0 else 10 * Value(s[..|s| - 1]) + ValueOf(s[|s| - 1])
  }

  /** How many digits `s` begins with. */
  function Digits(s: string): (k: nat)
    ensures k <= |s| && forall i | 0 <= i < k :: IsDigit(s[i])
    ensures k < |s| ==> !IsDigit(s[k])
  {
    if s != [] && IsDigit(s[0]) then 1 + Digits(s[1..]) else 0
  }

  /** `Number.parseInt(s, 10)` before rounding: leading whitespace, a sign, then as many digits as there are. */
  function ParseInt(s: string): Option<int> {
    if s != [] && IsSpace(s[0]) then ParseInt(s[1..])
    else
      var negative := s != [] && s[0] == '-';
      var body := if negative || (s != [] && s[0] == '+') then s[1..] else s;
      if Digits(body) == 0 then None
      else Some(if negative then 0 - Value(body[..Digits(body)]) else Value(body[..Digits(body)]))
  }

  lemma {:induction false} DecimalReadsBack(n: nat)
    ensures Value(Decimal(n)) == n
  {
    if n >= 10 {
      DecimalReadsBack(n / 10);
      assert Decimal(n)[..|Decimal(n)| - 1] == Decimal(n / 10);
    } else {
      assert Decimal(n)[..0] == [];
    }
  }

  lemma {:induction false} DigitsAre(s: string, rest: string)
    requires forall i | 0 <= i < |s| :: IsDigit(s[i])
    requires rest != [] ==> !IsDigit(rest[0])
    ensures Digits(s + rest) == |s| && (s + rest)[..|s|] == s
  {
    if s == [] {
      assert s + rest == rest;
    } else {
      assert (s + rest)[1..] == s[1..] + rest;
      DigitsAre(s[1..], rest);
    }
  }

  /** Written, then read back, a number is itself, whatever follows that is no digit. */
  lemma ParseDecimal(n: nat, rest: string)
    requires rest != [] ==> !IsDigit(rest[0])
    ensures ParseInt(Decimal(n) + rest) == Some(n)
  {
    var s := Decimal(n) + rest;
    DigitsAre(Decimal(n), rest);
    DecimalReadsBack(n);
    assert IsDigit(s[0]);
  }

  /** A decimal followed by a separator determines both the number and what follows. */
  lemma DecimalPrefixFree(m: nat, n: nat, s: string, t: string)
    requires Decimal(m) + ":" + s == Decimal(n) + ":" + t
    ensures m == n && s == t
  {
    assert Decimal(m) + ":" + s == Decimal(m) + (":" + s);
    assert Decimal(n) + ":" + t == Decimal(n) + (":" + t);
    DigitsAre(Decimal(m), ":" + s);
    DigitsAre(Decimal(n), ":" + t);
    DecimalReadsBack(m);
    DecimalReadsBack(n);
    assert ":" + s == (Decimal(m) + (":" + s))[|Decimal(m)|..];
    assert ":" + t == (Decimal(n) + (":" + t))[|Decimal(n)|..];
    assert s == (":" + s)[1..] && t == (":" + t)[1..];
  }

  /** `parsePositiveIntegerOption` on an option that is given; `None` is its error. */
  function PositiveOption(raw: string): Option<nat> {
    match ParseInt(raw)
    case None => None
    case Some(n) => if n < 1 || n > MAX_SAFE_INTEGER || Decimal(n) != raw then None else Some(n)
  }

  /** It accepts exactly the canonical decimals of the positive integers numbers can hold. */
  lemma PositiveExactly(raw: string, n: nat)
    ensures PositiveOption(raw) == Some(n) <==> 1 <= n <= MAX_SAFE_INTEGER && raw == Decimal(n)
  {
    ParseDecimal(n, "");
    assert Decimal(n) + "" == Decimal(n);
  }
}
