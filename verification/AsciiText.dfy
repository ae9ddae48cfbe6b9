/** The character classes of protocol text, trimming, and searching for one character. */
module AsciiText {

  predicate IsDigit(c: char) { '0' <= c <= '9' }

  predicate IsAlpha(c: char) { 'a' <= c <= 'z' || 'A' <= c <= 'Z' }

  predicate IsAlnum(c: char) { IsAlpha(c) || IsDigit(c) }

  predicate IsSpace(c: char) { c == ' ' || '\t' <= c <= '\r' }

  /** The classes by character code. */
  lemma ClassCodes(c: char)
    ensures IsDigit(c) <==> 48 <= c as int <= 57
    ensures IsAlpha(c) <==> 65 <= c as int <= 90 || 97 <= c as int <= 122
    ensures IsAlnum(c) <==> 48 <= c as int <= 57 || 65 <= c as int <= 90 || 97 <= c as int <= 122
    ensures IsSpace(c) <==> c as int == 32 || 9 <= c as int <= 13
  {
  }

  /** Every character of `t` is one of `s`. */
  predicate Within(t: string, s: string) {
    forall c | c in t :: c in s
  }

  /** Neither begins nor ends with a blank. */
  predicate Solid(s: string) {
    s != [] ==> !IsSpace(s[0]) && !IsSpace(s[|s| - 1])
  }

  predicate Blank(s: string) {
    forall c | c in s :: IsSpace(c)
  }

  // ---- trimming

  function TrimLeft(s: string): string {
    if s != [] && IsSpace(s[0]) then TrimLeft(s[1..]) else s
  }

  function TrimRight(s: string): string {
    if s != [] && IsSpace(s[|s| - 1]) then TrimRight(s[..|s| - 1]) else s
  }

  function Trimmed(s: string): string {
    TrimRight(TrimLeft(s))
  }

  lemma {:induction false} TrimLeftLaw(s: string)
    ensures var t := TrimLeft(s);
            |t| <= |s| && s[|s| - |t|..] == t && Blank(s[..|s| - |t|]) && (t != [] ==> !IsSpace(t[0]))
  {
    if s != [] && IsSpace(s[0]) {
      TrimLeftLaw(s[1..]);
      var t := TrimLeft(s);
      assert s[..|s| - |t|] == [s[0]] + s[1..][..|s| - 1 - |t|];
    }
  }

  lemma {:induction false} TrimRightLaw(s: string)
    ensures var t := TrimRight(s);
            |t| <= |s| && s[..|t|] == t && Blank(s[|t|..]) && (t != [] ==> !IsSpace(t[|t| - 1]))
  {
    if s != [] && IsSpace(s[|s| - 1]) {
      TrimRightLaw(s[..|s| - 1]);
      var t := TrimRight(s);
      assert s[|t|..] == s[..|s| - 1][|t|..] + [s[|s| - 1]];
    }
  }

  /** Trimming takes blanks off both ends until the ends are not blank, and nothing else. */
  lemma TrimmedLaw(s: string) returns (before: string, after: string)
    ensures s == before + Trimmed(s) + after
    ensures Blank(before) && Blank(after) && Solid(Trimmed(s))
  {
    var l := TrimLeft(s);
    TrimLeftLaw(s);
    TrimRightLaw(l);
    before, after := s[..|s| - |l|], l[|Trimmed(s)|..];
    assert l == Trimmed(s) + after && s == before + l;
  }

  lemma TrimmedWithin(s: string)
    ensures Within(Trimmed(s), s) && Solid(Trimmed(s)) && |Trimmed(s)| <= |s|
  {
    var before, after := TrimmedLaw(s);
  }

  lemma {:induction false} BlankBefore(a: string, s: string)
    requires Blank(a)
    ensures TrimLeft(a + s) == TrimLeft(s)
  {
    if a == [] {
      assert a + s == s;
    } else {
      assert a[0] in a && (a + s)[1..] == a[1..] + s;
      assert Blank(a[1..]) by { forall c | c in a[1..] ensures IsSpace(c) { assert c in a; } }
      BlankBefore(a[1..], s);
    }
  }

  lemma {:induction false} BlankBehind(s: string, b: string)
    requires Blank(b)
    ensures TrimRight(s + b) == TrimRight(s)
    decreases |b|
  {
    if b == [] {
      assert s + b == s;
    } else {
      var last := b[|b| - 1];
      assert last in b && (s + b)[..|s + b| - 1] == s + b[..|b| - 1];
      assert Blank(b[..|b| - 1]) by { forall c | c in b[..|b| - 1] ensures IsSpace(c) { assert c in b; } }
      BlankBehind(s, b[..|b| - 1]);
    }
  }

  /** Text that does not begin or end with a blank is what is left of it between any blanks. */
  lemma TrimmedBetween(a: string, s: string, b: string)
    requires Blank(a) && Blank(b) && Solid(s)
    ensures Trimmed(a + s + b) == s
  {
    assert a + s + b == a + (s + b);
    BlankBefore(a, s + b);
    if s == [] {
      assert s + b == b;
      BlankBefore(b, []);
      assert b + [] == b;
    } else {
      assert (s + b)[0] == s[0];
      BlankBehind(s, b);
    }
  }

  lemma SolidFixed(s: string)
    requires Solid(s)
    ensures Trimmed(s) == s
  {
  }

  lemma TrimNext(s: string, i: nat)
    requires i < |s| && IsSpace(s[i])
    ensures TrimLeft(s[i..]) == TrimLeft(s[i + 1..])
  {
    assert s[i..][1..] == s[i + 1..];
  }

  method Trim(s: string) returns (r: string)
    ensures r == Trimmed(s)
  {
    var left, right := 0, |s| - 1;
    assert s[0..] == s;
    while left <= right && IsSpace(s[left])
      invariant 0 <= left <= |s| && TrimLeft(s) == TrimLeft(s[left..])
    {
      TrimNext(s, left);
      left := left + 1;
    }
    assert s[left..] == s[left..right + 1];
    while left <= right && IsSpace(s[right])
      invariant left - 1 <= right < |s| && TrimRight(s[left..]) == TrimRight(s[left..right + 1])
    {
      assert s[left..right + 1][..right - left] == s[left..right];
      right := right - 1;
    }
    r := s[left..right + 1];
  }

  // ---- searching

  /** The length of the text before the first `c`, or of the whole text. */
  function Upto(s: string, c: char): (n: nat)
    ensures n <= |s|
  {
    if s == [] || s[0] == c then 0 else 1 + Upto(s[1..], c)
  }

  lemma {:induction false} UptoFirst(s: string, c: char)
    ensures forall i | 0 <= i < Upto(s, c) :: s[i] != c
    ensures Upto(s, c) < |s| ==> s[Upto(s, c)] == c
  {
    if s != [] && s[0] != c { UptoFirst(s[1..], c); }
  }

  predicate Has(s: string, c: char) { Upto(s, c) < |s| }

  /** The text before the first `c`. */
  function Head(s: string, c: char): string { s[..Upto(s, c)] }

  /** The text behind the first `c`. */
  function Rest(s: string, c: char): (t: string)
    ensures s != "" ==> |t| < |s|
  {
    if Has(s, c) then s[Upto(s, c) + 1..] else ""
  }

  /** A first occurrence is found where it was put. */
  lemma CutHere(a: string, c: char, b: string)
    requires c !in a
    ensures var s := a + [c] + b; Has(s, c) && Head(s, c) == a && Rest(s, c) == b
  {
    var s := a + [c] + b;
    var n := Upto(s, c);
    UptoFirst(s, c);
    assert s[|a|] == c;
    assert n == |a|;
  }

  lemma CutNowhere(s: string, c: char)
    requires c !in s
    ensures !Has(s, c) && Head(s, c) == s && Rest(s, c) == ""
  {
    UptoFirst(s, c);
    assert s[..|s|] == s;
  }

  /** How a text is cut when more follows behind another `c`. */
  lemma CutLonger(a: string, c: char, b: string)
    ensures var s := a + [c] + b;
            Has(s, c) && Head(s, c) == Head(a, c) && Rest(s, c) == if Has(a, c) then Rest(a, c) + [c] + b else b
  {
    var n := Upto(a, c);
    UptoFirst(a, c);
    if n == |a| {
      assert a[..n] == a;
      CutHere(a, c, b);
    } else {
      var more := a[n + 1..] + [c] + b;
      assert a + [c] + b == a[..n] + [c] + more;
      CutHere(a[..n], c, more);
    }
  }

  lemma CutWithin(s: string, c: char)
    ensures Within(Head(s, c), s) && Within(Rest(s, c), s) && c !in Head(s, c)
  {
    UptoFirst(s, c);
  }
}
