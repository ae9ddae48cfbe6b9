/**
 What the syntax of OTEL_ENTITIES tolerates and what it refuses, said of texts: blanks around every part, pieces
 and entities that are skipped, schema URLs that are dropped.
 */
module EntityGrammar {
  import opened AsciiText
  import opened EntityParser
  import opened EntityPrinter

  // ---- characters

  /** Hexadecimal digits of both cases, by code. */
  lemma HexCodes(c: char)
    ensures 48 <= c as int <= 57 ==> HexDigitValue(c) == c as int - 48
    ensures 65 <= c as int <= 70 ==> HexDigitValue(c) == c as int - 65 + 10
    ensures 97 <= c as int <= 102 ==> HexDigitValue(c) == c as int - 97 + 10
    ensures HexDigitValue(c) < 0 <==>
              !(48 <= c as int <= 57 || 65 <= c as int <= 70 || 97 <= c as int <= 102)
  {
  }

  /** Behind the first letter a type also has digits, dots, underscores and hyphens, and nothing else. */
  lemma KindCodes(c: char)
    ensures ValidKind([c]) <==> 65 <= c as int <= 90 || 97 <= c as int <= 122
    ensures ValidKind(['a', c]) <==>
              || 65 <= c as int <= 90 || 97 <= c as int <= 122 || 48 <= c as int <= 57
              || c == '.' || c == '_' || c == '-'
    ensures !ValidKind("")
  {
    ClassCodes(c);
    assert ['a', c][1] == c;
    if ValidKind(['a', c]) { assert KindChar(['a', c][1]); }
  }

  // ---- escapes

  /** `%` and two digits are one byte, the first digit its high half. */
  lemma EscapeDecoded(h: char, l: char, rest: string)
    requires HexDigitValue(h) >= 0 && HexDigitValue(l) >= 0
    ensures var d := PercentDecoded(['%', h, l] + rest);
            d != [] && d[0] as int == 16 * HexDigitValue(h) + HexDigitValue(l) && d[1..] == PercentDecoded(rest)
  {
    var s := ['%', h, l] + rest;
    assert EscapeAt(s, 0) && s[3..] == rest;
  }

  /** Anything else stays: other characters, and `%` where two digits do not follow. */
  lemma LiteralDecoded(c: char, rest: string)
    requires c != '%' || |rest| < 2 || HexDigitValue(rest[0]) < 0 || HexDigitValue(rest[1]) < 0
    ensures PercentDecoded([c] + rest) == [c] + PercentDecoded(rest)
  {
    var s := [c] + rest;
    assert s[1..] == rest;
    if |rest| >= 2 { assert s[1] == rest[0] && s[2] == rest[1]; }
  }

  // ---- key-value pairs

  /** Blanks around key and value do not count. */
  lemma PairSpaced(out: Attributes, a: string, k: string, b: string, c: string, v: string, d: string)
    requires Blank(a) && Blank(b) && Blank(c) && Blank(d) && k != "" && Solid(k) && '=' !in k && Solid(v) && v != ""
    ensures Entered(out, a + (k + b + ['='] + (c + v)) + d) == out[k := PercentDecoded(v)]
  {
    var token := k + b + ['='] + (c + v);
    SolidPair(k, b, c, v);
    TrimmedBetween(a, token, d);
    PairParts(k, b, c, v);
  }

  lemma SolidPair(k: string, b: string, c: string, v: string)
    requires k != "" && Solid(k) && Solid(v) && v != ""
    ensures Solid(k + b + ['='] + (c + v))
  {
    var token := k + b + ['='] + (c + v);
    assert token[0] == k[0] && token[|token| - 1] == v[|v| - 1];
  }

  lemma PairParts(k: string, b: string, c: string, v: string)
    requires Blank(b) && Blank(c) && Solid(k) && '=' !in k && Solid(v)
    ensures var t := k + b + ['='] + (c + v);
            Has(t, '=') && Trimmed(Head(t, '=')) == k && Trimmed(Rest(t, '=')) == v
  {
    BlankHasNot(b, '=');
    CutHere(k + b, '=', c + v);
    assert [] + k + b == k + b && c + v + [] == c + v;
    TrimmedBetween([], k, b);
    TrimmedBetween(c, v, []);
  }

  /** A value may be missing, and is then empty. */
  lemma PairWithoutValue(out: Attributes, k: string)
    requires k != "" && Solid(k) && '=' !in k
    ensures Entered(out, k + ['=']) == out[k := ""]
  {
    var token := k + ['='];
    assert token[0] == k[0] && token[|token| - 1] == '=';
    SolidFixed(token);
    SolidFixed(k);
    CutHere(k, '=', []);
    assert token == k + ['='] + [];
  }

  lemma BlankHasNot(s: string, c: char)
    requires Blank(s) && !IsSpace(c)
    ensures c !in s
  {
  }

  /** Pieces without `=` are skipped. */
  lemma NoEquals(out: Attributes, token: string)
    requires '=' !in token
    ensures Entered(out, token) == out
  {
    TrimmedWithin(token);
    assert '=' !in Trimmed(token);
    CutNowhere(Trimmed(token), '=');
  }

  /** And so are pieces with nothing but blanks before it. */
  lemma NoKey(out: Attributes, a: string, rest: string)
    requires Blank(a) && Solid(['='] + rest)
    ensures Entered(out, a + (['='] + rest)) == out
  {
    TrimmedBetween(a, ['='] + rest, []);
    assert a + (['='] + rest) + [] == a + (['='] + rest);
    CutHere([], '=', rest);
    assert [] + ['='] + rest == ['='] + rest;
  }

  // ---- entities

  /** Blanks around an entity do not count. */
  lemma PieceSpaced(a: string, s: string, b: string)
    requires Blank(a) && Blank(b) && Solid(s)
    ensures Piece(a + s + b) == Piece(s)
  {
    TrimmedBetween(a, s, b);
    SolidFixed(s);
  }

  /** Blanks between the type and the block, and inside the block, do not count. */
  lemma EntitySpaced(kind: string, a: string, b: string, block: string, c: string, tail: string)
    requires ValidKind(kind) && Blank(a) && Blank(b) && Blank(c) && block != "" && Solid(block) && '}' !in block
    ensures EntityOf(kind + a + ['{'] + (b + block + c + ['}'] + tail))
         == EntityOf(kind + ['{'] + (block + ['}'] + tail))
  {
    KindShape(kind);
    BlankHasNot(a, '{');
    BlankHasNot(b, '}');
    BlankHasNot(c, '}');
    CutHere(kind + a, '{', b + block + c + ['}'] + tail);
    assert [] + kind + a == kind + a;
    TrimmedBetween([], kind, a);
    CutHere(b + block + c, '}', tail);
    TrimmedBetween(b, block, c);
    SolidFixed(block);
    EntityText(kind, block, tail);
  }

  /** Entities without a block, with a malformed type, or with a block that does not end, are refused. */
  lemma EntityRefused(head: string, rest: string)
    requires '{' !in head
    ensures EntityOf(head).None?
    ensures !ValidKind(Trimmed(head)) ==> EntityOf(head + ['{'] + rest).None?
    ensures '}' !in rest ==> EntityOf(head + ['{'] + rest).None?
  {
    CutNowhere(head, '{');
    CutHere(head, '{', rest);
    if '}' !in rest { CutNowhere(rest, '}'); }
  }

  /** So are entities without an identifying attribute. */
  lemma NothingIdentified(kind: string, block: string, tail: string)
    requires ValidKind(kind) && '}' !in block && (block == "" || KeyValues(map[], Trimmed(block)) == map[])
    ensures EntityOf(kind + ['{'] + (block + ['}'] + tail)).None?
  {
    KindShape(kind);
    CutHere(kind, '{', block + ['}'] + tail);
    CutHere(block, '}', tail);
    SolidFixed(kind);
  }

  /** A descriptive block that is empty or does not end is refused; text that is no block and no URL is ignored. */
  lemma TailRefused(kind: string, id: Attributes, rest: string)
    ensures ']' !in rest ==> Described(kind, id, ['['] + rest).None?
    ensures Described(kind, id, ['[', ']'] + rest).None?
  {
    assert (['['] + rest)[1..] == rest && (['[', ']'] + rest)[1..] == [] + [']'] + rest;
    if ']' !in rest { CutNowhere(rest, ']'); }
    CutHere([], ']', rest);
  }

  lemma TailIgnored(kind: string, id: Attributes, tail: string)
    requires tail == "" || (tail[0] != '[' && tail[0] != '@')
    ensures Described(kind, id, tail) == Some(Entity(kind, id, map[], ""))
  {
  }

  // ---- schema URLs

  /** Blanks around a URL do not count, and one that is not valid is dropped. */
  lemma UrlSpaced(a: string, url: string, b: string)
    requires Blank(a) && Blank(b) && Solid(url)
    ensures UrlOf(['@'] + (a + url + b)) == if ValidUrl(url) then url else ""
  {
    assert (['@'] + (a + url + b))[1..] == a + url + b;
    TrimmedBetween(a, url, b);
  }

  /** A URL without "://" is valid unless it is empty. */
  lemma RelativeUrl(url: string)
    requires ':' !in url
    ensures ValidUrl(url) <==> url != ""
  {
    assert forall i | 0 <= i < |url| :: url[i] in url;
  }

  /** One with a scheme needs a letter first, then letters, digits and `+`, `-`, `.`, and something behind. */
  lemma AbsoluteUrl(scheme: string, rest: string)
    requires ':' !in scheme
    ensures ValidUrl(scheme + [':', '/', '/'] + rest) <==>
              && scheme != "" && rest != "" && IsAlpha(scheme[0])
              && forall i | 1 <= i < |scheme| ::
                   IsAlnum(scheme[i]) || scheme[i] == '+' || scheme[i] == '-' || scheme[i] == '.'
  {
    var url := scheme + [':', '/', '/'] + rest;
    SchemeFound(scheme, rest);
    if scheme != "" {
      assert url[0] == scheme[0];
      assert forall i | 0 <= i < |scheme| :: url[i] == scheme[i];
    }
  }

  lemma SchemeFound(scheme: string, rest: string)
    requires ':' !in scheme
    ensures SchemeEnd(scheme + [':', '/', '/'] + rest) == |scheme|
  {
    var url := scheme + [':', '/', '/'] + rest;
    assert Slashes(url, |scheme|);
    assert forall i | 0 <= i < |scheme| :: url[i] == scheme[i] && scheme[i] in scheme;
  }
}
