/**
 Writing entities in the syntax of OTEL_ENTITIES, and what the parser makes of the text: it gives back
 every list of well-formed entities, and it gives nothing but well-formed entities.
 */
module EntityPrinter {
  import opened AsciiText
  import opened EntityParser

  // ---- well-formed entities

  /** A key of a block that ends with `close`. */
  predicate GoodKey(k: string, close: char) {
    k != "" && Solid(k) && Bytes(k) && '=' !in k && ',' !in k && ';' !in k && close !in k
  }

  predicate GoodAttributes(m: Attributes, close: char) {
    forall k | k in m :: GoodKey(k, close) && Bytes(m[k])
  }

  predicate GoodUrl(url: string) {
    url != "" ==> ValidUrl(url) && Solid(url) && Bytes(url) && ';' !in url
  }

  predicate GoodEntity(e: Entity) {
    && ValidKind(e.kind) && e.id != map[] && GoodAttributes(e.id, '}') && GoodAttributes(e.desc, ']') && GoodUrl(e.url)
  }

  // ---- printing

  /** An entity and the order in which its attributes are written; a key may be written twice. */
  datatype Layout = Layout(entity: Entity, ids: seq<string>, descs: seq<string>)

  ghost predicate Lists(ks: seq<string>, m: Attributes) {
    forall k :: k in ks <==> k in m
  }

  ghost predicate GoodLayout(l: Layout) {
    GoodEntity(l.entity) && Lists(l.ids, l.entity.id) && Lists(l.descs, l.entity.desc)
  }

  ghost predicate GoodLayouts(ls: seq<Layout>) {
    forall i | 0 <= i < |ls| :: GoodLayout(ls[i])
  }

  predicate Covered(ks: seq<string>, m: Attributes, close: char) {
    forall i | 0 <= i < |ks| :: ks[i] in m && GoodKey(ks[i], close) && Bytes(m[ks[i]])
  }

  function PrintPair(k: string, v: string): string
    requires Bytes(v)
  {
    k + ['='] + PercentEncoded(v)
  }

  function PrintPairs(ks: seq<string>, m: Attributes, close: char): string
    requires Covered(ks, m, close)
  {
    if ks == [] then ""
    else if |ks| == 1 then PrintPair(ks[0], m[ks[0]])
    else PrintPair(ks[0], m[ks[0]]) + [','] + PrintPairs(ks[1..], m, close)
  }

  function PrintUrl(url: string): string {
    if url == "" then "" else ['@'] + url
  }

  ghost function PrintTail(l: Layout): string
    requires GoodLayout(l)
  {
    if l.entity.desc == map[] then PrintUrl(l.entity.url)
    else ['['] + (PrintPairs(l.descs, l.entity.desc, ']') + [']'] + PrintUrl(l.entity.url))
  }

  ghost function PrintEntity(l: Layout): string
    requires GoodLayout(l)
  {
    l.entity.kind + ['{'] + (PrintPairs(l.ids, l.entity.id, '}') + ['}'] + PrintTail(l))
  }

  lemma Nonempty(ks: seq<string>, m: Attributes)
    requires Lists(ks, m) && m != map[]
    ensures ks != []
  {
    var k :| k in m;
    assert k in ks;
  }

  ghost function PrintAll(ls: seq<Layout>): string
    requires GoodLayouts(ls)
  {
    if ls == [] then ""
    else if |ls| == 1 then PrintEntity(ls[0])
    else PrintEntity(ls[0]) + [';'] + PrintAll(ls[1..])
  }

  function EntitiesOf(ls: seq<Layout>): (es: seq<Entity>)
    ensures |es| == |ls|
  {
    if ls == [] then [] else [ls[0].entity] + EntitiesOf(ls[1..])
  }

  // ---- the shape of printed text

  /** Not a character that the printer writes into a value or between pairs. */
  predicate Delimiter(c: char) { c == ';' || c == '}' || c == ']' }

  lemma EncodedShape(v: string)
    requires Bytes(v)
    ensures var s := PercentEncoded(v);
            Solid(s) && Bytes(s) && ',' !in s && forall c | Delimiter(c) :: c !in s
  {
    var s := PercentEncoded(v);
    forall i | 0 <= i < |s| ensures Harmless(s[i]) { HarmlessValue(s[i]); }
  }

  predicate Harmless(c: char) { !IsSpace(c) && c as int < 256 && c != ',' && !Delimiter(c) }

  lemma HarmlessValue(c: char)
    requires Unreserved(c) || c == '%'
    ensures Harmless(c)
  {
  }

  lemma PairShape(k: string, v: string, close: char)
    requires GoodKey(k, close) && Bytes(v) && Delimiter(close)
    ensures var s := PrintPair(k, v);
            s != "" && Solid(s) && Bytes(s) && ',' !in s && ';' !in s && close !in s
  {
    EncodedShape(v);
    var s, t := PrintPair(k, v), PercentEncoded(v);
    assert s[0] == k[0];
    assert s[|s| - 1] == if t == "" then '=' else t[|t| - 1];
  }

  lemma {:induction false} PairsShape(ks: seq<string>, m: Attributes, close: char)
    requires ks != [] && Covered(ks, m, close) && Delimiter(close)
    ensures var s := PrintPairs(ks, m, close);
            s != "" && Solid(s) && Bytes(s) && ';' !in s && close !in s
  {
    PairShape(ks[0], m[ks[0]], close);
    if |ks| > 1 {
      PairsShape(ks[1..], m, close);
      SolidJoined(PrintPair(ks[0], m[ks[0]]), ',', PrintPairs(ks[1..], m, close));
    }
  }

  lemma SolidJoined(a: string, c: char, b: string)
    requires a != "" && b != "" && Solid(a) && Solid(b) && Bytes(a) && Bytes(b) && c as int < 256
    ensures Solid(a + [c] + b) && Bytes(a + [c] + b)
  {
    var s := a + [c] + b;
    assert s[0] == a[0] && s[|s| - 1] == b[|b| - 1];
  }

  /** Text without a semicolon, and its end. */
  predicate Line(s: string) { Bytes(s) && ';' !in s }

  predicate SolidEnd(s: string) { s == "" || !IsSpace(s[|s| - 1]) }

  lemma LineJoined(a: string, c: char, b: string)
    requires Line(a) && Line(b) && c as int < 256 && c != ';' && !IsSpace(c) && SolidEnd(b)
    ensures var s := a + [c] + b; Line(s) && SolidEnd(s) && s != "" && (a != "" ==> s[0] == a[0])
  {
    var s := a + [c] + b;
    assert s[|s| - 1] == if b == "" then c else b[|b| - 1];
  }

  // ---- reading it back

  lemma PairEntered(out: Attributes, k: string, v: string, close: char)
    requires GoodKey(k, close) && Bytes(v) && Delimiter(close)
    ensures Entered(out, PrintPair(k, v)) == out[k := v]
  {
    var t := PercentEncoded(v);
    PairShape(k, v, close);
    SolidFixed(PrintPair(k, v));
    CutHere(k, '=', t);
    SolidFixed(k);
    EncodedShape(v);
    SolidFixed(t);
    PercentRoundTrip(v);
  }

  function Assigned(out: Attributes, ks: seq<string>, m: Attributes): Attributes
    requires forall i | 0 <= i < |ks| :: ks[i] in m
    decreases |ks|
  {
    if ks == [] then out else Assigned(out[ks[0] := m[ks[0]]], ks[1..], m)
  }

  lemma {:induction false} AssignedAt(out: Attributes, ks: seq<string>, m: Attributes, k: string)
    requires forall i | 0 <= i < |ks| :: ks[i] in m
    ensures var r := Assigned(out, ks, m);
            && (k in r <==> k in ks || k in out)
            && (k in ks ==> r[k] == m[k]) && (k !in ks && k in out ==> r[k] == out[k])
    decreases |ks|
  {
    if ks != [] {
      AssignedAt(out[ks[0] := m[ks[0]]], ks[1..], m, k);
    }
  }

  lemma AssignedAll(ks: seq<string>, m: Attributes)
    requires Lists(ks, m)
    ensures Assigned(map[], ks, m) == m
  {
    forall k ensures k in Assigned(map[], ks, m) <==> k in m { AssignedAt(map[], ks, m, k); }
    forall k | k in m ensures Assigned(map[], ks, m)[k] == m[k] { AssignedAt(map[], ks, m, k); }
  }

  lemma {:induction false} PairsEntered(out: Attributes, ks: seq<string>, m: Attributes, close: char)
    requires ks != [] && Covered(ks, m, close) && Delimiter(close)
    ensures KeyValues(out, PrintPairs(ks, m, close)) == Assigned(out, ks, m)
    decreases |ks|
  {
    var first, more := PrintPair(ks[0], m[ks[0]]), out[ks[0] := m[ks[0]]];
    PairShape(ks[0], m[ks[0]], close);
    PairEntered(out, ks[0], m[ks[0]], close);
    CutNowhere(first, ',');
    assert KeyValues(out, first) == more;
    if |ks| > 1 {
      KeyValuesConcat(out, first, PrintPairs(ks[1..], m, close));
      PairsEntered(more, ks[1..], m, close);
    }
  }

  lemma BlockRead(ks: seq<string>, m: Attributes, close: char)
    requires Lists(ks, m) && m != map[] && GoodAttributes(m, close) && Delimiter(close)
    ensures ks != [] && Covered(ks, m, close)
    ensures var s := PrintPairs(ks, m, close);
            && s != "" && Bytes(s) && ';' !in s && close !in s
            && KeyValues(map[], Trimmed(s)) == m
  {
    Nonempty(ks, m);
    PairsShape(ks, m, close);
    SolidFixed(PrintPairs(ks, m, close));
    PairsEntered(map[], ks, m, close);
    AssignedAll(ks, m);
  }

  lemma UrlRead(url: string)
    requires GoodUrl(url)
    ensures var s := PrintUrl(url);
            && UrlOf(s) == url && Line(s) && SolidEnd(s) && (s != "" ==> s[0] == '@')
  {
    if url != "" {
      var s := PrintUrl(url);
      assert s[1..] == url && s[|s| - 1] == url[|url| - 1];
      SolidFixed(url);
    }
  }

  lemma DescribedText(kind: string, id: Attributes, block: string, tail: string)
    requires block != "" && ']' !in block
    ensures Described(kind, id, ['['] + (block + [']'] + tail))
         == Some(Entity(kind, id, KeyValues(map[], Trimmed(block)), UrlOf(tail)))
  {
    var s := ['['] + (block + [']'] + tail);
    assert s[1..] == block + [']'] + tail;
    CutHere(block, ']', tail);
  }

  lemma EntityText(kind: string, block: string, tail: string)
    requires ValidKind(kind) && block != "" && '}' !in block
    ensures var id := KeyValues(map[], Trimmed(block));
            EntityOf(kind + ['{'] + (block + ['}'] + tail)) == if id == map[] then None else Described(kind, id, tail)
  {
    KindShape(kind);
    SolidFixed(kind);
    CutHere(kind, '{', block + ['}'] + tail);
    CutHere(block, '}', tail);
  }

  lemma TailShape(block: string, tail: string)
    requires Line(block) && Line(tail) && SolidEnd(tail)
    ensures var s := ['['] + (block + [']'] + tail); Line(s) && SolidEnd(s)
  {
    LineJoined(block, ']', tail);
    LineJoined("", '[', block + [']'] + tail);
    assert ['['] + (block + [']'] + tail) == "" + ['['] + (block + [']'] + tail);
  }

  lemma TailRead(l: Layout, id: Attributes)
    requires GoodLayout(l)
    ensures Described(l.entity.kind, id, PrintTail(l)) == Some(Entity(l.entity.kind, id, l.entity.desc, l.entity.url))
    ensures Line(PrintTail(l)) && SolidEnd(PrintTail(l))
  {
    var e := l.entity;
    UrlRead(e.url);
    if e.desc != map[] {
      BlockRead(l.descs, e.desc, ']');
      var block := PrintPairs(l.descs, e.desc, ']');
      DescribedText(e.kind, id, block, PrintUrl(e.url));
      TailShape(block, PrintUrl(e.url));
    }
  }

  lemma KindShape(kind: string)
    requires ValidKind(kind)
    ensures Solid(kind) && Line(kind) && '{' !in kind
  {
    forall i | 0 <= i < |kind|
      ensures !IsSpace(kind[i]) && kind[i] as int < 256 && kind[i] != ';' && kind[i] != '{'
    {
      KindCharShape(kind[i]);
    }
  }

  lemma KindCharShape(c: char)
    requires IsAlpha(c) || KindChar(c)
    ensures !IsSpace(c) && c as int < 256 && c != ';' && c != '{'
  {
  }

  lemma EntityShape(kind: string, block: string, tail: string)
    requires ValidKind(kind) && Line(block) && Line(tail) && SolidEnd(tail)
    ensures var s := kind + ['{'] + (block + ['}'] + tail); Line(s) && Solid(s) && s != ""
  {
    KindShape(kind);
    LineJoined(block, '}', tail);
    LineJoined(kind, '{', block + ['}'] + tail);
  }

  lemma EntityRead(l: Layout)
    requires GoodLayout(l)
    ensures EntityOf(PrintEntity(l)) == Some(l.entity)
    ensures Line(PrintEntity(l)) && Solid(PrintEntity(l)) && PrintEntity(l) != ""
  {
    BlockRead(l.ids, l.entity.id, '}');
    TailRead(l, l.entity.id);
    var block := PrintPairs(l.ids, l.entity.id, '}');
    EntityText(l.entity.kind, block, PrintTail(l));
    EntityShape(l.entity.kind, block, PrintTail(l));
  }

  lemma OneRead(l: Layout)
    requires GoodLayout(l)
    ensures Parsed(PrintEntity(l)) == [l.entity] && Bytes(PrintEntity(l))
  {
    var s := PrintEntity(l);
    EntityRead(l);
    SolidFixed(s);
    CutNowhere(s, ';');
    assert Parsed("") == [];
  }

  lemma TwoRead(a: string, b: string)
    requires Bytes(a) && Bytes(b)
    ensures Parsed(a + [';'] + b) == Parsed(a) + Parsed(b) && Bytes(a + [';'] + b)
  {
    ParsedConcat(a, b);
    BytesJoined(a, ';', b);
  }

  lemma BytesJoined(a: string, c: char, b: string)
    requires Bytes(a) && Bytes(b) && c as int < 256
    ensures Bytes(a + [c] + b)
  {
  }

  /** The parser gives back every list of well-formed entities, in whatever order their attributes are written. */
  lemma {:induction false} RoundTrip(ls: seq<Layout>)
    requires GoodLayouts(ls)
    ensures Parsed(PrintAll(ls)) == EntitiesOf(ls) && Bytes(PrintAll(ls))
  {
    if ls != [] {
      OneRead(ls[0]);
      if |ls| > 1 {
        RoundTrip(ls[1..]);
        TwoRead(PrintEntity(ls[0]), PrintAll(ls[1..]));
      } else {
        assert EntitiesOf(ls[1..]) == [];
      }
    }
  }

  // ---- nothing but well-formed entities

  /** `t` is made of characters of `s`, so what `s` lacks `t` lacks. */
  lemma WithinLine(t: string, s: string)
    requires Within(t, s)
    ensures (Bytes(s) ==> Bytes(t)) && (Line(s) ==> Line(t))
    ensures forall c | c !in s :: c !in t
  {
    forall i | 0 <= i < |t| ensures t[i] in s { assert t[i] in t; }
  }

  lemma TrimmedLine(s: string)
    ensures var t := Trimmed(s);
            && (Bytes(s) ==> Bytes(t)) && (Line(s) ==> Line(t)) && Solid(t) && forall c | c !in s :: c !in t
  {
    TrimmedWithin(s);
    WithinLine(Trimmed(s), s);
  }

  lemma HeadLine(s: string, d: char)
    ensures var t := Head(s, d);
            && (Bytes(s) ==> Bytes(t)) && (Line(s) ==> Line(t)) && d !in t && forall c | c !in s :: c !in t
  {
    CutWithin(s, d);
    WithinLine(Head(s, d), s);
  }

  lemma RestLine(s: string, d: char)
    ensures var t := Rest(s, d);
            && (Bytes(s) ==> Bytes(t)) && (Line(s) ==> Line(t)) && forall c | c !in s :: c !in t
  {
    CutWithin(s, d);
    WithinLine(Rest(s, d), s);
  }

  lemma EnteredGood(out: Attributes, token: string, close: char)
    requires GoodAttributes(out, close) && Line(token) && ',' !in token && close !in token
    ensures GoodAttributes(Entered(out, token), close)
  {
    var t := Trimmed(token);
    TrimmedLine(token);
    HeadLine(t, '=');
    TrimmedLine(Head(t, '='));
    RestLine(t, '=');
    TrimmedLine(Rest(t, '='));
    DecodedBytes(Trimmed(Rest(t, '=')));
  }

  lemma {:induction false} KeyValuesGood(out: Attributes, s: string, close: char)
    requires GoodAttributes(out, close) && Line(s) && close !in s
    ensures GoodAttributes(KeyValues(out, s), close)
    decreases |s|
  {
    if s != "" {
      HeadLine(s, ',');
      RestLine(s, ',');
      EnteredGood(out, Head(s, ','), close);
      KeyValuesGood(Entered(out, Head(s, ',')), Rest(s, ','), close);
    }
  }

  lemma BlockGood(s: string, close: char)
    requires Line(s)
    ensures GoodAttributes(KeyValues(map[], Trimmed(Head(s, close))), close) && Line(Rest(s, close))
  {
    HeadLine(s, close);
    TrimmedLine(Head(s, close));
    RestLine(s, close);
    KeyValuesGood(map[], Trimmed(Head(s, close)), close);
  }

  lemma UrlGood(tail: string)
    requires Line(tail)
    ensures GoodUrl(UrlOf(tail))
  {
    if tail != "" {
      TrimmedLine(tail[1..]);
      assert Line(tail[1..]);
    }
  }

  lemma DescribedGood(kind: string, id: Attributes, tail: string)
    requires ValidKind(kind) && id != map[] && GoodAttributes(id, '}') && Line(tail)
    ensures var r := Described(kind, id, tail); r.Some? ==> GoodEntity(r.value)
  {
    if tail != "" && tail[0] == '[' {
      assert Line(tail[1..]);
      BlockGood(tail[1..], ']');
      UrlGood(Rest(tail[1..], ']'));
    } else {
      UrlGood(tail);
    }
  }

  lemma EntityGood(s: string)
    requires Line(s)
    ensures EntityOf(s).Some? ==> GoodEntity(EntityOf(s).value)
  {
    if EntityOf(s).Some? {
      var kind, block := Trimmed(Head(s, '{')), Rest(s, '{');
      RestLine(s, '{');
      BlockGood(block, '}');
      DescribedGood(kind, KeyValues(map[], Trimmed(Head(block, '}'))), Rest(block, '}'));
    }
  }

  predicate GoodEntities(es: seq<Entity>) {
    forall i | 0 <= i < |es| :: GoodEntity(es[i])
  }

  lemma {:induction false} ParsedGood(s: string)
    requires Bytes(s)
    ensures GoodEntities(Parsed(s))
    decreases |s|
  {
    if s != "" {
      HeadLine(s, ';');
      RestLine(s, ';');
      TrimmedLine(Head(s, ';'));
      EntityGood(Trimmed(Head(s, ';')));
      assert GoodEntities(Piece(Head(s, ';')));
      ParsedGood(Rest(s, ';'));
    }
  }

  // ---- exactly the well-formed entities

  lemma {:induction false} Enumerated(keys: set<string>) returns (ks: seq<string>)
    ensures forall k :: k in ks <==> k in keys
  {
    if keys == {} {
      ks := [];
    } else {
      var k :| k in keys;
      var rest := Enumerated(keys - {k});
      ks := [k] + rest;
    }
  }

  lemma {:induction false} LaidOut(es: seq<Entity>) returns (ls: seq<Layout>)
    requires GoodEntities(es)
    ensures GoodLayouts(ls) && EntitiesOf(ls) == es
  {
    if es == [] {
      ls := [];
    } else {
      var ids := Enumerated(es[0].id.Keys);
      var descs := Enumerated(es[0].desc.Keys);
      var l := Layout(es[0], ids, descs);
      assert GoodLayout(l);
      var rest := LaidOut(es[1..]);
      ls := [l] + rest;
      assert ls[1..] == rest;
    }
  }

  /** Reading some text can give a list of entities if and only if every one of them is well-formed. */
  lemma ParserImage(es: seq<Entity>)
    ensures (exists s :: Bytes(s) && Parsed(s) == es) <==> GoodEntities(es)
  {
    if s :| Bytes(s) && Parsed(s) == es {
      ParsedGood(s);
    }
    if GoodEntities(es) {
      var ls := LaidOut(es);
      RoundTrip(ls);
    }
  }
}
