/**
 The text of the OTEL_ENTITIES variable: `type{k=v,...}[k=v,...]@url` separated by semicolons, with
 percent-encoded values (section 2.1 of RFC 3986) and a check of the schema URL's scheme (section 3.1).
 A `char` is one byte; `Bytes` says so where the model has to.
 */
module EntityParser {
  import opened AsciiText

  datatype Option<T> = None | Some(value: T)

  type Attributes = map<string, string>

  datatype Entity = Entity(kind: string, id: Attributes, desc: Attributes, url: string)

  predicate Bytes(s: string) {
    forall i | 0 <= i < |s| :: s[i] as int < 256
  }

  // ---- percent encoding

  /** The value of a hexadecimal digit of either case, or -1. */
  function HexDigitValue(c: char): (v: int)
    ensures -1 <= v < 16
  {
    if IsDigit(c) then c as int - 48
    else if 'A' <= c <= 'F' then c as int - 55
    else if 'a' <= c <= 'f' then c as int - 87
    else -1
  }

  /** Whether there is an escape at `i`: `%` and two hexadecimal digits. */
  predicate EscapeAt(s: string, i: nat) {
    i + 2 < |s| && s[i] == '%' && HexDigitValue(s[i + 1]) >= 0 && HexDigitValue(s[i + 2]) >= 0
  }

  function Unescaped(s: string, i: nat): (c: char)
    requires EscapeAt(s, i)
    ensures c as int < 256
  {
    (16 * HexDigitValue(s[i + 1]) + HexDigitValue(s[i + 2])) as char
  }

  function PercentDecoded(s: string): string {
    if s == [] then []
    else if EscapeAt(s, 0) then [Unescaped(s, 0)] + PercentDecoded(s[3..])
    else [s[0]] + PercentDecoded(s[1..])
  }

  function DecodedFrom(s: string, i: nat): string
    decreases |s| - i
  {
    if i >= |s| then []
    else if EscapeAt(s, i) then [Unescaped(s, i)] + DecodedFrom(s, i + 3)
    else [s[i]] + DecodedFrom(s, i + 1)
  }

  lemma {:induction false} DecodedSuffix(s: string, i: nat)
    requires i <= |s|
    ensures DecodedFrom(s, i) == PercentDecoded(s[i..])
    decreases |s| - i
  {
    if i < |s| {
      assert EscapeAt(s, i) == EscapeAt(s[i..], 0);
      if EscapeAt(s, i) {
        assert s[i..][3..] == s[i + 3..];
        DecodedSuffix(s, i + 3);
      } else {
        assert s[i..][1..] == s[i + 1..];
        DecodedSuffix(s, i + 1);
      }
    }
  }

  lemma {:induction false} NothingToDecode(s: string)
    requires '%' !in s
    ensures PercentDecoded(s) == s
  {
    if s != [] {
      NothingToDecode(s[1..]);
    }
  }

  method PercentDecode(value: string) returns (result: string)
    ensures result == PercentDecoded(value)
  {
    UptoFirst(value, '%');
    if Upto(value, '%') == |value| {
      assert value[..|value|] == value;
      NothingToDecode(value);
      return value;
    }
    assert value[0..] == value;
    DecodedSuffix(value, 0);
    result := DecodeEscapes(value);
  }

  method DecodeEscapes(value: string) returns (result: string)
    ensures result == DecodedFrom(value, 0)
  {
    result := "";
    var i := 0;
    while i < |value|
      invariant i <= |value|
      invariant DecodedFrom(value, 0) == result + DecodedFrom(value, i)
    {
      DecodeNext(value, i, result);
      var c := value[i];
      if EscapeAt(value, i) {
        c := Unescaped(value, i);
        i := i + 2;
      }
      result := result + [c];
      i := i + 1;
    }
  }

  lemma DecodeNext(s: string, i: nat, result: string)
    requires i < |s|
    ensures result + DecodedFrom(s, i) ==
            if EscapeAt(s, i) then result + [Unescaped(s, i)] + DecodedFrom(s, i + 3)
            else result + [s[i]] + DecodedFrom(s, i + 1)
  {
  }

  predicate Unreserved(c: char) {
    IsAlnum(c) || c == '-' || c == '.' || c == '_' || c == '~'
  }

  function UpperHexDigit(v: nat): (c: char)
    requires v < 16
    ensures HexDigitValue(c) == v && IsAlnum(c)
  {
    if v < 10 then (48 + v) as char else (55 + v) as char
  }

  function EncodedChar(c: char): (s: string)
    requires c as int < 256
  {
    if Unreserved(c) then [c] else ['%', UpperHexDigit(c as int / 16), UpperHexDigit(c as int % 16)]
  }

  function PercentEncoded(v: string): (s: string)
    requires Bytes(v)
    ensures forall i | 0 <= i < |s| :: Unreserved(s[i]) || s[i] == '%'
  {
    if v == [] then [] else EncodedChar(v[0]) + PercentEncoded(v[1..])
  }

  lemma DecodeFirst(c: char, t: string)
    requires c as int < 256
    ensures PercentDecoded(EncodedChar(c) + t) == [c] + PercentDecoded(t)
  {
    var s := EncodedChar(c) + t;
    if Unreserved(c) {
      assert s[1..] == t;
    } else {
      assert EscapeAt(s, 0) && s[3..] == t;
    }
  }

  lemma {:induction false} PercentRoundTrip(v: string)
    requires Bytes(v)
    ensures PercentDecoded(PercentEncoded(v)) == v
  {
    if v != [] {
      DecodeFirst(v[0], PercentEncoded(v[1..]));
      PercentRoundTrip(v[1..]);
    }
  }

  lemma {:induction false} DecodedBytes(s: string)
    requires Bytes(s)
    ensures Bytes(PercentDecoded(s))
  {
    if s != [] {
      if EscapeAt(s, 0) { DecodedBytes(s[3..]); } else { DecodedBytes(s[1..]); }
    }
  }

  // ---- the schema URL

  predicate Slashes(url: string, i: nat) {
    i + 3 <= |url| && url[i] == ':' && url[i + 1] == '/' && url[i + 2] == '/'
  }

  /** The length of the text before the first "://", or of the whole text. */
  function SchemeEnd(url: string): (n: nat)
    ensures n <= |url|
    ensures n < |url| ==> Slashes(url, n)
    ensures forall i | 0 <= i < n :: !Slashes(url, i)
  {
    if url == [] || Slashes(url, 0) then 0
    else
      var n := 1 + SchemeEnd(url[1..]);
      assert forall i | 1 <= i < n :: Slashes(url, i) == Slashes(url[1..], i - 1);
      n
  }

  predicate SchemeChar(c: char) { IsAlnum(c) || c == '+' || c == '-' || c == '.' }

  /** A relative reference, or a scheme as the RFC spells it in front of something. */
  predicate ValidUrl(url: string) {
    var n := SchemeEnd(url);
    && url != ""
    && (n < |url| ==>
          0 < n && n + 3 < |url| && IsAlpha(url[0]) && forall i | 1 <= i < n :: SchemeChar(url[i]))
  }

  method IsValidSchemaUrl(url: string) returns (valid: bool)
    ensures valid <==> ValidUrl(url)
  {
    if url == "" {
      return false;
    }
    var end := SchemeEnd(url);
    if end < |url| {
      if end == 0 || end + 3 >= |url| || !IsAlpha(url[0]) {
        return false;
      }
      for i := 1 to end
        invariant forall k | 1 <= k < i :: SchemeChar(url[k])
      {
        if !SchemeChar(url[i]) {
          return false;
        }
      }
    }
    return true;
  }

  // ---- key-value lists

  /** The effect of one piece: pieces without `=` or without a key are skipped. */
  function Entered(out: Attributes, token: string): Attributes {
    var t := Trimmed(token);
    var key := Trimmed(Head(t, '='));
    if !Has(t, '=') || key == "" then out else out[key := PercentDecoded(Trimmed(Rest(t, '=')))]
  }

  /** All pieces between commas, from left to right. */
  function KeyValues(out: Attributes, s: string): Attributes
    decreases |s|
  {
    if s == "" then out else KeyValues(Entered(out, Head(s, ',')), Rest(s, ','))
  }

  /** One line of `std::getline`: the text up to the delimiter, and where the next one starts. */
  method GetLine(s: string, at: nat, delimiter: char) returns (token: string, next: nat)
    requires at < |s|
    ensures at < next <= |s|
    ensures token == Head(s[at..], delimiter) && s[next..] == Rest(s[at..], delimiter)
  {
    var n := Upto(s[at..], delimiter);
    token := s[at..at + n];
    next := if at + n == |s| then |s| else at + n + 1;
  }

  method EnterPiece(line: string, out: Attributes) returns (more: Attributes)
    ensures more == Entered(out, line)
  {
    more := out;
    var token := Trim(line);
    if token != "" {
      var pos := Upto(token, '=');
      if pos < |token| {
        var key := Trim(token[..pos]);
        var value := Trim(token[pos + 1..]);
        if key != "" {
          value := PercentDecode(value);
          more := out[key := value];
        }
      }
    }
  }

  method ParseKeyValueList(input: string) returns (out: Attributes)
    ensures out == KeyValues(map[], input)
  {
    out := map[];
    var at := 0;
    assert input[0..] == input;
    while at < |input|
      invariant at <= |input|
      invariant KeyValues(map[], input) == KeyValues(out, input[at..])
      decreases |input| - at
    {
      var line, next := GetLine(input, at, ',');
      out := EnterPiece(line, out);
      at := next;
    }
  }

  // ---- one entity

  predicate KindChar(c: char) { IsAlnum(c) || c == '.' || c == '_' || c == '-' }

  predicate ValidKind(kind: string) {
    kind != "" && IsAlpha(kind[0]) && forall i | 1 <= i < |kind| :: KindChar(kind[i])
  }

  method CheckKind(kind: string) returns (valid: bool)
    ensures valid <==> ValidKind(kind)
  {
    if kind == "" || !IsAlpha(kind[0]) {
      return false;
    }
    for i := 1 to |kind|
      invariant forall k | 1 <= k < i :: KindChar(kind[k])
    {
      if !KindChar(kind[i]) {
        return false;
      }
    }
    return true;
  }

  /** The schema URL at the end of an entity; one that is not valid is dropped and the entity kept. */
  function UrlOf(tail: string): string {
    if tail != [] && tail[0] == '@' && ValidUrl(Trimmed(tail[1..])) then Trimmed(tail[1..]) else ""
  }

  /** What follows the identifying block. */
  function Described(kind: string, id: Attributes, tail: string): Option<Entity> {
    if tail != [] && tail[0] == '[' then
      var block := tail[1..];
      if !Has(block, ']') || Head(block, ']') == "" then None
      else Some(Entity(kind, id, KeyValues(map[], Trimmed(Head(block, ']'))), UrlOf(Rest(block, ']'))))
    else Some(Entity(kind, id, map[], UrlOf(tail)))
  }

  /** The identifying block and what follows it. */
  function Identified(kind: string, block: string): Option<Entity> {
    var id := KeyValues(map[], Trimmed(Head(block, '}')));
    if !Has(block, '}') || Head(block, '}') == "" || id == map[] then None
    else Described(kind, id, Rest(block, '}'))
  }

  function EntityOf(s: string): Option<Entity> {
    var kind := Trimmed(Head(s, '{'));
    if !Has(s, '{') || !ValidKind(kind) then None else Identified(kind, Rest(s, '{'))
  }

  /** `find(c, from)`, with the length of the text for a character that is not there. */
  method Find(s: string, c: char, from: nat) returns (pos: nat)
    requires from <= |s|
    ensures from <= pos <= |s|
    ensures pos < |s| <==> Has(s[from..], c)
    ensures s[from..pos] == Head(s[from..], c)
    ensures pos < |s| ==> s[pos + 1..] == Rest(s[from..], c)
  {
    pos := from + Upto(s[from..], c);
  }

  method ParseUrl(s: string, cursor: nat) returns (url: string)
    requires cursor <= |s|
    ensures url == UrlOf(s[cursor..])
  {
    url := "";
    if cursor < |s| && s[cursor] == '@' {
      assert s[cursor..][1..] == s[cursor + 1..];
      url := Trim(s[cursor + 1..]);
      var valid := IsValidSchemaUrl(url);
      if !valid {
        url := "";
      }
    }
  }

  /** A non-empty block up to its closing character, and where the text goes on. */
  method ParseBlock(s: string, start: nat, close: char) returns (ok: bool, attrs: Attributes, next: nat)
    requires start <= |s|
    ensures ok <==> Has(s[start..], close) && Head(s[start..], close) != ""
    ensures ok ==> attrs == KeyValues(map[], Trimmed(Head(s[start..], close)))
    ensures ok ==> next <= |s| && s[next..] == Rest(s[start..], close)
  {
    var end := Find(s, close, start);
    ok, attrs, next := !(end == |s| || end <= start), map[], start;
    if ok {
      var block := Trim(s[start..end]);
      attrs := ParseKeyValueList(block);
      next := end + 1;
    }
  }

  method ParseDescription(s: string, cursor: nat, kind: string, id: Attributes) returns (r: Option<Entity>)
    requires cursor <= |s|
    ensures r == Described(kind, id, s[cursor..])
  {
    if cursor < |s| && s[cursor] == '[' {
      assert s[cursor..][1..] == s[cursor + 1..];
      var ok, desc, next := ParseBlock(s, cursor + 1, ']');
      if !ok {
        return None;
      }
      var url := ParseUrl(s, next);
      r := Some(Entity(kind, id, desc, url));
    } else {
      var url := ParseUrl(s, cursor);
      r := Some(Entity(kind, id, map[], url));
    }
  }

  method ParseIdentity(s: string, start: nat, kind: string) returns (r: Option<Entity>)
    requires start <= |s|
    ensures r == Identified(kind, s[start..])
  {
    var ok, id, next := ParseBlock(s, start, '}');
    if !ok || id == map[] {
      return None;
    }
    r := ParseDescription(s, next, kind, id);
  }

  method ParseSingleEntity(s: string) returns (r: Option<Entity>)
    ensures r == EntityOf(s)
  {
    assert s[0..] == s;
    var brace := Find(s, '{', 0);
    if brace == |s| || brace == 0 {
      return None;
    }
    var kind := Trim(s[..brace]);
    var valid := CheckKind(kind);
    if !valid {
      return None;
    }
    r := ParseIdentity(s, brace + 1, kind);
  }

  // ---- the whole variable

  /** What one piece between semicolons contributes: malformed and empty ones contribute nothing. */
  function Piece(token: string): seq<Entity> {
    match EntityOf(Trimmed(token))
    case None => []
    case Some(e) => [e]
  }

  function Parsed(s: string): seq<Entity>
    decreases |s|
  {
    if s == "" then [] else Piece(Head(s, ';')) + Parsed(Rest(s, ';'))
  }

  method ParsePiece(line: string) returns (found: seq<Entity>)
    ensures found == Piece(line)
  {
    var token := Trim(line);
    if token == "" {
      return [];
    }
    var entity := ParseSingleEntity(token);
    found := if entity.Some? then [entity.value] else [];
  }

  method ParseEntities(s: string) returns (entities: seq<Entity>)
    ensures entities == Parsed(s)
  {
    entities := [];
    var at := 0;
    assert s[0..] == s;
    while at < |s|
      invariant at <= |s|
      invariant Parsed(s) == entities + Parsed(s[at..])
      decreases |s| - at
    {
      var line, next := GetLine(s, at, ';');
      var found := ParsePiece(line);
      Regroup(entities, found, Parsed(s[next..]));
      entities := entities + found;
      at := next;
    }
  }

  lemma Regroup(a: seq<Entity>, b: seq<Entity>, c: seq<Entity>)
    ensures a + (b + c) == a + b + c
  {
  }

  /** Pieces are independent: whatever stands on one side of a semicolon does not affect the other. */
  lemma {:induction false} ParsedConcat(a: string, b: string)
    ensures Parsed(a + [';'] + b) == Parsed(a) + Parsed(b)
    decreases |a|
  {
    CutLonger(a, ';', b);
    var s := a + [';'] + b;
    assert Parsed(s) == Piece(Head(a, ';')) + Parsed(Rest(s, ';'));
    if a == "" {
      assert Piece("") == [];
    } else if Has(a, ';') {
      ParsedConcat(Rest(a, ';'), b);
      Regroup(Piece(Head(a, ';')), Parsed(Rest(a, ';')), Parsed(b));
    } else {
      assert Parsed(a) == Piece(Head(a, ';'));
    }
  }

  lemma {:induction false} KeyValuesConcat(out: Attributes, a: string, b: string)
    ensures KeyValues(out, a + [','] + b) == KeyValues(KeyValues(out, a), b)
    decreases |a|
  {
    CutLonger(a, ',', b);
    if a == "" {
      assert Entered(out, "") == out;
    } else if Has(a, ',') {
      KeyValuesConcat(Entered(out, Head(a, ',')), Rest(a, ','), b);
    }
  }
}
