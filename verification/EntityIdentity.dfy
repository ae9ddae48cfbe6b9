/**
 The identity key of an entity: its type and its identifying attributes in the order of their keys.  It does
 not depend on the order of the attribute map, but values are not escaped, so it does not always tell
 entities apart.
 */
module EntityIdentity {
  import opened AsciiText
  import opened EntityParser
  import opened EntityPrinter

  // ---- sorting keys

  /** `operator<` of `std::string`. */
  predicate Less(a: string, b: string) {
    b != [] && (a == [] || a[0] < b[0] || (a[0] == b[0] && Less(a[1..], b[1..])))
  }

  lemma {:induction false} LessTransitive(a: string, b: string, c: string)
    requires Less(a, b) && Less(b, c)
    ensures Less(a, c)
  {
    if a != [] && a[0] == b[0] == c[0] { LessTransitive(a[1..], b[1..], c[1..]); }
  }

  lemma {:induction false} LessTotal(a: string, b: string)
    ensures !(Less(a, b) && Less(b, a))
    ensures Less(a, b) || Less(b, a) <==> a != b
  {
    if a != [] && b != [] {
      LessTotal(a[1..], b[1..]);
      assert a == [a[0]] + a[1..] && b == [b[0]] + b[1..];
    }
  }

  ghost predicate Sorted(ks: seq<string>) {
    forall i, j | 0 <= i < j < |ks| :: Less(ks[i], ks[j])
  }

  /** The keys of `m` in ascending order. */
  ghost predicate Ascending(ks: seq<string>, m: Attributes) {
    Sorted(ks) && Lists(ks, m)
  }

  /** Inserts a new key into a sorted list. */
  method InsertKey(ks: seq<string>, k: string) returns (r: seq<string>)
    requires Sorted(ks) && k !in ks
    ensures Sorted(r) && forall x :: x in r <==> x in ks || x == k
  {
    var n := 0;
    while n < |ks| && Less(ks[n], k)
      invariant n <= |ks| && forall i | 0 <= i < n :: Less(ks[i], k)
    {
      n := n + 1;
    }
    forall i | n <= i < |ks| ensures Less(k, ks[i]) {
      LessTotal(ks[n], k);
      if i > n { LessTransitive(k, ks[n], ks[i]); }
    }
    r := ks[..n] + [k] + ks[n..];
    forall x ensures x in r <==> x in ks || x == k { assert ks == ks[..n] + ks[n..]; }
  }

  /** Takes the attributes in any order and sorts their keys. */
  method SortedKeys(m: Attributes) returns (ks: seq<string>)
    ensures Ascending(ks, m)
  {
    ks := [];
    var left := m.Keys;
    while left != {}
      invariant left <= m.Keys && Sorted(ks) && forall k :: k in ks <==> k in m && k !in left
      decreases left
    {
      var k :| k in left;
      ks := InsertKey(ks, k);
      left := left - {k};
    }
  }

  lemma {:induction false} AscendingExists(keys: set<string>) returns (ks: seq<string>)
    ensures Sorted(ks) && forall k :: k in ks <==> k in keys
    decreases |keys|
  {
    if keys == {} {
      ks := [];
    } else {
      var k :| k in keys;
      var rest := AscendingExists(keys - {k});
      ks := Inserted(rest, k);
    }
  }

  lemma {:induction false} Inserted(ks: seq<string>, k: string) returns (r: seq<string>)
    requires Sorted(ks) && k !in ks
    ensures Sorted(r) && forall x :: x in r <==> x in ks || x == k
  {
    if ks == [] || Less(k, ks[0]) {
      forall i | 0 <= i < |ks| ensures Less(k, ks[i]) {
        if i > 0 { LessTransitive(k, ks[0], ks[i]); }
      }
      r := [k] + ks;
    } else {
      LessTotal(k, ks[0]);
      var rest := Inserted(ks[1..], k);
      forall i | 0 <= i < |rest| ensures Less(ks[0], rest[i]) {
        assert rest[i] in rest;
      }
      r := [ks[0]] + rest;
    }
  }

  /** There is only one ascending list of a set of keys. */
  lemma {:induction false} AscendingUnique(a: seq<string>, b: seq<string>)
    requires Sorted(a) && Sorted(b) && forall k :: k in a <==> k in b
    ensures a == b
  {
    assert a != [] ==> a[0] in a;
    assert b != [] ==> b[0] in b;
    if a != [] && b != [] {
      assert a[0] in b && b[0] in a;
      LessTotal(a[0], b[0]);
      LessTotal(a[0], a[0]);
      assert a == [a[0]] + a[1..] && b == [b[0]] + b[1..];
      forall k ensures k in a[1..] <==> k in b[1..] { assert k in a <==> k in b; }
      AscendingUnique(a[1..], b[1..]);
    }
  }

  // ---- the key

  /** The attributes, each behind a comma. */
  function More(ks: seq<string>, m: Attributes): string
    requires forall i | 0 <= i < |ks| :: ks[i] in m
  {
    if ks == [] then "" else [','] + (ks[0] + ['='] + (m[ks[0]] + More(ks[1..], m)))
  }

  /** The attributes with commas between them. */
  function PairsJoined(ks: seq<string>, m: Attributes): string
    requires forall i | 0 <= i < |ks| :: ks[i] in m
  {
    if ks == [] then "" else More(ks, m)[1..]
  }

  function KeyText(kind: string, ks: seq<string>, m: Attributes): string
    requires forall i | 0 <= i < |ks| :: ks[i] in m
  {
    kind + ['|'] + PairsJoined(ks, m)
  }

  lemma AnyAscending(m: Attributes)
    ensures exists ks :: Ascending(ks, m)
  {
    var ks := AscendingExists(m.Keys);
    assert Ascending(ks, m);
  }

  ghost function IdentityKey(kind: string, id: Attributes): string {
    AnyAscending(id);
    var ks :| Ascending(ks, id);
    KeyText(kind, ks, id)
  }

  lemma KeyOf(kind: string, ks: seq<string>, id: Attributes)
    requires Ascending(ks, id)
    ensures IdentityKey(kind, id) == KeyText(kind, ks, id)
  {
    AnyAscending(id);
    var ks' :| Ascending(ks', id) && IdentityKey(kind, id) == KeyText(kind, ks', id);
    AscendingUnique(ks, ks');
  }

  function Left(ks: seq<string>, m: Attributes, i: nat): string
    requires i <= |ks| && forall i | 0 <= i < |ks| :: ks[i] in m
  {
    if i == 0 then PairsJoined(ks, m) else More(ks[i..], m)
  }

  lemma LeftNext(ks: seq<string>, m: Attributes, i: nat)
    requires i < |ks| && forall i | 0 <= i < |ks| :: ks[i] in m
    ensures Left(ks, m, i) == (if i > 0 then [','] else []) + ks[i] + ['='] + m[ks[i]] + Left(ks, m, i + 1)
  {
    assert ks[i..][1..] == ks[i + 1..];
    var body := ks[i] + ['='] + (m[ks[i]] + More(ks[i + 1..], m));
    assert More(ks[i..], m) == [','] + body;
    assert ks[0..] == ks;
    assert ([','] + body)[1..] == body;
  }

  /** Whatever the order in which the attributes are met, the key is the same. */
  method BuildEntityIdentityKey(kind: string, id: Attributes) returns (key: string)
    ensures key == IdentityKey(kind, id)
  {
    var items := SortedKeys(id);
    KeyOf(kind, items, id);
    key := kind + ['|'];
    ghost var whole := KeyText(kind, items, id);
    for i := 0 to |items|
      invariant whole == key + Left(items, id, i)
    {
      LeftStep(key, items, id, i);
      if i > 0 {
        key := key + [','];
      }
      key := key + items[i];
      key := key + ['='];
      key := key + id[items[i]];
    }
    LeftNone(key, items, id);
  }

  lemma LeftStep(key: string, ks: seq<string>, m: Attributes, i: nat)
    requires i < |ks| && forall i | 0 <= i < |ks| :: ks[i] in m
    ensures var comma := if i > 0 then key + [','] else key;
            key + Left(ks, m, i) == comma + ks[i] + ['='] + m[ks[i]] + Left(ks, m, i + 1)
  {
    LeftNext(ks, m, i);
    Regroup(key, if i > 0 then [','] else [], ks[i], m[ks[i]], Left(ks, m, i + 1));
  }

  lemma LeftNone(key: string, ks: seq<string>, m: Attributes)
    requires forall i | 0 <= i < |ks| :: ks[i] in m
    ensures key + Left(ks, m, |ks|) == key
  {
    assert ks[|ks|..] == [];
  }

  lemma Regroup(key: string, comma: string, k: string, v: string, rest: string)
    ensures key + (comma + k + ['='] + v + rest) == key + comma + k + ['='] + v + rest
    ensures key + [] == key
  {
  }

  // ---- when the key tells entities apart

  predicate GoodIdentity(kind: string, id: Attributes) {
    ValidKind(kind) && id != map[] && GoodAttributes(id, '}')
  }

  /** No `=` behind a comma; in particular, no comma at all. */
  predicate PlainValue(v: string) {
    forall i, j | 0 <= i < j < |v| && v[i] == ',' :: v[j] != '='
  }

  predicate PlainValues(m: Attributes) {
    forall k | k in m :: PlainValue(m[k])
  }

  predicate CleanKey(k: string) { '=' !in k && ',' !in k }

  /** A plain value does not reach into the attribute behind a shorter one. */
  lemma NotLonger(v: string, k: string, x: string, v': string, r': string)
    requires v + ([','] + (k + ['='] + x)) == v' + r' && CleanKey(k) && PlainValue(v')
    requires r' == "" || r'[0] == ','
    ensures |v'| <= |v|
  {
    var t := v' + r';
    var p, e := |v|, |v| + 1 + |k|;
    assert t[p] == ',' && t[e] == '=';
    assert forall i | p < i < e :: t[i] == k[i - p - 1];
    assert forall i | 0 <= i < |v'| :: t[i] == v'[i];
    assert r' != "" ==> t[|v'|] == ',';
  }

  predicate CleanKeys(ks: seq<string>, m: Attributes) {
    forall i | 0 <= i < |ks| :: ks[i] in m && CleanKey(ks[i])
  }

  /** The first attribute of the text can be read off. */
  lemma MoreFirst(ks: seq<string>, m: Attributes)
    requires ks != [] && CleanKeys(ks, m)
    ensures var t := More(ks, m);
            && t != "" && t[0] == ',' && t == [','] + PairsJoined(ks, m)
            && Head(t[1..], '=') == ks[0] && Rest(t[1..], '=') == m[ks[0]] + More(ks[1..], m)
  {
    var body := m[ks[0]] + More(ks[1..], m);
    assert More(ks, m)[1..] == ks[0] + ['='] + body;
    CutHere(ks[0], '=', body);
  }

  lemma SameValue(v: string, ks: seq<string>, m: Attributes, v': string, ks': seq<string>, m': Attributes)
    requires CleanKeys(ks, m) && CleanKeys(ks', m') && PlainValue(v) && PlainValue(v')
    requires v + More(ks, m) == v' + More(ks', m')
    ensures v == v' && More(ks, m) == More(ks', m')
  {
    var r, r' := More(ks, m), More(ks', m');
    if ks != [] { NotLonger(v, ks[0], m[ks[0]] + More(ks[1..], m), v', r'); }
    if ks' != [] { NotLonger(v', ks'[0], m'[ks'[0]] + More(ks'[1..], m'), v, r); }
    assert |v| == |v'|;
    SamePrefix(v, r, v', r');
  }

  lemma SamePrefix(a: string, b: string, c: string, d: string)
    requires a + b == c + d && |a| == |c|
    ensures a == c && b == d
  {
    assert (a + b)[..|a|] == a && (c + d)[..|a|] == c && (a + b)[|a|..] == b && (c + d)[|a|..] == d;
  }

  lemma {:induction false} MoreInjective(ks: seq<string>, m: Attributes, ks': seq<string>, m': Attributes)
    requires CleanKeys(ks, m) && CleanKeys(ks', m') && PlainValues(m) && PlainValues(m')
    requires More(ks, m) == More(ks', m')
    ensures ks == ks' && forall i | 0 <= i < |ks| :: m[ks[i]] == m'[ks[i]]
  {
    if ks != [] && ks' != [] {
      MoreFirst(ks, m);
      MoreFirst(ks', m');
      assert ks[0] == ks'[0];
      SameValue(m[ks[0]], ks[1..], m, m'[ks[0]], ks'[1..], m');
      MoreInjective(ks[1..], m, ks'[1..], m');
      assert ks == [ks[0]] + ks[1..] && ks' == [ks'[0]] + ks'[1..];
    }
  }

  /** The key gives the type and the text of the attributes. */
  lemma KeyParts(kind: string, ks: seq<string>, m: Attributes, kind': string, ks': seq<string>, m': Attributes)
    requires ValidKind(kind) && ValidKind(kind') && ks != [] && ks' != [] && CleanKeys(ks, m) && CleanKeys(ks', m')
    requires KeyText(kind, ks, m) == KeyText(kind', ks', m')
    ensures kind == kind' && More(ks, m) == More(ks', m')
  {
    NoBar(kind);
    NoBar(kind');
    CutHere(kind, '|', PairsJoined(ks, m));
    CutHere(kind', '|', PairsJoined(ks', m'));
    MoreFirst(ks, m);
    MoreFirst(ks', m');
  }

  lemma NoBar(kind: string)
    requires ValidKind(kind)
    ensures '|' !in kind
  {
    forall i | 0 <= i < |kind| ensures kind[i] != '|' {
      assert IsAlpha(kind[i]) || KindChar(kind[i]);
    }
  }

  /** The keys of a well-formed identity, in order. */
  lemma GoodKeys(kind: string, id: Attributes) returns (ks: seq<string>)
    requires GoodIdentity(kind, id)
    ensures Ascending(ks, id) && ks != [] && CleanKeys(ks, id) && IdentityKey(kind, id) == KeyText(kind, ks, id)
  {
    ks := AscendingExists(id.Keys);
    KeyOf(kind, ks, id);
    Nonempty(ks, id);
  }

  /** Among entities whose values have no `=` behind a comma the key tells type and attributes. */
  lemma KeyInjective(kind: string, id: Attributes, kind': string, id': Attributes)
    requires GoodIdentity(kind, id) && GoodIdentity(kind', id') && PlainValues(id) && PlainValues(id')
    ensures IdentityKey(kind, id) == IdentityKey(kind', id') <==> kind == kind' && id == id'
  {
    if IdentityKey(kind, id) == IdentityKey(kind', id') {
      var ks := GoodKeys(kind, id);
      var ks' := GoodKeys(kind', id');
      KeyParts(kind, ks, id, kind', ks', id');
      MoreInjective(ks, id, ks', id');
      SameAttributes(ks, id, id');
    }
  }

  lemma SameAttributes(ks: seq<string>, m: Attributes, m': Attributes)
    requires Lists(ks, m) && Lists(ks, m') && forall i | 0 <= i < |ks| :: m[ks[i]] == m'[ks[i]]
    ensures m == m'
  {
    forall k ensures k in m <==> k in m' { assert k in ks <==> k in m; }
    forall k | k in m ensures m[k] == m'[k] { assert k in ks; }
  }

  // ---- when the key belongs to one entity only

  /** Somewhere in the value stands `,p=` where `p` could be the next key. */
  ghost predicate Hides(k: string, v: string) {
    exists i, j | 0 <= i < j < |v| :: v[i] == ',' && v[j] == '=' && GoodKey(v[i + 1..j], '}') && Less(k, v[i + 1..j])
  }

  ghost predicate OneOfItsKind(kind: string, id: Attributes) {
    forall kind', id' | GoodIdentity(kind', id') && IdentityKey(kind', id') == IdentityKey(kind, id) ::
      kind' == kind && id' == id
  }

  ghost predicate Safe(id: Attributes) {
    exists k | k in id :: id.Keys == {k} && !Hides(k, id[k])
  }

  lemma OneKey(kind: string, k: string, v: string)
    ensures Ascending([k], map[k := v]) && More([k], map[k := v]) == [','] + (k + ['='] + v)
    ensures IdentityKey(kind, map[k := v]) == kind + ['|'] + (k + ['='] + v)
  {
    var m := map[k := v];
    assert [k][1..] == [];
    assert v + More([], m) == v;
    assert Ascending([k], m);
    KeyOf(kind, [k], m);
  }

  lemma TwoKeys(kind: string, k: string, v: string, p: string, w: string)
    requires Less(k, p)
    ensures IdentityKey(kind, map[k := v, p := w]) == kind + ['|'] + (k + ['='] + (v + ([','] + (p + ['='] + w))))
  {
    var m := map[k := v, p := w];
    LessTotal(k, p);
    assert [k, p][1..] == [p] && [p][1..] == [];
    assert w + More([], m) == w;
    assert More([p], m) == [','] + (p + ['='] + w);
    assert More([k, p], m) == [','] + (k + ['='] + (v + More([p], m)));
    assert Ascending([k, p], m);
    KeyOf(kind, [k, p], m);
  }

  /** Two attributes can be read as one whose value has a comma. */
  lemma Merged(kind: string, id: Attributes, ks: seq<string>)
    requires GoodIdentity(kind, id) && Ascending(ks, id) && |ks| > 1 && CleanKeys(ks, id)
    ensures !OneOfItsKind(kind, id)
  {
    var k, v := ks[0], MergedValue(id, ks);
    KeyOf(kind, ks, id);
    OneKey(kind, k, v);
    assert PairsJoined(ks, id) == k + ['='] + v;
    assert k in ks && ks[1] in ks;
    LessTotal(k, ks[1]);
    assert ks[1] !in map[k := v];
    Rival(kind, id, map[k := v]);
  }

  function MergedValue(id: Attributes, ks: seq<string>): (v: string)
    requires ks != [] && GoodAttributes(id, '}') && forall i | 0 <= i < |ks| :: ks[i] in id
    ensures Bytes(v) && More(ks, id) == [','] + (ks[0] + ['='] + v)
  {
    MoreBytes(ks[1..], id);
    id[ks[0]] + More(ks[1..], id)
  }

  lemma {:induction false} MoreBytes(ks: seq<string>, m: Attributes)
    requires GoodAttributes(m, '}') && forall i | 0 <= i < |ks| :: ks[i] in m
    ensures Bytes(More(ks, m))
  {
    if ks != [] {
      MoreBytes(ks[1..], m);
      BytesJoined(ks[0], '=', m[ks[0]] + More(ks[1..], m));
    }
  }

  /** A value that hides an attribute can be read as two. */
  lemma Unmerged(kind: string, k: string, v: string)
    requires GoodIdentity(kind, map[k := v]) && Hides(k, v)
    ensures !OneOfItsKind(kind, map[k := v])
  {
    var i, j :| 0 <= i < j < |v| && v[i] == ',' && v[j] == '=' && GoodKey(v[i + 1..j], '}') && Less(k, v[i + 1..j]);
    var p, u, w := v[i + 1..j], v[..i], v[j + 1..];
    assert k in map[k := v];
    CutTwice(v, i, j);
    UnmergedAt(kind, k, u, p, w);
    assert v == u + ([','] + (p + ['='] + w));
  }

  lemma UnmergedAt(kind: string, k: string, u: string, p: string, w: string)
    requires ValidKind(kind) && GoodKey(k, '}') && GoodKey(p, '}') && Less(k, p) && Bytes(u) && Bytes(w)
    ensures !OneOfItsKind(kind, map[k := u + ([','] + (p + ['='] + w))])
  {
    var v := u + ([','] + (p + ['='] + w));
    OneKey(kind, k, v);
    TwoKeys(kind, k, u, p, w);
    LessTotal(k, p);
    var id, id' := map[k := v], map[k := u, p := w];
    assert p in id' && p !in id;
    Rival(kind, id, id');
  }

  lemma Rival(kind: string, id: Attributes, id': Attributes)
    requires GoodIdentity(kind, id') && IdentityKey(kind, id) == IdentityKey(kind, id') && id != id'
    ensures !OneOfItsKind(kind, id)
  {
  }

  lemma CutTwice(v: string, i: nat, j: nat)
    requires i < j < |v| && v[i] == ',' && v[j] == '='
    ensures v == v[..i] + ([','] + (v[i + 1..j] + ['='] + v[j + 1..]))
    ensures Bytes(v) ==> Bytes(v[..i]) && Bytes(v[j + 1..])
  {
  }

  lemma SecondHidden(k: string, v: string, ks: seq<string>, m: Attributes)
    requires |ks| > 1 && ks[0] == k && CleanKeys(ks, m) && GoodKey(ks[1], '}') && Less(k, ks[1])
    requires v == m[k] + More(ks[1..], m)
    ensures Hides(k, v)
  {
    var p, i := ks[1], |m[k]|;
    var j := i + 1 + |p|;
    var w := m[p] + More(ks[1..][1..], m);
    assert v == m[k] + ([','] + (p + ['='] + w));
    assert v[i] == ',' && v[j] == '=' && v[i + 1..j] == p;
  }

  /** With a single attribute that hides none, every reading of the key is this one. */
  lemma OnlyOne(kind: string, k: string, v: string, kind': string, id': Attributes)
    requires GoodIdentity(kind, map[k := v]) && !Hides(k, v)
    requires GoodIdentity(kind', id') && IdentityKey(kind', id') == IdentityKey(kind, map[k := v])
    ensures kind' == kind && id' == map[k := v]
  {
    var ks := GoodKeys(kind', id');
    OneKey(kind, k, v);
    assert CleanKeys([k], map[k := v]) by { assert k in map[k := v]; }
    KeyOf(kind, [k], map[k := v]);
    KeyParts(kind, [k], map[k := v], kind', ks, id');
    OnlyPair(k, v, ks, id');
  }

  lemma OnlyPair(k: string, v: string, ks: seq<string>, m: Attributes)
    requires Ascending(ks, m) && ks != [] && CleanKeys(ks, m) && GoodAttributes(m, '}') && CleanKey(k)
    requires More(ks, m) == [','] + (k + ['='] + v) && !Hides(k, v)
    ensures m == map[k := v]
  {
    FirstPair(k, v, ks, m);
    if |ks| > 1 {
      assert ks[1] in ks && Less(ks[0], ks[1]);
      SecondHidden(k, v, ks, m);
    }
    assert m.Keys == {k} by { assert forall x :: x in ks <==> x in m; }
  }

  lemma FirstPair(k: string, v: string, ks: seq<string>, m: Attributes)
    requires ks != [] && CleanKeys(ks, m) && CleanKey(k) && More(ks, m) == [','] + (k + ['='] + v)
    ensures ks[0] == k && v == m[k] + More(ks[1..], m)
    ensures |ks| == 1 ==> v == m[k]
  {
    MoreFirst(ks, m);
    assert More(ks, m)[1..] == k + ['='] + v;
    CutHere(k, '=', v);
    if |ks| == 1 { assert m[k] + More(ks[1..], m) == m[k]; }
  }

  /** No other entity has the same key if and only if there is one attribute and its value hides none. */
  lemma KeyUnique(kind: string, id: Attributes)
    requires GoodIdentity(kind, id)
    ensures OneOfItsKind(kind, id) <==> Safe(id)
  {
    var ks := GoodKeys(kind, id);
    assert ks[0] in ks;
    if |ks| > 1 {
      Merged(kind, id, ks);
      assert ks[1] in ks;
      LessTotal(ks[0], ks[1]);
      NotSingle(id, ks[0], ks[1]);
    } else {
      Single(id, ks);
      SingleUnique(kind, ks[0], id[ks[0]]);
      SafeSingle(ks[0], id[ks[0]]);
    }
  }

  lemma NotSingle(id: Attributes, k: string, p: string)
    requires k in id && p in id && k != p
    ensures !Safe(id)
  {
  }

  lemma Single(id: Attributes, ks: seq<string>)
    requires |ks| == 1 && Lists(ks, id)
    ensures ks[0] in id && id == map[ks[0] := id[ks[0]]]
  {
    assert ks[0] in ks;
    assert forall x :: x in ks <==> x in id;
  }

  lemma SafeSingle(k: string, v: string)
    ensures Safe(map[k := v]) <==> !Hides(k, v)
  {
    assert k in map[k := v];
  }

  lemma SingleUnique(kind: string, k: string, v: string)
    requires GoodIdentity(kind, map[k := v])
    ensures OneOfItsKind(kind, map[k := v]) <==> !Hides(k, v)
  {
    if Hides(k, v) {
      Unmerged(kind, k, v);
    } else {
      forall kind', id' | GoodIdentity(kind', id') && IdentityKey(kind', id') == IdentityKey(kind, map[k := v])
        ensures kind' == kind && id' == map[k := v]
      {
        OnlyOne(kind, k, v, kind', id');
      }
    }
  }

  /** Two different entities with the same key. */
  lemma KeyCollision()
    ensures IdentityKey("host", map["a" := "1,b=2"]) == IdentityKey("host", map["a" := "1", "b" := "2"])
    ensures "b" !in map["a" := "1,b=2"]
  {
    OneKey("host", "a", "1,b=2");
    assert Less("a", "b");
    TwoKeys("host", "a", "1", "b", "2");
    assert "1,b=2" == "1" + ([','] + ("b" + ['='] + "2"));
  }
}
