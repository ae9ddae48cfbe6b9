/**
 From entities to a resource.  The detector looks up, for every identity key, the last index it occurs at, and
 lays the attributes of the entities at these indices over each other.
 */
module EntityMerge {
  import opened EntityParser
  import opened EntityIdentity

  datatype Resource = Resource(attributes: Attributes, url: string)

  const NO_RESOURCE := Resource(map[], "")

  // ---- what is merged

  ghost function Key(e: Entity): string {
    IdentityKey(e.kind, e.id)
  }

  /** Some entity of the list has the key of `e`. */
  ghost predicate Known(e: Entity, es: seq<Entity>) {
    exists i | 0 <= i < |es| :: Key(es[i]) == Key(e)
  }

  /** Without the entities that have a later one with the same key. */
  ghost function Survivors(es: seq<Entity>): seq<Entity> {
    if es == [] then []
    else if Known(es[0], es[1..]) then Survivors(es[1..])
    else [es[0]] + Survivors(es[1..])
  }

  function Laid(r: Resource, e: Entity): Resource {
    Resource(r.attributes + e.id + e.desc, if e.url != "" then e.url else r.url)
  }

  /** Laid over each other from left to right. */
  function Overlay(r: Resource, es: seq<Entity>): Resource
    decreases |es|
  {
    if es == [] then r else Overlay(Laid(r, es[0]), es[1..])
  }

  ghost function Detected(text: string): Resource {
    Overlay(NO_RESOURCE, Survivors(Parsed(text)))
  }

  // ---- the two passes

  ghost predicate KeysOf(keys: seq<string>, es: seq<Entity>) {
    |keys| == |es| && forall i | 0 <= i < |es| :: keys[i] == Key(es[i])
  }

  /** `k` occurs before `i`, and `at` is the last index it occurs at. */
  predicate LastAt(keys: seq<string>, i: nat, k: string, at: nat)
    requires i <= |keys|
  {
    at < i && keys[at] == k && forall j | at < j < i :: keys[j] != k
  }

  predicate Indexed(index: map<string, nat>, keys: seq<string>, i: nat)
    requires i <= |keys|
  {
    && (forall k | k in index :: LastAt(keys, i, k, index[k]))
    && (forall j | 0 <= j < i :: keys[j] in index)
  }

  method BuildKeys(es: seq<Entity>) returns (keys: seq<string>)
    ensures KeysOf(keys, es)
  {
    keys := [];
    for i := 0 to |es|
      invariant |keys| == i && forall j | 0 <= j < i :: keys[j] == Key(es[j])
    {
      var key := BuildEntityIdentityKey(es[i].kind, es[i].id);
      keys := keys + [key];
    }
  }

  method IndexLast(keys: seq<string>) returns (index: map<string, nat>)
    ensures Indexed(index, keys, |keys|)
  {
    index := map[];
    for i := 0 to |keys|
      invariant Indexed(index, keys, i)
    {
      ghost var was := index;
      index := index[keys[i] := i];
      forall k | k in index ensures LastAt(keys, i + 1, k, index[k]) {
        if k != keys[i] { assert LastAt(keys, i, k, was[k]); }
      }
    }
  }

  /** Writes one attribute after the other, in any order. */
  method PutAll(attributes: Attributes, more: Attributes) returns (r: Attributes)
    ensures r == attributes + more
  {
    r := attributes;
    var left := more.Keys;
    while left != {}
      invariant left <= more.Keys
      invariant forall k :: k in r <==> k in attributes || (k in more && k !in left)
      invariant forall k | k in r :: r[k] == if k in more && k !in left then more[k] else attributes[k]
      decreases left
    {
      var k :| k in left;
      r := r[k := more[k]];
      left := left - {k};
    }
  }

  lemma LastSurvives(es: seq<Entity>, keys: seq<string>, index: map<string, nat>, i: nat)
    requires KeysOf(keys, es) && Indexed(index, keys, |keys|) && i < |es|
    ensures keys[i] in index && (index[keys[i]] == i <==> !Known(es[i], es[i + 1..]))
  {
    var at := index[keys[i]];
    assert LastAt(keys, |keys|, keys[i], at);
    if at > i { assert es[i + 1..][at - i - 1] == es[at]; }
    if Known(es[i], es[i + 1..]) {
      var j :| 0 <= j < |es| - i - 1 && Key(es[i + 1..][j]) == Key(es[i]);
      assert keys[i + 1 + j] == keys[i];
    }
  }

  method Merge(es: seq<Entity>) returns (r: Resource)
    ensures r == Overlay(NO_RESOURCE, Survivors(es))
  {
    var keys := BuildKeys(es);
    var index := IndexLast(keys);
    r := NO_RESOURCE;
    assert es[0..] == es;
    for i := 0 to |es|
      invariant Overlay(NO_RESOURCE, Survivors(es)) == Overlay(r, Survivors(es[i..]))
    {
      LastSurvives(es, keys, index, i);
      assert es[i..][0] == es[i] && es[i..][1..] == es[i + 1..];
      if index[keys[i]] == i {
        var attributes := PutAll(r.attributes, es[i].id);
        attributes := PutAll(attributes, es[i].desc);
        assert ([es[i]] + Survivors(es[i + 1..]))[1..] == Survivors(es[i + 1..]);
        r := Resource(attributes, if es[i].url != "" then es[i].url else r.url);
      }
    }
  }

  /** `present` says whether the environment variable exists. */
  method Detect(present: bool, text: string) returns (r: Resource)
    ensures r == if present then Detected(text) else NO_RESOURCE
  {
    if !present || text == "" {
      return NO_RESOURCE;
    }
    var entities := ParseEntities(text);
    if entities == [] {
      return NO_RESOURCE;
    }
    r := Merge(entities);
  }

  // ---- what the survivors are

  /** Entity number `i` is the last with its key. */
  ghost predicate Live(es: seq<Entity>, i: nat) {
    i < |es| && !Known(es[i], es[i + 1..])
  }

  lemma LiveBehind(es: seq<Entity>, i: nat)
    requires es != []
    ensures Live(es[1..], i) <==> Live(es, i + 1)
  {
    if i + 1 < |es| { assert es[1..][i + 1..] == es[i + 2..]; }
  }

  lemma {:induction false} SurvivorsKnown(es: seq<Entity>, e: Entity)
    ensures Known(e, Survivors(es)) <==> Known(e, es)
  {
    if es != [] {
      SurvivorsKnown(es[1..], e);
      KnownConcat(e, [es[0]], es[1..]);
      assert es == [es[0]] + es[1..];
      KnownConcat(e, [es[0]], Survivors(es[1..]));
      KnownOne(e, es[0]);
      if Known(es[0], es[1..]) && Key(e) == Key(es[0]) { KnownSame(e, es[0], es[1..]); }
    }
  }

  lemma KnownOne(e: Entity, f: Entity)
    ensures Known(e, [f]) <==> Key(f) == Key(e)
  {
    assert [f][0] == f;
  }

  lemma KnownSame(e: Entity, f: Entity, es: seq<Entity>)
    requires Key(e) == Key(f)
    ensures Known(e, es) <==> Known(f, es)
  {
  }

  lemma KnownConcat(e: Entity, a: seq<Entity>, b: seq<Entity>)
    ensures Known(e, a + b) <==> Known(e, a) || Known(e, b)
  {
    if Known(e, a) {
      var i :| 0 <= i < |a| && Key(a[i]) == Key(e);
      assert (a + b)[i] == a[i];
    }
    if Known(e, b) {
      var i :| 0 <= i < |b| && Key(b[i]) == Key(e);
      assert (a + b)[|a| + i] == b[i];
    }
  }

  /** Every key that occurs survives exactly once. */
  lemma {:induction false} SurvivorsDistinct(es: seq<Entity>)
    ensures forall i, j | 0 <= i < j < |Survivors(es)| :: Key(Survivors(es)[i]) != Key(Survivors(es)[j])
    ensures forall i | 0 <= i < |es| :: Known(es[i], Survivors(es))
  {
    forall i | 0 <= i < |es| ensures Known(es[i], Survivors(es)) { SurvivorsKnown(es, es[i]); }
    if es != [] {
      SurvivorsDistinct(es[1..]);
      SurvivorsKnown(es[1..], es[0]);
    }
  }

  /** Without the entities whose key occurs in `later`. */
  ghost function Remaining(es: seq<Entity>, later: seq<Entity>): seq<Entity> {
    if es == [] then []
    else if Known(es[0], later) then Remaining(es[1..], later)
    else [es[0]] + Remaining(es[1..], later)
  }

  lemma RemainingCons(e: Entity, es: seq<Entity>, later: seq<Entity>)
    ensures Remaining([e] + es, later) == if Known(e, later) then Remaining(es, later) else [e] + Remaining(es, later)
  {
    assert ([e] + es)[1..] == es;
  }

  lemma {:induction false} SurvivorsConcat(a: seq<Entity>, b: seq<Entity>)
    ensures Survivors(a + b) == Remaining(Survivors(a), b) + Survivors(b)
  {
    if a == [] {
      assert a + b == b;
      assert Remaining(Survivors(a), b) == [];
    } else {
      assert (a + b)[1..] == a[1..] + b && (a + b)[0] == a[0];
      SurvivorsConcat(a[1..], b);
      KnownConcat(a[0], a[1..], b);
      RemainingCons(a[0], Survivors(a[1..]), b);
      Cons(a[0], Remaining(Survivors(a[1..]), b), Survivors(b));
    }
  }

  lemma Cons(e: Entity, a: seq<Entity>, b: seq<Entity>)
    ensures [e] + (a + b) == [e] + a + b
  {
  }

  lemma {:induction false} NoneRemain(es: seq<Entity>, later: seq<Entity>)
    requires forall i | 0 <= i < |es| :: Known(es[i], later)
    ensures Remaining(es, later) == []
  {
    if es != [] { NoneRemain(es[1..], later); }
  }

  lemma {:induction false} SurvivorsIn(es: seq<Entity>)
    ensures forall i | 0 <= i < |Survivors(es)| :: Survivors(es)[i] in es
  {
    if es != [] { SurvivorsIn(es[1..]); }
  }

  lemma SurvivorsTwice(es: seq<Entity>)
    ensures Survivors(es + es) == Survivors(es)
  {
    var once := Survivors(es);
    SurvivorsConcat(es, es);
    SurvivorsIn(es);
    forall i | 0 <= i < |once| ensures Known(once[i], es) { KnownMember(once[i], es); }
    NoneRemain(once, es);
    assert [] + once == once;
  }

  lemma KnownMember(e: Entity, es: seq<Entity>)
    requires e in es
    ensures Known(e, es)
  {
  }

  /** Writing everything twice changes nothing. */
  lemma RepetitionIgnored(text: string)
    ensures Detected(text + [';'] + text) == Detected(text)
  {
    ParsedConcat(text, text);
    SurvivorsTwice(Parsed(text));
  }

  // ---- where an attribute comes from

  function Attrs(e: Entity): Attributes { e.id + e.desc }

  /** A live entity has the attribute `k`. */
  ghost predicate Gives(es: seq<Entity>, i: nat, k: string) {
    Live(es, i) && k in Attrs(es[i])
  }

  ghost predicate NoneFrom(es: seq<Entity>, n: nat, k: string) {
    forall i: nat | n <= i < |es| :: !Gives(es, i, k)
  }

  /** The last live entity that has the attribute. */
  ghost predicate LastToGive(es: seq<Entity>, i: nat, k: string) {
    Gives(es, i, k) && NoneFrom(es, i + 1, k)
  }

  lemma GivesBehind(es: seq<Entity>, i: nat, k: string)
    requires es != []
    ensures Gives(es[1..], i, k) <==> Gives(es, i + 1, k)
  {
    LiveBehind(es, i);
  }

  lemma NoneBehind(es: seq<Entity>, n: nat, k: string)
    requires es != [] && NoneFrom(es, n + 1, k)
    ensures NoneFrom(es[1..], n, k)
  {
    forall i: nat | n <= i < |es| - 1 ensures !Gives(es[1..], i, k) { GivesBehind(es, i, k); }
  }

  lemma OverlayNext(r: Resource, es: seq<Entity>)
    requires es != []
    ensures Overlay(r, Survivors(es)) == Overlay(if Live(es, 0) then Laid(r, es[0]) else r, Survivors(es[1..]))
  {
    assert ([es[0]] + Survivors(es[1..]))[1..] == Survivors(es[1..]);
  }

  lemma {:induction false} Untouched(r: Resource, es: seq<Entity>, k: string)
    requires NoneFrom(es, 0, k)
    ensures var m := Overlay(r, Survivors(es)).attributes;
            (k in m <==> k in r.attributes) && (k in m ==> m[k] == r.attributes[k])
    decreases |es|
  {
    if es != [] {
      OverlayNext(r, es);
      assert !Gives(es, 0, k);
      NoneBehind(es, 0, k);
      Untouched(if Live(es, 0) then Laid(r, es[0]) else r, es[1..], k);
    }
  }

  lemma {:induction false} Written(r: Resource, es: seq<Entity>, k: string, i: nat)
    requires LastToGive(es, i, k)
    ensures var m := Overlay(r, Survivors(es)).attributes; k in m && m[k] == Attrs(es[i])[k]
    decreases i
  {
    OverlayNext(r, es);
    var r' := if Live(es, 0) then Laid(r, es[0]) else r;
    if i == 0 {
      NoneBehind(es, 0, k);
      Untouched(r', es[1..], k);
    } else {
      GivesBehind(es, i - 1, k);
      NoneBehind(es, i, k);
      Written(r', es[1..], k, i - 1);
    }
  }

  lemma {:induction false} LastTrue(f: nat -> bool, n: nat) returns (found: bool, i: nat)
    ensures found ==> i < n && f(i) && forall j | i < j < n :: !f(j)
    ensures !found ==> forall j | 0 <= j < n :: !f(j)
  {
    if n == 0 {
      found, i := false, 0;
    } else if f(n - 1) {
      found, i := true, n - 1;
    } else {
      found, i := LastTrue(f, n - 1);
    }
  }

  lemma SomeoneGives(es: seq<Entity>, k: string)
    ensures NoneFrom(es, 0, k) || exists i: nat :: LastToGive(es, i, k)
  {
    var gives := (i: nat) => Gives(es, i, k);
    var found, i := LastTrue(gives, |es|);
    assert forall j: nat :: gives(j) == Gives(es, j, k);
    assert found ==> LastToGive(es, i, k);
  }

  /**
   An attribute has a value in the resource if and only if the last live entity that has the attribute gives it
   that value; within one entity the descriptive attributes win.
   */
  lemma AttributeOrigin(es: seq<Entity>, k: string, v: string)
    ensures var m := Overlay(NO_RESOURCE, Survivors(es)).attributes;
            (k in m && m[k] == v) <==> exists i: nat :: LastToGive(es, i, k) && Attrs(es[i])[k] == v
  {
    SomeoneGives(es, k);
    if NoneFrom(es, 0, k) {
      Untouched(NO_RESOURCE, es, k);
      forall i: nat ensures !LastToGive(es, i, k) { if i < |es| { assert !Gives(es, i, k); } }
    } else {
      var i: nat :| LastToGive(es, i, k);
      Written(NO_RESOURCE, es, k, i);
    }
    forall i: nat | LastToGive(es, i, k) ensures k in Overlay(NO_RESOURCE, Survivors(es)).attributes
                                              && Overlay(NO_RESOURCE, Survivors(es)).attributes[k] == Attrs(es[i])[k]
    {
      Written(NO_RESOURCE, es, k, i);
    }
  }

  // ---- where the schema URL comes from

  ghost predicate GivesUrl(es: seq<Entity>, i: nat) {
    Live(es, i) && es[i].url != ""
  }

  ghost predicate NoUrlFrom(es: seq<Entity>, n: nat) {
    forall i: nat | n <= i < |es| :: !GivesUrl(es, i)
  }

  lemma NoUrlBehind(es: seq<Entity>, n: nat)
    requires es != [] && NoUrlFrom(es, n + 1)
    ensures NoUrlFrom(es[1..], n)
  {
    forall i: nat | n <= i < |es| - 1 ensures !GivesUrl(es[1..], i) {
      LiveBehind(es, i);
      assert !GivesUrl(es, i + 1);
    }
  }

  lemma {:induction false} UrlUntouched(r: Resource, es: seq<Entity>)
    requires NoUrlFrom(es, 0)
    ensures Overlay(r, Survivors(es)).url == r.url
    decreases |es|
  {
    if es != [] {
      OverlayNext(r, es);
      assert !GivesUrl(es, 0);
      NoUrlBehind(es, 0);
      UrlUntouched(if Live(es, 0) then Laid(r, es[0]) else r, es[1..]);
    }
  }

  /** The resource has the URL of the last live entity with one; entities without a URL leave it alone. */
  lemma {:induction false} UrlOrigin(r: Resource, es: seq<Entity>, i: nat)
    requires GivesUrl(es, i) && NoUrlFrom(es, i + 1)
    ensures Overlay(r, Survivors(es)).url == es[i].url
    decreases i
  {
    OverlayNext(r, es);
    if i == 0 {
      NoUrlBehind(es, 0);
      UrlUntouched(Laid(r, es[0]), es[1..]);
    } else {
      UrlBehind(es, i - 1);
      NoUrlBehind(es, i);
      UrlOrigin(if Live(es, 0) then Laid(r, es[0]) else r, es[1..], i - 1);
    }
  }

  lemma UrlBehind(es: seq<Entity>, i: nat)
    requires es != [] && GivesUrl(es, i + 1)
    ensures GivesUrl(es[1..], i)
  {
    LiveBehind(es, i);
  }

  // ---- the same without keys

  /** Well-formed entities none of whose identifying values has a `=` behind a comma. */
  predicate Plain(es: seq<Entity>) {
    forall i | 0 <= i < |es| :: GoodIdentity(es[i].kind, es[i].id) && PlainValues(es[i].id)
  }

  /** No later entity has the type and the identifying attributes of entity `i`. */
  predicate LastOfIdentity(es: seq<Entity>, i: nat) {
    i < |es| && forall j | i < j < |es| :: es[j].kind != es[i].kind || es[j].id != es[i].id
  }

  /** For plain entities survival is about type and identifying attributes. */
  lemma LiveExactly(es: seq<Entity>, i: nat)
    requires Plain(es) && i < |es|
    ensures Live(es, i) <==> LastOfIdentity(es, i)
  {
    var later := es[i + 1..];
    forall j | i < j < |es|
      ensures later[j - i - 1] == es[j]
      ensures Key(es[j]) == Key(es[i]) <==> es[j].kind == es[i].kind && es[j].id == es[i].id
    {
      KeyInjective(es[j].kind, es[j].id, es[i].kind, es[i].id);
    }
    if Known(es[i], later) {
      var k :| 0 <= k < |later| && Key(later[k]) == Key(es[i]);
      assert es[i + 1 + k] == later[k];
    } else {
      forall j | i < j < |es| ensures es[j].kind != es[i].kind || es[j].id != es[i].id {
        assert Key(later[j - i - 1]) != Key(es[i]);
      }
    }
  }

  predicate HasAttribute(e: Entity, k: string) { k in e.id || k in e.desc }

  function AttributeOf(e: Entity, k: string): string
    requires HasAttribute(e, k)
  {
    if k in e.desc then e.desc[k] else e.id[k]
  }

  /** Entity `i` is the last with the attribute among those that are the last of their identity. */
  ghost predicate Decides(es: seq<Entity>, i: nat, k: string) {
    && LastOfIdentity(es, i) && HasAttribute(es[i], k)
    && forall j: nat | i < j < |es| :: !(LastOfIdentity(es, j) && HasAttribute(es[j], k))
  }

  lemma DecidesExactly(es: seq<Entity>, i: nat, k: string)
    requires Plain(es) && i < |es|
    ensures LastToGive(es, i, k) <==> Decides(es, i, k)
    ensures LastToGive(es, i, k) ==> Attrs(es[i])[k] == AttributeOf(es[i], k)
  {
    forall j: nat | j < |es| ensures Gives(es, j, k) <==> LastOfIdentity(es, j) && HasAttribute(es[j], k) {
      LiveExactly(es, j);
    }
  }

  /** Where an attribute of the resource comes from, said of types and attributes only. */
  lemma AttributeDecided(es: seq<Entity>, k: string, v: string)
    requires Plain(es)
    ensures var m := Overlay(NO_RESOURCE, Survivors(es)).attributes;
            (k in m && m[k] == v) <==> exists i: nat :: Decides(es, i, k) && AttributeOf(es[i], k) == v
  {
    AttributeOrigin(es, k, v);
    forall i: nat | i < |es| ensures LastToGive(es, i, k) <==> Decides(es, i, k) { DecidesExactly(es, i, k); }
    if i: nat :| LastToGive(es, i, k) && Attrs(es[i])[k] == v {
      DecidesExactly(es, i, k);
      assert Decides(es, i, k) && AttributeOf(es[i], k) == v;
    }
    if i: nat :| Decides(es, i, k) && AttributeOf(es[i], k) == v {
      DecidesExactly(es, i, k);
      assert LastToGive(es, i, k) && Attrs(es[i])[k] == v;
    }
  }

  /** And where its schema URL comes from. */
  lemma UrlDecided(es: seq<Entity>, i: nat)
    requires Plain(es) && LastOfIdentity(es, i) && es[i].url != ""
    requires forall j: nat | i < j < |es| && LastOfIdentity(es, j) :: es[j].url == ""
    ensures Overlay(NO_RESOURCE, Survivors(es)).url == es[i].url
  {
    forall j: nat | j < |es| ensures GivesUrl(es, j) <==> LastOfIdentity(es, j) && es[j].url != "" {
      LiveExactly(es, j);
    }
    UrlOrigin(NO_RESOURCE, es, i);
  }

  /** Two entities of one type with different attributes are both kept. */
  lemma BothKept(kind: string, a: Attributes, b: Attributes, k: string)
    requires GoodIdentity(kind, a) && GoodIdentity(kind, b) && PlainValues(a) && PlainValues(b)
    requires k in a && k !in b
    ensures var es := [Entity(kind, a, map[], ""), Entity(kind, b, map[], "")];
            var m := Overlay(NO_RESOURCE, Survivors(es)).attributes;
            k in m && m[k] == a[k] && (forall x | x in b :: x in m && m[x] == b[x])
  {
    var es := [Entity(kind, a, map[], ""), Entity(kind, b, map[], "")];
    assert Plain(es) && LastOfIdentity(es, 0) && LastOfIdentity(es, 1);
    AttributeDecided(es, k, a[k]);
    assert Decides(es, 0, k) && AttributeOf(es[0], k) == a[k];
    forall x | x in b
      ensures var m := Overlay(NO_RESOURCE, Survivors(es)).attributes; x in m && m[x] == b[x]
    {
      AttributeDecided(es, x, b[x]);
      assert Decides(es, 1, x) && AttributeOf(es[1], x) == b[x];
    }
  }
}
