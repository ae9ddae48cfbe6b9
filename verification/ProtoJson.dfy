/**
 The conversion of protobuf messages to JSON values, as both the HTTP and the file exporter do it, and a
 schema-directed inverse: the JSON encoding loses nothing of a message.
 */
module ProtoJson {
  import opened Numerals
  import opened Base64
  import opened Common

  // ---- messages and JSON values

  datatype FieldType =
    | TInt32 | TInt64 | TUint32 | TUint64 | TString | TBytes | TMessage(name: string)
    | TDouble | TFloat | TBool | TEnum

  datatype FieldDesc = FieldDesc(
    camelName: string,
    jsonName: string,
    lowercaseName: string,
    ftype: FieldType,
    repeated: bool)

  /** Numbers of every integral type, text, bytes, sub-messages; floating point values are kept opaque. */
  datatype Value =
    | VNumber(i: int)
    | VText(s: string)
    | VBytes(bytes: seq<Byte>)
    | VMessage(m: Message)
    | VFloat(bits: nat)
    | VBool(b: bool)

  datatype Content = One(v: Value) | Many(vs: seq<Value>)

  datatype Field = Field(desc: FieldDesc, content: Content)

  /** The fields that are set, in the order ListFields gives them. */
  datatype Message = Message(fields: seq<Field>)

  datatype Json =
    | JNull
    | JBool(b: bool)
    | JNumber(i: int)
    | JFloat(bits: nat)
    | JText(s: string)
    | JArray(items: seq<Json>)
    | JObject(members: map<string, Json>)

  // ---- the HTTP converter

  datatype BytesMapping = HexId | HexAll | Base64All

  datatype Options = Options(useJsonName: bool, bytesMapping: BytesMapping)

  function NameOf(o: Options, d: FieldDesc): string {
    if o.useJsonName then d.jsonName else d.camelName
  }

  predicate IsId(d: FieldDesc) {
    d.lowercaseName in {"trace_id", "span_id", "parent_span_id"}
  }

  predicate UsesHex(o: Options, d: FieldDesc) {
    match o.bytesMapping
    case HexId => IsId(d)
    case HexAll => true
    case Base64All => false
  }

  function BytesText(o: Options, d: FieldDesc, b: seq<Byte>): string {
    if UsesHex(o, d) then Hex(b) else Escape(b)
  }

  predicate Is64Bit(t: FieldType) { t.TInt64? || t.TUint64? }

  function ValueToJson(o: Options, d: FieldDesc, v: Value): Json
    decreases v
  {
    match v
    case VNumber(i) => if Is64Bit(d.ftype) then JText(Signed(i)) else JNumber(i)
    case VText(s) => JText(s)
    case VBytes(b) => JText(BytesText(o, d, b))
    case VMessage(m) => ToJson(o, m)
    case VFloat(bits) => JFloat(bits)
    case VBool(b) => JBool(b)
  }

  function ItemsToJson(o: Options, d: FieldDesc, vs: seq<Value>): (items: seq<Json>)
    ensures |items| == |vs|
    ensures forall i | 0 <= i < |vs| :: items[i] == ValueToJson(o, d, vs[i])
    decreases vs
  {
    if vs == [] then []
    else ItemsToJson(o, d, vs[..|vs| - 1]) + [ValueToJson(o, d, vs[|vs| - 1])]
  }

  /** A repeated field without elements leaves the member null; ListFields does not list such a field. */
  function ContentToJson(o: Options, f: Field): Json
    decreases f
  {
    match f.content
    case One(v) => ValueToJson(o, f.desc, v)
    case Many(vs) => if vs == [] then JNull else JArray(ItemsToJson(o, f.desc, vs))
  }

  function Members(o: Options, fs: seq<Field>): map<string, Json>
    decreases fs
  {
    if fs == [] then map[]
    else
      var f := fs[|fs| - 1];
      Members(o, fs[..|fs| - 1])[NameOf(o, f.desc) := ContentToJson(o, f)]
  }

  /** A message with no field set leaves the value null. */
  function ToJson(o: Options, m: Message): Json
    decreases m
  {
    if m.fields == [] then JNull else JObject(Members(o, m.fields))
  }

  /** The rules of the encoding, one by one. */
  lemma EncodingRules(o: Options, d: FieldDesc, i: int, b: seq<Byte>, v: Value, vs: seq<Value>)
    ensures ToJson(o, Message([])) == JNull
    ensures ToJson(o, Message([Field(d, One(v))])) ==
            JObject(map[if o.useJsonName then d.jsonName else d.camelName := ValueToJson(o, d, v)])
    ensures d.ftype == TInt64 || d.ftype == TUint64 ==> ValueToJson(o, d, VNumber(i)) == JText(Signed(i))
    ensures d.ftype != TInt64 && d.ftype != TUint64 ==> ValueToJson(o, d, VNumber(i)) == JNumber(i)
    ensures o.bytesMapping == HexAll ==> ValueToJson(o, d, VBytes(b)) == JText(Hex(b))
    ensures o.bytesMapping == Base64All ==> ValueToJson(o, d, VBytes(b)) == JText(Escape(b))
    ensures o.bytesMapping == HexId ==>
              ValueToJson(o, d, VBytes(b)) ==
              var id := d.lowercaseName == "trace_id" || d.lowercaseName == "span_id"
                        || d.lowercaseName == "parent_span_id";
              JText(if id then Hex(b) else Escape(b))
    ensures vs != [] ==> var j := ContentToJson(o, Field(d, Many(vs)));
                         j.JArray? && |j.items| == |vs|
                         && forall k | 0 <= k < |vs| :: j.items[k] == ValueToJson(o, d, vs[k])
  {
    var f := Field(d, One(v));
    assert [f][..0] == [];
    assert Members(o, [f]) == map[NameOf(o, d) := ContentToJson(o, f)];
  }

  /** The converter of the code: it fills the value member by member and element by element. */
  method ConvertMessage(o: Options, m: Message) returns (value: Json)
    ensures value == ToJson(o, m)
    decreases m
  {
    value := JNull;
    for i := 0 to |m.fields|
      invariant value == if i == 0 then JNull else JObject(Members(o, m.fields[..i]))
    {
      var f := m.fields[i];
      var child := ConvertField(o, f);
      assert m.fields[..i + 1][..i] == m.fields[..i];
      var members := if value.JObject? then value.members else map[];
      value := JObject(members[NameOf(o, f.desc) := child]);
    }
    assert m.fields[..|m.fields|] == m.fields;
  }

  method ConvertField(o: Options, f: Field) returns (value: Json)
    ensures value == ContentToJson(o, f)
    decreases f
  {
    match f.content
    case One(v) =>
      value := ConvertValue(o, f.desc, v);
    case Many(vs) =>
      value := JNull;
      for i := 0 to |vs|
        invariant value == if i == 0 then JNull else JArray(ItemsToJson(o, f.desc, vs[..i]))
      {
        var item := ConvertValue(o, f.desc, vs[i]);
        assert vs[..i + 1][..i] == vs[..i];
        value := JArray((if value.JArray? then value.items else []) + [item]);
      }
      assert vs[..|vs|] == vs;
  }

  method ConvertValue(o: Options, d: FieldDesc, v: Value) returns (value: Json)
    ensures value == ValueToJson(o, d, v)
    decreases v
  {
    match v
    case VNumber(i) => value := if Is64Bit(d.ftype) then JText(Signed(i)) else JNumber(i);
    case VText(s) => value := JText(s);
    case VBytes(b) =>
      if UsesHex(o, d) {
        var text := HexEncode(b);
        value := JText(text);
      } else {
        var text := Base64Escape(b);
        value := JText(text);
      }
    case VMessage(m) => value := ConvertMessage(o, m);
    case VFloat(bits) => value := JFloat(bits);
    case VBool(b) => value := JBool(b);
  }

  // ---- the file converter, written without options

  function FileBytesText(d: FieldDesc, b: seq<Byte>): string {
    if d.lowercaseName == "trace_id" || d.lowercaseName == "span_id" || d.lowercaseName == "parent_span_id"
    then Hex(b) else Escape(b)
  }

  function FileValue(d: FieldDesc, v: Value): Json
    decreases v
  {
    match v
    case VNumber(i) => if d.ftype.TInt64? || d.ftype.TUint64? then JText(Signed(i)) else JNumber(i)
    case VText(s) => JText(s)
    case VBytes(b) => JText(FileBytesText(d, b))
    case VMessage(m) => FileMessage(m)
    case VFloat(bits) => JFloat(bits)
    case VBool(b) => JBool(b)
  }

  function FileItems(d: FieldDesc, vs: seq<Value>): seq<Json>
    decreases vs
  {
    if vs == [] then [] else FileItems(d, vs[..|vs| - 1]) + [FileValue(d, vs[|vs| - 1])]
  }

  function FileField(f: Field): Json
    decreases f
  {
    match f.content
    case One(v) => FileValue(f.desc, v)
    case Many(vs) => if vs == [] then JNull else JArray(FileItems(f.desc, vs))
  }

  function FileMembers(fs: seq<Field>): map<string, Json>
    decreases fs
  {
    if fs == [] then map[]
    else FileMembers(fs[..|fs| - 1])[fs[|fs| - 1].desc.camelName := FileField(fs[|fs| - 1])]
  }

  function FileMessage(m: Message): Json
    decreases m
  {
    if m.fields == [] then JNull else JObject(FileMembers(m.fields))
  }

  const FILE_OPTIONS := Options(false, HexId)

  /** The two converters agree when the HTTP one uses camel-case names and hexadecimal ids. */
  lemma {:induction false} FileIsHttp(m: Message)
    ensures FileMessage(m) == ToJson(FILE_OPTIONS, m)
    decreases m, 1
  {
    FileMembersIsHttp(m.fields);
  }

  lemma {:induction false} FileMembersIsHttp(fs: seq<Field>)
    ensures FileMembers(fs) == Members(FILE_OPTIONS, fs)
    decreases fs, 0
  {
    if fs != [] {
      FileMembersIsHttp(fs[..|fs| - 1]);
      FileFieldIsHttp(fs[|fs| - 1]);
    }
  }

  lemma {:induction false} FileFieldIsHttp(f: Field)
    ensures FileField(f) == ContentToJson(FILE_OPTIONS, f)
    decreases f, 0
  {
    match f.content
    case One(v) => FileValueIsHttp(f.desc, v);
    case Many(vs) => FileItemsIsHttp(f.desc, vs);
  }

  lemma {:induction false} FileItemsIsHttp(d: FieldDesc, vs: seq<Value>)
    ensures FileItems(d, vs) == ItemsToJson(FILE_OPTIONS, d, vs)
    decreases vs, 0
  {
    if vs != [] {
      FileItemsIsHttp(d, vs[..|vs| - 1]);
      FileValueIsHttp(d, vs[|vs| - 1]);
    }
  }

  lemma {:induction false} FileValueIsHttp(d: FieldDesc, v: Value)
    ensures FileValue(d, v) == ValueToJson(FILE_OPTIONS, d, v)
    decreases v, 0
  {
    if v.VMessage? { FileIsHttp(v.m); }
  }

  // ---- schemas

  /** The fields of each message type, in field order. */
  type Schema = map<string, seq<FieldDesc>>

  /** `fs` picks some of the descriptors `ds`, in their order, with contents of the declared types. */
  ghost predicate FieldsFit(schema: Schema, ds: seq<FieldDesc>, fs: seq<Field>)
    decreases fs, |ds|
  {
    if fs == [] then true
    else if ds == [] then false
    else if fs[0].desc == ds[0] then ContentFits(schema, fs[0]) && FieldsFit(schema, ds[1..], fs[1..])
    else FieldsFit(schema, ds[1..], fs)
  }

  ghost predicate ContentFits(schema: Schema, f: Field)
    decreases f, 0
  {
    match f.content
    case One(v) => !f.desc.repeated && ValueFits(schema, f.desc.ftype, v)
    case Many(vs) => f.desc.repeated && vs != [] && forall i | 0 <= i < |vs| :: ValueFits(schema, f.desc.ftype, vs[i])
  }

  ghost predicate ValueFits(schema: Schema, t: FieldType, v: Value)
    decreases v, 0
  {
    match t
    case TString => v.VText?
    case TBytes => v.VBytes?
    case TMessage(name) => v.VMessage? && MessageFits(schema, name, v.m)
    case TDouble => v.VFloat?
    case TFloat => v.VFloat?
    case TBool => v.VBool?
    case _ => v.VNumber?
  }

  ghost predicate MessageFits(schema: Schema, name: string, m: Message)
    decreases m, 1
  {
    name in schema && FieldsFit(schema, schema[name], m.fields)
  }

  /** Within each message type the member names are different. */
  predicate DistinctNames(o: Options, ds: seq<FieldDesc>) {
    forall i, j | 0 <= i < j < |ds| :: NameOf(o, ds[i]) != NameOf(o, ds[j])
  }

  predicate DistinctSchema(o: Options, schema: Schema) {
    forall name | name in schema :: DistinctNames(o, schema[name])
  }

  // ---- the inverse

  function TextToBytes(o: Options, d: FieldDesc, s: string): seq<Byte> {
    if UsesHex(o, d) then Unhex(s) else Unescape(s)
  }

  function TextOf(j: Json): string {
    if j.JText? then j.s else ""
  }

  /** A member of the wrong shape reads as an empty value of its field's type. */
  function JsonToValue(o: Options, schema: Schema, d: FieldDesc, j: Json): Value
    decreases j, 2
  {
    match d.ftype
    case TString => VText(TextOf(j))
    case TBytes => VBytes(TextToBytes(o, d, TextOf(j)))
    case TMessage(name) => VMessage(JsonToMessage(o, schema, name, j))
    case TDouble => VFloat(if j.JFloat? then j.bits else 0)
    case TFloat => VFloat(if j.JFloat? then j.bits else 0)
    case TBool => VBool(j.JBool? && j.b)
    case _ => VNumber(if j.JNumber? then j.i else SignedValue(TextOf(j)))
  }

  function JsonToItems(o: Options, schema: Schema, d: FieldDesc, items: seq<Json>): (vs: seq<Value>)
    ensures |vs| == |items|
    ensures forall i | 0 <= i < |items| :: vs[i] == JsonToValue(o, schema, d, items[i])
    decreases items, 0
  {
    if items == [] then []
    else JsonToItems(o, schema, d, items[..|items| - 1]) + [JsonToValue(o, schema, d, items[|items| - 1])]
  }

  function JsonToContent(o: Options, schema: Schema, d: FieldDesc, j: Json): Content
    decreases j, 3
  {
    if d.repeated && j.JArray? then Many(JsonToItems(o, schema, d, j.items)) else One(JsonToValue(o, schema, d, j))
  }

  function JsonToFields(o: Options, schema: Schema, ds: seq<FieldDesc>, j: Json): seq<Field>
    requires j.JObject?
    decreases j, 0, |ds|
  {
    if ds == [] then []
    else
      var rest := JsonToFields(o, schema, ds[1..], j);
      var name := NameOf(o, ds[0]);
      if name in j.members then [Field(ds[0], JsonToContent(o, schema, ds[0], j.members[name]))] + rest else rest
  }

  function JsonToMessage(o: Options, schema: Schema, name: string, j: Json): Message
    decreases j, 1
  {
    if j.JObject? && name in schema then Message(JsonToFields(o, schema, schema[name], j)) else Message([])
  }

  // ---- reading back what was written

  lemma {:induction false} MembersAt(o: Options, fs: seq<Field>)
    requires forall i, j | 0 <= i < j < |fs| :: NameOf(o, fs[i].desc) != NameOf(o, fs[j].desc)
    ensures forall n :: n in Members(o, fs) <==> exists i :: 0 <= i < |fs| && NameOf(o, fs[i].desc) == n
    ensures forall i | 0 <= i < |fs| ::
              && NameOf(o, fs[i].desc) in Members(o, fs)
              && Members(o, fs)[NameOf(o, fs[i].desc)] == ContentToJson(o, fs[i])
    decreases |fs|
  {
    if fs != [] {
      var front := fs[..|fs| - 1];
      MembersAt(o, front);
      assert forall i | 0 <= i < |front| :: front[i] == fs[i];
    }
  }

  /** The descriptors of the fields that are set are among those of the schema, in order. */
  lemma {:induction false} FitsAreListed(schema: Schema, ds: seq<FieldDesc>, fs: seq<Field>)
    requires FieldsFit(schema, ds, fs)
    ensures forall i | 0 <= i < |fs| :: fs[i].desc in ds && ContentFits(schema, fs[i])
    decreases |ds|
  {
    if fs != [] {
      assert forall d | d in ds[1..] :: d in ds;
      if fs[0].desc == ds[0] {
        FitsAreListed(schema, ds[1..], fs[1..]);
        assert forall i | 0 < i < |fs| :: fs[i] == fs[1..][i - 1];
      } else {
        FitsAreListed(schema, ds[1..], fs);
      }
    }
  }

  lemma NotListed(o: Options, ds: seq<FieldDesc>, d: FieldDesc)
    requires ds != [] && DistinctNames(o, ds) && d in ds[1..]
    ensures NameOf(o, d) != NameOf(o, ds[0])
  {
    var i :| 0 <= i < |ds[1..]| && ds[1..][i] == d;
    assert ds[i + 1] == d;
  }

  lemma {:induction false} FitsAreDistinct(o: Options, schema: Schema, ds: seq<FieldDesc>, fs: seq<Field>)
    requires DistinctNames(o, ds) && FieldsFit(schema, ds, fs)
    ensures forall i, j | 0 <= i < j < |fs| :: NameOf(o, fs[i].desc) != NameOf(o, fs[j].desc)
    decreases |ds|
  {
    if fs != [] {
      if fs[0].desc == ds[0] {
        FitsAreDistinct(o, schema, ds[1..], fs[1..]);
        FitsAreListed(schema, ds[1..], fs[1..]);
        forall i, j | 0 <= i < j < |fs| ensures NameOf(o, fs[i].desc) != NameOf(o, fs[j].desc) {
          assert fs[j] == fs[1..][j - 1];
          if i == 0 { NotListed(o, ds, fs[j].desc); } else { assert fs[i] == fs[1..][i - 1]; }
        }
      } else {
        FitsAreDistinct(o, schema, ds[1..], fs);
      }
    }
  }

  /** Among the remaining descriptors, exactly those of the remaining fields have a member. */
  ghost predicate Remaining(o: Options, ds: seq<FieldDesc>, fs: seq<Field>, members: map<string, Json>) {
    && (forall d | d in ds :: NameOf(o, d) in members ==> exists i :: 0 <= i < |fs| && fs[i].desc == d)
    && (forall i | 0 <= i < |fs| ::
          NameOf(o, fs[i].desc) in members && members[NameOf(o, fs[i].desc)] == ContentToJson(o, fs[i]))
  }

  lemma {:induction false} FieldsRoundTrip(o: Options, schema: Schema, ds: seq<FieldDesc>, fs: seq<Field>, j: Json)
    requires DistinctSchema(o, schema) && DistinctNames(o, ds) && FieldsFit(schema, ds, fs)
    requires j.JObject? && Remaining(o, ds, fs, j.members)
    ensures JsonToFields(o, schema, ds, j) == fs
    decreases fs, |ds|
  {
    if ds != [] {
      var d := ds[0];
      if fs != [] && fs[0].desc == d {
        assert Remaining(o, ds[1..], fs[1..], j.members) by {
          forall e | e in ds[1..] && NameOf(o, e) in j.members
            ensures exists i :: 0 <= i < |fs[1..]| && fs[1..][i].desc == e
          {
            NotListed(o, ds, e);
            assert e in ds;
            var i :| 0 <= i < |fs| && fs[i].desc == e;
            assert fs[1..][i - 1].desc == e;
          }
        }
        FieldsRoundTrip(o, schema, ds[1..], fs[1..], j);
        ContentRoundTrip(o, schema, fs[0]);
        assert fs == [fs[0]] + fs[1..];
      } else {
        FitsAreListed(schema, ds[1..], fs);
        forall i | 0 <= i < |fs| ensures fs[i].desc != d { NotListed(o, ds, fs[i].desc); }
        assert d in ds;
        assert NameOf(o, d) !in j.members;
        assert Remaining(o, ds[1..], fs, j.members);
        FieldsRoundTrip(o, schema, ds[1..], fs, j);
      }
    }
  }

  lemma {:induction false} ContentRoundTrip(o: Options, schema: Schema, f: Field)
    requires DistinctSchema(o, schema) && ContentFits(schema, f)
    ensures JsonToContent(o, schema, f.desc, ContentToJson(o, f)) == f.content
    decreases f, 0
  {
    match f.content
    case One(v) => ValueRoundTrip(o, schema, f.desc, v);
    case Many(vs) =>
      forall i | 0 <= i < |vs| ensures JsonToValue(o, schema, f.desc, ValueToJson(o, f.desc, vs[i])) == vs[i] {
        ValueRoundTrip(o, schema, f.desc, vs[i]);
      }
      assert JsonToItems(o, schema, f.desc, ItemsToJson(o, f.desc, vs)) == vs;
  }

  lemma {:induction false} ValueRoundTrip(o: Options, schema: Schema, d: FieldDesc, v: Value)
    requires DistinctSchema(o, schema) && ValueFits(schema, d.ftype, v)
    ensures JsonToValue(o, schema, d, ValueToJson(o, d, v)) == v
    decreases v, 0
  {
    match v
    case VNumber(i) => SignedRoundTrip(i);
    case VBytes(b) => BytesRoundTrip(o, d, b);
    case VMessage(m) => MessageRoundTrip(o, schema, d.ftype.name, m);
    case _ =>
  }

  lemma BytesRoundTrip(o: Options, d: FieldDesc, b: seq<Byte>)
    ensures TextToBytes(o, d, BytesText(o, d, b)) == b
  {
    HexInverse(b);
    EscapeInverse(b);
  }

  /**
   Every message that fits a schema with distinct member names is read back from its JSON value, under
   both naming options and all three byte mappings.
   */
  lemma {:induction false} MessageRoundTrip(o: Options, schema: Schema, name: string, m: Message)
    requires DistinctSchema(o, schema) && MessageFits(schema, name, m)
    ensures JsonToMessage(o, schema, name, ToJson(o, m)) == m
    decreases m, 1
  {
    if m.fields != [] {
      var j := ToJson(o, m);
      var ds := schema[name];
      FitsAreDistinct(o, schema, ds, m.fields);
      MembersAt(o, m.fields);
      FitsAreListed(schema, ds, m.fields);
      assert Remaining(o, ds, m.fields, j.members) by {
        forall d | d in ds && NameOf(o, d) in j.members
          ensures exists i :: 0 <= i < |m.fields| && m.fields[i].desc == d
        {
          var i :| 0 <= i < |m.fields| && NameOf(o, m.fields[i].desc) == NameOf(o, d);
          SameName(o, ds, m.fields[i].desc, d);
        }
      }
      FieldsRoundTrip(o, schema, ds, m.fields, j);
    }
  }

  lemma SameName(o: Options, ds: seq<FieldDesc>, d: FieldDesc, e: FieldDesc)
    requires DistinctNames(o, ds) && d in ds && e in ds && NameOf(o, d) == NameOf(o, e)
    ensures d == e
  {
    var i :| 0 <= i < |ds| && ds[i] == d;
    var j :| 0 <= j < |ds| && ds[j] == e;
  }

  /** So no two messages of a type share a JSON value. */
  lemma EncodingInjective(o: Options, schema: Schema, name: string, m: Message, n: Message)
    requires DistinctSchema(o, schema) && MessageFits(schema, name, m) && MessageFits(schema, name, n)
    ensures ToJson(o, m) == ToJson(o, n) ==> m == n
  {
    MessageRoundTrip(o, schema, name, m);
    MessageRoundTrip(o, schema, name, n);
  }
}
