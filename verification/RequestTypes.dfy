/** The resolved types of signing requests, with the classes that code themselves (signing/Abi.ts). */
module RequestTypes {
  import opened Bytes
  import opened Types
  import opened Varint
  import opened Leaf
  import opened Serializer
  import opened RoundTrip
  import opened SigningRequest
  import B = Base64u

  function Ascii(s: string): (t: Text)
    ensures |t| == |s| && forall i :: 0 <= i < |s| && (s[i] as int) < 256 ==> t[i] == s[i] as int
  {
    seq(|s|, i requires 0 <= i < |s| => (s[i] as int) % 256)
  }

  function Named(name: string, shape: Shape): ResolvedType {
    ResolvedType(Ascii(name), false, false, false, shape)
  }

  function Fields(names: seq<string>, types: seq<nat>): (fs: seq<Field>)
    requires |names| == |types|
    ensures |fs| == |names| && forall i :: 0 <= i < |fs| ==> fs[i] == Field(Ascii(names[i]), types[i])
  {
    seq(|names|, i requires 0 <= i < |names| => Field(Ascii(names[i]), types[i]))
  }

  function Data(req: nat): Shape {
    Struct(None, LayoutFields(Layout(2, req, 3, 10, 11)))
  }

  const ACTION_SHAPE: Shape := Struct(None, Fields(["account", "name", "authorization", "data"], [18, 18, 19, 17]))
  const LEVEL_SHAPE: Shape := Struct(None, Fields(["actor", "permission"], [18, 18]))

  const COUNT: nat := 29

  function TypeAt(id: nat): ResolvedType
    requires id < COUNT
  {
    if id == 0 then Named("signing_request", Data(5))
    else if id == 1 then Named("signing_request", Data(6))
    else if id == 2 then Named("variant_id", Variant([4, 7]))
    else if id == 3 then Named("request_flags", Alias(8))
    else if id == 4 then Named("chain_alias", Alias(8))
    else if id == 5 then Named("variant_req", Variant([12, 13, 14, 15]))
    else if id == 6 then Named("variant_req", Variant([12, 13, 14, 16]))
    else if id == 7 then Named("chain_id", Alias(9))
    else if id == 8 then Named("uint8", Bare)
    else if id == 9 then Named("checksum256", Bare)
    else if id == 10 then Named("string", Bare)
    else if id == 11 then Named("info_pair", Struct(None, Fields(["key", "value"], [10, 17]))).(isArray := true)
    else if id == 12 then Named("action", ACTION_SHAPE)
    else if id == 13 then Named("action", ACTION_SHAPE).(isArray := true)
    else if id == 14 then
      Named("transaction",
            Struct(Some(20), Fields(["context_free_actions", "actions", "transaction_extensions"], [13, 13, 21])))
    else if id == 15 then Named("identity", Struct(None, Fields(["permission"], [22])))
    else if id == 16 then Named("identity", Struct(None, Fields(["scope", "permission"], [18, 22])))
    else if id == 17 then Named("bytes", Bare)
    else if id == 18 then Named("name", Bare)
    else if id == 19 then Named("permission_level", LEVEL_SHAPE).(isArray := true)
    else if id == 20 then
      Named("transaction_header",
            Struct(None, Fields(["expiration", "ref_block_num", "ref_block_prefix", "max_net_usage_words",
                                 "max_cpu_usage_ms", "delay_sec"], [23, 24, 25, 26, 8, 26])))
    else if id == 21 then
      Named("transaction_extension", Struct(None, Fields(["type", "data"], [24, 17]))).(isArray := true)
    else if id == 22 then Named("permission_level", LEVEL_SHAPE).(isOptional := true)
    else if id == 23 then Named("time_point_sec", Bare)
    else if id == 24 then Named("uint16", Bare)
    else if id == 25 then Named("uint32", Bare)
    else if id == 26 then Named("varuint32", Bare)
    else if id == 27 then Named("request_signature", Struct(None, Fields(["signer", "signature"], [18, 28])))
    else Named("signature", Bare)
  }

  function RequestGraph(): Graph {
    map id: nat | id < COUNT :: TypeAt(id)
  }

  /** The fields of request data by their names. */
  lemma FieldsNamed(l: Layout)
    ensures LayoutFields(l)
            == Fields(["chain_id", "req", "flags", "callback", "info"], [l.chain, l.req, l.flags, l.callback, l.info])
  {
    assert Ascii("chain_id") == CHAIN_ID && Ascii("req") == REQ && Ascii("flags") == FLAGS;
    assert Ascii("callback") == CALLBACK && Ascii("info") == INFO;
  }

  /** The builtin classes, and those of the aliases; signatures of the usual key types. */
  function ClassNames(): set<Text> {
    {Ascii("string"), Ascii("request_flags"), Ascii("chain_alias"), Ascii("chain_id"), Ascii("uint8"),
     Ascii("checksum256"), Ascii("bytes"), Ascii("name"), Ascii("time_point_sec"), Ascii("uint16"),
     Ascii("uint32"), Ascii("varuint32"), Ascii("signature")}
  }

  function ClassOf(name: Text): LeafType {
    if name == Ascii("string") || name == Ascii("bytes") then TextType
    else if name == Ascii("request_flags") || name == Ascii("chain_alias") || name == Ascii("uint8") then
      IntType(1, false)
    else if name == Ascii("chain_id") || name == Ascii("checksum256") then FixedType(32)
    else if name == Ascii("name") then IntType(8, false)
    else if name == Ascii("time_point_sec") || name == Ascii("uint32") then IntType(4, false)
    else if name == Ascii("uint16") then IntType(2, false)
    else if name == Ascii("varuint32") then VarUIntType
    else FixedType(66)
  }

  function Classes(): map<Text, LeafType> {
    map name | name in ClassNames() :: ClassOf(name)
  }

  function RequestCodec(hops: nat): Codec {
    Codec(RequestGraph(), Classes(), hops)
  }

  function RequestSchema(hops: nat): Schema {
    Schema(RequestCodec(hops), 0, 1, 27)
  }

  predicate LinksBelow(shape: Shape) {
    match shape
    case Alias(ref) => ref < COUNT
    case Struct(base, fields) =>
      (base.Some? ==> base.value < COUNT) && forall i :: 0 <= i < |fields| ==> fields[i].typ < COUNT
    case Variant(cases) => forall i :: 0 <= i < |cases| ==> cases[i] < COUNT
    case _ => true
  }

  lemma TypeLinks(id: nat)
    requires id < COUNT
    ensures LinksBelow(TypeAt(id).shape)
  {
    hide LinksBelow, TypeAt;
    if id < 12 {
      FirstLinks(id);
    } else if id < 20 {
      MiddleLinks(id);
    } else {
      LastLinks(id);
    }
  }

  lemma FirstLinks(id: nat)
    requires id < 12
    ensures LinksBelow(TypeAt(id).shape)
  {
    hide Ascii;
  }

  lemma MiddleLinks(id: nat)
    requires 12 <= id < 20
    ensures LinksBelow(TypeAt(id).shape)
  {
    hide Ascii;
  }

  lemma LastLinks(id: nat)
    requires 20 <= id < COUNT
    ensures LinksBelow(TypeAt(id).shape)
  {
    hide Ascii;
  }

  lemma GraphClosed()
    ensures Closed(RequestGraph())
  {
    hide TypeAt;
    forall id: nat | id < COUNT ensures LinksInside(RequestGraph(), TypeAt(id).shape) {
      TypeLinks(id);
    }
  }

  // ---- No struct has two fields of one name ----

  predicate IsAscii(s: string) {
    forall i :: 0 <= i < |s| ==> s[i] as int < 128
  }

  lemma AsciiInjective(a: string, b: string)
    requires IsAscii(a) && IsAscii(b) && a != b
    ensures Ascii(a) != Ascii(b)
  {
    if |a| == |b| {
      var i :| 0 <= i < |a| && a[i] != b[i];
      assert Ascii(a)[i] != Ascii(b)[i];
    }
  }

  lemma DistinctNamed(names: seq<string>, types: seq<nat>)
    requires |names| == |types| && forall i :: 0 <= i < |names| ==> IsAscii(names[i])
    requires forall i, j :: 0 <= i < j < |names| ==> names[i] != names[j]
    ensures Distinct(Fields(names, types))
  {
    hide Ascii;
    forall i, j | 0 <= i < j < |names| ensures Fields(names, types)[i].name != Fields(names, types)[j].name {
      AsciiInjective(names[i], names[j]);
    }
  }

  lemma BaselessFields(g: Graph, t: nat)
    requires Closed(g) && t in g
    ensures !g[t].shape.Struct? ==> AllFields(g, t).None?
    ensures g[t].shape.Struct? && g[t].shape.base.None? ==> AllFields(g, t) == Some(g[t].shape.fields)
  {
  }

  lemma HeaderDistinct()
    ensures Distinct(Fields(["expiration", "ref_block_num", "ref_block_prefix", "max_net_usage_words",
                             "max_cpu_usage_ms", "delay_sec"], [23, 24, 25, 26, 8, 26]))
  {
    hide Ascii, Fields, Distinct;
    DistinctNamed(["expiration", "ref_block_num", "ref_block_prefix", "max_net_usage_words",
                   "max_cpu_usage_ms", "delay_sec"], [23, 24, 25, 26, 8, 26]);
  }

  lemma ActionDistinct()
    ensures Distinct(Fields(["account", "name", "authorization", "data"], [18, 18, 19, 17]))
  {
    hide Ascii, Fields, Distinct;
    DistinctNamed(["account", "name", "authorization", "data"], [18, 18, 19, 17]);
  }

  lemma ListsDistinct()
    ensures Distinct(Fields(["context_free_actions", "actions", "transaction_extensions"], [13, 13, 21]))
  {
    hide Ascii, Fields, Distinct;
    DistinctNamed(["context_free_actions", "actions", "transaction_extensions"], [13, 13, 21]);
  }

  lemma FirstDistinct(id: nat)
    requires id < 12 && TypeAt(id).shape.Struct?
    ensures Distinct(TypeAt(id).shape.fields)
  {
    hide Ascii, Fields, Distinct, LayoutFields;
    if id < 2 {
      LayoutDistinct(Layout(2, if id == 0 then 5 else 6, 3, 10, 11));
    } else {
      DistinctNamed(["key", "value"], [10, 17]);
    }
  }

  lemma MiddleDistinct(id: nat)
    requires 12 <= id < 20 && TypeAt(id).shape.Struct?
    ensures Distinct(TypeAt(id).shape.fields)
  {
    hide Ascii, Fields, Distinct;
    if id < 14 {
      ActionDistinct();
    } else if id == 14 {
      ListsDistinct();
    } else if id == 15 {
      DistinctNamed(["permission"], [22]);
    } else if id == 16 {
      DistinctNamed(["scope", "permission"], [18, 22]);
    } else {
      DistinctNamed(["actor", "permission"], [18, 18]);
    }
  }

  lemma LastDistinct(id: nat)
    requires 20 <= id < COUNT && TypeAt(id).shape.Struct?
    ensures Distinct(TypeAt(id).shape.fields)
  {
    hide Ascii, Fields, Distinct;
    if id == 20 {
      HeaderDistinct();
    } else if id == 21 {
      DistinctNamed(["type", "data"], [24, 17]);
    } else if id == 22 {
      DistinctNamed(["actor", "permission"], [18, 18]);
    } else {
      DistinctNamed(["signer", "signature"], [18, 28]);
    }
  }

  lemma LayoutDistinct(l: Layout)
    ensures Distinct(LayoutFields(l))
  {
  }

  const HEADER_NAMES: seq<string> := ["expiration", "ref_block_num", "ref_block_prefix", "max_net_usage_words",
                                     "max_cpu_usage_ms", "delay_sec"]
  const LIST_NAMES: seq<string> := ["context_free_actions", "actions", "transaction_extensions"]

  lemma NamesConcat(a: seq<string>, ts: seq<nat>, b: seq<string>, us: seq<nat>)
    requires |a| == |ts| && |b| == |us|
    ensures Fields(a, ts) + Fields(b, us) == Fields(a + b, ts + us)
  {
    hide Ascii;
  }

  lemma TransactionFields()
    ensures Closed(RequestGraph())
    ensures AllFields(RequestGraph(), 14)
            == Some(Fields(HEADER_NAMES, [23, 24, 25, 26, 8, 26]) + Fields(LIST_NAMES, [13, 13, 21]))
  {
    GraphClosed();
    var g := RequestGraph();
    AsciiInjective("transaction", "transaction_header");
    assert g[14].shape == Struct(Some(20), Fields(LIST_NAMES, [13, 13, 21]));
    assert g[20].shape == Struct(None, Fields(HEADER_NAMES, [23, 24, 25, 26, 8, 26]));
    assert g[14].name == Ascii("transaction") && g[20].name == Ascii("transaction_header");
    hide TypeAt, Fields, Ascii, RequestGraph;
    assert AllFieldsFrom(g, 20, {g[14].name}) == Some(g[20].shape.fields);
  }

  /** A transaction's fields come after its header's, under other names. */
  lemma TransactionDistinct()
    ensures Closed(RequestGraph())
    ensures AllFields(RequestGraph(), 14).Some? && Distinct(AllFields(RequestGraph(), 14).value)
  {
    hide Ascii, Fields, Distinct, AllFields, RequestGraph;
    TransactionFields();
    NamesConcat(HEADER_NAMES, [23, 24, 25, 26, 8, 26], LIST_NAMES, [13, 13, 21]);
    AllNames();
    DistinctNamed(HEADER_NAMES + LIST_NAMES, [23, 24, 25, 26, 8, 26] + [13, 13, 21]);
  }

  lemma AllNames()
    ensures var names := HEADER_NAMES + LIST_NAMES;
            && (forall i :: 0 <= i < |names| ==> IsAscii(names[i]))
            && forall i, j :: 0 <= i < j < |names| ==> names[i] != names[j]
  {
    assert HEADER_NAMES + LIST_NAMES
        == ["expiration", "ref_block_num", "ref_block_prefix", "max_net_usage_words", "max_cpu_usage_ms", "delay_sec",
            "context_free_actions", "actions", "transaction_extensions"];
  }

  lemma GraphDistinct(hops: nat)
    ensures Closed(RequestGraph()) && DistinctFields(RequestCodec(hops))
  {
    GraphClosed();
    TransactionDistinct();
    var g := RequestGraph();
    hide Distinct, AllFields;
    forall t | t in g && AllFields(g, t).Some? ensures Distinct(AllFields(g, t).value) {
      if t != 14 {
        BaselessFields(g, t);
        BaseFree(t);
        if t < 12 {
          FirstDistinct(t);
        } else if t < 20 {
          MiddleDistinct(t);
        } else {
          LastDistinct(t);
        }
      }
    }
  }

  lemma BaseFree(id: nat)
    requires id < COUNT && id != 14
    ensures TypeAt(id).shape.Struct? ==> TypeAt(id).shape.base.None?
  {
    hide Ascii, Fields, LayoutFields;
  }

  // ---- It is a schema of signing requests ----

  lemma Lookups()
    ensures Ascii("request_flags") in Classes() && Classes()[Ascii("request_flags")] == IntType(1, false)
    ensures Ascii("chain_alias") in Classes() && Classes()[Ascii("chain_alias")] == IntType(1, false)
    ensures Ascii("string") in Classes() && Classes()[Ascii("string")] == TextType
  {
  }

  lemma NotClasses()
    ensures Ascii("signing_request") !in Classes() && Ascii("variant_req") !in Classes()
    ensures Ascii("variant_id") !in Classes() && Ascii("identity") !in Classes()
  {
    hide ClassOf;
    AsciiInjective("variant_req", "chain_alias");
    AsciiInjective("variant_req", "checksum256");
    AsciiInjective("identity", "chain_id");
  }

  /** The entries that a request leads to. */
  lemma Entries()
    ensures var g := RequestGraph();
            && (forall id: nat :: id in g <==> id < COUNT)
            && g[0] == Named("signing_request", Data(5)) && g[2] == Named("variant_id", Variant([4, 7]))
            && g[3] == Named("request_flags", Alias(8)) && g[4] == Named("chain_alias", Alias(8))
            && g[5] == Named("variant_req", Variant([12, 13, 14, 15])) && g[10] == Named("string", Bare)
            && g[11].isArray && !g[11].isOptional && !g[11].isExtension
            && g[12] == Named("action", ACTION_SHAPE) && g[13] == g[12].(isArray := true)
            && g[14].name == Ascii("transaction") && !g[14].isArray && !g[14].isOptional && !g[14].isExtension
            && g[15] == Named("identity", Struct(None, Fields(["permission"], [22])))
            && g[22].isOptional && !g[22].isExtension
  {
    hide Ascii, Fields, LayoutFields;
  }

  lemma RequestCases(hops: nat)
    ensures Closed(RequestGraph())
    ensures CaseOf(RequestGraph(), [12, 13, 14, 15], RequestGraph()[14].TypeName(), 0) == Some(2)
    ensures CaseOf(RequestGraph(), [12, 13, 14, 15], IDENTITY, 0) == Some(3)
  {
    GraphClosed();
    Entries();
    var g := RequestGraph();
    var cases := [12, 13, 14, 15];
    TypeNames(g[12], g[13], g[14], g[15]);
    hide TypeAt, RequestGraph, Ascii, ResolvedType.TypeName;
    assert CaseOf(g, cases, g[14].TypeName(), 2) == Some(2);
    assert CaseOf(g, cases, g[14].TypeName(), 1) == Some(2);
    assert CaseOf(g, cases, IDENTITY, 3) == Some(3);
    assert CaseOf(g, cases, IDENTITY, 2) == Some(3);
    assert CaseOf(g, cases, IDENTITY, 1) == Some(3);
  }

  lemma TypeNames(action: ResolvedType, actions: ResolvedType, transaction: ResolvedType, identity: ResolvedType)
    requires action.name == Ascii("action") && !action.isArray && !action.isOptional && !action.isExtension
    requires actions.name == Ascii("action") && actions.isArray && !actions.isOptional && !actions.isExtension
    requires transaction.name == Ascii("transaction")
    requires !transaction.isArray && !transaction.isOptional && !transaction.isExtension
    requires identity.name == Ascii("identity") && !identity.isArray && !identity.isOptional && !identity.isExtension
    ensures |action.TypeName()| == 6 && |actions.TypeName()| == 8 && |transaction.TypeName()| == 11
    ensures actions.TypeName()[0] == 97 && identity.TypeName() == IDENTITY
  {
    assert identity.TypeName() == Ascii("identity");
    assert Ascii("identity") == IDENTITY;
  }

  /** The classes of the signing requests meet what the hand-laid bytes are proved for. */
  lemma RequestsLaidOut(hops: nat)
    ensures Valid(RequestSchema(hops)) && LaidOut(RequestSchema(hops), Layout(2, 5, 3, 10, 11))
  {
    GraphClosed();
    GraphDistinct(hops);
    Lookups();
    NotClasses();
    RequestCases(hops);
    Entries();
    BaselessFields(RequestGraph(), 0);
    hide Ascii, Fields, Classes, LayoutFields, AllFields, CaseOf, DistinctFields, TypeAt, RequestGraph;
  }

  // ---- An identity request to broadcast ----

  /** A value is written in these bytes and, whatever follows, read back. */
  ghost predicate Reads(c: Codec, t: nat, v: Value, bs: bytes, depth: nat)
    requires Closed(c.types) && t in c.types
  {
    Encode(c, t, v, c.hops) == Ok(bs) && forall last :: Restores(c, t, v, c.hops, last, depth)
  }

  lemma ReadsLeaf(c: Codec, t: nat, v: Value, depth: nat)
    requires Closed(c.types) && Plain(c, t) && c.types[t].name in c.lookup && !v.Null? && depth <= MAX_DEPTH
    requires EncodeLeaf(c.lookup[c.types[t].name], v).Ok? && LeafFits(c.lookup[c.types[t].name], v)
    ensures Reads(c, t, v, EncodeLeaf(c.lookup[c.types[t].name], v).value, depth)
  {
    hide EncodeLeaf, LeafFits;
    PlainLeaf(c, t, v, c.hops);
    forall last ensures Restores(c, t, v, c.hops, last, depth) {
      assert BodyRestores(c, t, v, c.hops, last, depth) == InnerRestores(c, t, v, true, c.hops, last, depth);
    }
  }

  lemma ReadsVariant(c: Codec, t: nat, v: Value, k: nat, bs: bytes, depth: nat)
    requires Closed(c.types) && Plain(c, t) && c.types[t].name !in c.lookup && c.types[t].shape.Variant? && v.Tagged?
    requires CaseOf(c.types, c.types[t].shape.cases, v.tag, 0) == Some(k) && k < 128 && depth <= MAX_DEPTH
    requires Reads(c, c.types[t].shape.cases[k], v.value, bs, depth + 1)
    ensures Reads(c, t, v, [k] + bs, depth)
  {
    PlainVariant(c, t, v, k);
    assert Varuint(ToUint32(k)) == [k];
    hide Varuint, ToUint32, CaseOf;
    assert Encode(c, t, v, c.hops) == EncodeInner(c, t, v, true, c.hops);
    forall last ensures Restores(c, t, v, c.hops, last, depth) {
      assert Restores(c, c.types[t].shape.cases[k], v.value, c.hops, last, depth + 1);
      assert InnerRestores(c, t, v, true, c.hops, last, depth);
      assert BodyRestores(c, t, v, c.hops, last, depth) == InnerRestores(c, t, v, true, c.hops, last, depth);
    }
  }

  lemma ReadsEmptyArray(c: Codec, t: nat, depth: nat)
    requires Closed(c.types) && t in c.types && c.types[t].isArray && !c.types[t].isOptional && !c.types[t].isExtension
    requires depth <= MAX_DEPTH
    ensures Reads(c, t, Arr([]), [0], depth)
  {
    EmptyArray(c, t, c.hops);
    assert EncodeElems(c, t, []).Ok?;
    forall last ensures Restores(c, t, Arr([]), c.hops, last, depth) {
      assert ElemsRestore(c, t, [], last, depth);
      assert BodyRestores(c, t, Arr([]), c.hops, last, depth);
    }
  }

  lemma ReadsOptionalNull(c: Codec, t: nat, depth: nat)
    requires Closed(c.types) && t in c.types && c.types[t].isOptional && !c.types[t].isExtension && depth <= MAX_DEPTH
    ensures Reads(c, t, Null, [0], depth)
  {
  }

  lemma {:induction false} ReadsFields(c: Codec, fs: seq<Field>, v: Value, parts: seq<bytes>, last: bool, depth: nat)
    requires Closed(c.types) && v.Obj? && |parts| == |fs| && forall i :: 0 <= i < |fs| ==> fs[i].typ in c.types
    requires forall i :: 0 <= i < |fs| ==> Reads(c, fs[i].typ, Property(v, fs[i].name), parts[i], depth + 1)
    ensures EncodeFields(c, fs, v) == Ok(Concat(parts)) && FieldsRestore(c, fs, v, last, depth)
    decreases |fs|
  {
    if fs != [] {
      assert Reads(c, fs[0].typ, Property(v, fs[0].name), parts[0], depth + 1);
      forall i | 0 <= i < |fs[1..]|
        ensures Reads(c, fs[1..][i].typ, Property(v, fs[1..][i].name), parts[1..][i], depth + 1)
      {
        assert fs[1..][i] == fs[i + 1];
      }
      hide Encode, Restores;
      ReadsFields(c, fs[1..], v, parts[1..], last, depth);
    }
  }

  lemma ReadsStruct(c: Codec, t: nat, fs: seq<Field>, v: Value, parts: seq<bytes>, depth: nat)
    requires Closed(c.types) && Plain(c, t) && c.types[t].name !in c.lookup && AllFields(c.types, t) == Some(fs)
    requires v.Obj? && v.fields.Keys == FieldNames(fs) && |parts| == |fs| && depth <= MAX_DEPTH
    requires forall i :: 0 <= i < |fs| ==> Reads(c, fs[i].typ, Property(v, fs[i].name), parts[i], depth + 1)
    ensures Reads(c, t, v, Concat(parts), depth)
  {
    StructOnly(c.types, t);
    NotAlias(c, t);
    ReadsFields(c, fs, v, parts, true, depth);
    ReadsFields(c, fs, v, parts, false, depth);
    hide AllFields, EncodeFields, FieldsRestore, FieldNames;
    assert Encode(c, t, v, c.hops) == EncodeInner(c, t, v, true, c.hops);
    forall last ensures Restores(c, t, v, c.hops, last, depth) {
      assert BodyRestores(c, t, v, c.hops, last, depth) == InnerRestores(c, t, v, true, c.hops, last, depth);
    }
  }

  function IdentityValue(): Value {
    Obj(map[Ascii("permission") := Null])
  }

  /** Any identity on chain 1, to be broadcast. */
  function IdentityData(): Value {
    Obj(map[CHAIN_ID := Tagged(Ascii("chain_alias"), Num(1)), REQ := Tagged(IDENTITY, IdentityValue()),
            FLAGS := Num(1), CALLBACK := Blob([]), INFO := Arr([])])
  }

  /** What a request's fields need of the schema. */
  ghost predicate Laid(c: Codec) {
    && Closed(c.types) && (forall id: nat :: id < COUNT ==> id in c.types)
    && Plain(c, 2) && c.types[2].name !in c.lookup && c.types[2].shape == Variant([4, 7])
    && CaseOf(c.types, [4, 7], Ascii("chain_alias"), 0) == Some(0)
    && IsFlags(c, 3) && IsFlags(c, 4)
    && Plain(c, 5) && c.types[5].name !in c.lookup && c.types[5].shape == Variant([12, 13, 14, 15])
    && CaseOf(c.types, [12, 13, 14, 15], IDENTITY, 0) == Some(3)
    && Plain(c, 10) && c.types[10].name in c.lookup && c.lookup[c.types[10].name] == TextType
    && c.types[11].isArray && !c.types[11].isOptional && !c.types[11].isExtension
    && Plain(c, 15) && c.types[15].name !in c.lookup
    && AllFields(c.types, 15) == Some(Fields(["permission"], [22]))
    && c.types[22].isOptional && !c.types[22].isExtension
    && Plain(c, 0) && c.types[0].name !in c.lookup
    && AllFields(c.types, 0) == Some(LayoutFields(Layout(2, 5, 3, 10, 11)))
  }

  predicate IsFlags(c: Codec, t: nat) {
    Plain(c, t) && c.types[t].name in c.lookup && c.lookup[c.types[t].name] == IntType(1, false)
  }

  lemma SchemaLaid(hops: nat)
    ensures Laid(RequestCodec(hops))
  {
    GraphClosed();
    Entries();
    Lookups();
    NotClasses();
    RequestCases(hops);
    ChainCase(RequestGraph());
    BaselessFields(RequestGraph(), 0);
    BaselessFields(RequestGraph(), 15);
    hide Ascii, TypeAt, RequestGraph, Classes, AllFields, CaseOf, Fields, LayoutFields;
  }

  lemma IdentityReads(c: Codec)
    requires Laid(c)
    ensures Reads(c, 15, IdentityValue(), [0], 3)
  {
    ReadsOptionalNull(c, 22, 4);
    var fs := Fields(["permission"], [22]);
    assert fs[0] == Field(Ascii("permission"), 22);
    assert FieldNames(fs) == {Ascii("permission")};
    hide Ascii, Reads, AllFields, CaseOf, FieldNames, Fields;
    ReadsStruct(c, 15, fs, IdentityValue(), [[0]], 3);
    assert Concat([[0]]) == [0] + Concat([]) == [0];
  }

  lemma FieldReads(c: Codec)
    requires Laid(c)
    ensures Reads(c, 2, Tagged(Ascii("chain_alias"), Num(1)), [0] + [1], 2)
    ensures Reads(c, 5, Tagged(IDENTITY, IdentityValue()), [3] + [0], 2)
    ensures Reads(c, 3, Num(1), [1], 2) && Reads(c, 10, Blob([]), [0], 2) && Reads(c, 11, Arr([]), [0], 2)
  {
    IdentityReads(c);
    ByteAndText();
    LeavesFit();
    hide Ascii, Reads, AllFields, CaseOf, EncodeLeaf, LeafFits, FieldNames, Fields, LayoutFields, IdentityValue;
    ReadsLeaf(c, 4, Num(1), 3);
    ReadsVariant(c, 2, Tagged(Ascii("chain_alias"), Num(1)), 0, [1], 2);
    ReadsVariant(c, 5, Tagged(IDENTITY, IdentityValue()), 3, [0], 2);
    ReadsLeaf(c, 3, Num(1), 2);
    ReadsLeaf(c, 10, Blob([]), 2);
    ReadsEmptyArray(c, 11, 2);
  }

  lemma IdentityDataReads(c: Codec) returns (bs: bytes)
    requires Laid(c)
    ensures Reads(c, 0, IdentityData(), bs, 1)
  {
    assert 1 <= MAX_DEPTH && COUNT > 11;
    hide *;
    var fs := LayoutFields(Layout(2, 5, 3, 10, 11));
    var parts: seq<bytes> := [[0] + [1], [3] + [0], [1], [0], [0]];
    DataStruct(c);
    DataProperties();
    FieldReads(c);
    ReadsStruct(c, 0, fs, IdentityData(), parts, 1);
    bs := Concat(parts);
  }

  lemma DataStruct(c: Codec)
    requires Laid(c)
    ensures var fs := LayoutFields(Layout(2, 5, 3, 10, 11));
            && Closed(c.types) && Plain(c, 0) && c.types[0].name !in c.lookup && AllFields(c.types, 0) == Some(fs)
            && fs == [Field(CHAIN_ID, 2), Field(REQ, 5), Field(FLAGS, 3), Field(CALLBACK, 10), Field(INFO, 11)]
            && FieldNames(fs) == {CHAIN_ID, REQ, FLAGS, CALLBACK, INFO}
            && forall id: nat :: id < COUNT ==> id in c.types
  {
    LayoutNames(Layout(2, 5, 3, 10, 11));
    hide AllFields, FieldNames;
  }

  lemma DataProperties()
    ensures var v := IdentityData();
            && v.Obj? && v.fields.Keys == {CHAIN_ID, REQ, FLAGS, CALLBACK, INFO}
            && Property(v, CHAIN_ID) == Tagged(Ascii("chain_alias"), Num(1))
            && Property(v, REQ) == Tagged(IDENTITY, IdentityValue()) && Property(v, FLAGS) == Num(1)
            && Property(v, CALLBACK) == Blob([]) && Property(v, INFO) == Arr([])
            && IsBroadcast(v) && IsIdentity(v)
  {
    hide Ascii, IdentityValue;
  }

  lemma LeavesFit()
    ensures LeafFits(IntType(1, false), Num(1)) && LeafFits(TextType, Blob([]))
  {
  }

  lemma LayoutNames(l: Layout)
    ensures FieldNames(LayoutFields(l)) == {CHAIN_ID, REQ, FLAGS, CALLBACK, INFO}
  {
    var fs := LayoutFields(l);
    assert fs[0].name == CHAIN_ID && fs[1].name == REQ && fs[2].name == FLAGS && fs[3].name == CALLBACK;
    assert fs[4].name == INFO;
  }

  lemma ChainCase(g: Graph)
    requires g == RequestGraph()
    ensures Closed(g) && CaseOf(g, [4, 7], Ascii("chain_alias"), 0) == Some(0)
  {
    GraphClosed();
    Entries();
    assert g[4].TypeName() == Ascii("chain_alias");
  }

  /** Its URI is refused. */
  lemma BroadcastIdentity(hops: nat, z: Zlib, max: nat)
    requires forall s :: z.inflate(z.deflate(s)) == Some(s)
    ensures var m, r := RequestSchema(hops), Request(2, IdentityData(), None);
            && Valid(m) && Payload(m, r).Ok?
            && var text := B.EncodeAll(Packed(None, false, 2, Payload(m, r).value), true);
               From(m, z, max, "esr" + ":" + "//" + text) == None
  {
    hide *;
    var m, r := RequestSchema(hops), Request(2, IdentityData(), None);
    SchemaValid(hops);
    SchemaLaid(hops);
    var bs := IdentityDataReads(m.codec);
    UnsignedPayload(m, IdentityData(), bs);
    DataProperties();
    BroadcastIdentityRefused(m, None, z, max, r, false, true, "esr");
  }

  lemma SchemaValid(hops: nat)
    ensures var m := RequestSchema(hops);
            Valid(m) && m.codec == RequestCodec(hops) && m.v2 == 0 && Closed(m.codec.types) && 0 in m.codec.types
  {
    GraphClosed();
    GraphDistinct(hops);
    Entries();
    hide TypeAt, Classes, DistinctFields;
  }

  lemma UnsignedPayload(m: Schema, data: Value, bs: bytes)
    requires Valid(m) && Reads(m.codec, m.v2, data, bs, 1)
    ensures var r := Request(2, data, None);
            && Payload(m, r).Ok? && SignatureBytes(m, r) == Ok([])
            && Restores(m.codec, StorageType(m, 2), data, m.codec.hops, true, 1)
  {
    hide Encode, Restores;
  }
}
