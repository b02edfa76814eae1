/** `ABI.resolve` (chain/Abi.ts): from named definitions to a memoised, possibly cyclic graph. */
module Resolve {
  import opened Bytes
  import opened Types
  import opened Abi
  import Canonical

  predicate EndsWith(s: Text, suffix: Text) {
    |s| >= |suffix| && s[|s| - |suffix|..] == suffix
  }

  /** `s` without `suffix`, if it ends with it. */
  function Stripped(s: Text, suffix: Text): (r: Text)
    ensures r + (if EndsWith(s, suffix) then suffix else []) == s
  {
    if EndsWith(s, suffix) then s[..|s| - |suffix|] else s
  }

  /** The constructor of `ResolvedType`: takes `$`, `?` and `[]` off the end, in that order. */
  function ParseName(fullName: Text): (t: ResolvedType)
    ensures t.TypeName() == fullName && t.shape == Bare
  {
    hide Stripped, EndsWith;
    var a := Stripped(fullName, EXTENSION);
    var b := Stripped(a, OPTIONAL);
    var name := Stripped(b, ARRAY);
    ResolvedType(name, EndsWith(b, ARRAY), EndsWith(a, OPTIONAL), EndsWith(fullName, EXTENSION), Bare)
  }

  predicate EndsIn(s: Text, b: byte) {
    |s| >= 1 && s[|s| - 1] == b
  }

  /** A suffix that is absent could not have been taken off what the later ones leave. */
  predicate TakenApart(t: ResolvedType) {
    var elems := t.name + if t.isArray then [91, 93] else [];
    var opt := elems + if t.isOptional then [63] else [];
    && (!t.isExtension ==> !EndsIn(opt, 36))
    && (!t.isOptional ==> !EndsIn(elems, 63))
    && (!t.isArray ==> !(|t.name| >= 2 && t.name[|t.name| - 2] == 91 && EndsIn(t.name, 93)))
  }

  /** The parts of a type name: the only ones that make it up and are fully taken apart. */
  lemma ParsedParts(t: ResolvedType)
    ensures ParseName(t.TypeName()) == t <==> t.shape == Bare && TakenApart(t)
  {
    var elems := t.name + if t.isArray then ARRAY else [];
    var opt := elems + if t.isOptional then OPTIONAL else [];
    var full := t.TypeName();
    assert full == opt + if t.isExtension then EXTENSION else [];
    hide ResolvedType.TypeName;
    StrippedOne(opt, t.isExtension, 36);
    StrippedOne(elems, t.isOptional, 63);
    StrippedPair(t.name, t.isArray);
    hide Stripped, EndsWith;
    assert TakenApart(t) ==> Stripped(full, EXTENSION) == opt && Stripped(opt, OPTIONAL) == elems;
  }

  lemma StrippedOne(s: Text, taken: bool, b: byte)
    ensures var full := s + if taken then [b] else [];
            && (taken ==> EndsWith(full, [b]) && Stripped(full, [b]) == s)
            && (!taken ==> full == s && (EndsWith(s, [b]) <==> EndsIn(s, b)))
            && (!taken && !EndsIn(s, b) ==> Stripped(s, [b]) == s)
  {
    if !taken && |s| >= 1 {
      assert s[|s| - 1..] == [s[|s| - 1]];
    }
  }

  lemma StrippedPair(s: Text, taken: bool)
    ensures var full := s + if taken then ARRAY else [];
            && (taken ==> EndsWith(full, ARRAY) && Stripped(full, ARRAY) == s)
            && (!taken ==> full == s && (EndsWith(s, ARRAY) <==> |s| >= 2 && s[|s| - 2] == 91 && EndsIn(s, 93)))
            && (!taken && !EndsWith(s, ARRAY) ==> Stripped(s, ARRAY) == s)
  {
    if !taken && |s| >= 2 {
      assert s[|s| - 2..] == [s[|s| - 2], s[|s| - 1]];
    }
  }

  function FindAlias(types: seq<TypeDef>, name: Text): Option<TypeDef> {
    if types == [] then None
    else if types[0].newTypeName == name then Some(types[0])
    else FindAlias(types[1..], name)
  }

  function GetStruct(structs: seq<StructDef>, name: Text): Option<StructDef> {
    if structs == [] then None
    else if structs[0].name == name then Some(structs[0])
    else GetStruct(structs[1..], name)
  }

  function GetVariant(variants: seq<VariantDef>, name: Text): Option<VariantDef> {
    if variants == [] then None
    else if variants[0].name == name then Some(variants[0])
    else GetVariant(variants[1..], name)
  }

  function GetEnum(enums: seq<EnumDef>, name: Text): Option<EnumDef> {
    if enums == [] then None
    else if enums[0].name == name then Some(enums[0])
    else GetEnum(enums[1..], name)
  }

  /** What the ABI says a bare name is: an alias before a struct before a variant before an enum. */
  datatype Definition =
    | AliasOf(typ: Text)
    | StructOf(base: Text, fields: seq<FieldDef>)
    | VariantOf(types: seq<Text>)
    | EnumOf(typ: Text, values: seq<EnumValue>)
    | Undefined

  function Define(abi: ABI, name: Text): Definition {
    var a := FindAlias(abi.types, name);
    if a.Some? then AliasOf(a.value.typ)
    else
      var s := GetStruct(abi.structs, name);
      if s.Some? then StructOf(s.value.base, s.value.fields)
      else
        var v := GetVariant(abi.variants, name);
        if v.Some? then VariantOf(v.value.types)
        else
          var e := GetEnum(abi.enums, name);
          if e.Some? then EnumOf(e.value.typ, e.value.values) else Undefined
  }

  /** The full type names a definition mentions. */
  function Mentions(d: Definition): set<Text> {
    match d
    case AliasOf(typ) => {typ}
    case StructOf(base, fields) =>
      (if base == [] then {} else {base}) + set i | 0 <= i < |fields| :: fields[i].typ
    case VariantOf(types) => set i | 0 <= i < |types| :: types[i]
    case _ => {}
  }

  /** The full type names that the definition behind a full type name mentions. */
  function References(abi: ABI, fullName: Text): set<Text> {
    Mentions(Define(abi, ParseName(fullName).name))
  }

  ghost predicate ClosedNames(abi: ABI, names: set<Text>) {
    forall n :: n in names ==> References(abi, n) <= names
  }

  /** A definition with every name replaced by its entry in the table. */
  function Linked(d: Definition, types: map<Text, nat>): Shape
    requires Mentions(d) <= types.Keys
  {
    match d
    case AliasOf(typ) => Alias(types[typ])
    case StructOf(base, fields) =>
      Struct(if base == [] then None else Some(types[base]),
             seq(|fields|, i requires 0 <= i < |fields| => Field(fields[i].name, types[fields[i].typ])))
    case VariantOf(cases) =>
      Variant(seq(|cases|, i requires 0 <= i < |cases| => types[cases[i]]))
    case EnumOf(typ, values) => Enum(typ, values)
    case Undefined => Bare
  }

  lemma LinkedGrows(d: Definition, types: map<Text, nat>, more: map<Text, nat>)
    requires Mentions(d) <= types.Keys && Extends(types, more)
    ensures Mentions(d) <= more.Keys && Linked(d, more) == Linked(d, types)
  {
  }

  ghost predicate Extends<K(!new), V(!new)>(m: map<K, V>, more: map<K, V>) {
    forall k :: k in m ==> k in more && more[k] == m[k]
  }

  lemma ExtendsSelf<K(!new), V(!new)>(a: map<K, V>)
    ensures Extends(a, a)
  {
  }

  lemma ExtendsThen<K(!new), V(!new)>(a: map<K, V>, b: map<K, V>, c: map<K, V>)
    requires Extends(a, b) && Extends(b, c)
    ensures Extends(a, c)
  {
  }

  lemma ExtendsAt<K(!new), V(!new)>(a: map<K, V>, b: map<K, V>, k: K)
    requires Extends(a, b) && k in a
    ensures k in b && b[k] == a[k]
  {
  }

  lemma ExtendsUpdate<K(!new), V(!new)>(a: map<K, V>, b: map<K, V>, k: K, v: V)
    requires Extends(a, b) && k !in a
    ensures Extends(a, b[k := v])
  {
  }

  // ---- The table ----

  /** Names and entries are in one-to-one correspondence; entries are numbered 1, 2, … */
  ghost predicate Numbered(types: map<Text, nat>, nodes: Graph, last: nat) {
    && (forall i :: i in nodes <==> 1 <= i <= last)
    && (forall n :: n in types ==> types[n] in nodes && nodes[types[n]].TypeName() == n)
    && (forall i :: i in nodes ==> nodes[i].TypeName() in types && types[nodes[i].TypeName()] == i)
  }

  /** The entry is what the ABI says about its name, links included. */
  ghost predicate Faithful(abi: ABI, types: map<Text, nat>, nodes: Graph, i: nat)
    requires i in nodes
  {
    var n := nodes[i].TypeName();
    && References(abi, n) <= types.Keys
    && nodes[i] == ParseName(n).(shape := Linked(Define(abi, ParseName(n).name), types))
  }

  /** All entries but the pending ones are finished. */
  ghost predicate Table(abi: ABI, types: map<Text, nat>, nodes: Graph, last: nat, pending: set<nat>) {
    && Numbered(types, nodes, last)
    && forall i :: i in nodes && i !in pending ==> Faithful(abi, types, nodes, i)
  }

  /** A finished table for `root` holds every name reachable from it and no other. */
  ghost predicate Resolved(abi: ABI, root: Text, types: map<Text, nat>, nodes: Graph) {
    && Table(abi, types, nodes, |types|, {})
    && root in types
    && forall names :: ClosedNames(abi, names) && root in names ==> types.Keys <= names
  }

  /** Every full name an ABI mentions anywhere. */
  function AllMentions(abi: ABI): set<Text> {
    (set i | 0 <= i < |abi.types| :: abi.types[i].typ)
    + (set i | 0 <= i < |abi.structs| :: abi.structs[i].base)
    + (set i, j | 0 <= i < |abi.structs| && 0 <= j < |abi.structs[i].fields| :: abi.structs[i].fields[j].typ)
    + (set i, j | 0 <= i < |abi.variants| && 0 <= j < |abi.variants[i].types| :: abi.variants[i].types[j])
  }

  lemma {:induction false} FoundAlias(types: seq<TypeDef>, name: Text)
    ensures var d := FindAlias(types, name); d.Some? ==> d.value in types
  {
    if types != [] && types[0].newTypeName != name {
      FoundAlias(types[1..], name);
    }
  }

  lemma {:induction false} FirstAlias(types: seq<TypeDef>, name: Text, i: nat)
    requires i <= |types| && (forall j :: 0 <= j < i ==> types[j].newTypeName != name)
    requires i < |types| ==> types[i].newTypeName == name
    ensures FindAlias(types, name) == if i < |types| then Some(types[i]) else None
  {
    if i > 0 {
      FirstAlias(types[1..], name, i - 1);
    }
  }

  lemma {:induction false} FoundStruct(structs: seq<StructDef>, name: Text)
    ensures var d := GetStruct(structs, name); d.Some? ==> d.value in structs
  {
    if structs != [] && structs[0].name != name {
      FoundStruct(structs[1..], name);
    }
  }

  lemma {:induction false} FirstStruct(structs: seq<StructDef>, name: Text, i: nat)
    requires i <= |structs| && (forall j :: 0 <= j < i ==> structs[j].name != name)
    requires i < |structs| ==> structs[i].name == name
    ensures GetStruct(structs, name) == if i < |structs| then Some(structs[i]) else None
  {
    if i > 0 {
      FirstStruct(structs[1..], name, i - 1);
    }
  }

  lemma {:induction false} FoundVariant(variants: seq<VariantDef>, name: Text)
    ensures var d := GetVariant(variants, name); d.Some? ==> d.value in variants
  {
    if variants != [] && variants[0].name != name {
      FoundVariant(variants[1..], name);
    }
  }

  lemma {:induction false} FirstVariant(variants: seq<VariantDef>, name: Text, i: nat)
    requires i <= |variants| && (forall j :: 0 <= j < i ==> variants[j].name != name)
    requires i < |variants| ==> variants[i].name == name
    ensures GetVariant(variants, name) == if i < |variants| then Some(variants[i]) else None
  {
    if i > 0 {
      FirstVariant(variants[1..], name, i - 1);
    }
  }

  lemma {:induction false} FirstEnum(enums: seq<EnumDef>, name: Text, i: nat)
    requires i <= |enums| && (forall j :: 0 <= j < i ==> enums[j].name != name)
    requires i < |enums| ==> enums[i].name == name
    ensures GetEnum(enums, name) == if i < |enums| then Some(enums[i]) else None
  {
    if i > 0 {
      FirstEnum(enums[1..], name, i - 1);
    }
  }

  lemma MentionsInside(abi: ABI, name: Text)
    ensures Mentions(Define(abi, name)) <= AllMentions(abi)
  {
    FoundAlias(abi.types, name);
    FoundStruct(abi.structs, name);
    FoundVariant(abi.variants, name);
  }

  lemma DefineByLookups(abi: ABI, name: Text)
    ensures var a, s := FindAlias(abi.types, name), GetStruct(abi.structs, name);
            var v, e := GetVariant(abi.variants, name), GetEnum(abi.enums, name);
            Define(abi, name)
            == if a.Some? then AliasOf(a.value.typ)
               else if s.Some? then StructOf(s.value.base, s.value.fields)
               else if v.Some? then VariantOf(v.value.types)
               else if e.Some? then EnumOf(e.value.typ, e.value.values)
               else Undefined
  {
  }

  lemma FaithfulGrows(
    abi: ABI, types: map<Text, nat>, nodes: Graph, more: map<Text, nat>, moreNodes: Graph, i: nat)
    requires i in nodes && Faithful(abi, types, nodes, i)
    requires Extends(types, more) && i in moreNodes && moreNodes[i] == nodes[i]
    ensures Faithful(abi, more, moreNodes, i)
  {
    LinkedGrows(Define(abi, ParseName(nodes[i].TypeName()).name), types, more);
  }

  /** Beyond `before`, `after` holds only names reachable from `name`. */
  ghost predicate OnlyAdds(abi: ABI, before: set<Text>, after: set<Text>, name: Text) {
    forall names :: ClosedNames(abi, names) && name in names ==> after <= before + names
  }

  lemma OnlyAddsThen(abi: ABI, a: set<Text>, b: set<Text>, c: set<Text>, name: Text, next: Text)
    requires OnlyAdds(abi, a, b, name) && OnlyAdds(abi, b, c, next) && next in References(abi, name)
    ensures OnlyAdds(abi, a, c, name)
  {
    forall names | ClosedNames(abi, names) && name in names ensures c <= a + names {
      assert next in names;
      assert b <= a + names && c <= b + names;
    }
  }

  lemma OnlyAddsNothing(abi: ABI, a: set<Text>, name: Text)
    ensures OnlyAdds(abi, a, a, name)
  {
  }

  lemma OnlyAddsSelf(abi: ABI, a: set<Text>, b: set<Text>, c: set<Text>, name: Text)
    requires b == a + {name} && OnlyAdds(abi, b, c, name)
    ensures OnlyAdds(abi, a, c, name)
  {
    forall names | ClosedNames(abi, names) && name in names ensures c <= a + names {
      assert c <= b + names;
    }
  }

  lemma LinkedName(name: Text, shape: Shape)
    ensures ParseName(name).(shape := shape).TypeName() == name
  {
    hide ParseName;
    assert ParseName(name).(shape := shape).TypeName() == ParseName(name).TypeName();
  }

  /** Entering an unfinished entry for a new name keeps the rest of the table. */
  lemma TableEnter(abi: ABI, types: map<Text, nat>, nodes: Graph, last: nat, pending: set<nat>, name: Text)
    requires Table(abi, types, nodes, last, pending) && name !in types
    ensures last + 1 !in nodes
    ensures var more, moreNodes := types[name := last + 1], nodes[last + 1 := ParseName(name)];
            && Table(abi, more, moreNodes, last + 1, pending + {last + 1})
            && Extends(types, more) && Extends(nodes, moreNodes)
  {
    hide ParseName, Faithful, ResolvedType.TypeName;
    var more, moreNodes := types[name := last + 1], nodes[last + 1 := ParseName(name)];
    forall i | i in moreNodes && i !in pending + {last + 1} ensures Faithful(abi, more, moreNodes, i) {
      FaithfulGrows(abi, types, nodes, more, moreNodes, i);
    }
  }

  /** Linking a pending entry as the ABI defines it finishes it. */
  lemma TableFinish(
    abi: ABI, types: map<Text, nat>, nodes: Graph, last: nat, pending: set<nat>, name: Text, r: nat, shape: Shape)
    requires Table(abi, types, nodes, last, pending + {r}) && r !in pending
    requires name in types && types[name] == r && References(abi, name) <= types.Keys
    requires shape == Linked(Define(abi, ParseName(name).name), types)
    ensures Table(abi, types, nodes[r := ParseName(name).(shape := shape)], last, pending)
  {
    LinkedName(name, shape);
    hide ParseName, Define, Linked, References, ResolvedType.TypeName;
    var done := nodes[r := ParseName(name).(shape := shape)];
    forall i | i in done && i !in pending ensures Faithful(abi, types, done, i) {
      if i != r {
        FaithfulGrows(abi, types, nodes, types, done, i);
      }
    }
  }

  /** The memo table and the id counter that `resolve` carries along. */
  class Resolver {
    const abi: ABI
    var types: map<Text, nat>
    var nodes: Graph
    var id: nat

    constructor (abi: ABI)
      ensures this.abi == abi && types == map[] && nodes == map[] && id == 0
    {
      this.abi := abi;
      types, nodes, id := map[], map[], 0;
    }

    /** `universe` bounds the names there are; `pending` are the entries of callers further up. */
    method Resolve(name: Text, ghost universe: set<Text>, ghost pending: set<nat>) returns (r: nat)
      requires name in universe && AllMentions(abi) <= universe
      requires Table(abi, types, nodes, id, pending) && pending <= nodes.Keys
      modifies this
      ensures Table(abi, types, nodes, id, pending)
      ensures Extends(old(types), types) && Extends(old(nodes), nodes)
      ensures name in types && r == types[name]
      ensures OnlyAdds(abi, old(types).Keys, types.Keys, name)
      decreases universe - types.Keys, 0
    {
      hide Table, OnlyAdds, ParseName, References, Define, Linked, AllMentions, Extends, ResolvedType.TypeName;
      if name in types {
        OnlyAddsNothing(abi, types.Keys, name);
        ExtendsSelf(types);
        ExtendsSelf(nodes);
        return types[name];
      }
      TableEnter(abi, types, nodes, id, pending, name);
      id := id + 1;
      r := id;
      var typ := ParseName(name);
      nodes := nodes[r := typ];
      types := types[typ.TypeName() := r];
      assert name in universe - old(types).Keys && types.Keys == old(types).Keys + {name};
      ghost var enteredTypes, inside := types, nodes;
      var shape := ResolveDefinition(typ.name, name, universe, pending + {r});
      ExtendsThen(old(types), enteredTypes, types);
      ExtendsThen(old(nodes), inside, nodes);
      ExtendsAt(enteredTypes, types, name);
      ExtendsUpdate(old(nodes), nodes, r, typ.(shape := shape));
      OnlyAddsSelf(abi, old(types).Keys, enteredTypes.Keys, types.Keys, name);
      TableFinish(abi, types, nodes, id, pending, name, r, shape);
      nodes := nodes[r := typ.(shape := shape)];
    }

    /** The lookups of `resolve`, one after the other. */
    method ResolveDefinition(bare: Text, name: Text, ghost universe: set<Text>, ghost pending: set<nat>)
      returns (shape: Shape)
      requires bare == ParseName(name).name && AllMentions(abi) <= universe
      requires Table(abi, types, nodes, id, pending) && pending <= nodes.Keys
      modifies this
      ensures Table(abi, types, nodes, id, pending)
      ensures Extends(old(types), types) && Extends(old(nodes), nodes)
      ensures References(abi, name) <= types.Keys && shape == Linked(Define(abi, bare), types)
      ensures OnlyAdds(abi, old(types).Keys, types.Keys, name)
      decreases universe - types.Keys, 2
    {
      MentionsInside(abi, bare);
      DefineByLookups(abi, bare);
      OnlyAddsNothing(abi, types.Keys, name);
      hide Table, OnlyAdds, ParseName, Define, AllMentions, FindAlias, GetStruct, GetVariant, GetEnum;
      var alias := FindAlias(abi.types, bare);
      if alias.Some? {
        var ref := Resolve(alias.value.typ, universe, pending);
        OnlyAddsThen(abi, old(types).Keys, old(types).Keys, types.Keys, name, alias.value.typ);
        return Alias(ref);
      }
      var struct := GetStruct(abi.structs, bare);
      if struct.Some? {
        shape := ResolveStruct(struct.value, name, universe, pending);
        return;
      }
      var variant := GetVariant(abi.variants, bare);
      if variant.Some? {
        shape := ResolveVariant(variant.value, name, universe, pending);
        return;
      }
      var enumDef := GetEnum(abi.enums, bare);
      shape := if enumDef.Some? then Enum(enumDef.value.typ, enumDef.value.values) else Bare;
    }

    method ResolveStruct(struct: StructDef, name: Text, ghost universe: set<Text>, ghost pending: set<nat>)
      returns (shape: Shape)
      requires Define(abi, ParseName(name).name) == StructOf(struct.base, struct.fields)
      requires References(abi, name) <= universe && AllMentions(abi) <= universe
      requires Table(abi, types, nodes, id, pending) && pending <= nodes.Keys
      modifies this
      ensures Table(abi, types, nodes, id, pending)
      ensures Extends(old(types), types) && Extends(old(nodes), nodes)
      ensures References(abi, name) <= types.Keys && shape == Linked(StructOf(struct.base, struct.fields), types)
      ensures OnlyAdds(abi, old(types).Keys, types.Keys, name)
      decreases universe - types.Keys, 1
    {
      hide Table, OnlyAdds, ParseName, Define;
      OnlyAddsNothing(abi, types.Keys, name);
      var base: Option<nat> := None;
      if struct.base != [] {
        var b := Resolve(struct.base, universe, pending);
        base := Some(b);
        OnlyAddsThen(abi, old(types).Keys, old(types).Keys, types.Keys, name, struct.base);
      }
      var fields: seq<Field> := [];
      for i := 0 to |struct.fields|
        invariant Table(abi, types, nodes, id, pending) && pending <= nodes.Keys
        invariant Extends(old(types), types) && Extends(old(nodes), nodes)
        invariant if struct.base == [] then base == None
                  else struct.base in types && base == Some(types[struct.base])
        invariant |fields| == i
        invariant forall j :: 0 <= j < i ==> struct.fields[j].typ in types
                                             && fields[j] == Field(struct.fields[j].name, types[struct.fields[j].typ])
        invariant OnlyAdds(abi, old(types).Keys, types.Keys, name)
      {
        ghost var before := types.Keys;
        assert struct.fields[i].typ in References(abi, name);
        var f := Resolve(struct.fields[i].typ, universe, pending);
        OnlyAddsThen(abi, old(types).Keys, before, types.Keys, name, struct.fields[i].typ);
        fields := fields + [Field(struct.fields[i].name, f)];
      }
      shape := Struct(base, fields);
    }

    method ResolveVariant(variant: VariantDef, name: Text, ghost universe: set<Text>, ghost pending: set<nat>)
      returns (shape: Shape)
      requires Define(abi, ParseName(name).name) == VariantOf(variant.types)
      requires References(abi, name) <= universe && AllMentions(abi) <= universe
      requires Table(abi, types, nodes, id, pending) && pending <= nodes.Keys
      modifies this
      ensures Table(abi, types, nodes, id, pending)
      ensures Extends(old(types), types) && Extends(old(nodes), nodes)
      ensures References(abi, name) <= types.Keys && shape == Linked(VariantOf(variant.types), types)
      ensures OnlyAdds(abi, old(types).Keys, types.Keys, name)
      decreases universe - types.Keys, 1
    {
      hide Table, OnlyAdds, ParseName, Define;
      OnlyAddsNothing(abi, types.Keys, name);
      var cases: seq<nat> := [];
      for i := 0 to |variant.types|
        invariant Table(abi, types, nodes, id, pending) && pending <= nodes.Keys
        invariant Extends(old(types), types) && Extends(old(nodes), nodes)
        invariant |cases| == i
        invariant forall j :: 0 <= j < i ==> variant.types[j] in types && cases[j] == types[variant.types[j]]
        invariant OnlyAdds(abi, old(types).Keys, types.Keys, name)
      {
        ghost var before := types.Keys;
        assert variant.types[i] in References(abi, name);
        var c := Resolve(variant.types[i], universe, pending);
        OnlyAddsThen(abi, old(types).Keys, before, types.Keys, name, variant.types[i]);
        cases := cases + [c];
      }
      shape := Variant(cases);
    }
  }

  /** `names.map(name => this.resolve({ name, types }, ctx))`. */
  method ResolveEach(resolver: Resolver, names: seq<Text>, ghost universe: set<Text>) returns (ids: seq<nat>)
    requires forall i :: 0 <= i < |names| ==> names[i] in universe
    requires AllMentions(resolver.abi) <= universe
    requires Table(resolver.abi, resolver.types, resolver.nodes, resolver.id, {})
    modifies resolver
    ensures Table(resolver.abi, resolver.types, resolver.nodes, resolver.id, {})
    ensures Extends(old(resolver.types), resolver.types)
    ensures |ids| == |names|
    ensures forall i :: 0 <= i < |names| ==> names[i] in resolver.types && ids[i] == resolver.types[names[i]]
  {
    hide Table, AllMentions;
    ids := [];
    for i := 0 to |names|
      invariant Table(resolver.abi, resolver.types, resolver.nodes, resolver.id, {})
      invariant Extends(old(resolver.types), resolver.types)
      invariant |ids| == i
      invariant forall j :: 0 <= j < i ==> names[j] in resolver.types && ids[j] == resolver.types[names[j]]
    {
      var r := resolver.Resolve(names[i], universe, {});
      ids := ids + [r];
    }
  }

  function DefinedNames(abi: ABI): seq<Text> {
    seq(|abi.types|, i requires 0 <= i < |abi.types| => abi.types[i].newTypeName)
    + seq(|abi.variants|, i requires 0 <= i < |abi.variants| => abi.variants[i].name)
    + seq(|abi.structs|, i requires 0 <= i < |abi.structs| => abi.structs[i].name)
    + seq(|abi.enums|, i requires 0 <= i < |abi.enums| => abi.enums[i].name)
  }

  /** `resolveAll`: aliases, variants, structs and enums, one after the other into one table. */
  method ResolveAll(abi: ABI) returns (ids: seq<nat>, types: map<Text, nat>, nodes: Graph)
    ensures Table(abi, types, nodes, |types|, {})
    ensures |ids| == |DefinedNames(abi)|
    ensures forall i :: 0 <= i < |ids| ==> DefinedNames(abi)[i] in types && ids[i] == types[DefinedNames(abi)[i]]
  {
    var names := DefinedNames(abi);
    hide DefinedNames, AllMentions;
    var resolver := new Resolver(abi);
    ids := ResolveEach(resolver, names, AllMentions(abi) + set i | 0 <= i < |names| :: names[i]);
    types, nodes := resolver.types, resolver.nodes;
    NumberedSize(types, nodes, resolver.id);
  }

  /** `resolveType`: resolves one name into a fresh table. */
  method ResolveType(abi: ABI, name: Text) returns (root: nat, types: map<Text, nat>, nodes: Graph)
    ensures Resolved(abi, name, types, nodes) && types[name] == root
  {
    var resolver := new Resolver(abi);
    root := resolver.Resolve(name, AllMentions(abi) + {name}, {});
    types, nodes := resolver.types, resolver.nodes;
    NumberedSize(types, nodes, resolver.id);
    forall names | ClosedNames(abi, names) && name in names ensures types.Keys <= names {
      assert types.Keys <= {} + names;
    }
  }

  lemma NumberedSize(types: map<Text, nat>, nodes: Graph, last: nat)
    requires Numbered(types, nodes, last)
    ensures last == |types|
    decreases last
  {
    if last == 0 {
      assert nodes == map[];
      assert forall n :: n in types ==> types[n] in nodes;
    } else {
      var n := nodes[last].TypeName();
      var fewer, fewerNodes := types - {n}, nodes - {last};
      forall m | m in fewer ensures fewer[m] in fewerNodes {
        assert nodes[types[m]].TypeName() == m;
      }
      NumberedSize(fewer, fewerNodes, last - 1);
      assert fewer.Keys == types.Keys - {n};
      assert |types.Keys| == |types| && |fewer.Keys| == |fewer|;
    }
  }
}
