/**
 What resolved tables are good for: they are closed graphs with one entry a type, and all
 tables of one ABI, however they came about, make the codec read and write the same.
 */
module Resolution {
  import opened Bytes
  import opened Varint
  import opened Types
  import opened Leaf
  import opened Abi
  import opened Resolve
  import opened Serializer
  import Canonical

  /** A table with nothing pending: each entry is what the ABI says, its links included. */
  ghost predicate Complete(abi: ABI, types: map<Text, nat>, nodes: Graph) {
    Numbered(types, nodes, |types|) && forall i :: i in nodes ==> Faithful(abi, types, nodes, i)
  }

  lemma ResolvedComplete(abi: ABI, root: Text, types: map<Text, nat>, nodes: Graph)
    requires Resolved(abi, root, types, nodes)
    ensures Complete(abi, types, nodes)
  {
  }

  lemma LinkedInside(d: Definition, types: map<Text, nat>, g: Graph)
    requires Mentions(d) <= types.Keys && forall n :: n in types ==> types[n] in g
    ensures LinksInside(g, Linked(d, types))
  {
  }

  /** No link leads out of the table, and no name has two entries. */
  lemma CompleteClosed(abi: ABI, types: map<Text, nat>, nodes: Graph)
    requires Complete(abi, types, nodes)
    ensures Closed(nodes) && Canonical.OneEntryEach(nodes)
  {
    hide ParseName, Define, ResolvedType.TypeName, LinksInside, Linked, Mentions;
    forall i | i in nodes ensures LinksInside(nodes, nodes[i].shape) {
      assert Faithful(abi, types, nodes, i);
      LinkedInside(Define(abi, ParseName(nodes[i].TypeName()).name), types, nodes);
    }
  }

  /** The names in the finished table of `root` are the least set closed under mention around it. */
  lemma ResolvedNames(abi: ABI, root: Text, types: map<Text, nat>, nodes: Graph)
    requires Resolved(abi, root, types, nodes)
    ensures ClosedNames(abi, types.Keys) && root in types.Keys
    ensures forall names :: ClosedNames(abi, names) && root in names ==> types.Keys <= names
  {
    forall n | n in types ensures References(abi, n) <= types.Keys {
      assert Faithful(abi, types, nodes, types[n]);
    }
  }

  // ---- What an entry is ----

  ghost predicate IsAliasName(abi: ABI, name: Text) {
    exists i :: 0 <= i < |abi.types| && abi.types[i].newTypeName == name
  }

  ghost predicate IsStructName(abi: ABI, name: Text) {
    exists i :: 0 <= i < |abi.structs| && abi.structs[i].name == name
  }

  ghost predicate IsVariantName(abi: ABI, name: Text) {
    exists i :: 0 <= i < |abi.variants| && abi.variants[i].name == name
  }

  /** An entry of a finished table has the parts of the name it is stored under. */
  lemma EntryName(abi: ABI, types: map<Text, nat>, nodes: Graph, id: nat)
    requires Complete(abi, types, nodes) && id in nodes
    ensures var n := nodes[id].TypeName(); n in types && types[n] == id
    ensures TakenApart(nodes[id].(shape := Bare))
  {
    assert Faithful(abi, types, nodes, id);
    var t := nodes[id].(shape := Bare);
    assert t.TypeName() == nodes[id].TypeName();
    ParsedParts(t);
  }

  /** The first alias of its bare name makes it a link to the entry for the alias's type. */
  lemma AliasEntry(abi: ABI, types: map<Text, nat>, nodes: Graph, id: nat, i: nat)
    requires Complete(abi, types, nodes) && id in nodes && i < |abi.types|
    requires abi.types[i].newTypeName == nodes[id].name
    requires forall j :: 0 <= j < i ==> abi.types[j].newTypeName != nodes[id].name
    ensures abi.types[i].typ in types && nodes[id].shape == Alias(types[abi.types[i].typ])
  {
    assert Faithful(abi, types, nodes, id);
    hide ParseName, ResolvedType.TypeName;
    FirstAlias(abi.types, nodes[id].name, i);
  }

  /** Without one, the first struct of that name: its base if it names one, its fields in order. */
  lemma StructEntry(abi: ABI, types: map<Text, nat>, nodes: Graph, id: nat, i: nat)
    requires Complete(abi, types, nodes) && id in nodes && i < |abi.structs| && !IsAliasName(abi, nodes[id].name)
    requires abi.structs[i].name == nodes[id].name
    requires forall j :: 0 <= j < i ==> abi.structs[j].name != nodes[id].name
    ensures var d, shape := abi.structs[i], nodes[id].shape;
            && shape.Struct? && |shape.fields| == |d.fields|
            && (if d.base == [] then shape.base == None else d.base in types && shape.base == Some(types[d.base]))
            && forall k :: 0 <= k < |d.fields| ==>
                 d.fields[k].typ in types && shape.fields[k] == Field(d.fields[k].name, types[d.fields[k].typ])
  {
    assert Faithful(abi, types, nodes, id);
    hide ParseName, ResolvedType.TypeName;
    FirstAlias(abi.types, nodes[id].name, |abi.types|);
    FirstStruct(abi.structs, nodes[id].name, i);
  }

  /** Without those, the first variant: the entries of its cases in order. */
  lemma VariantEntry(abi: ABI, types: map<Text, nat>, nodes: Graph, id: nat, i: nat)
    requires Complete(abi, types, nodes) && id in nodes && i < |abi.variants|
    requires !IsAliasName(abi, nodes[id].name) && !IsStructName(abi, nodes[id].name)
    requires abi.variants[i].name == nodes[id].name
    requires forall j :: 0 <= j < i ==> abi.variants[j].name != nodes[id].name
    ensures var d, shape := abi.variants[i], nodes[id].shape;
            && shape.Variant? && |shape.cases| == |d.types|
            && forall k :: 0 <= k < |d.types| ==> d.types[k] in types && shape.cases[k] == types[d.types[k]]
  {
    assert Faithful(abi, types, nodes, id);
    hide ParseName, ResolvedType.TypeName;
    FirstAlias(abi.types, nodes[id].name, |abi.types|);
    FirstStruct(abi.structs, nodes[id].name, |abi.structs|);
    FirstVariant(abi.variants, nodes[id].name, i);
  }

  /** Without those, the first enum as it stands; and a name that is none of them, at `i` the end, has no shape. */
  lemma EnumEntry(abi: ABI, types: map<Text, nat>, nodes: Graph, id: nat, i: nat)
    requires Complete(abi, types, nodes) && id in nodes && i <= |abi.enums| && !IsAliasName(abi, nodes[id].name)
    requires !IsStructName(abi, nodes[id].name) && !IsVariantName(abi, nodes[id].name)
    requires i < |abi.enums| ==> abi.enums[i].name == nodes[id].name
    requires forall j :: 0 <= j < i ==> abi.enums[j].name != nodes[id].name
    ensures nodes[id].shape == if i < |abi.enums| then Enum(abi.enums[i].typ, abi.enums[i].values) else Bare
  {
    assert Faithful(abi, types, nodes, id);
    hide ParseName, ResolvedType.TypeName;
    FirstAlias(abi.types, nodes[id].name, |abi.types|);
    FirstStruct(abi.structs, nodes[id].name, |abi.structs|);
    FirstVariant(abi.variants, nodes[id].name, |abi.variants|);
    FirstEnum(abi.enums, nodes[id].name, i);
  }

  // ---- Renumbering ----

  /** The same full type name in two graphs. */
  ghost predicate Same(g: Graph, h: Graph, t: nat, u: nat) {
    t in g && u in h && g[t].TypeName() == h[u].TypeName()
  }

  ghost predicate SameFields(g: Graph, h: Graph, fs: seq<Field>, gs: seq<Field>) {
    |fs| == |gs| && forall i :: 0 <= i < |fs| ==> fs[i].name == gs[i].name && Same(g, h, fs[i].typ, gs[i].typ)
  }

  ghost predicate SameShape(g: Graph, h: Graph, a: Shape, b: Shape) {
    match a
    case Bare => b == Bare
    case Alias(ref) => b.Alias? && Same(g, h, ref, b.ref)
    case Struct(base, fields) =>
      && b.Struct? && SameFields(g, h, fields, b.fields)
      && if base.None? then b.base.None? else b.base.Some? && Same(g, h, base.value, b.base.value)
    case Variant(cases) =>
      b.Variant? && |cases| == |b.cases| && forall i :: 0 <= i < |cases| ==> Same(g, h, cases[i], b.cases[i])
    case Enum(_, _) => b == a
  }

  /** Wherever two graphs both have a type, they agree on it up to the numbers of its links. */
  ghost predicate Renumbered(g: Graph, h: Graph) {
    forall t, u :: Same(g, h, t, u) ==> g[t] == h[u].(shape := g[t].shape) && SameShape(g, h, g[t].shape, h[u].shape)
  }

  lemma LinkedSame(d: Definition, types: map<Text, nat>, g: Graph, types': map<Text, nat>, h: Graph)
    requires Mentions(d) <= types.Keys && Mentions(d) <= types'.Keys
    requires forall n :: n in Mentions(d) ==> Same(g, h, types[n], types'[n])
    ensures SameShape(g, h, Linked(d, types), Linked(d, types'))
  {
    hide Same;
  }

  lemma CompleteRenumbered(abi: ABI, types: map<Text, nat>, nodes: Graph, types': map<Text, nat>, nodes': Graph)
    requires Complete(abi, types, nodes) && Complete(abi, types', nodes')
    ensures Renumbered(nodes, nodes')
  {
    hide ParseName, Define, ResolvedType.TypeName, SameShape, Linked, Mentions;
    forall t, u | Same(nodes, nodes', t, u)
      ensures nodes[t] == nodes'[u].(shape := nodes[t].shape)
      ensures SameShape(nodes, nodes', nodes[t].shape, nodes'[u].shape)
    {
      var d := Define(abi, ParseName(nodes[t].TypeName()).name);
      assert Faithful(abi, types, nodes, t) && Faithful(abi, types', nodes', u);
      forall n | n in Mentions(d) ensures Same(nodes, nodes', types[n], types'[n]) {
      }
      LinkedSame(d, types, nodes, types', nodes');
    }
  }

  lemma {:induction false} AllFieldsRenumbered(g: Graph, h: Graph, t: nat, u: nat, seen: set<Text>)
    requires Closed(g) && Closed(h) && Renumbered(g, h) && Same(g, h, t, u)
    requires seen <= Names(g) && seen <= Names(h)
    ensures var fs, gs := AllFieldsFrom(g, t, seen), AllFieldsFrom(h, u, seen);
            if fs.None? then gs.None? else gs.Some? && SameFields(g, h, fs.value, gs.value)
    decreases Names(g) - seen
  {
    if g[t].shape.Struct? && g[t].name !in seen && g[t].shape.base.Some? {
      assert g[t].name in Names(g) && h[u].name in Names(h);
      AllFieldsRenumbered(g, h, g[t].shape.base.value, h[u].shape.base.value, seen + {g[t].name});
    }
  }

  /** Two codecs over renumbered graphs. */
  ghost predicate Alike(c: Codec, d: Codec) {
    && Closed(c.types) && Closed(d.types) && Renumbered(c.types, d.types)
    && c.lookup == d.lookup && c.hops == d.hops
  }

  lemma {:induction false} DecodeRenumbered(c: Codec, d: Codec, t: nat, u: nat, s: bytes, depth: nat)
    requires Alike(c, d) && Same(c.types, d.types, t, u) && depth <= MAX_DEPTH + 2
    ensures Decode(c, t, s, depth) == Decode(d, u, s, depth)
    decreases MAX_DEPTH + 2 - depth, 4, 0
  {
    var ty := c.types[t];
    if depth <= MAX_DEPTH && !(ty.isExtension && s == []) && !(ty.isOptional && s == []) {
      DecodeBodyRenumbered(c, d, t, u, if ty.isOptional then s[1..] else s, depth);
    }
  }

  lemma {:induction false} DecodeBodyRenumbered(c: Codec, d: Codec, t: nat, u: nat, s: bytes, depth: nat)
    requires Alike(c, d) && Same(c.types, d.types, t, u) && depth <= MAX_DEPTH
    ensures DecodeBody(c, t, s, depth) == DecodeBody(d, u, s, depth)
    decreases MAX_DEPTH + 2 - depth, 3, 0
  {
    hide ReadVaruint;
    if !c.types[t].isArray {
      DecodeInnerRenumbered(c, d, t, u, s, depth);
    } else if ReadVaruint(s).Done? {
      DecodeElemsRenumbered(c, d, t, u, ReadVaruint(s).rest, ReadVaruint(s).value, depth);
    }
  }

  lemma {:induction false} DecodeElemsRenumbered(c: Codec, d: Codec, t: nat, u: nat, s: bytes, n: nat, depth: nat)
    requires Alike(c, d) && Same(c.types, d.types, t, u) && depth <= MAX_DEPTH
    ensures DecodeElems(c, t, s, n, depth) == DecodeElems(d, u, s, n, depth)
    decreases MAX_DEPTH + 2 - depth, 2, n
  {
    hide DecodeInner;
    if n > 0 {
      DecodeInnerRenumbered(c, d, t, u, s, depth + 1);
      var head := DecodeInner(c, t, s, depth + 1);
      if head.Done? {
        DecodeElemsRenumbered(c, d, t, u, head.rest, n - 1, depth);
      }
    }
  }

  lemma {:induction false} DecodeInnerRenumbered(c: Codec, d: Codec, t: nat, u: nat, s: bytes, depth: nat)
    requires Alike(c, d) && Same(c.types, d.types, t, u) && depth <= MAX_DEPTH + 1
    ensures DecodeInner(c, t, s, depth) == DecodeInner(d, u, s, depth)
    decreases MAX_DEPTH + 2 - depth, 1, 0
  {
    hide ReadVaruint, ResolvedType.TypeName;
    var ty, uy := c.types[t], d.types[u];
    assert SameShape(c.types, d.types, ty.shape, uy.shape);
    if ty.name !in c.lookup {
      match ty.shape
      case Alias(ref) =>
        DecodeRenumbered(c, d, ref, uy.shape.ref, s, depth + 1);
      case Struct(_, _) =>
        AllFieldsRenumbered(c.types, d.types, t, u, {});
        var fs, gs := AllFields(c.types, t), AllFields(d.types, u);
        if fs.Some? {
          DecodeFieldsRenumbered(c, d, fs.value, gs.value, s, map[], depth);
        }
      case Variant(cases) =>
        var k := ReadVaruint(s);
        if k.Done? && k.value < |cases| {
          DecodeRenumbered(c, d, cases[k.value], uy.shape.cases[k.value], k.rest, depth + 1);
        }
      case _ =>
    }
  }

  lemma {:induction false} DecodeFieldsRenumbered(
    c: Codec, d: Codec, fs: seq<Field>, gs: seq<Field>, s: bytes, obj: map<Text, Value>, depth: nat)
    requires Alike(c, d) && SameFields(c.types, d.types, fs, gs) && depth <= MAX_DEPTH + 1
    ensures DecodeFields(c, fs, s, obj, depth) == DecodeFields(d, gs, s, obj, depth)
    decreases MAX_DEPTH + 2 - depth, 0, |fs|
  {
    hide Decode, ResolvedType.TypeName;
    if fs != [] {
      DecodeRenumbered(c, d, fs[0].typ, gs[0].typ, s, depth + 1);
      var v := Decode(c, fs[0].typ, s, depth + 1);
      if v.Done? {
        DecodeFieldsRenumbered(c, d, fs[1..], gs[1..], v.rest, obj[fs[0].name := v.value], depth);
      }
    }
  }

  lemma {:induction false} EncodeRenumbered(c: Codec, d: Codec, t: nat, u: nat, v: Value, fuel: nat)
    requires Alike(c, d) && Same(c.types, d.types, t, u)
    ensures Encode(c, t, v, fuel) == Encode(d, u, v, fuel)
    decreases if v.Null? then 0 else 1, v, fuel, 3, 0
  {
    if !c.types[t].isArray {
      EncodeInnerRenumbered(c, d, t, u, v, !v.Null?, fuel);
    } else if v.Arr? {
      EncodeElemsRenumbered(c, d, t, u, v.elems);
    }
  }

  lemma {:induction false} EncodeElemsRenumbered(c: Codec, d: Codec, t: nat, u: nat, es: seq<Value>)
    requires Alike(c, d) && Same(c.types, d.types, t, u)
    ensures EncodeElems(c, t, es) == EncodeElems(d, u, es)
    decreases 1, es, 0, 0, 0
  {
    hide EncodeInner;
    if es != [] {
      EncodeInnerRenumbered(c, d, t, u, es[0], true, c.hops);
      EncodeElemsRenumbered(c, d, t, u, es[1..]);
    }
  }

  lemma {:induction false} EncodeInnerRenumbered(c: Codec, d: Codec, t: nat, u: nat, v: Value, exists_: bool, fuel: nat)
    requires Alike(c, d) && Same(c.types, d.types, t, u)
    ensures EncodeInner(c, t, v, exists_, fuel) == EncodeInner(d, u, v, exists_, fuel)
    decreases if v.Null? then 0 else 1, v, fuel, 1, 0
  {
    hide ResolvedType.TypeName;
    var ty, uy := c.types[t], d.types[u];
    assert SameShape(c.types, d.types, ty.shape, uy.shape);
    if ty.name !in c.lookup {
      match ty.shape
      case Alias(ref) =>
        if fuel > 0 {
          EncodeRenumbered(c, d, ref, uy.shape.ref, v, fuel - 1);
        }
      case Struct(_, _) =>
        AllFieldsRenumbered(c.types, d.types, t, u, {});
        if v.Obj? && AllFields(c.types, t).Some? {
          EncodeFieldsRenumbered(c, d, AllFields(c.types, t).value, AllFields(d.types, u).value, v);
        }
      case Variant(cases) =>
        if v.Tagged? {
          CaseOfRenumbered(c.types, d.types, cases, uy.shape.cases, v.tag, 0);
          var k := CaseOf(c.types, cases, v.tag, 0);
          if k.Some? {
            EncodeRenumbered(c, d, cases[k.value], uy.shape.cases[k.value], v.value, c.hops);
          }
        }
      case _ =>
    }
  }

  lemma {:induction false} CaseOfRenumbered(g: Graph, h: Graph, xs: seq<nat>, ys: seq<nat>, tag: Text, i: nat)
    requires |xs| == |ys| && i <= |xs|
    requires forall j :: 0 <= j < |xs| ==> xs[j] in g && ys[j] in h && Same(g, h, xs[j], ys[j])
    ensures CaseOf(g, xs, tag, i) == CaseOf(h, ys, tag, i)
    decreases |xs| - i
  {
    if i < |xs| {
      CaseOfRenumbered(g, h, xs, ys, tag, i + 1);
    }
  }

  lemma {:induction false} EncodeFieldsRenumbered(c: Codec, d: Codec, fs: seq<Field>, gs: seq<Field>, v: Value)
    requires Alike(c, d) && SameFields(c.types, d.types, fs, gs) && v.Obj?
    ensures EncodeFields(c, fs, v) == EncodeFields(d, gs, v)
    decreases 1, v, 0, 0, |fs|
  {
    hide Encode, ResolvedType.TypeName;
    if fs != [] {
      EncodeRenumbered(c, d, fs[0].typ, gs[0].typ, Property(v, fs[0].name), c.hops);
      EncodeFieldsRenumbered(c, d, fs[1..], gs[1..], v);
    }
  }

  /**
   What a type name reads and writes depends on the ABI alone: not on which names were
   resolved into the table before it, nor on the numbers its entries got.
   */
  lemma CodingByName(
    abi: ABI, name: Text, types: map<Text, nat>, c: Codec, types': map<Text, nat>, d: Codec,
    s: bytes, v: Value)
    requires Complete(abi, types, c.types) && Complete(abi, types', d.types)
    requires name in types && name in types' && c.lookup == d.lookup && c.hops == d.hops
    ensures Alike(c, d) && types[name] in c.types && types'[name] in d.types
    ensures Decode(c, types[name], s, 1) == Decode(d, types'[name], s, 1)
    ensures Encode(c, types[name], v, c.hops) == Encode(d, types'[name], v, d.hops)
  {
    hide Decode, Encode, Faithful, Renumbered;
    CompleteClosed(abi, types, c.types);
    CompleteClosed(abi, types', d.types);
    CompleteRenumbered(abi, types, c.types, types', d.types);
    DecodeRenumbered(c, d, types[name], types'[name], s, 1);
    EncodeRenumbered(c, d, types[name], types'[name], v, c.hops);
  }

  /** So a type name reads and writes the same in the tables of any two roots that reach it. */
  lemma CodingFromAnyRoot(
    abi: ABI, name: Text, root: Text, types: map<Text, nat>, c: Codec,
    root': Text, types': map<Text, nat>, d: Codec, s: bytes, v: Value)
    requires Resolved(abi, root, types, c.types) && Resolved(abi, root', types', d.types)
    requires name in types && name in types' && c.lookup == d.lookup && c.hops == d.hops
    ensures Alike(c, d) && types[name] in c.types && types'[name] in d.types
    ensures Decode(c, types[name], s, 1) == Decode(d, types'[name], s, 1)
    ensures Encode(c, types[name], v, c.hops) == Encode(d, types'[name], v, d.hops)
  {
    hide *;
    ResolvedComplete(abi, root, types, c.types);
    ResolvedComplete(abi, root', types', d.types);
    CodingByName(abi, name, types, c, types', d, s, v);
  }
}
