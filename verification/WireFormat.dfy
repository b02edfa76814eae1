/** The bytes of values as a relation, against which the encoder and the leaf codecs are held (Encoder.ts). */
module WireFormat {
  import opened Bytes
  import opened Varint
  import opened Types
  import opened Leaf
  import opened Serializer

  // ---- Leaves ----

  /** The shortest groups of seven bits, least significant first, all but the last flagged. */
  predicate Spells(bs: bytes, u: nat) {
    Continued(bs) && bs[|bs| - 1] < 128 && (|bs| > 1 ==> bs[|bs| - 1] > 0) && Groups(bs) == u
  }

  predicate LeafWritten(lt: LeafType, v: Value, bs: bytes) {
    match lt
    case BoolType => v.Bool? && |bs| == 1 && bs[0] == if v.b then 1 else 0
    case IntType(width, signed) =>
      && v.Num? && |bs| == width
      && (if signed then 0 - Pow256(width) <= 2 * v.n < Pow256(width) else 0 <= v.n < Pow256(width))
      && FromLe(bs) == if v.n < 0 then v.n + Pow256(width) else v.n
    case VarUIntType => v.Num? && 0 <= v.n < SAFE && Spells(bs, v.n % 0x1_0000_0000)
    case VarIntType =>
      v.Num? && -SAFE < v.n < SAFE &&
      var i := (v.n + 0x8000_0000) % 0x1_0000_0000 - 0x8000_0000;
      Spells(bs, if i >= 0 then 2 * i else -2 * i - 1)
    case TextType =>
      v.Blob? && |bs| >= |v.data| && bs[|bs| - |v.data|..] == v.data
      && Spells(bs[..|bs| - |v.data|], |v.data| % 0x1_0000_0000)
    case FixedType(size) => v.Blob? && |v.data| == size && bs == v.data
  }

  lemma {:induction false} SpellsVaruint(bs: bytes, u: nat)
    ensures Spells(bs, u) <==> bs == Varuint(u)
    decreases |bs|
  {
    VaruintSpelled(u);
    if Spells(bs, u) {
      if |bs| == 1 {
        assert bs[1..] == [];
        assert bs == [bs[0]];
      } else {
        var rest := bs[1..];
        assert Continued(rest) && rest[|rest| - 1] == bs[|bs| - 1];
        assert bs[0] >= 128;
        TopGroup(rest);
        assert u == bs[0] % 128 + 128 * Groups(rest) && Groups(rest) > 0;
        SpellsVaruint(rest, Groups(rest));
        assert u / 128 == Groups(rest) && u % 128 == bs[0] % 128;
        assert bs == [bs[0]] + rest;
      }
    }
  }

  lemma {:induction false} TopGroup(bs: bytes)
    requires bs != [] && 0 < bs[|bs| - 1] < 128
    ensures Groups(bs) > 0
  {
    if |bs| > 1 {
      TopGroup(bs[1..]);
    }
  }

  lemma ToInt32Is(n: int)
    ensures ToInt32(n) == (n + 0x8000_0000) % 0x1_0000_0000 - 0x8000_0000
  {
  }

  /** A leaf is written exactly so, and refused exactly when there are no such bytes. */
  lemma LeafSpelled(lt: LeafType, v: Value, bs: bytes)
    ensures EncodeLeaf(lt, v) == Ok(bs) <==> LeafWritten(lt, v, bs)
  {
    hide Varuint, Spells, ToLe, FromLe, Pow256, ToInt32;
    match lt
    case BoolType =>
      assert |bs| == 1 ==> bs == [bs[0]];
    case IntType(width, signed) =>
      if v.Num? && InRange(v.n, width, signed) {
        IntSpelled(v.n, width, signed, bs);
      }
    case VarUIntType =>
      if v.Num? {
        SpellsVaruint(bs, v.n % 0x1_0000_0000);
      }
    case VarIntType =>
      if v.Num? {
        ToInt32Is(v.n);
        SpellsVaruint(bs, ZigZag(ToInt32(v.n)));
      }
    case TextType =>
      if v.Blob? {
        TextSpelled(v.data, bs);
      }
    case FixedType(size) =>
  }

  lemma IntSpelled(n: int, width: nat, signed: bool, bs: bytes)
    requires InRange(n, width, signed)
    ensures bs == ToLe(ToTwos(n, width), width)
            <==> |bs| == width && FromLe(bs) == if n < 0 then n + Pow256(width) else n
  {
    TwosRoundTrip(n, width, signed);
    FromLeToLe(ToTwos(n, width), width);
    ToLeFromLe(bs);
    hide ToLe, FromLe;
  }

  lemma TextSpelled(data: bytes, bs: bytes)
    ensures bs == Varuint(ToUint32(|data|)) + data
            <==> |bs| >= |data| && bs[|bs| - |data|..] == data && Spells(bs[..|bs| - |data|], |data| % 0x1_0000_0000)
  {
    var head := Varuint(ToUint32(|data|));
    hide Varuint, Spells;
    if |bs| >= |data| {
      SpellsVaruint(bs[..|bs| - |data|], ToUint32(|data|));
      assert bs == bs[..|bs| - |data|] + bs[|bs| - |data|..];
    }
    if bs == head + data {
      assert bs[..|head|] == head && bs[|head|..] == data;
    }
  }

  // ---- Values ----

  /** One byte for an optional type, 1 when the value is there and 0 when it is not; then the value. */
  ghost predicate Written(c: Codec, t: nat, v: Value, bs: bytes, fuel: nat)
    requires Closed(c.types) && t in c.types
    decreases if v.Null? then 0 else 1, v, fuel, 4
  {
    if !c.types[t].isOptional then BodyWritten(c, t, v, bs, fuel)
    else if v.Null? then bs == [0]
    else |bs| >= 1 && bs[0] == 1 && BodyWritten(c, t, v, bs[1..], fuel)
  }

  /** An array is the count of its elements, then each of them. */
  ghost predicate BodyWritten(c: Codec, t: nat, v: Value, bs: bytes, fuel: nat)
    requires Closed(c.types) && t in c.types
    decreases if v.Null? then 0 else 1, v, fuel, 3
  {
    if !c.types[t].isArray then InnerWritten(c, t, v, bs, !v.Null?, fuel)
    else
      v.Arr? && exists count: bytes, parts: seq<bytes> ::
        bs == count + Concat(parts) && Spells(count, |v.elems| % 0x1_0000_0000) && ElemsWritten(c, t, v.elems, parts)
  }

  ghost predicate ElemsWritten(c: Codec, t: nat, es: seq<Value>, parts: seq<bytes>)
    requires Closed(c.types) && t in c.types
    decreases 1, es, 0, 0
  {
    |parts| == |es| && forall i :: 0 <= i < |es| ==> InnerWritten(c, t, es[i], parts[i], true, c.hops)
  }

  /**
   An alias is its target, a class that codes itself a leaf, a struct its fields one after the other, an
   enum the number of its name, a variant the index of the first case of its name and then that case. Only
   a left-out extension is nothing.
   */
  ghost predicate InnerWritten(c: Codec, t: nat, v: Value, bs: bytes, there: bool, fuel: nat)
    requires Closed(c.types) && t in c.types
    decreases if v.Null? then 0 else 1, v, fuel, 2
  {
    var ty := c.types[t];
    if ty.shape.Alias? && ty.name !in c.lookup then fuel > 0 && Written(c, ty.shape.ref, v, bs, fuel - 1)
    else if !there then ty.isExtension && bs == []
    else if ty.name in c.lookup then LeafWritten(c.lookup[ty.name], v, bs)
    else
      match ty.shape
      case Struct(_, _) =>
        v.Obj? && AllFields(c.types, t).Some? && StructWritten(c, AllFields(c.types, t).value, v, bs)
      case Enum(underlying, values) =>
        && underlying in c.lookup && c.lookup[underlying].IntType?
        && exists n: int :: NumberOf(values, v, n) && -SAFE < n < SAFE && LeafWritten(c.lookup[underlying], Num(n), bs)
      case Variant(cases) =>
        v.Tagged? && exists k: nat, index: bytes, rest: bytes ::
          && FirstCase(c.types, cases, v.tag, k) && bs == index + rest && Spells(index, k % 0x1_0000_0000)
          && Written(c, cases[k], v.value, rest, c.hops)
      case _ => false
  }

  ghost predicate StructWritten(c: Codec, fs: seq<Field>, v: Value, bs: bytes)
    requires Closed(c.types) && v.Obj? && forall i :: 0 <= i < |fs| ==> fs[i].typ in c.types
    decreases 1, v, 0, 1
  {
    exists parts: seq<bytes> :: bs == Concat(parts) && FieldsWritten(c, fs, v, parts)
  }

  ghost predicate FieldsWritten(c: Codec, fs: seq<Field>, v: Value, parts: seq<bytes>)
    requires Closed(c.types) && v.Obj? && forall i :: 0 <= i < |fs| ==> fs[i].typ in c.types
    decreases 1, v, 0, 0
  {
    |parts| == |fs| && forall i :: 0 <= i < |fs| ==> Written(c, fs[i].typ, Property(v, fs[i].name), parts[i], c.hops)
  }

  ghost predicate FirstCase(g: Graph, cases: seq<nat>, tag: Text, k: nat)
    requires forall j :: 0 <= j < |cases| ==> cases[j] in g
  {
    k < |cases| && g[cases[k]].TypeName() == tag && forall j :: 0 <= j < k ==> g[cases[j]].TypeName() != tag
  }

  /** A number stands for itself, a name for the number it is first given. */
  ghost predicate NumberOf(values: seq<EnumValue>, v: Value, n: int) {
    || v == Num(n)
    || (v.Blob? && exists i :: 0 <= i < |values| && values[i] == EnumValue(v.data, n)
                               && forall j :: 0 <= j < i ==> values[j].name != v.data)
  }

  // ---- The encoder writes these bytes and no others ----

  lemma {:induction false} FirstValue(values: seq<EnumValue>, name: Text, n: int)
    ensures ValueOf(values, name) == Some(n) <==>
              exists i :: 0 <= i < |values| && values[i] == EnumValue(name, n) &&
                forall j :: 0 <= j < i ==> values[j].name != name
  {
    if values != [] {
      var rest := values[1..];
      FirstValue(rest, name, n);
      if values[0].name == name {
        assert ValueOf(values, name) == Some(n) ==> values[0] == EnumValue(name, n);
      } else {
        if ValueOf(rest, name) == Some(n) {
          var i :| 0 <= i < |rest| && rest[i] == EnumValue(name, n) && forall j :: 0 <= j < i ==> rest[j].name != name;
          assert values[i + 1] == EnumValue(name, n);
          assert forall j :: 0 < j < i + 1 ==> values[j] == rest[j - 1];
        }
        forall i | 0 <= i < |values| && values[i] == EnumValue(name, n)
                   && forall j :: 0 <= j < i ==> values[j].name != name
          ensures ValueOf(values, name) == Some(n)
        {
          assert rest[i - 1] == values[i];
          assert forall j :: 0 <= j < i - 1 ==> rest[j] == values[j + 1];
        }
      }
    }
  }

  lemma EnumSpelled(c: Codec, underlying: Text, values: seq<EnumValue>, v: Value, bs: bytes)
    ensures EncodeEnum(c, underlying, values, v) == Ok(bs)
            <==> && underlying in c.lookup && c.lookup[underlying].IntType?
                 && exists n: int ::
                      NumberOf(values, v, n) && -SAFE < n < SAFE && LeafWritten(c.lookup[underlying], Num(n), bs)
  {
    hide LeafWritten, EncodeLeaf, NumberOf;
    if underlying in c.lookup && c.lookup[underlying].IntType? {
      forall n: int ensures EncodeLeaf(c.lookup[underlying], Num(n)) == Ok(bs)
                            <==> LeafWritten(c.lookup[underlying], Num(n), bs)
      {
        LeafSpelled(c.lookup[underlying], Num(n), bs);
      }
      NumberFound(values, v);
    }
  }

  lemma NumberFound(values: seq<EnumValue>, v: Value)
    ensures forall n: int :: NumberOf(values, v, n) <==> v == Num(n) || (v.Blob? && ValueOf(values, v.data) == Some(n))
  {
    forall n: int ensures NumberOf(values, v, n) <==> v == Num(n) || (v.Blob? && ValueOf(values, v.data) == Some(n)) {
      if v.Blob? {
        FirstValue(values, v.data, n);
      }
    }
  }

  /** Written means encoded to: the encoder meets the format, on every value, and refuses what has no form. */
  lemma {:induction false} WrittenEncoded(c: Codec, t: nat, v: Value, bs: bytes, fuel: nat)
    requires Closed(c.types) && t in c.types
    ensures Encode(c, t, v, fuel) == Ok(bs) <==> Written(c, t, v, bs, fuel)
    decreases if v.Null? then 0 else 1, v, fuel, 3
  {
    if !c.types[t].isOptional {
      BodyEncoded(c, t, v, bs, fuel);
    } else if !v.Null? && bs != [] {
      BodyEncoded(c, t, v, bs[1..], fuel);
      Prefixed(1, EncodeBody(c, t, v, fuel), bs);
    }
  }

  lemma Prefixed(b: byte, x: Result<bytes>, bs: bytes)
    requires bs != []
    ensures Join(Ok([b]), x) == Ok(bs) <==> bs[0] == b && x == Ok(bs[1..])
  {
    assert bs == [bs[0]] + bs[1..];
    assert x.Ok? ==> ([b] + x.value)[1..] == x.value;
  }

  lemma {:induction false} BodyEncoded(c: Codec, t: nat, v: Value, bs: bytes, fuel: nat)
    requires Closed(c.types) && t in c.types
    ensures EncodeBody(c, t, v, fuel) == Ok(bs) <==> BodyWritten(c, t, v, bs, fuel)
    decreases if v.Null? then 0 else 1, v, fuel, 2
  {
    if !c.types[t].isArray {
      InnerEncoded(c, t, v, bs, !v.Null?, fuel);
    } else if v.Arr? {
      var n := ToUint32(|v.elems|);
      hide Varuint, Spells, EncodeElems, ElemsWritten, Concat;
      if EncodeBody(c, t, v, fuel) == Ok(bs) {
        SpellsVaruint(Varuint(n), n);
        var parts := ElemsParts(c, t, v.elems);
        assert bs == Varuint(n) + Concat(parts);
      }
      forall count: bytes, parts: seq<bytes> | Spells(count, n) && ElemsWritten(c, t, v.elems, parts)
        ensures EncodeBody(c, t, v, fuel) == Ok(count + Concat(parts))
      {
        SpellsVaruint(count, n);
        PartsElems(c, t, v.elems, parts);
      }
    }
  }

  lemma {:induction false} ElemsParts(c: Codec, t: nat, es: seq<Value>) returns (parts: seq<bytes>)
    requires Closed(c.types) && t in c.types && EncodeElems(c, t, es).Ok?
    ensures ElemsWritten(c, t, es, parts) && EncodeElems(c, t, es) == Ok(Concat(parts))
    decreases 1, es, 0, 1
  {
    hide EncodeInner, InnerWritten;
    parts := [];
    if es != [] {
      var head := EncodeInner(c, t, es[0], true, c.hops).value;
      InnerEncoded(c, t, es[0], head, true, c.hops);
      var rest := ElemsParts(c, t, es[1..]);
      parts := [head] + rest;
      assert parts[1..] == rest;
      forall i | 0 <= i < |es| ensures InnerWritten(c, t, es[i], parts[i], true, c.hops) {
        assert i > 0 ==> es[i] == es[1..][i - 1] && parts[i] == rest[i - 1];
      }
    }
  }

  lemma {:induction false} PartsElems(c: Codec, t: nat, es: seq<Value>, parts: seq<bytes>)
    requires Closed(c.types) && t in c.types && ElemsWritten(c, t, es, parts)
    ensures EncodeElems(c, t, es) == Ok(Concat(parts))
    decreases 1, es, 0, 1
  {
    hide EncodeInner, InnerWritten;
    if es != [] {
      InnerEncoded(c, t, es[0], parts[0], true, c.hops);
      forall i | 0 <= i < |es[1..]| ensures InnerWritten(c, t, es[1..][i], parts[1..][i], true, c.hops) {
        assert es[1..][i] == es[i + 1] && parts[1..][i] == parts[i + 1];
      }
      PartsElems(c, t, es[1..], parts[1..]);
    }
  }

  lemma {:induction false} InnerEncoded(c: Codec, t: nat, v: Value, bs: bytes, there: bool, fuel: nat)
    requires Closed(c.types) && t in c.types
    ensures EncodeInner(c, t, v, there, fuel) == Ok(bs) <==> InnerWritten(c, t, v, bs, there, fuel)
    decreases if v.Null? then 0 else 1, v, fuel, 1
  {
    var ty := c.types[t];
    hide AllFields, StructWritten, EncodeFields, EncodeLeaf, LeafWritten, EncodeEnum, Spells;
    if IsAlias(c, t) {
      if fuel > 0 {
        WrittenEncoded(c, ty.shape.ref, v, bs, fuel - 1);
      }
    } else if there {
      if ty.name in c.lookup {
        LeafSpelled(c.lookup[ty.name], v, bs);
      } else {
        match ty.shape
        case Struct(_, _) =>
          if v.Obj? && AllFields(c.types, t).Some? {
            StructEncoded(c, AllFields(c.types, t).value, v, bs);
          }
        case Enum(underlying, values) => EnumSpelled(c, underlying, values, v, bs);
        case Variant(cases) =>
          if v.Tagged? {
            VariantEncoded(c, cases, v, bs);
          }
        case _ =>
      }
    }
  }

  lemma {:induction false} VariantEncoded(c: Codec, cases: seq<nat>, v: Value, bs: bytes)
    requires Closed(c.types) && v.Tagged? && forall j :: 0 <= j < |cases| ==> cases[j] in c.types
    ensures var k := CaseOf(c.types, cases, v.tag, 0);
            (k.Some? && Join(Ok(Varuint(ToUint32(k.value))), Encode(c, cases[k.value], v.value, c.hops)) == Ok(bs))
            <==> exists k: nat, index: bytes, rest: bytes ::
                   && FirstCase(c.types, cases, v.tag, k) && bs == index + rest && Spells(index, k % 0x1_0000_0000)
                   && Written(c, cases[k], v.value, rest, c.hops)
    decreases 1, v, 0, 0
  {
    var found := CaseOf(c.types, cases, v.tag, 0);
    hide Varuint, Spells, Encode, Written;
    if found.Some?
       && Join(Ok(Varuint(ToUint32(found.value))), Encode(c, cases[found.value], v.value, c.hops)) == Ok(bs) {
      var k := found.value;
      var rest := Encode(c, cases[k], v.value, c.hops).value;
      SpellsVaruint(Varuint(ToUint32(k)), ToUint32(k));
      WrittenEncoded(c, cases[k], v.value, rest, c.hops);
      assert FirstCase(c.types, cases, v.tag, k) && bs == Varuint(ToUint32(k)) + rest;
    }
    forall k: nat, index: bytes, rest: bytes |
      && FirstCase(c.types, cases, v.tag, k) && bs == index + rest && Spells(index, k % 0x1_0000_0000)
      && Written(c, cases[k], v.value, rest, c.hops)
      ensures found == Some(k) && Join(Ok(Varuint(ToUint32(k))), Encode(c, cases[k], v.value, c.hops)) == Ok(bs)
    {
      SpellsVaruint(index, ToUint32(k));
      WrittenEncoded(c, cases[k], v.value, rest, c.hops);
    }
  }

  lemma {:induction false} StructEncoded(c: Codec, fs: seq<Field>, v: Value, bs: bytes)
    requires Closed(c.types) && v.Obj? && forall i :: 0 <= i < |fs| ==> fs[i].typ in c.types
    ensures EncodeFields(c, fs, v) == Ok(bs) <==> StructWritten(c, fs, v, bs)
    decreases 1, v, 0, 1, |fs|
  {
    hide Concat, EncodeFields, FieldsWritten;
    if EncodeFields(c, fs, v) == Ok(bs) {
      var parts := FieldsParts(c, fs, v);
    }
    forall parts: seq<bytes> | FieldsWritten(c, fs, v, parts) ensures EncodeFields(c, fs, v) == Ok(Concat(parts)) {
      PartsFields(c, fs, v, parts);
    }
  }

  lemma {:induction false} FieldsParts(c: Codec, fs: seq<Field>, v: Value) returns (parts: seq<bytes>)
    requires Closed(c.types) && v.Obj? && forall i :: 0 <= i < |fs| ==> fs[i].typ in c.types
    requires EncodeFields(c, fs, v).Ok?
    ensures FieldsWritten(c, fs, v, parts) && EncodeFields(c, fs, v) == Ok(Concat(parts))
    decreases 1, v, 0, 0, |fs|
  {
    hide Encode, Written;
    parts := [];
    if fs != [] {
      var head := Encode(c, fs[0].typ, Property(v, fs[0].name), c.hops).value;
      WrittenEncoded(c, fs[0].typ, Property(v, fs[0].name), head, c.hops);
      var rest := FieldsParts(c, fs[1..], v);
      parts := [head] + rest;
      assert parts[1..] == rest;
      forall i | 0 <= i < |fs| ensures Written(c, fs[i].typ, Property(v, fs[i].name), parts[i], c.hops) {
        assert i > 0 ==> fs[i] == fs[1..][i - 1] && parts[i] == rest[i - 1];
      }
    }
  }

  lemma {:induction false} PartsFields(c: Codec, fs: seq<Field>, v: Value, parts: seq<bytes>)
    requires Closed(c.types) && v.Obj? && forall i :: 0 <= i < |fs| ==> fs[i].typ in c.types
    requires FieldsWritten(c, fs, v, parts)
    ensures EncodeFields(c, fs, v) == Ok(Concat(parts))
    decreases 1, v, 0, 0, |fs|
  {
    hide Encode, Written;
    if fs != [] {
      WrittenEncoded(c, fs[0].typ, Property(v, fs[0].name), parts[0], c.hops);
      forall i | 0 <= i < |fs[1..]|
        ensures Written(c, fs[1..][i].typ, Property(v, fs[1..][i].name), parts[1..][i], c.hops)
      {
        assert fs[1..][i] == fs[i + 1] && parts[1..][i] == parts[i + 1];
      }
      PartsFields(c, fs[1..], v, parts[1..]);
    }
  }
}
