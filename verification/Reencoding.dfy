/** Exactly which decoded values can be written again and read back (`encodeAny` after `decodeBinary`). */
module Reencoding {
  import opened Bytes
  import opened Varint
  import opened Types
  import opened Leaf
  import opened Serializer
  import opened RoundTrip
  import opened Canonical

  // ---- Values that are absent ----

  /**
   How many bytes a null of this type is written in: one for an optional type, none for a left-out
   extension; it is refused for other types, and for arrays. An alias leaves it to its target.
   */
  function NullWidth(c: Codec, t: nat, fuel: nat): (w: Option<nat>)
    requires Closed(c.types) && t in c.types
    ensures w.Some? ==> w.value <= 1
    decreases fuel
  {
    var ty := c.types[t];
    if ty.isOptional then Some(1)
    else if ty.isArray then None
    else if IsAlias(c, t) then if fuel == 0 then None else NullWidth(c, ty.shape.ref, fuel - 1)
    else if ty.isExtension then Some(0)
    else None
  }

  /**
   A null that is written comes back: by its own byte, within the depth limit, or because it was
   left out and, as `last` says, nothing follows.
   */
  predicate NullKept(c: Codec, t: nat, fuel: nat, last: bool, depth: nat)
    requires Closed(c.types) && t in c.types
    decreases fuel
  {
    var ty := c.types[t];
    && depth <= MAX_DEPTH
    && (|| ty.isOptional
        || (ty.isExtension && last && NullWidth(c, t, fuel) == Some(0))
        || (!ty.isArray && IsAlias(c, t) && fuel > 0 && NullKept(c, ty.shape.ref, fuel - 1, last, depth + 1)))
  }

  lemma {:induction false} NullEncoded(c: Codec, t: nat, fuel: nat)
    requires Closed(c.types) && t in c.types
    ensures match NullWidth(c, t, fuel)
            case None => Encode(c, t, Null, fuel).Err?
            case Some(w) => Encode(c, t, Null, fuel) == Ok(if w == 1 then [0] else [])
    decreases fuel
  {
    var ty := c.types[t];
    if !ty.isOptional && !ty.isArray {
      assert Encode(c, t, Null, fuel) == EncodeInner(c, t, Null, false, fuel);
      if IsAlias(c, t) && fuel > 0 {
        NullEncoded(c, ty.shape.ref, fuel - 1);
      }
    }
  }

  lemma {:induction false} NullRestored(c: Codec, t: nat, fuel: nat, last: bool, depth: nat)
    requires Closed(c.types) && t in c.types
    ensures Encode(c, t, Null, fuel).Ok? && Restores(c, t, Null, fuel, last, depth)
            <==> NullKept(c, t, fuel, last, depth)
    decreases fuel
  {
    var ty := c.types[t];
    NullEncoded(c, t, fuel);
    if ty.isOptional || ty.isArray {
    } else if !IsAlias(c, t) || fuel == 0 {
      assert Encode(c, t, Null, fuel) == EncodeInner(c, t, Null, false, fuel);
      assert Encode(c, t, Null, fuel).Ok? ==>
          BodyRestores(c, t, Null, fuel, last, depth) == InnerRestores(c, t, Null, false, fuel, last, depth);
    } else {
      NullEncoded(c, ty.shape.ref, fuel - 1);
      assert Encode(c, t, Null, fuel) == EncodeInner(c, t, Null, false, fuel);
      assert Encode(c, t, Null, fuel).Ok? ==>
          BodyRestores(c, t, Null, fuel, last, depth) == InnerRestores(c, t, Null, false, fuel, last, depth);
      NullRestored(c, ty.shape.ref, fuel - 1, last, depth + 1);
    }
  }

  // ---- Values written in no bytes ----

  predicate Silent(c: Codec, t: nat, v: Value, fuel: nat)
    requires Closed(c.types) && t in c.types
    decreases if v.Null? then 0 else 1, v, fuel, 2, 0
  {
    if v.Null? then NullWidth(c, t, fuel) == Some(0)
    else !c.types[t].isOptional && !c.types[t].isArray && InnerSilent(c, t, v, fuel)
  }

  predicate InnerSilent(c: Codec, t: nat, v: Value, fuel: nat)
    requires Closed(c.types) && t in c.types && !v.Null?
    decreases 1, v, fuel, 1, 0
  {
    var ty := c.types[t];
    if IsAlias(c, t) then fuel > 0 && Silent(c, ty.shape.ref, v, fuel - 1)
    else if ty.name in c.lookup then EncodeLeaf(c.lookup[ty.name], v) == Ok([])
    else
      match ty.shape
      case Struct(_, _) =>
        var fields := AllFields(c.types, t);
        v.Obj? && fields.Some? && FieldsSilent(c, fields.value, v)
      case Enum(underlying, values) => EncodeEnum(c, underlying, values, v) == Ok([])
      case _ => false
  }

  predicate FieldsSilent(c: Codec, fs: seq<Field>, v: Value)
    requires Closed(c.types) && v.Obj? && forall i :: 0 <= i < |fs| ==> fs[i].typ in c.types
    decreases 1, v, 0, 0, |fs|
  {
    fs == [] || (Silent(c, fs[0].typ, Property(v, fs[0].name), c.hops) && FieldsSilent(c, fs[1..], v))
  }

  lemma {:induction false} SilentEncoded(c: Codec, t: nat, v: Value, fuel: nat)
    requires Closed(c.types) && t in c.types
    ensures Silent(c, t, v, fuel) <==> Encode(c, t, v, fuel) == Ok([])
    decreases if v.Null? then 0 else 1, v, fuel, 2, 0
  {
    hide Varuint;
    if v.Null? {
      NullEncoded(c, t, fuel);
    } else if !c.types[t].isOptional && !c.types[t].isArray {
      InnerSilentEncoded(c, t, v, fuel);
    }
  }

  lemma {:induction false} InnerSilentEncoded(c: Codec, t: nat, v: Value, fuel: nat)
    requires Closed(c.types) && t in c.types && !v.Null?
    ensures InnerSilent(c, t, v, fuel) <==> EncodeInner(c, t, v, true, fuel) == Ok([])
    decreases 1, v, fuel, 1, 0
  {
    hide Varuint;
    var ty := c.types[t];
    if IsAlias(c, t) {
      if fuel > 0 {
        SilentEncoded(c, ty.shape.ref, v, fuel - 1);
      }
    } else if ty.name !in c.lookup && ty.shape.Struct? && v.Obj? && AllFields(c.types, t).Some? {
      FieldsSilentEncoded(c, AllFields(c.types, t).value, v);
    }
  }

  lemma {:induction false} FieldsSilentEncoded(c: Codec, fs: seq<Field>, v: Value)
    requires Closed(c.types) && v.Obj? && forall i :: 0 <= i < |fs| ==> fs[i].typ in c.types
    ensures FieldsSilent(c, fs, v) <==> EncodeFields(c, fs, v) == Ok([])
    decreases 1, v, 0, 0, |fs|
  {
    hide Encode, Silent;
    if fs != [] {
      SilentEncoded(c, fs[0].typ, Property(v, fs[0].name), c.hops);
      FieldsSilentEncoded(c, fs[1..], v);
      JoinEmpty(Encode(c, fs[0].typ, Property(v, fs[0].name), c.hops), EncodeFields(c, fs[1..], v));
    }
  }

  lemma JoinEmpty(a: Result<bytes>, b: Result<bytes>)
    ensures Join(a, b) == Ok([]) <==> a == Ok([]) && b == Ok([])
  {
    if a.Ok? && b.Ok? {
      assert |a.value + b.value| == |a.value| + |b.value|;
      assert a.value + b.value == [] <==> a.value == [] && b.value == [];
    }
  }

  // ---- The condition ----

  /**
   Every null comes back: no extension left out is an array or an alias whose target refuses
   null, and none that is written in no bytes has anything written after it.
   */
  predicate Kept(c: Codec, t: nat, v: Value, fuel: nat, last: bool, depth: nat)
    requires Closed(c.types) && t in c.types
    decreases if v.Null? then 0 else 1, v, fuel, 2, 0
  {
    if v.Null? then NullKept(c, t, fuel, last, depth)
    else if c.types[t].isArray then v.Arr? && ElemsKept(c, t, v.elems, last, depth)
    else InnerKept(c, t, v, fuel, last, depth)
  }

  predicate ElemsKept(c: Codec, t: nat, es: seq<Value>, last: bool, depth: nat)
    requires Closed(c.types) && t in c.types
    decreases 1, es, 0, 0, 0
  {
    es == []
    || (InnerKept(c, t, es[0], c.hops, last && es[1..] == [], depth + 1) && ElemsKept(c, t, es[1..], last, depth))
  }

  predicate InnerKept(c: Codec, t: nat, v: Value, fuel: nat, last: bool, depth: nat)
    requires Closed(c.types) && t in c.types
    decreases if v.Null? then 0 else 1, v, fuel, 1, 0
  {
    var ty := c.types[t];
    if IsAlias(c, t) then fuel > 0 && Kept(c, ty.shape.ref, v, fuel - 1, last, depth + 1)
    else if ty.name in c.lookup then true
    else
      match ty.shape
      case Struct(_, _) =>
        var fields := AllFields(c.types, t);
        v.Obj? && fields.Some? && FieldsKept(c, fields.value, v, last, depth)
      case Variant(cases) =>
        v.Tagged? &&
        var k := CaseOf(c.types, cases, v.tag, 0);
        k.Some? && Kept(c, cases[k.value], v.value, c.hops, last, depth + 1)
      case _ => true
  }

  predicate FieldsKept(c: Codec, fs: seq<Field>, v: Value, last: bool, depth: nat)
    requires Closed(c.types) && v.Obj? && forall i :: 0 <= i < |fs| ==> fs[i].typ in c.types
    decreases 1, v, 0, 0, |fs|
  {
    fs == []
    || (&& Kept(c, fs[0].typ, Property(v, fs[0].name), c.hops, last && FieldsSilent(c, fs[1..], v), depth + 1)
        && FieldsKept(c, fs[1..], v, last, depth))
  }

  // ---- Nothing written, nothing consumed ----

  lemma {:induction false} NothingConsumed(c: Codec, t: nat, s: bytes, depth: nat, fuel: nat)
    requires Regular(c) && t in c.types && depth <= MAX_DEPTH + 2
    requires Decode(c, t, s, depth).Done? && Silent(c, t, Decode(c, t, s, depth).value, fuel)
    ensures |Decode(c, t, s, depth).rest| == |s|
    decreases MAX_DEPTH + 2 - depth, 4, 0
  {
    var ty, p := c.types[t], Decode(c, t, s, depth);
    if ty.isExtension && s == [] {
    } else {
      SilentEncoded(c, t, p.value, fuel);
      InnerNothingConsumed(c, t, s, depth, !p.value.Null?, fuel);
    }
  }

  lemma {:induction false} InnerNothingConsumed(c: Codec, t: nat, s: bytes, depth: nat, exists_: bool, fuel: nat)
    requires Regular(c) && t in c.types && depth <= MAX_DEPTH + 1
    requires DecodeInner(c, t, s, depth).Done? && (DecodeInner(c, t, s, depth).value.Null? || exists_)
    requires EncodeInner(c, t, DecodeInner(c, t, s, depth).value, exists_, fuel) == Ok([])
    ensures |DecodeInner(c, t, s, depth).rest| == |s|
    decreases MAX_DEPTH + 2 - depth, 1, 0
  {
    var ty, p := c.types[t], DecodeInner(c, t, s, depth);
    if ty.name in c.lookup {
      LeafCanonical(c.lookup[ty.name], s);
    } else {
      match ty.shape
      case Alias(ref) =>
        SilentEncoded(c, ref, p.value, fuel - 1);
        NothingConsumed(c, ref, s, depth + 1, fuel - 1);
      case Struct(_, _) =>
        var fs := AllFields(c.types, t).value;
        FieldsSilentEncoded(c, fs, p.value);
        FieldsNothingConsumed(c, fs, s, map[], depth, p.value);
      case Enum(underlying, values) =>
        EncodeDecodedEnum(c, underlying, values, s, depth);
      case Variant(cases) =>
        VariantWidth(c, cases, p.value);
    }
  }

  /** A variant is written with its index. */
  lemma VariantWidth(c: Codec, cases: seq<nat>, v: Value)
    requires Closed(c.types) && v.Tagged? && forall i :: 0 <= i < |cases| ==> cases[i] in c.types
    ensures var k := CaseOf(c.types, cases, v.tag, 0);
            k.Some? ==> Join(Ok(Varuint(ToUint32(k.value))), Encode(c, cases[k.value], v.value, c.hops)) != Ok([])
  {
    hide Encode, ToUint32;
  }

  lemma {:induction false} FieldsNothingConsumed(
    c: Codec, fs: seq<Field>, s: bytes, obj: map<Text, Value>, depth: nat, v: Value)
    requires Regular(c) && forall i :: 0 <= i < |fs| ==> fs[i].typ in c.types
    requires depth <= MAX_DEPTH + 1 && Distinct(fs)
    requires DecodeFields(c, fs, s, obj, depth).Done? && v == Obj(DecodeFields(c, fs, s, obj, depth).value)
    requires FieldsSilent(c, fs, v)
    ensures |DecodeFields(c, fs, s, obj, depth).rest| == |s|
    decreases MAX_DEPTH + 2 - depth, 0, |fs|
  {
    if fs != [] {
      var first := Decode(c, fs[0].typ, s, depth + 1);
      var next := obj[fs[0].name := first.value];
      FirstField(c, fs, s, obj, depth, v);
      hide Decode, Silent, DecodeFields, Distinct, Property;
      NothingConsumed(c, fs[0].typ, s, depth + 1, c.hops);
      FieldsNothingConsumed(c, fs[1..], first.rest, next, depth, v);
    }
  }

  // ---- What is kept is what comes back ----

  /** For a decoded value: it is written and restored, exactly when it is `Kept`. */
  lemma {:induction false} KeptRestored(c: Codec, t: nat, s: bytes, depth: nat, fuel: nat, last: bool)
    requires Regular(c) && t in c.types && depth <= MAX_DEPTH + 2 && fuel >= MAX_DEPTH + 2 - depth
    requires Decode(c, t, s, depth).Done? && (last ==> Decode(c, t, s, depth).rest == [])
    ensures var v := Decode(c, t, s, depth).value;
            Encode(c, t, v, fuel).Ok? && Restores(c, t, v, fuel, last, depth) <==> Kept(c, t, v, fuel, last, depth)
    decreases MAX_DEPTH + 2 - depth, 4, 0
  {
    var ty, p := c.types[t], Decode(c, t, s, depth);
    if p.value.Null? {
      NullRestored(c, t, fuel, last, depth);
    } else {
      var s' := if ty.isOptional then s[1..] else s;
      KeptRestoredBody(c, t, s', depth, fuel, last);
      if ty.isExtension && last && !ty.isOptional {
        SilentEncoded(c, t, p.value, fuel);
        if Silent(c, t, p.value, fuel) {
          NothingConsumed(c, t, s, depth, fuel);
        }
      }
    }
  }

  lemma {:induction false} KeptRestoredBody(c: Codec, t: nat, s: bytes, depth: nat, fuel: nat, last: bool)
    requires Regular(c) && t in c.types && depth <= MAX_DEPTH && fuel >= MAX_DEPTH + 2 - depth
    requires DecodeBody(c, t, s, depth).Done? && (last ==> DecodeBody(c, t, s, depth).rest == [])
    requires !DecodeBody(c, t, s, depth).value.Null?
    ensures var v := DecodeBody(c, t, s, depth).value;
            EncodeBody(c, t, v, fuel).Ok? && BodyRestores(c, t, v, fuel, last, depth)
            <==> Kept(c, t, v, fuel, last, depth)
    decreases MAX_DEPTH + 2 - depth, 3, 0
  {
    hide Varuint, ReadVaruintAt, ToUint32;
    if !c.types[t].isArray {
      KeptRestoredInner(c, t, s, depth, true, fuel, last);
    } else {
      var n := ReadVaruint(s);
      KeptRestoredElems(c, t, n.rest, n.value, depth, last);
    }
  }

  lemma {:induction false} KeptRestoredElems(c: Codec, t: nat, s: bytes, n: nat, depth: nat, last: bool)
    requires Regular(c) && t in c.types && depth <= MAX_DEPTH
    requires DecodeElems(c, t, s, n, depth).Done? && (last ==> DecodeElems(c, t, s, n, depth).rest == [])
    ensures var es := DecodeElems(c, t, s, n, depth).value;
            EncodeElems(c, t, es).Ok? && ElemsRestore(c, t, es, last, depth) <==> ElemsKept(c, t, es, last, depth)
    decreases MAX_DEPTH + 2 - depth, 2, n
  {
    hide DecodeInner, EncodeInner, InnerRestores, InnerKept;
    if n > 0 {
      var head := DecodeInner(c, t, s, depth + 1);
      var tail := DecodeElems(c, t, head.rest, n - 1, depth);
      var es := [head.value] + tail.value;
      assert es[0] == head.value && es[1..] == tail.value;
      KeptRestoredInner(c, t, s, depth + 1, true, c.hops, last && n == 1);
      KeptRestoredElems(c, t, head.rest, n - 1, depth, last);
      if EncodeElems(c, t, es).Ok? {
        ElementWidth(c, t, s, depth);
        if n > 1 {
          ElementsWidth(c, t, head.rest, n - 1, depth);
        }
      }
    }
  }

  lemma ElementWidth(c: Codec, t: nat, s: bytes, depth: nat)
    requires Regular(c) && t in c.types && depth <= MAX_DEPTH
    requires DecodeInner(c, t, s, depth + 1).Done? && |DecodeInner(c, t, s, depth + 1).rest| != |s|
    ensures EncodeInner(c, t, DecodeInner(c, t, s, depth + 1).value, true, c.hops) != Ok([])
  {
    if EncodeInner(c, t, DecodeInner(c, t, s, depth + 1).value, true, c.hops) == Ok([]) {
      InnerNothingConsumed(c, t, s, depth + 1, true, c.hops);
    }
  }

  /** Elements that were read, and so were not empty, are not written in no bytes. */
  lemma ElementsWidth(c: Codec, t: nat, s: bytes, n: nat, depth: nat)
    requires Regular(c) && t in c.types && depth <= MAX_DEPTH
    requires DecodeElems(c, t, s, n, depth).Done? && n > 0
    ensures EncodeElems(c, t, DecodeElems(c, t, s, n, depth).value) != Ok([])
  {
    hide DecodeInner, EncodeInner;
    var es := DecodeElems(c, t, s, n, depth).value;
    assert es[0] == DecodeInner(c, t, s, depth + 1).value;
    ElementWidth(c, t, s, depth);
  }

  lemma {:induction false} KeptRestoredInner(
    c: Codec, t: nat, s: bytes, depth: nat, exists_: bool, fuel: nat, last: bool)
    requires Regular(c) && t in c.types && depth <= MAX_DEPTH + 1 && fuel >= MAX_DEPTH + 2 - depth
    requires DecodeInner(c, t, s, depth).Done? && (last ==> DecodeInner(c, t, s, depth).rest == [])
    requires DecodeInner(c, t, s, depth).value.Null? || exists_
    ensures var v := DecodeInner(c, t, s, depth).value;
            EncodeInner(c, t, v, exists_, fuel).Ok? && InnerRestores(c, t, v, exists_, fuel, last, depth)
            <==> InnerKept(c, t, v, fuel, last, depth)
    decreases MAX_DEPTH + 2 - depth, 1, 0
  {
    hide DecodeLeaf, EncodeLeaf, LeafFits, AllFields, FieldsKept, FieldsRestore, EncodeFields, DecodeFields;
    hide EncodeEnum, DecodeEnum, EnumRestores, Kept, Restores, Encode, Decode;
    var ty, p := c.types[t], DecodeInner(c, t, s, depth);
    if ty.name in c.lookup {
      LeafCanonical(c.lookup[ty.name], s);
    } else {
      match ty.shape
      case Alias(ref) =>
        KeptRestored(c, ref, s, depth + 1, fuel - 1, last);
      case Struct(_, _) =>
        var fs := AllFields(c.types, t).value;
        DecodeFieldsFrame(c, fs, s, map[], depth);
        KeptRestoredFields(c, fs, s, map[], depth, p.value, last);
      case Enum(underlying, values) =>
        EncodeDecodedEnum(c, underlying, values, s, depth);
      case Variant(cases) =>
        KeptRestoredVariant(c, t, s, depth, fuel, last);
    }
  }

  lemma {:induction false} KeptRestoredVariant(c: Codec, t: nat, s: bytes, depth: nat, fuel: nat, last: bool)
    requires Regular(c) && t in c.types && depth <= MAX_DEPTH + 1
    requires c.types[t].name !in c.lookup && c.types[t].shape.Variant?
    requires DecodeInner(c, t, s, depth).Done? && (last ==> DecodeInner(c, t, s, depth).rest == [])
    ensures var v := DecodeInner(c, t, s, depth).value;
            EncodeInner(c, t, v, true, fuel).Ok? && InnerRestores(c, t, v, true, fuel, last, depth)
            <==> InnerKept(c, t, v, fuel, last, depth)
    decreases MAX_DEPTH + 2 - depth, 0, 0
  {
    hide Varuint, ReadVaruintAt, ToUint32;
    var cases := c.types[t].shape.cases;
    var k := ReadVaruint(s);
    var first := CaseOf(c.types, cases, c.types[cases[k.value]].TypeName(), 0);
    assert first.Some? && first.value <= k.value;
    assert cases[first.value] == cases[k.value];
    KeptRestored(c, cases[k.value], k.rest, depth + 1, c.hops, last);
  }

  /** The fields after the first, written and restored. */
  lemma FieldsUnfold(c: Codec, fs: seq<Field>, v: Value, last: bool, depth: nat)
    requires Closed(c.types) && v.Obj? && fs != [] && forall i :: 0 <= i < |fs| ==> fs[i].typ in c.types
    ensures var e, tail := Encode(c, fs[0].typ, Property(v, fs[0].name), c.hops), EncodeFields(c, fs[1..], v);
            && (EncodeFields(c, fs, v).Ok? <==> e.Ok? && tail.Ok?)
            && (e.Ok? && tail.Ok? ==>
                  (FieldsRestore(c, fs, v, last, depth) <==>
                     && Restores(c, fs[0].typ, Property(v, fs[0].name), c.hops, last && tail.value == [], depth + 1)
                     && FieldsRestore(c, fs[1..], v, last, depth)))
  {
    hide Encode, Restores, Property;
  }

  lemma {:induction false} KeptRestoredFields(
    c: Codec, fs: seq<Field>, s: bytes, obj: map<Text, Value>, depth: nat, v: Value, last: bool)
    requires Regular(c) && forall i :: 0 <= i < |fs| ==> fs[i].typ in c.types
    requires depth <= MAX_DEPTH + 1 && Distinct(fs)
    requires DecodeFields(c, fs, s, obj, depth).Done? && v == Obj(DecodeFields(c, fs, s, obj, depth).value)
    requires last ==> DecodeFields(c, fs, s, obj, depth).rest == []
    ensures EncodeFields(c, fs, v).Ok? && FieldsRestore(c, fs, v, last, depth) <==> FieldsKept(c, fs, v, last, depth)
    decreases MAX_DEPTH + 2 - depth, 0, |fs|
  {
    if fs != [] {
      var first := Decode(c, fs[0].typ, s, depth + 1);
      var next := obj[fs[0].name := first.value];
      var silent := FieldsSilent(c, fs[1..], v);
      FirstField(c, fs, s, obj, depth, v);
      FieldsUnfold(c, fs, v, last, depth);
      hide Decode, Encode, Restores, Kept, FieldsSilent, DecodeFields, Distinct, Property, EncodeFields, FieldsRestore;
      FieldsSilentEncoded(c, fs[1..], v);
      if last && silent {
        FieldsNothingConsumed(c, fs[1..], first.rest, next, depth, v);
      }
      KeptRestored(c, fs[0].typ, s, depth + 1, c.hops, last && silent);
      KeptRestoredFields(c, fs[1..], first.rest, next, depth, v, last);
    }
  }

  // ---- Whole messages ----

  /**
   What was decoded can be written and reads back, the value and what follows it, if and only if
   every null in it is kept: a condition on the value and its types that no input is needed for.
   */
  lemma ReencodeExactly(c: Codec, t: nat, s: bytes)
    requires Regular(c) && t in c.types && Decode(c, t, s, 1).Done?
    ensures var p := Decode(c, t, s, 1);
            var again := Encode(c, t, p.value, c.hops);
            again.Ok? && Decode(c, t, again.value + p.rest, 1) == p
            <==> Kept(c, t, p.value, c.hops, p.rest == [], 1)
  {
    var p := Decode(c, t, s, 1);
    KeptRestored(c, t, s, 1, c.hops, p.rest == []);
    if Encode(c, t, p.value, c.hops).Ok? {
      ExactRoundTrip(c, t, p.value, p.rest);
    }
  }

  /** The shifted extensions of `OptionalExtensionShifts` fail it. */
  lemma ShiftedNotKept(c: Codec, t: nat, f: Field, g: Field)
    requires Regular(c) && PlainStruct(c, t, [f, g]) && f.name != g.name
    requires ByteExtension(c, f.typ) && OptionalExtension(c, g.typ)
    ensures !Kept(c, t, Obj(map[f.name := Null, g.name := Null]), c.hops, true, 1)
  {
    hide Kept, Decode, Encode;
    OptionalExtensionShifts(c, t, f, g);
    ReencodeExactly(c, t, []);
    var zero: bytes := [0];
    assert zero + [] == zero;
    var nulls, shifted := map[f.name := Null, g.name := Null], map[f.name := Num(0), g.name := Null];
    assert nulls[f.name] != shifted[f.name];
  }

  /** An optional extension with none before it passes: left out, it comes back as a null in one byte. */
  lemma LoneOptionalExtension(c: Codec, t: nat, f: Field)
    requires Regular(c) && PlainStruct(c, t, [f]) && OptionalExtension(c, f.typ)
    ensures var v := Obj(map[f.name := Null]);
            && Decode(c, t, [], 1) == Done(v, []) && Encode(c, t, v, c.hops) == Ok([0])
            && Decode(c, t, [0], 1) == Done(v, [])
  {
    var v := Obj(map[f.name := Null]);
    var fs := [f];
    assert fs[1..] == [];
    assert Decode(c, f.typ, [], 2) == Done(Null, []) && Encode(c, f.typ, Null, c.hops) == Ok([0]);
    StructSteps(c, t, fs, [], v);
    assert DecodeFields(c, fs, [], map[], 1) == Done(map[f.name := Null], []);
    assert EncodeFields(c, fs, v) == Join(Ok([0]), Ok([]));
    var zero: bytes := [0];
    assert zero + [] == zero;
    assert Property(v, fs[0].name) == Null && NullKept(c, f.typ, c.hops, true, 2);
    assert FieldsSilent(c, fs[1..], v) && FieldsKept(c, fs[1..], v, true, 1);
    assert FieldsKept(c, fs, v, true, 1);
    assert Kept(c, t, v, c.hops, true, 1);
    ReencodeExactly(c, t, []);
  }
}
