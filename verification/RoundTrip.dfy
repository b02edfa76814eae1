/** When decoding undoes encoding: exactly when `Restores`. */
module RoundTrip {
  import opened Bytes
  import opened Varint
  import opened Types
  import opened Leaf
  import opened Serializer

  /**
   The guards of the decoder that a written value meets on the way back: the coding path is
   short enough, an extension is left out only when the input ends there (and left in only
   when it does not), lengths fit 32 bits, array elements take at least one byte, an enum
   value stands for one name, and an object has just the fields of its struct.
   `last` says that nothing follows in the input.
   */
  ghost predicate Restores(c: Codec, t: nat, v: Value, fuel: nat, last: bool, depth: nat)
    requires Closed(c.types) && t in c.types && Encode(c, t, v, fuel).Ok?
    decreases if v.Null? then 0 else 1, v, fuel, 3, 0
  {
    var ty := c.types[t];
    && depth <= MAX_DEPTH
    && if ty.isExtension && last && Encode(c, t, v, fuel).value == [] then v.Null?
       else (ty.isOptional && v.Null?) || BodyRestores(c, t, v, fuel, last, depth)
  }

  ghost predicate BodyRestores(c: Codec, t: nat, v: Value, fuel: nat, last: bool, depth: nat)
    requires Closed(c.types) && t in c.types && EncodeBody(c, t, v, fuel).Ok?
    decreases if v.Null? then 0 else 1, v, fuel, 2, 0
  {
    if c.types[t].isArray then |v.elems| < TWO32 && ElemsRestore(c, t, v.elems, last, depth)
    else InnerRestores(c, t, v, !v.Null?, fuel, last, depth)
  }

  ghost predicate ElemsRestore(c: Codec, t: nat, es: seq<Value>, last: bool, depth: nat)
    requires Closed(c.types) && t in c.types && EncodeElems(c, t, es).Ok?
    decreases 1, es, 0, 0, 0
  {
    es == []
    || (&& EncodeInner(c, t, es[0], true, c.hops).value != []
        && InnerRestores(c, t, es[0], true, c.hops, last && EncodeElems(c, t, es[1..]).value == [], depth + 1)
        && ElemsRestore(c, t, es[1..], last, depth))
  }

  ghost predicate InnerRestores(
    c: Codec, t: nat, v: Value, exists_: bool, fuel: nat, last: bool, depth: nat)
    requires Closed(c.types) && t in c.types && EncodeInner(c, t, v, exists_, fuel).Ok?
    decreases if v.Null? then 0 else 1, v, fuel, 1, 1
  {
    var ty := c.types[t];
    if IsAlias(c, t) then Restores(c, ty.shape.ref, v, fuel - 1, last, depth + 1)
    else
      && exists_
      && if ty.name in c.lookup then LeafFits(c.lookup[ty.name], v)
         else
           match ty.shape
           case Struct(_, _) =>
             var fs := AllFields(c.types, t).value;
             v.fields.Keys == FieldNames(fs) && FieldsRestore(c, fs, v, last, depth)
           case Enum(_, values) => depth <= MAX_DEPTH && EnumRestores(values, v)
           case Variant(cases) =>
             var k := CaseOf(c.types, cases, v.tag, 0).value;
             k < TWO32 && Restores(c, cases[k], v.value, c.hops, last, depth + 1)
           case _ => false
  }

  ghost predicate FieldsRestore(c: Codec, fs: seq<Field>, v: Value, last: bool, depth: nat)
    requires Closed(c.types) && v.Obj? && forall i :: 0 <= i < |fs| ==> fs[i].typ in c.types
    requires EncodeFields(c, fs, v).Ok?
    decreases 1, v, 0, 0, |fs|
  {
    fs == []
    || (&& Restores(c, fs[0].typ, Property(v, fs[0].name), c.hops,
                    last && EncodeFields(c, fs[1..], v).value == [], depth + 1)
        && FieldsRestore(c, fs[1..], v, last, depth))
  }

  ghost predicate EnumRestores(values: seq<EnumValue>, v: Value) {
    if v.Blob? then
      var n := ValueOf(values, v.data);
      n.Some? && NameOf(values, n.value) == Some(v.data)
    else v.Num? && NameOf(values, v.n).None?
  }

  function FieldNames(fs: seq<Field>): set<Text> {
    set i | 0 <= i < |fs| :: fs[i].name
  }

  ghost predicate Distinct(fs: seq<Field>) {
    forall i, j :: 0 <= i < j < |fs| ==> fs[i].name != fs[j].name
  }

  /** No struct, bases included, has two fields of one name. */
  ghost predicate DistinctFields(c: Codec)
    requires Closed(c.types)
  {
    forall t :: t in c.types && AllFields(c.types, t).Some? ==> Distinct(AllFields(c.types, t).value)
  }

  // ---- Objects ----

  ghost function Filled(fs: seq<Field>, v: Value, obj: map<Text, Value>): map<Text, Value>
    requires v.Obj?
  {
    if fs == [] then obj else Filled(fs[1..], v, obj[fs[0].name := Property(v, fs[0].name)])
  }

  lemma FieldNamesStep(fs: seq<Field>)
    requires fs != []
    ensures FieldNames(fs) == {fs[0].name} + FieldNames(fs[1..])
  {
    assert fs == [fs[0]] + fs[1..];
    forall x | x in FieldNames(fs) ensures x in {fs[0].name} + FieldNames(fs[1..]) {
      var i :| 0 <= i < |fs| && fs[i].name == x;
      assert i > 0 ==> fs[1..][i - 1].name == x;
    }
    forall x | x in FieldNames(fs[1..]) ensures x in FieldNames(fs) {
      var i :| 0 <= i < |fs[1..]| && fs[1..][i].name == x;
      assert fs[i + 1].name == x;
    }
  }

  lemma DistinctStep(fs: seq<Field>)
    requires fs != [] && Distinct(fs)
    ensures Distinct(fs[1..]) && fs[0].name !in FieldNames(fs[1..])
  {
    assert forall i :: 0 <= i < |fs[1..]| ==> fs[1..][i].name == fs[i + 1].name != fs[0].name;
  }

  lemma {:induction false} FilledContents(fs: seq<Field>, v: Value, obj: map<Text, Value>)
    requires v.Obj?
    ensures Filled(fs, v, obj).Keys == obj.Keys + FieldNames(fs)
    ensures forall k :: k in Filled(fs, v, obj) ==>
                          Filled(fs, v, obj)[k] == if k in FieldNames(fs) then Property(v, k) else obj[k]
  {
    if fs != [] {
      FieldNamesStep(fs);
      FilledContents(fs[1..], v, obj[fs[0].name := Property(v, fs[0].name)]);
    }
  }

  /** Decoding the fields changes only their names, and defines them all. */
  lemma {:induction false} DecodeFieldsFrame(c: Codec, fs: seq<Field>, s: bytes, obj: map<Text, Value>, depth: nat)
    requires Closed(c.types) && forall i :: 0 <= i < |fs| ==> fs[i].typ in c.types
    requires depth <= MAX_DEPTH + 1 && DecodeFields(c, fs, s, obj, depth).Done?
    ensures var out := DecodeFields(c, fs, s, obj, depth).value;
            out.Keys == obj.Keys + FieldNames(fs)
            && forall k :: k in obj && k !in FieldNames(fs) ==> out[k] == obj[k]
    decreases |fs|
  {
    if fs != [] {
      FieldNamesStep(fs);
      var v := Decode(c, fs[0].typ, s, depth + 1);
      DecodeFieldsFrame(c, fs[1..], v.rest, obj[fs[0].name := v.value], depth);
    }
  }

  // ---- The round trip ----

  /** Decoding what was written gives the value back, exactly when it `Restores`. */
  lemma {:induction false} DecodeEncode(c: Codec, t: nat, v: Value, fuel: nat, rest: bytes, depth: nat)
    requires Closed(c.types) && t in c.types && Encode(c, t, v, fuel).Ok? && depth <= MAX_DEPTH + 2
    ensures Restores(c, t, v, fuel, rest == [], depth) ==>
              Decode(c, t, Encode(c, t, v, fuel).value + rest, depth) == Done(v, rest)
    ensures DistinctFields(c) && !Restores(c, t, v, fuel, rest == [], depth) ==>
              var p := Decode(c, t, Encode(c, t, v, fuel).value + rest, depth);
              p.Done? ==> p.value != v
    decreases if v.Null? then 0 else 1, v, fuel, 3, 0
  {
    var ty := c.types[t];
    var s := Encode(c, t, v, fuel).value + rest;
    if depth > MAX_DEPTH || (ty.isExtension && s == []) {
      assert s == [] ==> rest == [];
    } else if ty.isOptional && v.Null? {
      assert s[1..] == rest;
    } else {
      assert ty.isOptional ==> s[1..] == EncodeBody(c, t, v, fuel).value + rest;
      DecodeEncodeBody(c, t, v, fuel, rest, depth);
    }
  }

  lemma {:induction false} DecodeEncodeBody(c: Codec, t: nat, v: Value, fuel: nat, rest: bytes, depth: nat)
    requires Closed(c.types) && t in c.types && EncodeBody(c, t, v, fuel).Ok? && depth <= MAX_DEPTH
    ensures BodyRestores(c, t, v, fuel, rest == [], depth) ==>
              DecodeBody(c, t, EncodeBody(c, t, v, fuel).value + rest, depth) == Done(v, rest)
    ensures DistinctFields(c) && !BodyRestores(c, t, v, fuel, rest == [], depth) ==>
              var p := DecodeBody(c, t, EncodeBody(c, t, v, fuel).value + rest, depth);
              p.Done? ==> p.value != v
    decreases if v.Null? then 0 else 1, v, fuel, 2, 0
  {
    hide ReadVaruint, Varuint, ToUint32;
    if !c.types[t].isArray {
      DecodeEncodeInner(c, t, v, !v.Null?, fuel, rest, depth);
    } else {
      var n, elems := ToUint32(|v.elems|), EncodeElems(c, t, v.elems).value;
      assert EncodeBody(c, t, v, fuel).value + rest == Varuint(n) + (elems + rest);
      ReadVaruintOfVaruint(n, elems + rest);
      ToUint32Small(|v.elems|);
      if |v.elems| < TWO32 {
        DecodeEncodeElems(c, t, v.elems, rest, depth);
      }
    }
  }

  lemma {:induction false} DecodeEncodeElems(c: Codec, t: nat, es: seq<Value>, rest: bytes, depth: nat)
    requires Closed(c.types) && t in c.types && EncodeElems(c, t, es).Ok? && depth <= MAX_DEPTH
    ensures ElemsRestore(c, t, es, rest == [], depth) ==>
              DecodeElems(c, t, EncodeElems(c, t, es).value + rest, |es|, depth) == Done(es, rest)
    ensures DistinctFields(c) && !ElemsRestore(c, t, es, rest == [], depth) ==>
              var p := DecodeElems(c, t, EncodeElems(c, t, es).value + rest, |es|, depth);
              p.Done? ==> p.value != es
    decreases 1, es, 0, 0, 0
  {
    hide EncodeInner, InnerRestores, DecodeInner;
    if es == [] {
      assert [] + rest == rest;
    } else {
      var head := EncodeInner(c, t, es[0], true, c.hops).value;
      var tail := EncodeElems(c, t, es[1..]).value;
      var s := head + (tail + rest);
      assert EncodeElems(c, t, es).value + rest == s && es == [es[0]] + es[1..];
      DecodeEncodeInner(c, t, es[0], true, c.hops, tail + rest, depth + 1);
      DecodeEncodeElems(c, t, es[1..], rest, depth);
    }
  }

  lemma {:induction false} DecodeEncodeInner(
    c: Codec, t: nat, v: Value, exists_: bool, fuel: nat, rest: bytes, depth: nat)
    requires Closed(c.types) && t in c.types && EncodeInner(c, t, v, exists_, fuel).Ok?
    requires depth <= MAX_DEPTH + 1
    requires !exists_ ==> v.Null?
    ensures InnerRestores(c, t, v, exists_, fuel, rest == [], depth) ==>
              DecodeInner(c, t, EncodeInner(c, t, v, exists_, fuel).value + rest, depth) == Done(v, rest)
    ensures DistinctFields(c) && !InnerRestores(c, t, v, exists_, fuel, rest == [], depth) ==>
              var p := DecodeInner(c, t, EncodeInner(c, t, v, exists_, fuel).value + rest, depth);
              p.Done? ==> p.value != v
    decreases if v.Null? then 0 else 1, v, fuel, 1, 1
  {
    var ty := c.types[t];
    if IsAlias(c, t) {
      DecodeEncode(c, ty.shape.ref, v, fuel - 1, rest, depth + 1);
    } else if !exists_ {
    } else if ty.name in c.lookup {
      LeafRoundTrip(c.lookup[ty.name], v, rest);
    } else {
      match ty.shape
      case Struct(_, _) =>
        DecodeEncodeStruct(c, t, v, fuel, rest, depth);
      case Enum(underlying, values) =>
        DecodeEncodeEnum(c, underlying, values, v, rest, depth);
      case Variant(cases) =>
        var k := CaseOf(c.types, cases, v.tag, 0).value;
        var bs := Encode(c, cases[k], v.value, c.hops).value;
        var n := ToUint32(k);
        ToUint32Small(k);
        assert Varuint(n) + bs + rest == Varuint(n) + (bs + rest);
        ReadVaruintOfVaruint(n, bs + rest);
        if k < TWO32 {
          DecodeEncode(c, cases[k], v.value, c.hops, rest, depth + 1);
        }
    }
  }

  lemma {:induction false} DecodeEncodeStruct(c: Codec, t: nat, v: Value, fuel: nat, rest: bytes, depth: nat)
    requires Closed(c.types) && t in c.types && v.Obj? && depth <= MAX_DEPTH + 1
    requires c.types[t].name !in c.lookup && c.types[t].shape.Struct?
    requires EncodeInner(c, t, v, true, fuel).Ok?
    ensures InnerRestores(c, t, v, true, fuel, rest == [], depth) ==>
              DecodeInner(c, t, EncodeInner(c, t, v, true, fuel).value + rest, depth) == Done(v, rest)
    ensures DistinctFields(c) && !InnerRestores(c, t, v, true, fuel, rest == [], depth) ==>
              var p := DecodeInner(c, t, EncodeInner(c, t, v, true, fuel).value + rest, depth);
              p.Done? ==> p.value != v
    decreases 1, v, fuel, 1, 0
  {
    hide AllFieldsFrom, EncodeFields, DecodeFields, FieldsRestore, Filled, FieldNames;
    var fs := AllFields(c.types, t).value;
    var s := EncodeFields(c, fs, v).value + rest;
    DecodeEncodeFields(c, fs, v, rest, depth, map[]);
    FilledContents(fs, v, map[]);
    if v.fields.Keys == FieldNames(fs) {
      assert Filled(fs, v, map[]) == v.fields;
    }
    var p := DecodeFields(c, fs, s, map[], depth);
    if p.Done? && p.value == v.fields {
      DecodeFieldsFrame(c, fs, s, map[], depth);
      assert forall k :: k in FieldNames(fs) ==> p.value[k] == Property(v, k);
    }
  }

  lemma {:induction false} DecodeEncodeFields(
    c: Codec, fs: seq<Field>, v: Value, rest: bytes, depth: nat, obj: map<Text, Value>)
    requires Closed(c.types) && v.Obj? && forall i :: 0 <= i < |fs| ==> fs[i].typ in c.types
    requires EncodeFields(c, fs, v).Ok? && depth <= MAX_DEPTH + 1
    ensures FieldsRestore(c, fs, v, rest == [], depth) ==>
              DecodeFields(c, fs, EncodeFields(c, fs, v).value + rest, obj, depth)
              == Done(Filled(fs, v, obj), rest)
    ensures DistinctFields(c) && Distinct(fs) && !FieldsRestore(c, fs, v, rest == [], depth) ==>
              var p := DecodeFields(c, fs, EncodeFields(c, fs, v).value + rest, obj, depth);
              p.Done? ==> exists k :: k in FieldNames(fs) && k in p.value && p.value[k] != Property(v, k)
    decreases 1, v, 0, 0, |fs|
  {
    if fs == [] {
      assert [] + rest == rest;
    } else {
      var name := fs[0].name;
      var head := Encode(c, fs[0].typ, Property(v, name), c.hops).value;
      var tail := EncodeFields(c, fs[1..], v).value;
      var s := head + (tail + rest);
      assert EncodeFields(c, fs, v).value + rest == s;
      DecodeEncode(c, fs[0].typ, Property(v, name), c.hops, tail + rest, depth + 1);
      DecodeEncodeFields(c, fs[1..], v, rest, depth, obj[name := Property(v, name)]);
      FieldNamesStep(fs);
      var p := DecodeFields(c, fs, s, obj, depth);
      if DistinctFields(c) && Distinct(fs) && p.Done? && !FieldsRestore(c, fs, v, rest == [], depth) {
        var first := Decode(c, fs[0].typ, s, depth + 1);
        DecodeFieldsFrame(c, fs[1..], first.rest, obj[name := first.value], depth);
        DistinctStep(fs);
        assert p.value[name] == first.value;
        if first.value == Property(v, name) {
          assert first.rest == tail + rest;
        }
      }
    }
  }

  lemma DecodeEncodeEnum(c: Codec, underlying: Text, values: seq<EnumValue>, v: Value, rest: bytes, depth: nat)
    requires EncodeEnum(c, underlying, values, v).Ok?
    ensures var p := DecodeEnum(c, underlying, values, EncodeEnum(c, underlying, values, v).value + rest, depth);
            if depth <= MAX_DEPTH && EnumRestores(values, v) then p == Done(v, rest)
            else p.Done? ==> p.value != v
  {
    var n := if v.Blob? then ValueOf(values, v.data).value else v.n;
    LeafRoundTrip(c.lookup[underlying], Num(n), rest);
  }
}
