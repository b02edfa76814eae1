/** What holds of everything `decodeBinary` returns, on any input: bounds, and re-encoding. */
module Canonical {
  import opened Bytes
  import opened Varint
  import opened Types
  import opened Leaf
  import opened Serializer
  import opened RoundTrip

  // ---- Bounds ----

  /** No array anywhere in `v` has more than `n` elements. */
  ghost predicate ArraysWithin(v: Value, n: int) {
    match v
    case Arr(elems) => |elems| <= n && forall e :: e in elems ==> ArraysWithin(e, n)
    case Obj(fields) => forall k :: k in fields ==> ArraysWithin(fields[k], n)
    case Tagged(_, inner) => ArraysWithin(inner, n)
    case _ => true
  }

  lemma {:induction false} ArraysWithinMore(v: Value, n: int, m: int)
    requires ArraysWithin(v, n) && n <= m
    ensures ArraysWithin(v, m)
  {
    match v
    case Arr(elems) => forall e | e in elems ensures ArraysWithin(e, m) { ArraysWithinMore(e, n, m); }
    case Obj(fields) =>
      forall k | k in fields ensures ArraysWithin(fields[k], m) { ArraysWithinMore(fields[k], n, m); }
    case Tagged(_, inner) => ArraysWithinMore(inner, n, m);
    case _ =>
  }

  /**
   On every input the cursor only moves forward and stays inside, and the arrays of the
   value decoded have no more elements than bytes were consumed.
   */
  lemma {:induction false} DecodeBounds(c: Codec, t: nat, s: bytes, depth: nat)
    requires Closed(c.types) && t in c.types && depth <= MAX_DEPTH + 2
    ensures var p := Decode(c, t, s, depth);
            p.Done? ==> Suffix(p.rest, s) && |p.rest| <= |s| && ArraysWithin(p.value, |s| - |p.rest|)
    decreases MAX_DEPTH + 2 - depth, 4, 0
  {
    SuffixSelf(s);
    hide Suffix, DecodeBody;
    var ty := c.types[t];
    if depth > MAX_DEPTH || (ty.isExtension && s == []) {
    } else if !ty.isOptional {
      DecodeBodyBounds(c, t, s, depth);
    } else if s == [] || s[0] == 0 {
    } else {
      DecodeBodyBounds(c, t, s[1..], depth);
      var p := DecodeBody(c, t, s[1..], depth);
      if p.Done? {
        ArraysWithinMore(p.value, |s| - 1 - |p.rest|, |s| - |p.rest|);
        SuffixTrans(p.rest, s[1..], s);
      }
    }
  }

  lemma {:induction false} DecodeBodyBounds(c: Codec, t: nat, s: bytes, depth: nat)
    requires Closed(c.types) && t in c.types && depth <= MAX_DEPTH
    ensures var p := DecodeBody(c, t, s, depth);
            p.Done? ==> Suffix(p.rest, s) && |p.rest| <= |s| && ArraysWithin(p.value, |s| - |p.rest|)
    decreases MAX_DEPTH + 2 - depth, 3, 0
  {
    hide ReadVaruintAt, Suffix, DecodeInner;
    var p := DecodeBody(c, t, s, depth);
    if !c.types[t].isArray {
      DecodeInnerBounds(c, t, s, depth);
    } else if p.Done? {
      ReadVaruintSuffix(s, 0);
      var n := ReadVaruint(s);
      DecodeElemsBounds(c, t, n.rest, n.value, depth);
      SuffixTrans(p.rest, n.rest, s);
      forall e | e in p.value.elems ensures ArraysWithin(e, |s| - |p.rest|) {
        ArraysWithinMore(e, |n.rest| - |p.rest|, |s| - |p.rest|);
      }
    }
  }

  lemma {:induction false} DecodeElemsBounds(c: Codec, t: nat, s: bytes, n: nat, depth: nat)
    requires Closed(c.types) && t in c.types && depth <= MAX_DEPTH
    ensures var p := DecodeElems(c, t, s, n, depth);
            p.Done? ==> Suffix(p.rest, s) && |p.rest| <= |s| && n <= |s| - |p.rest|
                        && forall e :: e in p.value ==> ArraysWithin(e, |s| - |p.rest|)
    decreases MAX_DEPTH + 2 - depth, 2, n
  {
    hide Suffix, DecodeInner, ArraysWithin;
    SuffixSelf(s);
    var p := DecodeElems(c, t, s, n, depth);
    if n > 0 && p.Done? {
      var head := DecodeInner(c, t, s, depth + 1);
      var tail := DecodeElems(c, t, head.rest, n - 1, depth);
      DecodeInnerBounds(c, t, s, depth + 1);
      DecodeElemsBounds(c, t, head.rest, n - 1, depth);
      SuffixTrans(p.rest, head.rest, s);
      var used := |s| - |p.rest|;
      ArraysWithinMore(head.value, |s| - |head.rest|, used);
      forall e | e in tail.value ensures ArraysWithin(e, used) {
        ArraysWithinMore(e, |head.rest| - |p.rest|, used);
      }
    }
  }

  lemma {:induction false} DecodeInnerBounds(c: Codec, t: nat, s: bytes, depth: nat)
    requires Closed(c.types) && t in c.types && depth <= MAX_DEPTH + 1
    ensures var p := DecodeInner(c, t, s, depth);
            p.Done? ==> Suffix(p.rest, s) && |p.rest| <= |s| && ArraysWithin(p.value, |s| - |p.rest|)
    decreases MAX_DEPTH + 2 - depth, 1, 0
  {
    hide DecodeLeaf, AllFieldsFrom, ReadVaruint, Suffix;
    var ty, p := c.types[t], DecodeInner(c, t, s, depth);
    if p.Done? {
      if ty.name in c.lookup {
        DecodeLeafSuffix(c.lookup[ty.name], s);
      } else {
        match ty.shape
        case Alias(ref) => DecodeBounds(c, ref, s, depth + 1);
        case Struct(_, _) => DecodeFieldsBounds(c, AllFields(c.types, t).value, s, map[], depth, 0);
        case Enum(underlying, _) => DecodeLeafSuffix(c.lookup[underlying], s);
        case Variant(cases) => DecodeVariantBounds(c, cases, s, depth, p.value.value, p.rest);
      }
    }
  }

  lemma {:induction false} DecodeVariantBounds(
    c: Codec, cases: seq<nat>, s: bytes, depth: nat, v: Value, rest: bytes)
    requires Closed(c.types) && depth <= MAX_DEPTH + 1
    requires ReadVaruint(s).Done? && ReadVaruint(s).value < |cases| && cases[ReadVaruint(s).value] in c.types
    requires Decode(c, cases[ReadVaruint(s).value], ReadVaruint(s).rest, depth + 1) == Done(v, rest)
    ensures Suffix(rest, s) && |rest| <= |s| && ArraysWithin(v, |s| - |rest|)
    decreases MAX_DEPTH + 2 - depth, 0, 0
  {
    hide ReadVaruintAt, Suffix, DecodeInner, Decode, ArraysWithin;
    ReadVaruintSuffix(s, 0);
    var k := ReadVaruint(s);
    DecodeBounds(c, cases[k.value], k.rest, depth + 1);
    SuffixTrans(rest, k.rest, s);
    ArraysWithinMore(v, |k.rest| - |rest|, |s| - |rest|);
  }

  ghost predicate FieldsWithin(obj: map<Text, Value>, n: int) {
    forall k :: k in obj ==> ArraysWithin(obj[k], n)
  }

  lemma FieldsWithinAdd(obj: map<Text, Value>, before: nat, name: Text, v: Value, more: nat)
    requires FieldsWithin(obj, before) && ArraysWithin(v, more)
    ensures FieldsWithin(obj[name := v], before + more)
  {
    var next := obj[name := v];
    forall k | k in next ensures ArraysWithin(next[k], before + more) {
      ArraysWithinMore(next[k], if k == name then more else before, before + more);
    }
  }

  lemma {:induction false} DecodeFieldsBounds(
    c: Codec, fs: seq<Field>, s: bytes, obj: map<Text, Value>, depth: nat, before: nat)
    requires Closed(c.types) && forall i :: 0 <= i < |fs| ==> fs[i].typ in c.types
    requires depth <= MAX_DEPTH + 1 && FieldsWithin(obj, before)
    ensures var p := DecodeFields(c, fs, s, obj, depth);
            p.Done? ==> Suffix(p.rest, s) && |p.rest| <= |s|
                        && FieldsWithin(p.value, before + |s| - |p.rest|)
    decreases MAX_DEPTH + 2 - depth, 0, |fs|
  {
    SuffixSelf(s);
    hide Suffix, Decode, FieldsWithin, ArraysWithin;
    var p := DecodeFields(c, fs, s, obj, depth);
    if fs == [] {
    } else if p.Done? {
      var v := Decode(c, fs[0].typ, s, depth + 1);
      var next := obj[fs[0].name := v.value];
      assert p == DecodeFields(c, fs[1..], v.rest, next, depth);
      hide DecodeFields;
      DecodeBounds(c, fs[0].typ, s, depth + 1);
      var used := |s| - |v.rest|;
      FieldsWithinAdd(obj, before, fs[0].name, v.value, used);
      DecodeFieldsBounds(c, fs[1..], v.rest, next, depth, before + used);
      SuffixTrans(p.rest, v.rest, s);
    }
  }

  lemma DecodeFieldsRest(c: Codec, fs: seq<Field>, s: bytes, obj: map<Text, Value>, depth: nat)
    requires Closed(c.types) && forall i :: 0 <= i < |fs| ==> fs[i].typ in c.types
    requires depth <= MAX_DEPTH + 1
    ensures var p := DecodeFields(c, fs, s, obj, depth);
            p.Done? ==> |p.rest| <= |s|
    decreases |fs|
  {
    if fs != [] {
      var v := Decode(c, fs[0].typ, s, depth + 1);
      DecodeBounds(c, fs[0].typ, s, depth + 1);
      if v.Done? {
        DecodeFieldsRest(c, fs[1..], v.rest, obj[fs[0].name := v.value], depth);
      }
    }
  }

  // ---- Re-encoding ----

  /** Extensions are plain: neither optional, nor arrays, nor aliases. */
  ghost predicate PlainExtensions(c: Codec) {
    forall t :: t in c.types && c.types[t].isExtension ==>
                  !c.types[t].isOptional && !c.types[t].isArray && !IsAlias(c, t)
  }

  /** A type has one entry in the graph, as `ABI.resolve` leaves it. */
  ghost predicate OneEntryEach(g: Graph) {
    forall a, b :: a in g && b in g && g[a].TypeName() == g[b].TypeName() ==> a == b
  }

  ghost predicate DistinctNames(values: seq<EnumValue>) {
    forall i, j :: 0 <= i < j < |values| ==> values[i].name != values[j].name
  }

  ghost predicate DistinctEnums(c: Codec) {
    forall t :: t in c.types && c.types[t].shape.Enum? ==> DistinctNames(c.types[t].shape.values)
  }

  ghost predicate Regular(c: Codec) {
    && Closed(c.types) && DistinctFields(c) && OneEntryEach(c.types) && DistinctEnums(c)
    && c.hops >= MAX_DEPTH + 2
  }

  /** No extension was left out that could be written otherwise than it came: input follows, or all are plain. */
  ghost predicate Settled(c: Codec, rest: bytes) {
    PlainExtensions(c) || rest != []
  }

  /** `bs` re-encodes what was read from the front of `s` down to `rest`. */
  ghost predicate Shortens(bs: bytes, s: bytes, rest: bytes) {
    |bs| <= |s| - |rest| && (bs == [] <==> |rest| == |s|)
  }

  /** Every value decoded can be encoded, in no more bytes, and that encoding restores it. */
  lemma {:induction false} EncodeDecoded(c: Codec, t: nat, s: bytes, depth: nat, fuel: nat)
    requires Regular(c) && t in c.types && depth <= MAX_DEPTH + 2 && fuel >= MAX_DEPTH + 2 - depth
    requires Decode(c, t, s, depth).Done? && Settled(c, Decode(c, t, s, depth).rest)
    ensures var p := Decode(c, t, s, depth);
            && Encode(c, t, p.value, fuel).Ok?
            && Shortens(Encode(c, t, p.value, fuel).value, s, p.rest)
            && Restores(c, t, p.value, fuel, p.rest == [], depth)
    decreases MAX_DEPTH + 2 - depth, 4, 0
  {
    var ty, p := c.types[t], Decode(c, t, s, depth);
    if ty.isExtension && s == [] {
      assert !ty.isOptional && !ty.isArray && !IsAlias(c, t);
      assert EncodeInner(c, t, Null, false, fuel) == Ok([]);
    } else if ty.isOptional && s[0] == 0 {
    } else {
      EncodeDecodedBody(c, t, if ty.isOptional then s[1..] else s, depth, fuel);
    }
  }

  lemma {:induction false} EncodeDecodedBody(c: Codec, t: nat, s: bytes, depth: nat, fuel: nat)
    requires Regular(c) && t in c.types && depth <= MAX_DEPTH && fuel >= MAX_DEPTH + 2 - depth
    requires DecodeBody(c, t, s, depth).Done? && Settled(c, DecodeBody(c, t, s, depth).rest)
    ensures var p := DecodeBody(c, t, s, depth);
            && EncodeBody(c, t, p.value, fuel).Ok?
            && Shortens(EncodeBody(c, t, p.value, fuel).value, s, p.rest)
            && BodyRestores(c, t, p.value, fuel, p.rest == [], depth)
    decreases MAX_DEPTH + 2 - depth, 3, 0
  {
    hide Varuint, ReadVaruintAt, ToUint32;
    var p := DecodeBody(c, t, s, depth);
    if !c.types[t].isArray {
      EncodeDecodedInner(c, t, s, depth, !p.value.Null?, fuel);
    } else {
      var n := ReadVaruint(s);
      VaruintShortest(s, 0);
      ToUint32Small(n.value);
      EncodeDecodedElems(c, t, n.rest, n.value, depth);
    }
  }

  lemma {:induction false} EncodeDecodedElems(c: Codec, t: nat, s: bytes, n: nat, depth: nat)
    requires Regular(c) && t in c.types && depth <= MAX_DEPTH
    requires DecodeElems(c, t, s, n, depth).Done? && Settled(c, DecodeElems(c, t, s, n, depth).rest)
    ensures var p := DecodeElems(c, t, s, n, depth);
            && EncodeElems(c, t, p.value).Ok?
            && Shortens(EncodeElems(c, t, p.value).value, s, p.rest)
            && ElemsRestore(c, t, p.value, p.rest == [], depth)
    decreases MAX_DEPTH + 2 - depth, 2, n
  {
    hide DecodeInner, EncodeInner, InnerRestores;
    if n > 0 {
      var head := DecodeInner(c, t, s, depth + 1);
      var tail := DecodeElems(c, t, head.rest, n - 1, depth);
      DecodeElemsBounds(c, t, head.rest, n - 1, depth);
      EncodeDecodedInner(c, t, s, depth + 1, true, c.hops);
      EncodeDecodedElems(c, t, head.rest, n - 1, depth);
      var es := [head.value] + tail.value;
      assert es[0] == head.value && es[1..] == tail.value;
    }
  }

  lemma {:induction false} EncodeDecodedInner(c: Codec, t: nat, s: bytes, depth: nat, exists_: bool, fuel: nat)
    requires Regular(c) && t in c.types && depth <= MAX_DEPTH + 1 && fuel >= MAX_DEPTH + 2 - depth
    requires DecodeInner(c, t, s, depth).Done? && Settled(c, DecodeInner(c, t, s, depth).rest)
    requires DecodeInner(c, t, s, depth).value.Null? || exists_
    ensures var p := DecodeInner(c, t, s, depth);
            && EncodeInner(c, t, p.value, exists_, fuel).Ok?
            && Shortens(EncodeInner(c, t, p.value, exists_, fuel).value, s, p.rest)
            && InnerRestores(c, t, p.value, exists_, fuel, p.rest == [], depth)
    decreases MAX_DEPTH + 2 - depth, 1, 0
  {
    var ty, p := c.types[t], DecodeInner(c, t, s, depth);
    if ty.name in c.lookup {
      LeafCanonical(c.lookup[ty.name], s);
    } else {
      match ty.shape
      case Alias(ref) =>
        EncodeDecoded(c, ref, s, depth + 1, fuel - 1);
      case Struct(_, _) =>
        var fs := AllFields(c.types, t).value;
        DecodeFieldsFrame(c, fs, s, map[], depth);
        EncodeDecodedFields(c, fs, s, map[], depth, p.value);
      case Enum(underlying, values) =>
        EncodeDecodedEnum(c, underlying, values, s, depth);
      case Variant(cases) =>
        EncodeDecodedVariant(c, t, s, depth, fuel);
    }
  }

  lemma {:induction false} EncodeDecodedVariant(c: Codec, t: nat, s: bytes, depth: nat, fuel: nat)
    requires Regular(c) && t in c.types && depth <= MAX_DEPTH + 1
    requires c.types[t].name !in c.lookup && c.types[t].shape.Variant?
    requires DecodeInner(c, t, s, depth).Done? && Settled(c, DecodeInner(c, t, s, depth).rest)
    ensures var p := DecodeInner(c, t, s, depth);
            && EncodeInner(c, t, p.value, true, fuel).Ok?
            && Shortens(EncodeInner(c, t, p.value, true, fuel).value, s, p.rest)
            && InnerRestores(c, t, p.value, true, fuel, p.rest == [], depth)
    decreases MAX_DEPTH + 2 - depth, 0, 0
  {
    hide Varuint, ReadVaruintAt, ToUint32;
    var cases := c.types[t].shape.cases;
    var k := ReadVaruint(s);
    var first := CaseOf(c.types, cases, c.types[cases[k.value]].TypeName(), 0);
    assert first.Some? && first.value <= k.value;
    assert cases[first.value] == cases[k.value];
    EncodeDecoded(c, cases[k.value], k.rest, depth + 1, c.hops);
    VaruintShortest(s, 0);
    VaruintMonotone(first.value, k.value);
    ToUint32Small(first.value);
  }

  lemma {:induction false} VaruintMonotone(a: nat, b: nat)
    requires a <= b
    ensures |Varuint(a)| <= |Varuint(b)|
  {
    if a >= 128 {
      VaruintMonotone(a / 128, b / 128);
    }
  }

  /** The first field read is not overwritten by those after it. */
  lemma FirstField(c: Codec, fs: seq<Field>, s: bytes, obj: map<Text, Value>, depth: nat, v: Value)
    requires Closed(c.types) && fs != [] && forall i :: 0 <= i < |fs| ==> fs[i].typ in c.types
    requires depth <= MAX_DEPTH + 1 && Distinct(fs)
    requires DecodeFields(c, fs, s, obj, depth).Done? && v == Obj(DecodeFields(c, fs, s, obj, depth).value)
    ensures var first := Decode(c, fs[0].typ, s, depth + 1);
            && Distinct(fs[1..]) && first.Done? && Property(v, fs[0].name) == first.value
            && DecodeFields(c, fs, s, obj, depth)
               == DecodeFields(c, fs[1..], first.rest, obj[fs[0].name := first.value], depth)
  {
    var first := Decode(c, fs[0].typ, s, depth + 1);
    DistinctStep(fs);
    DecodeFieldsFrame(c, fs[1..], first.rest, obj[fs[0].name := first.value], depth);
  }

  lemma {:induction false} EncodeDecodedFields(
    c: Codec, fs: seq<Field>, s: bytes, obj: map<Text, Value>, depth: nat, v: Value)
    requires Regular(c) && forall i :: 0 <= i < |fs| ==> fs[i].typ in c.types
    requires depth <= MAX_DEPTH + 1 && Distinct(fs)
    requires DecodeFields(c, fs, s, obj, depth).Done? && v == Obj(DecodeFields(c, fs, s, obj, depth).value)
    requires Settled(c, DecodeFields(c, fs, s, obj, depth).rest)
    ensures var p := DecodeFields(c, fs, s, obj, depth);
            && EncodeFields(c, fs, v).Ok?
            && Shortens(EncodeFields(c, fs, v).value, s, p.rest)
            && FieldsRestore(c, fs, v, p.rest == [], depth)
    decreases MAX_DEPTH + 2 - depth, 0, |fs|
  {
    if fs != [] {
      var first := Decode(c, fs[0].typ, s, depth + 1);
      var next := obj[fs[0].name := first.value];
      FirstField(c, fs, s, obj, depth, v);
      hide Decode, Encode, Restores, DecodeFields, Distinct, Property;
      DecodeFieldsRest(c, fs[1..], first.rest, next, depth);
      EncodeDecoded(c, fs[0].typ, s, depth + 1, c.hops);
      EncodeDecodedFields(c, fs[1..], first.rest, next, depth, v);
    }
  }

  lemma {:induction false} ValueOfNameOf(values: seq<EnumValue>, n: int)
    requires DistinctNames(values) && NameOf(values, n).Some?
    ensures ValueOf(values, NameOf(values, n).value) == Some(n)
  {
    if values[0].value != n {
      var name := NameOf(values[1..], n).value;
      assert DistinctNames(values[1..]);
      ValueOfNameOf(values[1..], n);
      NameOfIn(values[1..], n);
    }
  }

  lemma {:induction false} NameOfIn(values: seq<EnumValue>, n: int)
    requires NameOf(values, n).Some?
    ensures exists i :: 0 <= i < |values| && values[i].name == NameOf(values, n).value
  {
    if values[0].value == n {
    } else {
      NameOfIn(values[1..], n);
      var i :| 0 <= i < |values[1..]| && values[1..][i].name == NameOf(values[1..], n).value;
      assert values[i + 1].name == NameOf(values, n).value;
    }
  }

  lemma EncodeDecodedEnum(c: Codec, underlying: Text, values: seq<EnumValue>, s: bytes, depth: nat)
    requires DistinctNames(values) && DecodeEnum(c, underlying, values, s, depth).Done?
    ensures var p := DecodeEnum(c, underlying, values, s, depth);
            && EncodeEnum(c, underlying, values, p.value).Ok?
            && Shortens(EncodeEnum(c, underlying, values, p.value).value, s, p.rest)
            && depth <= MAX_DEPTH && EnumRestores(values, p.value)
  {
    var n := DecodeLeaf(c.lookup[underlying], s).value.n;
    LeafCanonical(c.lookup[underlying], s);
    if NameOf(values, n).Some? {
      ValueOfNameOf(values, n);
    }
  }

  // ---- Whole messages ----

  /**
   A value written at the root reads back, with whatever follows untouched, if and only if it
   meets the decoder's guards.
   */
  lemma ExactRoundTrip(c: Codec, t: nat, v: Value, rest: bytes)
    requires Closed(c.types) && t in c.types && DistinctFields(c) && Encode(c, t, v, c.hops).Ok?
    ensures Decode(c, t, Encode(c, t, v, c.hops).value + rest, 1) == Done(v, rest)
            <==> Restores(c, t, v, c.hops, rest == [], 1)
  {
    DecodeEncode(c, t, v, c.hops, rest, 1);
  }

  /** Two values that read back have different encodings, even as beginnings of longer inputs. */
  lemma EncodingUnambiguous(c: Codec, t: nat, v: Value, w: Value, x: bytes, y: bytes)
    requires Closed(c.types) && t in c.types
    requires Encode(c, t, v, c.hops).Ok? && Encode(c, t, w, c.hops).Ok?
    requires Restores(c, t, v, c.hops, x == [], 1) && Restores(c, t, w, c.hops, y == [], 1)
    requires Encode(c, t, v, c.hops).value + x == Encode(c, t, w, c.hops).value + y
    ensures v == w && x == y
  {
    DecodeEncode(c, t, v, c.hops, x, 1);
    DecodeEncode(c, t, w, c.hops, y, 1);
  }

  /**
   What was decoded in front of more input, or with plain extensions only, can be written again,
   no longer than it came, and reads back the same.
   */
  lemma ReencodeDecoded(c: Codec, t: nat, s: bytes)
    requires Regular(c) && t in c.types && Decode(c, t, s, 1).Done? && Settled(c, Decode(c, t, s, 1).rest)
    ensures var p := Decode(c, t, s, 1);
            var again := Encode(c, t, p.value, c.hops);
            && again.Ok? && |again.value| <= |s| - |p.rest|
            && Decode(c, t, again.value + p.rest, 1) == p
  {
    EncodeDecoded(c, t, s, 1, c.hops);
    var p := Decode(c, t, s, 1);
    DecodeEncode(c, t, p.value, c.hops, p.rest, 1);
  }

  /** A leaf behind a plain `$`, and an optional type behind `?$`. */
  ghost predicate ByteExtension(c: Codec, t: nat) {
    && t in c.types && c.types[t].isExtension && !c.types[t].isOptional && !c.types[t].isArray
    && c.types[t].name in c.lookup && c.lookup[c.types[t].name] == IntType(1, false)
  }

  ghost predicate OptionalExtension(c: Codec, t: nat) {
    t in c.types && c.types[t].isExtension && c.types[t].isOptional
  }

  ghost predicate PlainStruct(c: Codec, t: nat, fs: seq<Field>)
    requires Closed(c.types)
  {
    && t in c.types && c.types[t].name !in c.lookup && AllFields(c.types, t) == Some(fs)
    && !c.types[t].isArray && !c.types[t].isOptional && !c.types[t].isExtension
  }

  /**
   Without `PlainExtensions` this fails. The encoder writes a presence byte for an optional
   extension even when one before it was left out, and the decoder gives that byte to the
   earlier one: the empty input decodes to two nulls, which are written as one zero byte,
   which decodes to the number zero and a null.
   */
  lemma OptionalExtensionShifts(c: Codec, t: nat, f: Field, g: Field)
    requires Closed(c.types) && PlainStruct(c, t, [f, g]) && f.name != g.name
    requires ByteExtension(c, f.typ) && OptionalExtension(c, g.typ)
    ensures var nulls := Obj(map[f.name := Null, g.name := Null]);
            && Decode(c, t, [], 1) == Done(nulls, [])
            && Encode(c, t, nulls, c.hops) == Ok([0])
            && Decode(c, t, [0], 1) == Done(Obj(map[f.name := Num(0), g.name := Null]), [])
  {
    var nulls := Obj(map[f.name := Null, g.name := Null]);
    var fs, zero: bytes := [f, g], [0];
    ExtensionSteps(c, f.typ, g.typ);
    DecodeTwoFields(c, f, g, [], 1);
    DecodeTwoFields(c, f, g, zero, 1);
    EncodeTwoFields(c, f, g, nulls);
    StructSteps(c, t, fs, [], nulls);
    StructSteps(c, t, fs, zero, nulls);
    hide Decode, Encode, DecodeFields, EncodeFields;
    assert map[f.name := Null][g.name := Null] == nulls.fields;
    assert map[f.name := Num(0)][g.name := Null] == map[f.name := Num(0), g.name := Null];
    assert [] + (zero + []) == zero;
  }

  lemma ExtensionSteps(c: Codec, f: nat, g: nat)
    requires Closed(c.types) && ByteExtension(c, f) && OptionalExtension(c, g)
    ensures Decode(c, f, [], 2) == Done(Null, []) && Decode(c, g, [], 2) == Done(Null, [])
    ensures Encode(c, f, Null, c.hops) == Ok([]) && Encode(c, g, Null, c.hops) == Ok([0])
    ensures Decode(c, f, [0], 2) == Done(Num(0), [])
  {
    assert EncodeInner(c, f, Null, false, c.hops) == Ok([]);
    var s: bytes := [0];
    assert FromLe(s[..1]) == 0 && Pow256(1) == 256;
    assert DecodeInner(c, f, s, 2) == Done(Num(0), s[1..]);
  }

  lemma StructSteps(c: Codec, t: nat, fs: seq<Field>, s: bytes, v: Value)
    requires Closed(c.types) && PlainStruct(c, t, fs) && v.Obj?
    ensures var obj := DecodeFields(c, fs, s, map[], 1);
            obj.Done? ==> Decode(c, t, s, 1) == Done(Obj(obj.value), obj.rest)
    ensures Encode(c, t, v, c.hops) == EncodeFields(c, fs, v)
  {
    hide DecodeFields, EncodeFields;
    assert c.types[t].shape.Struct?;
    assert Decode(c, t, s, 1) == DecodeInner(c, t, s, 1);
    assert Encode(c, t, v, c.hops) == EncodeInner(c, t, v, true, c.hops);
  }

  lemma DecodeTwoFields(c: Codec, f: Field, g: Field, s: bytes, depth: nat)
    requires Closed(c.types) && f.typ in c.types && g.typ in c.types && depth <= MAX_DEPTH + 1
    requires Decode(c, f.typ, s, depth + 1).Done?
    ensures var x := Decode(c, f.typ, s, depth + 1);
            var y := Decode(c, g.typ, x.rest, depth + 1);
            y.Done? ==> DecodeFields(c, [f, g], s, map[], depth)
                        == Done(map[f.name := x.value][g.name := y.value], y.rest)
  {
    hide Decode;
    var x := Decode(c, f.typ, s, depth + 1);
    var y := Decode(c, g.typ, x.rest, depth + 1);
    assert [f, g][1..] == [g] && [g][1..] == [];
    if y.Done? {
      var m := map[f.name := x.value];
      assert DecodeFields(c, [g], x.rest, m, depth) == Done(m[g.name := y.value], y.rest);
    }
  }

  lemma EncodeTwoFields(c: Codec, f: Field, g: Field, v: Value)
    requires Closed(c.types) && f.typ in c.types && g.typ in c.types && v.Obj?
    ensures EncodeFields(c, [f, g], v)
            == Join(Encode(c, f.typ, Property(v, f.name), c.hops),
                    Join(Encode(c, g.typ, Property(v, g.name), c.hops), Ok([])))
  {
    hide Encode;
    assert [f, g][1..] == [g] && [g][1..] == [];
    assert EncodeFields(c, [g], v) == Join(Encode(c, g.typ, Property(v, g.name), c.hops), Ok([]));
  }
}
