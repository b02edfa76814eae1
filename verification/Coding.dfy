/**
 `encodeAny` and `decodeBinary` as they run: an encoder or decoder and a coding path, both
 updated in place, proved against the functions of `Serializer`.
 */
module Coding {
  import opened Bytes
  import opened Varint
  import opened Types
  import opened Leaf
  import opened Encoder
  import opened Decoder
  import opened Serializer

  datatype Step = Index(i: nat) | Named(name: Text)

  /** One entry of `ctx.codingPath`. */
  datatype PathEntry = PathEntry(field: Step, typ: nat)

  type Path = seq<PathEntry>

  /** `writeTo`: what the builtin classes do with an encoder. */
  method WriteLeaf(lt: LeafType, v: Value, encoder: ABIEncoder) returns (r: Result<()>)
    requires encoder.Valid()
    modifies encoder, encoder.buffer
    ensures encoder.Valid() && (encoder.buffer == old(encoder.buffer) || fresh(encoder.buffer))
    ensures match EncodeLeaf(lt, v)
            case Ok(bs) => r == Ok(()) && encoder.Contents() == old(encoder.Contents()) + bs
            case Err(e) => r == Err(e) && encoder.Contents() == old(encoder.Contents())
  {
    r := Ok(());
    match (lt, v)
    case (BoolType, Bool(b)) =>
      encoder.WriteByte(if b then 1 else 0);
    case (IntType(width, signed), Num(n)) =>
      if !InRange(n, width, signed) {
        return Err(OutOfRange);
      }
      encoder.WriteArray(ToLe(ToTwos(n, width), width));
    case (VarUIntType, Num(n)) =>
      if n < 0 {
        return Err(OutOfRange);
      }
      if n >= SAFE {
        return Err(UnsafeNumber);
      }
      encoder.WriteVaruint32(n);
    case (VarIntType, Num(n)) =>
      if !(-SAFE < n < SAFE) {
        return Err(UnsafeNumber);
      }
      encoder.WriteVarint32(n);
    case (TextType, Blob(data)) =>
      encoder.WriteString(data);
    case (FixedType(size), Blob(data)) =>
      if |data| != size {
        return Err(OutOfRange);
      }
      encoder.WriteArray(data);
    case _ =>
      r := Err(WrongLeaf);
  }

  /** `fromABI` of the builtin classes. */
  method ReadLeaf(lt: LeafType, decoder: ABIDecoder) returns (r: Result<Value>)
    requires decoder.Valid()
    modifies decoder`pos
    ensures decoder.Valid() && old(decoder.pos) <= decoder.pos
    ensures Follows(DecodeLeaf(lt, old(decoder.Rest())), r, decoder.Rest())
  {
    match lt
    case BoolType =>
      var b := decoder.ReadByte();
      r := if b.Ok? then Ok(Bool(b.value != 0)) else Err(b.error);
    case IntType(width, signed) =>
      var bs := decoder.ReadArray(width);
      r := if bs.Ok? then Ok(Num(FromTwos(FromLe(bs.value), width, signed))) else Err(bs.error);
    case VarUIntType =>
      var u := decoder.ReadVaruint32();
      r := if u.Ok? then Ok(Num(u.value)) else Err(u.error);
    case VarIntType =>
      var v := decoder.ReadVarint32();
      r := if v.Ok? then Ok(Num(v.value)) else Err(v.error);
    case TextType =>
      var text := decoder.ReadString();
      r := if text.Ok? then Ok(Blob(text.value)) else Err(text.error);
    case FixedType(size) =>
      var bs := decoder.ReadArray(size);
      r := if bs.Ok? then Ok(Blob(bs.value)) else Err(bs.error);
  }

  /**
   After an encoding step: on success the bytes of `spec` were appended and the path is as it
   was; on failure the error is that of `spec` and the path still leads to where it happened.
   */
  ghost predicate Wrote(spec: Result<bytes>, r: Result<()>, before: bytes, after: bytes, path: Path, path': Path)
  {
    match spec
    case Ok(bs) => r == Ok(()) && after == before + bs && path' == path
    case Err(e) => r == Err(e) && before <= after && path <= path'
  }

  class EncodingContext {
    const codec: Codec
    const encoder: ABIEncoder
    var codingPath: Path

    constructor (codec: Codec, encoder: ABIEncoder, root: nat)
      ensures this.codec == codec && this.encoder == encoder
      ensures codingPath == [PathEntry(Named([]), root)]
    {
      this.codec, this.encoder := codec, encoder;
      codingPath := [PathEntry(Named([]), root)];
    }

    ghost predicate Valid()
      reads this, encoder
    {
      Closed(codec.types) && encoder.Valid()
    }

    method EncodeAny(v: Value, t: nat, fuel: nat) returns (r: Result<()>)
      requires Valid() && t in codec.types
      modifies `codingPath, encoder, encoder.buffer
      ensures Valid() && (encoder.buffer == old(encoder.buffer) || fresh(encoder.buffer))
      ensures Wrote(Encode(codec, t, v, fuel), r, old(encoder.Contents()), encoder.Contents(),
                    old(codingPath), codingPath)
      decreases if v.Null? then 0 else 1, v, fuel, 3, 0
    {
      var ty := codec.types[t];
      if ty.isOptional {
        encoder.WriteByte(if v.Null? then 0 else 1);
        if v.Null? {
          return Ok(());
        }
      }
      ghost var start := encoder.Contents();
      if ty.isArray {
        r := WriteElements(v, t, fuel);
      } else {
        r := WriteInner(v, t, !v.Null?, fuel);
      }
      assert Wrote(EncodeBody(codec, t, v, fuel), r, start, encoder.Contents(), old(codingPath), codingPath);
      if ty.isOptional && r.Ok? {
        var one: bytes, body := [1], EncodeBody(codec, t, v, fuel).value;
        assert old(encoder.Contents()) + one + body == old(encoder.Contents()) + (one + body);
      }
    }

    method WriteElements(v: Value, t: nat, ghost fuel: nat) returns (r: Result<()>)
      requires Valid() && t in codec.types && codec.types[t].isArray
      modifies `codingPath, encoder, encoder.buffer
      ensures Valid() && (encoder.buffer == old(encoder.buffer) || fresh(encoder.buffer))
      ensures Wrote(EncodeBody(codec, t, v, fuel), r,
                    old(encoder.Contents()), encoder.Contents(), old(codingPath), codingPath)
      decreases if v.Null? then 0 else 1, v, fuel, 2, 0
    {
      if !v.Arr? {
        return Err(ExpectedArray);
      }
      hide Varuint, ToUint32, EncodeElems;
      encoder.WriteVaruint32(|v.elems|);
      ghost var before, length := old(encoder.Contents()), Varuint(ToUint32(|v.elems|));
      r := WriteEach(v.elems, t);
      if r.Ok? {
        ghost var body := EncodeElems(codec, t, v.elems).value;
        ConcatAssociates(before, length, body);
      }
    }

    /** The loop over an array's elements. */
    method WriteEach(es: seq<Value>, t: nat) returns (r: Result<()>)
      requires Valid() && t in codec.types
      modifies `codingPath, encoder, encoder.buffer
      ensures Valid() && (encoder.buffer == old(encoder.buffer) || fresh(encoder.buffer))
      ensures Wrote(EncodeElems(codec, t, es), r,
                    old(encoder.Contents()), encoder.Contents(), old(codingPath), codingPath)
      decreases 1, es, 0, 0, 0
    {
      ghost var written: bytes := [];
      assert es[0..] == es;
      ElemsFrom(codec, t, es, |es|);
      JoinStart(EncodeElems(codec, t, es));
      hide EncodeElems, EncodeInner;
      for i := 0 to |es|
        invariant Valid() && (encoder.buffer == old(encoder.buffer) || fresh(encoder.buffer))
        invariant codingPath == old(codingPath) && encoder.Contents() == old(encoder.Contents()) + written
        invariant EncodeElems(codec, t, es) == Join(Ok(written), EncodeElems(codec, t, es[i..]))
      {
        ghost var spec := EncodeInner(codec, t, es[i], true, codec.hops);
        ElemsFrom(codec, t, es, i);
        JoinStep(written, spec, EncodeElems(codec, t, es[i + 1..]));
        codingPath := codingPath + [PathEntry(Index(i), t)];
        r := WriteInner(es[i], t, true, codec.hops);
        if r.Err? {
          return;
        }
        codingPath := codingPath[..|codingPath| - 1];
        ConcatAssociates(old(encoder.Contents()), written, spec.value);
        written := written + spec.value;
      }
      assert written + [] == written;
      r := Ok(());
    }

    method WriteInner(v: Value, t: nat, exists_: bool, fuel: nat) returns (r: Result<()>)
      requires Valid() && t in codec.types
      modifies `codingPath, encoder, encoder.buffer
      ensures Valid() && (encoder.buffer == old(encoder.buffer) || fresh(encoder.buffer))
      ensures Wrote(EncodeInner(codec, t, v, exists_, fuel), r,
                    old(encoder.Contents()), encoder.Contents(), old(codingPath), codingPath)
      decreases if v.Null? then 0 else 1, v, fuel, 1, 1
    {
      var ty := codec.types[t];
      if IsAlias(codec, t) {
        if fuel == 0 {
          return Err(StackOverflow);
        }
        r := EncodeAny(v, ty.shape.ref, fuel - 1);
        return;
      }
      if !exists_ {
        return if ty.isExtension then Ok(()) else Err(UnexpectedNull);
      }
      if ty.name in codec.lookup {
        r := WriteLeaf(codec.lookup[ty.name], v, encoder);
        return;
      }
      match ty.shape
      case Struct(_, _) =>
        r := WriteStruct(v, t);
      case Enum(underlying, values) =>
        r := WriteEnum(v, underlying, values);
      case Variant(cases) =>
        if !v.Tagged? {
          return Err(UnknownVariant);
        }
        var k := CaseOf(codec.types, cases, v.tag, 0);
        if k.None? {
          return Err(UnknownVariant);
        }
        encoder.WriteVaruint32(k.value);
        codingPath := codingPath + [PathEntry(Index(k.value), cases[k.value])];
        r := EncodeAny(v.value, cases[k.value], codec.hops);
        if r.Ok? {
          codingPath := codingPath[..|codingPath| - 1];
        }
      case _ =>
        r := Err(UnknownType);
    }

    method WriteStruct(v: Value, t: nat) returns (r: Result<()>)
      requires Valid() && t in codec.types
      modifies `codingPath, encoder, encoder.buffer
      ensures Valid() && (encoder.buffer == old(encoder.buffer) || fresh(encoder.buffer))
      ensures Wrote(
                if !v.Obj? then Err(ExpectedObject)
                else if AllFields(codec.types, t).None? then Err(InvalidStruct)
                else EncodeFields(codec, AllFields(codec.types, t).value, v),
                r, old(encoder.Contents()), encoder.Contents(), old(codingPath), codingPath)
      decreases if v.Null? then 0 else 1, v, 0, 1, 0
    {
      if !v.Obj? {
        return Err(ExpectedObject);
      }
      var fields := CollectFields(codec.types, t);
      if fields.None? {
        return Err(InvalidStruct);
      }
      r := WriteFields(fields.value, v);
    }

    /** The loop over a struct's fields. */
    method WriteFields(fs: seq<Field>, v: Value) returns (r: Result<()>)
      requires Valid() && v.Obj? && forall i :: 0 <= i < |fs| ==> fs[i].typ in codec.types
      modifies `codingPath, encoder, encoder.buffer
      ensures Valid() && (encoder.buffer == old(encoder.buffer) || fresh(encoder.buffer))
      ensures Wrote(EncodeFields(codec, fs, v), r,
                    old(encoder.Contents()), encoder.Contents(), old(codingPath), codingPath)
      decreases 1, v, 0, 0, 0
    {
      ghost var written: bytes := [];
      assert fs[0..] == fs;
      FieldsFrom(codec, fs, v, |fs|);
      JoinStart(EncodeFields(codec, fs, v));
      hide EncodeFields, Encode;
      for i := 0 to |fs|
        invariant Valid() && (encoder.buffer == old(encoder.buffer) || fresh(encoder.buffer))
        invariant codingPath == old(codingPath) && encoder.Contents() == old(encoder.Contents()) + written
        invariant EncodeFields(codec, fs, v) == Join(Ok(written), EncodeFields(codec, fs[i..], v))
      {
        var field := fs[i];
        ghost var spec := Encode(codec, field.typ, Property(v, field.name), codec.hops);
        FieldsFrom(codec, fs, v, i);
        JoinStep(written, spec, EncodeFields(codec, fs[i + 1..], v));
        codingPath := codingPath + [PathEntry(Named(field.name), field.typ)];
        r := EncodeAny(Property(v, field.name), field.typ, codec.hops);
        if r.Err? {
          return;
        }
        codingPath := codingPath[..|codingPath| - 1];
        ConcatAssociates(old(encoder.Contents()), written, spec.value);
        written := written + spec.value;
      }
      assert written + [] == written;
      r := Ok(());
    }

    method WriteEnum(v: Value, underlying: Text, values: seq<EnumValue>) returns (r: Result<()>)
      requires Valid()
      modifies encoder, encoder.buffer
      ensures Valid() && (encoder.buffer == old(encoder.buffer) || fresh(encoder.buffer))
      ensures Wrote(EncodeEnum(codec, underlying, values, v), r,
                    old(encoder.Contents()), encoder.Contents(), codingPath, codingPath)
    {
      var n: int;
      if v.Blob? {
        var found := ValueOf(values, v.data);
        if found.None? {
          return Err(UnknownEnumValue);
        }
        n := found.value;
      } else if v.Num? {
        n := v.n;
      } else {
        return Err(WrongLeaf);
      }
      if !(-SAFE < n < SAFE) {
        return Err(UnsafeNumber);
      }
      if underlying !in codec.lookup || !codec.lookup[underlying].IntType? {
        return Err(UnknownType);
      }
      r := WriteLeaf(codec.lookup[underlying], Num(n), encoder);
    }
  }

  /** After a decoding step: it did what `spec` says, and left the path as in `Wrote`. */
  ghost predicate Read<T>(spec: Parsed<T>, r: Result<T>, rest: bytes, path: Path, path': Path)
  {
    Follows(spec, r, rest) && (if r.Ok? then path' == path else path <= path')
  }

  class DecodingContext {
    const codec: Codec
    const decoder: ABIDecoder
    var codingPath: Path

    constructor (codec: Codec, decoder: ABIDecoder, root: nat)
      ensures this.codec == codec && this.decoder == decoder
      ensures codingPath == [PathEntry(Named([]), root)]
    {
      this.codec, this.decoder := codec, decoder;
      codingPath := [PathEntry(Named([]), root)];
    }

    ghost predicate Valid()
      reads this, decoder
    {
      Closed(codec.types) && decoder.Valid()
    }

    method DecodeBinary(t: nat) returns (r: Result<Value>)
      requires Valid() && t in codec.types && |codingPath| <= MAX_DEPTH + 2
      modifies `codingPath, decoder`pos
      ensures Valid() && old(decoder.pos) <= decoder.pos
      ensures Read(Decode(codec, t, old(decoder.Rest()), |old(codingPath)|), r, decoder.Rest(),
                   old(codingPath), codingPath)
      decreases MAX_DEPTH + 2 - |codingPath|, 4, 0
    {
      var ty := codec.types[t];
      if |codingPath| > MAX_DEPTH {
        return Err(DepthExceeded);
      }
      if ty.isExtension && !decoder.CanRead(1) {
        return Ok(Null);
      }
      if ty.isOptional {
        var flag := decoder.ReadByte();
        if flag.Err? {
          return Err(flag.error);
        }
        if flag.value == 0 {
          return Ok(Null);
        }
      }
      if ty.isArray {
        r := ReadElements(t);
      } else {
        r := ReadInner(t);
      }
    }

    method ReadElements(t: nat) returns (r: Result<Value>)
      requires Valid() && t in codec.types && |codingPath| <= MAX_DEPTH && codec.types[t].isArray
      modifies `codingPath, decoder`pos
      ensures Valid() && old(decoder.pos) <= decoder.pos
      ensures Read(DecodeBody(codec, t, old(decoder.Rest()), |old(codingPath)|), r, decoder.Rest(),
                   old(codingPath), codingPath)
      decreases MAX_DEPTH + 2 - |codingPath|, 3, 0
    {
      var len := decoder.ReadVaruint32();
      if len.Err? {
        return Err(len.error);
      }
      var elems := ReadEach(t, len.value);
      r := if elems.Ok? then Ok(Arr(elems.value)) else Err(elems.error);
    }

    /** The loop over an array's elements. */
    method ReadEach(t: nat, len: nat) returns (r: Result<seq<Value>>)
      requires Valid() && t in codec.types && |codingPath| <= MAX_DEPTH
      modifies `codingPath, decoder`pos
      ensures Valid() && old(decoder.pos) <= decoder.pos
      ensures Read(DecodeElems(codec, t, old(decoder.Rest()), len, |old(codingPath)|), r, decoder.Rest(),
                   old(codingPath), codingPath)
      decreases MAX_DEPTH + 2 - |codingPath|, 2, 0
    {
      ghost var depth, start := |codingPath|, decoder.Rest();
      var rv: seq<Value> := [];
      PrependStart(DecodeElems(codec, t, start, len, depth));
      hide DecodeInner, DecodeElems;
      for i := 0 to len
        invariant Valid() && old(decoder.pos) <= decoder.pos && codingPath == old(codingPath)
        invariant DecodeElems(codec, t, start, len, depth)
                  == Prepend(rv, DecodeElems(codec, t, decoder.Rest(), len - i, depth))
      {
        var startPosition := decoder.pos;
        DecodeElemsStep(codec, t, decoder.Rest(), len - i, depth);
        codingPath := codingPath + [PathEntry(Index(i), t)];
        var value := ReadInner(t);
        if value.Err? {
          return Err(value.error);
        }
        if decoder.pos == startPosition {
          return Err(ZeroWidthElement);
        }
        PrependStep(rv, value.value, DecodeElems(codec, t, decoder.Rest(), len - i - 1, depth));
        rv := rv + [value.value];
        codingPath := codingPath[..|codingPath| - 1];
      }
      DecodeElemsStep(codec, t, decoder.Rest(), 0, depth);
      assert rv + [] == rv;
      r := Ok(rv);
    }

    method ReadInner(t: nat) returns (r: Result<Value>)
      requires Valid() && t in codec.types && |codingPath| <= MAX_DEPTH + 1
      modifies `codingPath, decoder`pos
      ensures Valid() && old(decoder.pos) <= decoder.pos
      ensures Read(DecodeInner(codec, t, old(decoder.Rest()), |old(codingPath)|), r, decoder.Rest(),
                   old(codingPath), codingPath)
      decreases MAX_DEPTH + 2 - |codingPath|, 1, 0
    {
      var ty := codec.types[t];
      if ty.name in codec.lookup {
        r := ReadLeaf(codec.lookup[ty.name], decoder);
        return;
      }
      match ty.shape
      case Alias(ref) =>
        codingPath := codingPath + [PathEntry(Named([]), ref)];
        r := DecodeBinary(ref);
        if r.Ok? {
          codingPath := codingPath[..|codingPath| - 1];
        }
      case Struct(_, _) =>
        r := ReadStruct(t);
      case Enum(underlying, values) =>
        r := ReadEnum(underlying, values);
      case Variant(cases) =>
        var vIdx := decoder.ReadVaruint32();
        if vIdx.Err? {
          return Err(vIdx.error);
        }
        if vIdx.value >= |cases| {
          return Err(UnknownVariant);
        }
        var vType := cases[vIdx.value];
        codingPath := codingPath + [PathEntry(Index(vIdx.value), vType)];
        r := DecodeBinary(vType);
        if r.Ok? {
          codingPath := codingPath[..|codingPath| - 1];
          r := Ok(Tagged(codec.types[vType].TypeName(), r.value));
        }
      case Bare =>
        r := Err(UnknownType);
    }

    method ReadStruct(t: nat) returns (r: Result<Value>)
      requires Valid() && t in codec.types && |codingPath| <= MAX_DEPTH + 1
      requires codec.types[t].name !in codec.lookup && codec.types[t].shape.Struct?
      modifies `codingPath, decoder`pos
      ensures Valid() && old(decoder.pos) <= decoder.pos
      ensures Read(DecodeInner(codec, t, old(decoder.Rest()), |old(codingPath)|), r, decoder.Rest(),
                   old(codingPath), codingPath)
      decreases MAX_DEPTH + 2 - |codingPath|, 0, 0
    {
      var fields := CollectFields(codec.types, t);
      if fields.None? {
        return Err(InvalidStruct);
      }
      var fs := fields.value;
      ghost var depth, start := |codingPath|, decoder.Rest();
      var rv: map<Text, Value> := map[];
      for i := 0 to |fs|
        invariant Valid() && old(decoder.pos) <= decoder.pos && codingPath == old(codingPath)
        invariant DecodeFields(codec, fs, start, map[], depth)
                  == DecodeFields(codec, fs[i..], decoder.Rest(), rv, depth)
      {
        codingPath := codingPath + [PathEntry(Named(fs[i].name), fs[i].typ)];
        assert fs[i..][0] == fs[i] && fs[i..][1..] == fs[i + 1..];
        var value := DecodeBinary(fs[i].typ);
        if value.Err? {
          return Err(value.error);
        }
        rv := rv[fs[i].name := value.value];
        codingPath := codingPath[..|codingPath| - 1];
      }
      assert fs[|fs|..] == [];
      r := Ok(Obj(rv));
    }

    method ReadEnum(underlying: Text, values: seq<EnumValue>) returns (r: Result<Value>)
      requires Valid()
      modifies decoder`pos
      ensures Valid() && old(decoder.pos) <= decoder.pos
      ensures Follows(DecodeEnum(codec, underlying, values, old(decoder.Rest()), |codingPath|), r, decoder.Rest())
    {
      if |codingPath| > MAX_DEPTH {
        return Err(DepthExceeded);
      }
      if underlying !in codec.lookup || !codec.lookup[underlying].IntType? {
        return Err(UnknownType);
      }
      var intValue := ReadLeaf(codec.lookup[underlying], decoder);
      if intValue.Err? {
        return intValue;
      }
      if !(-SAFE < intValue.value.n < SAFE) {
        return Err(UnsafeNumber);
      }
      var name := NameOf(values, intValue.value.n);
      r := Ok(if name.Some? then Blob(name.value) else intValue.value);
    }
  }

  lemma ElemsFrom(c: Codec, t: nat, es: seq<Value>, i: nat)
    requires Closed(c.types) && t in c.types && i <= |es|
    ensures EncodeElems(c, t, es[i..])
            == if i == |es| then Ok([])
               else Join(EncodeInner(c, t, es[i], true, c.hops), EncodeElems(c, t, es[i + 1..]))
  {
    if i < |es| {
      assert es[i..][0] == es[i] && es[i..][1..] == es[i + 1..];
    }
  }

  lemma FieldsFrom(c: Codec, fs: seq<Field>, v: Value, i: nat)
    requires Closed(c.types) && v.Obj? && i <= |fs|
    requires forall i :: 0 <= i < |fs| ==> fs[i].typ in c.types
    ensures EncodeFields(c, fs[i..], v)
            == if i == |fs| then Ok([])
               else Join(Encode(c, fs[i].typ, Property(v, fs[i].name), c.hops), EncodeFields(c, fs[i + 1..], v))
  {
    if i < |fs| {
      assert fs[i..][0] == fs[i] && fs[i..][1..] == fs[i + 1..];
    }
  }

  ghost function Prepend(rv: seq<Value>, p: Parsed<seq<Value>>): Parsed<seq<Value>> {
    match p
    case Done(tail, rest) => Done(rv + tail, rest)
    case Fail(e) => Fail(e)
  }

  lemma DecodeElemsStep(c: Codec, t: nat, s: bytes, n: nat, depth: nat)
    requires Closed(c.types) && t in c.types && depth <= MAX_DEPTH
    ensures DecodeElems(c, t, s, n, depth)
            == if n == 0 then Done([], s)
               else
                 var head := DecodeInner(c, t, s, depth + 1);
                 if head.Fail? then Fail(head.error)
                 else if |head.rest| == |s| then Fail(ZeroWidthElement)
                 else Prepend([head.value], DecodeElems(c, t, head.rest, n - 1, depth))
  {
  }

  lemma PrependStart(p: Parsed<seq<Value>>)
    ensures Prepend([], p) == p
  {
    assert p.Done? ==> [] + p.value == p.value;
  }

  lemma PrependStep(rv: seq<Value>, v: Value, p: Parsed<seq<Value>>)
    ensures Prepend(rv, Prepend([v], p)) == Prepend(rv + [v], p)
  {
    assert p.Done? ==> rv + ([v] + p.value) == rv + [v] + p.value;
  }
}
