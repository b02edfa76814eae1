/**
 What `encodeAny` (serializer/Encoder.ts) writes and `decodeBinary` (serializer/Decoder.ts)
 reads, as functions on byte sequences.
 */
module Serializer {
  import opened Bytes
  import opened Varint
  import opened Types
  import opened Leaf

  /**
   The resolved types, the builtin classes by name, and how many alias links the JavaScript
   stack can follow on one value: a circular alias overflows it.
   */
  datatype Codec = Codec(types: Graph, lookup: map<Text, LeafType>, hops: nat)

  /** Longest coding path `decodeBinary` accepts. */
  const MAX_DEPTH: nat := 32

  function Join(a: Result<bytes>, b: Result<bytes>): Result<bytes> {
    if a.Err? then a else if b.Err? then b else Ok(a.value + b.value)
  }

  lemma JoinStart(x: Result<bytes>)
    ensures Join(Ok([]), x) == x
  {
    assert x.Ok? ==> [] + x.value == x.value;
  }

  lemma JoinStep(a: bytes, x: Result<bytes>, y: Result<bytes>)
    ensures Join(Ok(a), Join(x, y)) == if x.Err? then x else Join(Ok(a + x.value), y)
  {
    if x.Ok? && y.Ok? {
      assert a + (x.value + y.value) == a + x.value + y.value;
    }
  }

  /** `values.find(v => v.name === name)`. */
  function ValueOf(values: seq<EnumValue>, name: Text): Option<int> {
    if values == [] then None
    else if values[0].name == name then Some(values[0].value)
    else ValueOf(values[1..], name)
  }

  /** `values.find(v => v.value === n)`. */
  function NameOf(values: seq<EnumValue>, n: int): Option<Text> {
    if values == [] then None
    else if values[0].value == n then Some(values[0].name)
    else NameOf(values[1..], n)
  }

  /** `variant.findIndex(t => t.typeName === tag)` from index `i` on. */
  function CaseOf(g: Graph, cases: seq<nat>, tag: Text, i: nat): (k: Option<nat>)
    requires i <= |cases| && forall j :: 0 <= j < |cases| ==> cases[j] in g
    ensures k.Some? ==> i <= k.value < |cases| && g[cases[k.value]].TypeName() == tag
    ensures k.Some? ==> forall j :: i <= j < k.value ==> g[cases[j]].TypeName() != tag
    ensures k.None? ==> forall j :: i <= j < |cases| ==> g[cases[j]].TypeName() != tag
    decreases |cases| - i
  {
    if i == |cases| then None
    else if g[cases[i]].TypeName() == tag then Some(i)
    else CaseOf(g, cases, tag, i + 1)
  }

  predicate IsAlias(c: Codec, t: nat)
    requires t in c.types
  {
    c.types[t].shape.Alias? && c.types[t].name !in c.lookup
  }

  // ---- Encoding ----

  function Encode(c: Codec, t: nat, v: Value, fuel: nat): (r: Result<bytes>)
    requires Closed(c.types) && t in c.types
    decreases if v.Null? then 0 else 1, v, fuel, 3, 0
  {
    var ty := c.types[t];
    if !ty.isOptional then EncodeBody(c, t, v, fuel)
    else if v.Null? then Ok([0])
    else Join(Ok([1]), EncodeBody(c, t, v, fuel))
  }

  function EncodeBody(c: Codec, t: nat, v: Value, fuel: nat): (r: Result<bytes>)
    requires Closed(c.types) && t in c.types
    decreases if v.Null? then 0 else 1, v, fuel, 2, 0
  {
    if !c.types[t].isArray then EncodeInner(c, t, v, !v.Null?, fuel)
    else if !v.Arr? then Err(ExpectedArray)
    else Join(Ok(Varuint(ToUint32(|v.elems|))), EncodeElems(c, t, v.elems))
  }

  function EncodeElems(c: Codec, t: nat, es: seq<Value>): (r: Result<bytes>)
    requires Closed(c.types) && t in c.types
    decreases 1, es, 0, 0, 0
  {
    if es == [] then Ok([])
    else Join(EncodeInner(c, t, es[0], true, c.hops), EncodeElems(c, t, es[1..]))
  }

  /** `exists_` tells whether the value given to `encodeAny` was there: for an element, the array. */
  function EncodeInner(c: Codec, t: nat, v: Value, exists_: bool, fuel: nat): (r: Result<bytes>)
    requires Closed(c.types) && t in c.types
    decreases if v.Null? then 0 else 1, v, fuel, 1, 0
  {
    var ty := c.types[t];
    if IsAlias(c, t) then
      if fuel == 0 then Err(StackOverflow) else Encode(c, ty.shape.ref, v, fuel - 1)
    else if !exists_ then
      if ty.isExtension then Ok([]) else Err(UnexpectedNull)
    else if ty.name in c.lookup then EncodeLeaf(c.lookup[ty.name], v)
    else
      match ty.shape
      case Struct(_, _) =>
        if !v.Obj? then Err(ExpectedObject)
        else
          var fields := AllFields(c.types, t);
          if fields.None? then Err(InvalidStruct) else EncodeFields(c, fields.value, v)
      case Enum(underlying, values) => EncodeEnum(c, underlying, values, v)
      case Variant(cases) =>
        if !v.Tagged? then Err(UnknownVariant)
        else
          var k := CaseOf(c.types, cases, v.tag, 0);
          if k.None? then Err(UnknownVariant)
          else Join(Ok(Varuint(ToUint32(k.value))), Encode(c, cases[k.value], v.value, c.hops))
      case _ => Err(UnknownType)
  }

  function EncodeFields(c: Codec, fs: seq<Field>, v: Value): (r: Result<bytes>)
    requires Closed(c.types) && v.Obj? && forall i :: 0 <= i < |fs| ==> fs[i].typ in c.types
    decreases 1, v, 0, 0, |fs|
  {
    if fs == [] then Ok([])
    else Join(Encode(c, fs[0].typ, Property(v, fs[0].name), c.hops), EncodeFields(c, fs[1..], v))
  }

  function EncodeEnum(c: Codec, underlying: Text, values: seq<EnumValue>, v: Value): (r: Result<bytes>)
  {
    if v.Blob? then
      var n := ValueOf(values, v.data);
      if n.None? then Err(UnknownEnumValue) else EncodeNumber(c, underlying, n.value)
    else if v.Num? then EncodeNumber(c, underlying, v.n)
    else Err(WrongLeaf)
  }

  /** A JavaScript number written as the enum's integer type. */
  function EncodeNumber(c: Codec, underlying: Text, n: int): (r: Result<bytes>)
  {
    if !(-SAFE < n < SAFE) then Err(UnsafeNumber)
    else if underlying !in c.lookup || !c.lookup[underlying].IntType? then Err(UnknownType)
    else EncodeLeaf(c.lookup[underlying], Num(n))
  }

  // ---- Decoding ----

  /** `depth` is the length of the coding path. */
  function Decode(c: Codec, t: nat, s: bytes, depth: nat): (p: Parsed<Value>)
    requires Closed(c.types) && t in c.types && depth <= MAX_DEPTH + 2
    decreases MAX_DEPTH + 2 - depth, 4, 0
  {
    var ty := c.types[t];
    if depth > MAX_DEPTH then Fail(DepthExceeded)
    else if ty.isExtension && s == [] then Done(Null, s)
    else if !ty.isOptional then DecodeBody(c, t, s, depth)
    else if s == [] then Fail(PastEnd)
    else if s[0] == 0 then Done(Null, s[1..])
    else DecodeBody(c, t, s[1..], depth)
  }

  function DecodeBody(c: Codec, t: nat, s: bytes, depth: nat): (p: Parsed<Value>)
    requires Closed(c.types) && t in c.types && depth <= MAX_DEPTH
    decreases MAX_DEPTH + 2 - depth, 3, 0
  {
    if !c.types[t].isArray then DecodeInner(c, t, s, depth)
    else
      var n := ReadVaruint(s);
      if n.Fail? then Fail(n.error)
      else
        var elems := DecodeElems(c, t, n.rest, n.value, depth);
        if elems.Fail? then Fail(elems.error) else Done(Arr(elems.value), elems.rest)
  }

  function DecodeElems(c: Codec, t: nat, s: bytes, n: nat, depth: nat): (p: Parsed<seq<Value>>)
    requires Closed(c.types) && t in c.types && depth <= MAX_DEPTH
    ensures p.Done? ==> |p.value| == n
    decreases MAX_DEPTH + 2 - depth, 2, n
  {
    if n == 0 then Done([], s)
    else
      var head := DecodeInner(c, t, s, depth + 1);
      if head.Fail? then Fail(head.error)
      else if |head.rest| == |s| then Fail(ZeroWidthElement)
      else
        var tail := DecodeElems(c, t, head.rest, n - 1, depth);
        if tail.Fail? then tail else Done([head.value] + tail.value, tail.rest)
  }

  function DecodeInner(c: Codec, t: nat, s: bytes, depth: nat): (p: Parsed<Value>)
    requires Closed(c.types) && t in c.types && depth <= MAX_DEPTH + 1
    ensures p.Done? && p.value.Null? ==> IsAlias(c, t)
    decreases MAX_DEPTH + 2 - depth, 1, 0
  {
    var ty := c.types[t];
    if ty.name in c.lookup then DecodeLeaf(c.lookup[ty.name], s)
    else
      match ty.shape
      case Alias(ref) => Decode(c, ref, s, depth + 1)
      case Struct(_, _) =>
        var fields := AllFields(c.types, t);
        if fields.None? then Fail(InvalidStruct)
        else
          var obj := DecodeFields(c, fields.value, s, map[], depth);
          if obj.Fail? then Fail(obj.error) else Done(Obj(obj.value), obj.rest)
      case Enum(underlying, values) => DecodeEnum(c, underlying, values, s, depth)
      case Variant(cases) =>
        var k := ReadVaruint(s);
        if k.Fail? then Fail(k.error)
        else if k.value >= |cases| then Fail(UnknownVariant)
        else
          var v := Decode(c, cases[k.value], k.rest, depth + 1);
          if v.Fail? then v else Done(Tagged(c.types[cases[k.value]].TypeName(), v.value), v.rest)
      case Bare => Fail(UnknownType)
  }

  /** `obj` holds the fields read so far; a repeated name is overwritten. */
  function DecodeFields(c: Codec, fs: seq<Field>, s: bytes, obj: map<Text, Value>, depth: nat)
    : (p: Parsed<map<Text, Value>>)
    requires Closed(c.types) && forall i :: 0 <= i < |fs| ==> fs[i].typ in c.types
    requires depth <= MAX_DEPTH + 1
    decreases MAX_DEPTH + 2 - depth, 0, |fs|
  {
    if fs == [] then Done(obj, s)
    else
      var v := Decode(c, fs[0].typ, s, depth + 1);
      if v.Fail? then Fail(v.error)
      else DecodeFields(c, fs[1..], v.rest, obj[fs[0].name := v.value], depth)
  }

  /** The integer type of an enum is decoded at the same path length, but checks it again. */
  function DecodeEnum(c: Codec, underlying: Text, values: seq<EnumValue>, s: bytes, depth: nat): (p: Parsed<Value>)
  {
    if depth > MAX_DEPTH then Fail(DepthExceeded)
    else if underlying !in c.lookup || !c.lookup[underlying].IntType? then Fail(UnknownType)
    else
      var n := DecodeLeaf(c.lookup[underlying], s);
      if n.Fail? then n
      else if !(-SAFE < n.value.n < SAFE) then Fail(UnsafeNumber)
      else
        var name := NameOf(values, n.value.n);
        Done(if name.Some? then Blob(name.value) else n.value, n.rest)
  }
}
