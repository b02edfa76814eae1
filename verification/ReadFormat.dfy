/** What input stands for which value as a relation, against which the decoder is held (Decoder.ts). */
module ReadFormat {
  import opened Bytes
  import opened Varint
  import opened Types
  import opened Decoder
  import opened Leaf
  import opened Serializer

  // ---- Leaves ----

  /** Groups of seven bits up to the first byte without its flag, or five of them, of which 32 bits count. */
  predicate VaruintEnds(s: bytes, n: nat) {
    1 <= n <= 5 && n <= |s| && Continued(s[..n]) && (s[n - 1] < 128 || n == 5)
  }

  ghost predicate VaruintRead(s: bytes, u: nat, rest: bytes) {
    exists n: nat :: VaruintEnds(s, n) && u == Groups(s[..n]) % 0x1_0000_0000 && rest == s[n..]
  }

  /** Any byte but zero is true; the bits of a number past its sign are its own; a text is as long as it says. */
  ghost predicate LeafRead(lt: LeafType, s: bytes, v: Value, rest: bytes) {
    match lt
    case BoolType => |s| >= 1 && v == Bool(s[0] != 0) && rest == s[1..]
    case IntType(width, signed) =>
      && |s| >= width && rest == s[width..] && v.Num?
      && (if signed then 0 - Pow256(width) <= 2 * v.n < Pow256(width) else v.n >= 0)
      && FromLe(s[..width]) == if v.n < 0 then v.n + Pow256(width) else v.n
    case VarUIntType => v.Num? && v.n >= 0 && VaruintRead(s, v.n, rest)
    case VarIntType => v.Num? && VaruintRead(s, if v.n >= 0 then 2 * v.n else -2 * v.n - 1, rest)
    case TextType => v.Blob? && VaruintRead(s, |v.data|, v.data + rest)
    case FixedType(size) => v.Blob? && |v.data| == size && s == v.data + rest
  }

  lemma {:induction false} EndOf(s: bytes, k: nat) returns (n: nat)
    requires k < 5 && ReadVaruintAt(s, k).Done?
    ensures 1 <= n && k + n <= 5 && n <= |s| && Continued(s[..n]) && (s[n - 1] < 128 || k + n == 5)
    decreases 5 - k
  {
    n := 1;
    if s[0] >= 128 && k < 4 {
      var m := EndOf(s[1..], k + 1);
      n := m + 1;
      forall i | 0 <= i < n - 1 ensures s[..n][i] >= 128 {
        assert i > 0 ==> s[i] == s[1..][..m][i - 1];
      }
    }
  }

  lemma VaruintIsRead(s: bytes, u: nat, rest: bytes)
    ensures ReadVaruint(s) == Done(u, rest) <==> VaruintRead(s, u, rest)
  {
    if ReadVaruint(s).Done? {
      var n := EndOf(s, 0);
      ReadVaruintSpelled(s, n);
      assert VaruintEnds(s, n);
    }
    forall n: nat | VaruintEnds(s, n) ensures ReadVaruint(s) == Done(Groups(s[..n]) % 0x1_0000_0000, s[n..]) {
      ReadVaruintSpelled(s, n);
    }
  }

  lemma LeafIsRead(lt: LeafType, s: bytes, v: Value, rest: bytes)
    ensures DecodeLeaf(lt, s) == Done(v, rest) <==> LeafRead(lt, s, v, rest)
  {
    hide ReadVaruintAt, VaruintRead, FromLe, Pow256;
    match lt
    case BoolType =>
    case IntType(width, signed) =>
      if |s| >= width && v.Num? {
        IntIsRead(s[..width], v.n, width, signed);
      }
    case VarUIntType =>
      if v.Num? && v.n >= 0 {
        VaruintIsRead(s, v.n, rest);
      }
    case VarIntType =>
      if v.Num? {
        ZigZagIsRead(s, v.n, rest);
      }
    case TextType =>
      if v.Blob? {
        VaruintIsRead(s, |v.data|, v.data + rest);
        TextIsRead(s, v.data, rest);
      }
    case FixedType(size) =>
      if v.Blob? && |v.data| == size {
        assert s == v.data + rest ==> s[..size] == v.data && s[size..] == rest;
      }
  }

  lemma IntIsRead(bs: bytes, n: int, width: nat, signed: bool)
    requires |bs| == width
    ensures FromTwos(FromLe(bs), width, signed) == n
            <==> (if signed then 0 - Pow256(width) <= 2 * n < Pow256(width) else n >= 0)
                 && FromLe(bs) == if n < 0 then n + Pow256(width) else n
  {
    hide FromLe, Pow256;
  }

  lemma ZigZagIsRead(s: bytes, n: int, rest: bytes)
    ensures DecodeLeaf(VarIntType, s) == Done(Num(n), rest)
            <==> VaruintRead(s, if n >= 0 then 2 * n else -2 * n - 1, rest)
  {
    hide ReadVaruintAt, VaruintRead;
    var u := if n >= 0 then 2 * n else -2 * n - 1;
    VaruintIsRead(s, u, rest);
  }

  lemma TextIsRead(s: bytes, data: bytes, rest: bytes)
    ensures ReadText(s) == Done(data, rest) <==> ReadVaruint(s) == Done(|data|, data + rest)
  {
    hide ReadVaruintAt;
    var p := ReadVaruint(s);
    if p == Done(|data|, data + rest) {
      assert (data + rest)[..|data|] == data && (data + rest)[|data|..] == rest;
    }
  }

  // ---- Values ----

  /** A coding path of at most 32; nothing for an extension at the end of the input; a presence byte. */
  ghost predicate ReadAs(c: Codec, t: nat, s: bytes, v: Value, rest: bytes, depth: nat)
    requires Closed(c.types) && t in c.types && depth <= MAX_DEPTH + 2
    decreases MAX_DEPTH + 2 - depth, 4
  {
    var ty := c.types[t];
    && depth <= 32
    && if ty.isExtension && s == [] then v == Null && rest == []
       else if !ty.isOptional then BodyRead(c, t, s, v, rest, depth)
       else |s| >= 1 && if s[0] == 0 then v == Null && rest == s[1..] else BodyRead(c, t, s[1..], v, rest, depth)
  }

  /** As many elements as the count says, each taking some input. */
  ghost predicate BodyRead(c: Codec, t: nat, s: bytes, v: Value, rest: bytes, depth: nat)
    requires Closed(c.types) && t in c.types && depth <= MAX_DEPTH
    decreases MAX_DEPTH + 2 - depth, 3
  {
    if !c.types[t].isArray then InnerRead(c, t, s, v, rest, depth)
    else
      v.Arr? && exists cuts: seq<bytes> ::
        |cuts| == |v.elems| + 1 && VaruintRead(s, |v.elems|, cuts[0]) && ElemsRead(c, t, v.elems, cuts, rest, depth)
  }

  /** From each of the points in `cuts` to the next, the last of them `rest`. */
  ghost predicate ElemsRead(c: Codec, t: nat, es: seq<Value>, cuts: seq<bytes>, rest: bytes, depth: nat)
    requires Closed(c.types) && t in c.types && depth <= MAX_DEPTH && |cuts| == |es| + 1
    decreases MAX_DEPTH + 2 - depth, 2
  {
    && cuts[|es|] == rest
    && forall i :: 0 <= i < |es| ==>
         InnerRead(c, t, cuts[i], es[i], cuts[i + 1], depth + 1) && |cuts[i + 1]| != |cuts[i]|
  }

  ghost predicate InnerRead(c: Codec, t: nat, s: bytes, v: Value, rest: bytes, depth: nat)
    requires Closed(c.types) && t in c.types && depth <= MAX_DEPTH + 1
    decreases MAX_DEPTH + 2 - depth, 1
  {
    var ty := c.types[t];
    if ty.name in c.lookup then LeafRead(c.lookup[ty.name], s, v, rest)
    else
      match ty.shape
      case Alias(ref) => ReadAs(c, ref, s, v, rest, depth + 1)
      case Struct(_, _) =>
        && v.Obj? && AllFields(c.types, t).Some?
        && StructRead(c, AllFields(c.types, t).value, s, v, rest, depth)
      case Enum(underlying, values) =>
        && depth <= 32 && underlying in c.lookup && c.lookup[underlying].IntType?
        && exists n: int ::
             -SAFE < n < SAFE && LeafRead(c.lookup[underlying], s, Num(n), rest) && NamesNumber(values, n, v)
      case Variant(cases) =>
        v.Tagged? && exists k: nat, start: bytes ::
          && VaruintRead(s, k, start) && k < |cases| && v.tag == c.types[cases[k]].TypeName()
          && ReadAs(c, cases[k], start, v.value, rest, depth + 1)
      case Bare => false
  }

  /** The fields one after the other; of two with one name the later value stays. */
  ghost predicate StructRead(c: Codec, fs: seq<Field>, s: bytes, v: Value, rest: bytes, depth: nat)
    requires Closed(c.types) && depth <= MAX_DEPTH + 1 && v.Obj?
    requires forall i :: 0 <= i < |fs| ==> fs[i].typ in c.types
    decreases MAX_DEPTH + 2 - depth, 0, 1
  {
    exists cuts: seq<bytes>, values: seq<Value> ::
      |cuts| == |fs| + 1 && |values| == |fs| && cuts[0] == s && FieldsRead(c, fs, cuts, values, rest, depth)
      && Holds(v.fields, fs, values)
  }

  ghost predicate FieldsRead(c: Codec, fs: seq<Field>, cuts: seq<bytes>, values: seq<Value>, rest: bytes, depth: nat)
    requires Closed(c.types) && depth <= MAX_DEPTH + 1 && |cuts| == |fs| + 1 && |values| == |fs|
    requires forall i :: 0 <= i < |fs| ==> fs[i].typ in c.types
    decreases MAX_DEPTH + 2 - depth, 0, 0
  {
    cuts[|fs|] == rest
    && forall i :: 0 <= i < |fs| ==> ReadAs(c, fs[i].typ, cuts[i], values[i], cuts[i + 1], depth + 1)
  }

  ghost predicate Holds(obj: map<Text, Value>, fs: seq<Field>, values: seq<Value>)
    requires |values| == |fs|
  {
    && (forall k :: k in obj ==> exists i :: 0 <= i < |fs| && fs[i].name == k)
    && (forall i :: 0 <= i < |fs| ==> fs[i].name in obj)
    && forall i :: 0 <= i < |fs| && (forall j :: i < j < |fs| ==> fs[j].name != fs[i].name)
                   ==> obj[fs[i].name] == values[i]
  }

  /** The first name given to a number, or the number when it has none. */
  ghost predicate NamesNumber(values: seq<EnumValue>, n: int, v: Value) {
    || (v == Num(n) && forall i :: 0 <= i < |values| ==> values[i].value != n)
    || exists i :: 0 <= i < |values| && values[i].value == n && v == Blob(values[i].name)
                   && forall j :: 0 <= j < i ==> values[j].value != n
  }

  // ---- The decoder reads these and no others ----

  lemma {:induction false} FirstName(values: seq<EnumValue>, n: int)
    ensures match NameOf(values, n)
            case None => forall i :: 0 <= i < |values| ==> values[i].value != n
            case Some(name) =>
              exists i ::
                && 0 <= i < |values| && values[i] == EnumValue(name, n)
                && forall j :: 0 <= j < i ==> values[j].value != n
  {
    if values != [] && values[0].value != n {
      var rest := values[1..];
      FirstName(rest, n);
      if NameOf(rest, n).Some? {
        var i :| 0 <= i < |rest| && rest[i] == EnumValue(NameOf(rest, n).value, n)
                 && forall j :: 0 <= j < i ==> rest[j].value != n;
        assert values[i + 1] == rest[i] && forall j :: 0 < j < i + 1 ==> values[j] == rest[j - 1];
      } else {
        assert forall i :: 0 < i < |values| ==> values[i] == rest[i - 1];
      }
    }
  }

  lemma NamesIs(values: seq<EnumValue>, n: int, v: Value)
    ensures NamesNumber(values, n, v)
            <==> v == if NameOf(values, n).Some? then Blob(NameOf(values, n).value) else Num(n)
  {
    FirstName(values, n);
    if NameOf(values, n).Some? {
      var i :| 0 <= i < |values| && values[i] == EnumValue(NameOf(values, n).value, n)
               && forall j :: 0 <= j < i ==> values[j].value != n;
      assert forall k ::
          0 <= k < |values| && values[k].value == n && (forall j :: 0 <= j < k ==> values[j].value != n) ==> k == i;
    }
  }

  lemma {:induction false} EnumIsRead(
    c: Codec, underlying: Text, values: seq<EnumValue>, s: bytes, v: Value, rest: bytes, depth: nat)
    ensures DecodeEnum(c, underlying, values, s, depth) == Done(v, rest)
            <==> && depth <= 32 && underlying in c.lookup && c.lookup[underlying].IntType?
                 && exists n: int ::
                      -SAFE < n < SAFE && LeafRead(c.lookup[underlying], s, Num(n), rest) && NamesNumber(values, n, v)
  {
    hide LeafRead, DecodeLeaf, NamesNumber, NameOf;
    if underlying in c.lookup && c.lookup[underlying].IntType? {
      forall n: int
        ensures DecodeLeaf(c.lookup[underlying], s) == Done(Num(n), rest)
                <==> LeafRead(c.lookup[underlying], s, Num(n), rest)
      {
        LeafIsRead(c.lookup[underlying], s, Num(n), rest);
      }
      forall n: int
        ensures NamesNumber(values, n, v)
                <==> v == if NameOf(values, n).Some? then Blob(NameOf(values, n).value) else Num(n)
      {
        NamesIs(values, n, v);
      }
    }
  }

  /** What the decoder returns, on any input, is what the input stands for; it fails where that is nothing. */
  lemma {:induction false} DecodedIsRead(c: Codec, t: nat, s: bytes, v: Value, rest: bytes, depth: nat)
    requires Closed(c.types) && t in c.types && depth <= MAX_DEPTH + 2
    ensures Decode(c, t, s, depth) == Done(v, rest) <==> ReadAs(c, t, s, v, rest, depth)
    decreases MAX_DEPTH + 2 - depth, 4, 0
  {
    var ty := c.types[t];
    if depth <= MAX_DEPTH && !(ty.isExtension && s == []) && !(ty.isOptional && s == []) {
      BodyIsRead(c, t, if ty.isOptional then s[1..] else s, v, rest, depth);
    }
  }

  lemma {:induction false} BodyIsRead(c: Codec, t: nat, s: bytes, v: Value, rest: bytes, depth: nat)
    requires Closed(c.types) && t in c.types && depth <= MAX_DEPTH
    ensures DecodeBody(c, t, s, depth) == Done(v, rest) <==> BodyRead(c, t, s, v, rest, depth)
    decreases MAX_DEPTH + 2 - depth, 3, 0
  {
    hide ReadVaruintAt, VaruintRead, DecodeElems, ElemsRead;
    if !c.types[t].isArray {
      InnerIsRead(c, t, s, v, rest, depth);
    } else if v.Arr? {
      if DecodeBody(c, t, s, depth) == Done(v, rest) {
        var n := ReadVaruint(s);
        VaruintIsRead(s, n.value, n.rest);
        var cuts := ElemCuts(c, t, n.rest, n.value, depth);
        assert |cuts| == |v.elems| + 1 && VaruintRead(s, |v.elems|, cuts[0]);
      }
      forall cuts: seq<bytes> | |cuts| == |v.elems| + 1 && VaruintRead(s, |v.elems|, cuts[0])
                                && ElemsRead(c, t, v.elems, cuts, rest, depth)
        ensures DecodeBody(c, t, s, depth) == Done(v, rest)
      {
        VaruintIsRead(s, |v.elems|, cuts[0]);
        CutElems(c, t, v.elems, cuts, rest, depth);
      }
    }
  }

  lemma {:induction false} ElemCuts(c: Codec, t: nat, s: bytes, n: nat, depth: nat) returns (cuts: seq<bytes>)
    requires Closed(c.types) && t in c.types && depth <= MAX_DEPTH && DecodeElems(c, t, s, n, depth).Done?
    ensures var p := DecodeElems(c, t, s, n, depth);
            |cuts| == n + 1 && cuts[0] == s && ElemsRead(c, t, p.value, cuts, p.rest, depth)
    decreases MAX_DEPTH + 2 - depth, 2, n
  {
    hide DecodeInner, InnerRead;
    cuts := [s];
    if n > 0 {
      var head := DecodeInner(c, t, s, depth + 1);
      InnerIsRead(c, t, s, head.value, head.rest, depth + 1);
      var rest := ElemCuts(c, t, head.rest, n - 1, depth);
      var es, tail := DecodeElems(c, t, s, n, depth).value, DecodeElems(c, t, head.rest, n - 1, depth).value;
      cuts := [s] + rest;
      forall i | 0 <= i < n
        ensures InnerRead(c, t, cuts[i], es[i], cuts[i + 1], depth + 1) && |cuts[i + 1]| != |cuts[i]|
      {
        assert cuts[i + 1] == rest[i] && (i > 0 ==> cuts[i] == rest[i - 1] && es[i] == tail[i - 1]);
      }
    }
  }

  lemma {:induction false} CutElems(
    c: Codec, t: nat, es: seq<Value>, cuts: seq<bytes>, rest: bytes, depth: nat)
    requires Closed(c.types) && t in c.types && depth <= MAX_DEPTH && |cuts| == |es| + 1
    requires ElemsRead(c, t, es, cuts, rest, depth)
    ensures DecodeElems(c, t, cuts[0], |es|, depth) == Done(es, rest)
    decreases MAX_DEPTH + 2 - depth, 2, |es|
  {
    hide DecodeInner, InnerRead;
    if es != [] {
      assert InnerRead(c, t, cuts[0], es[0], cuts[0 + 1], depth + 1);
      InnerIsRead(c, t, cuts[0], es[0], cuts[1], depth + 1);
      var more := cuts[1..];
      forall i | 0 <= i < |es| - 1
        ensures InnerRead(c, t, more[i], es[1..][i], more[i + 1], depth + 1) && |more[i + 1]| != |more[i]|
      {
        assert more[i] == cuts[i + 1] && more[i + 1] == cuts[i + 1 + 1] && es[1..][i] == es[i + 1];
      }
      CutElems(c, t, es[1..], more, rest, depth);
      assert es == [es[0]] + es[1..];
    }
  }

  lemma {:induction false} InnerIsRead(c: Codec, t: nat, s: bytes, v: Value, rest: bytes, depth: nat)
    requires Closed(c.types) && t in c.types && depth <= MAX_DEPTH + 1
    ensures DecodeInner(c, t, s, depth) == Done(v, rest) <==> InnerRead(c, t, s, v, rest, depth)
    decreases MAX_DEPTH + 2 - depth, 1, 0
  {
    hide AllFields, StructRead, DecodeFields, DecodeLeaf, LeafRead, DecodeEnum, ReadVaruintAt, VaruintRead, NamesNumber;
    var ty := c.types[t];
    if ty.name in c.lookup {
      LeafIsRead(c.lookup[ty.name], s, v, rest);
    } else {
      match ty.shape
      case Alias(ref) => DecodedIsRead(c, ref, s, v, rest, depth + 1);
      case Struct(_, _) =>
        if v.Obj? && AllFields(c.types, t).Some? {
          StructIsRead(c, AllFields(c.types, t).value, s, v, rest, depth);
        }
      case Enum(underlying, values) => EnumIsRead(c, underlying, values, s, v, rest, depth);
      case Variant(cases) =>
        if v.Tagged? {
          VariantIsRead(c, t, cases, s, v, rest, depth);
        }
      case Bare =>
    }
  }

  lemma {:induction false} VariantIsRead(
    c: Codec, t: nat, cases: seq<nat>, s: bytes, v: Value, rest: bytes, depth: nat)
    requires Closed(c.types) && t in c.types && depth <= MAX_DEPTH + 1 && v.Tagged?
    requires c.types[t].name !in c.lookup && c.types[t].shape == Variant(cases)
    ensures DecodeInner(c, t, s, depth) == Done(v, rest)
            <==> exists k: nat, start: bytes ::
                   && VaruintRead(s, k, start) && k < |cases| && v.tag == c.types[cases[k]].TypeName()
                   && ReadAs(c, cases[k], start, v.value, rest, depth + 1)
    decreases MAX_DEPTH + 2 - depth, 0, 0
  {
    hide ReadVaruintAt, VaruintRead, Decode, ReadAs;
    var n := ReadVaruint(s);
    if DecodeInner(c, t, s, depth) == Done(v, rest) {
      VaruintIsRead(s, n.value, n.rest);
      DecodedIsRead(c, cases[n.value], n.rest, v.value, rest, depth + 1);
    }
    forall k: nat, start: bytes |
      && VaruintRead(s, k, start) && k < |cases| && v.tag == c.types[cases[k]].TypeName()
      && ReadAs(c, cases[k], start, v.value, rest, depth + 1)
      ensures DecodeInner(c, t, s, depth) == Done(v, rest)
    {
      VaruintIsRead(s, k, start);
      DecodedIsRead(c, cases[k], start, v.value, rest, depth + 1);
    }
  }

  // ---- Fields ----

  function Overlay(obj: map<Text, Value>, fs: seq<Field>, values: seq<Value>): map<Text, Value>
    requires |values| == |fs|
    decreases |fs|
  {
    if fs == [] then obj else Overlay(obj[fs[0].name := values[0]], fs[1..], values[1..])
  }

  lemma {:induction false} OverlayContents(obj: map<Text, Value>, fs: seq<Field>, values: seq<Value>)
    requires |values| == |fs|
    ensures var out := Overlay(obj, fs, values);
            && (forall k :: k in out ==> k in obj || exists i :: 0 <= i < |fs| && fs[i].name == k)
            && (forall i :: 0 <= i < |fs| ==> fs[i].name in out)
            && (forall k :: k in obj ==> k in out)
            && (forall k :: k in obj && (forall i :: 0 <= i < |fs| ==> fs[i].name != k) ==> out[k] == obj[k])
            && forall i :: 0 <= i < |fs| && (forall j :: i < j < |fs| ==> fs[j].name != fs[i].name)
                           ==> out[fs[i].name] == values[i]
    decreases |fs|
  {
    if fs != [] {
      var next, gs, vs := obj[fs[0].name := values[0]], fs[1..], values[1..];
      OverlayContents(next, gs, vs);
      hide Overlay;
      assert forall i :: 0 < i < |fs| ==> fs[i] == gs[i - 1] && values[i] == vs[i - 1];
      assert forall i :: 0 <= i < |gs| ==> gs[i] == fs[i + 1];
    }
  }

  lemma {:induction false} LastNamed(fs: seq<Field>, k: Text) returns (i: nat)
    requires exists i :: 0 <= i < |fs| && fs[i].name == k
    ensures i < |fs| && fs[i].name == k && forall j :: i < j < |fs| ==> fs[j].name != k
  {
    i := |fs| - 1;
    if fs[i].name != k {
      i := LastNamed(fs[..|fs| - 1], k);
    }
  }

  lemma HoldsOverlay(obj: map<Text, Value>, fs: seq<Field>, values: seq<Value>)
    requires |values| == |fs|
    ensures Holds(obj, fs, values) <==> obj == Overlay(map[], fs, values)
  {
    OverlayContents(map[], fs, values);
    assert Holds(Overlay(map[], fs, values), fs, values);
    if Holds(obj, fs, values) {
      HoldsOne(obj, Overlay(map[], fs, values), fs, values);
      HoldsOne(Overlay(map[], fs, values), obj, fs, values);
    }
  }

  lemma HoldsOne(a: map<Text, Value>, b: map<Text, Value>, fs: seq<Field>, values: seq<Value>)
    requires |values| == |fs| && Holds(a, fs, values) && Holds(b, fs, values)
    ensures forall k :: k in a ==> k in b && b[k] == a[k]
  {
    forall k | k in a ensures k in b && b[k] == a[k] {
      var i := LastNamed(fs, k);
      assert a[fs[i].name] == values[i] && b[fs[i].name] == values[i];
    }
  }

  lemma {:induction false} FieldCuts(c: Codec, fs: seq<Field>, s: bytes, obj: map<Text, Value>, depth: nat)
    returns (cuts: seq<bytes>, values: seq<Value>)
    requires Closed(c.types) && forall i :: 0 <= i < |fs| ==> fs[i].typ in c.types
    requires depth <= MAX_DEPTH + 1 && DecodeFields(c, fs, s, obj, depth).Done?
    ensures var p := DecodeFields(c, fs, s, obj, depth);
            && |cuts| == |fs| + 1 && |values| == |fs| && cuts[0] == s
            && FieldsRead(c, fs, cuts, values, p.rest, depth) && p.value == Overlay(obj, fs, values)
    decreases MAX_DEPTH + 2 - depth, 0, |fs|
  {
    hide Decode, ReadAs;
    cuts, values := [s], [];
    if fs != [] {
      var first := Decode(c, fs[0].typ, s, depth + 1);
      DecodedIsRead(c, fs[0].typ, s, first.value, first.rest, depth + 1);
      var rest, more := FieldCuts(c, fs[1..], first.rest, obj[fs[0].name := first.value], depth);
      cuts, values := [s] + rest, [first.value] + more;
      assert values[1..] == more;
      forall i | 0 <= i < |fs| ensures ReadAs(c, fs[i].typ, cuts[i], values[i], cuts[i + 1], depth + 1) {
        assert cuts[i + 1] == rest[i];
        assert i > 0 ==> fs[i] == fs[1..][i - 1] && cuts[i] == rest[i - 1] && values[i] == more[i - 1];
      }
    }
  }

  lemma {:induction false} CutFields(
    c: Codec, fs: seq<Field>, cuts: seq<bytes>, values: seq<Value>, rest: bytes, depth: nat, obj: map<Text, Value>)
    requires Closed(c.types) && depth <= MAX_DEPTH + 1 && |cuts| == |fs| + 1 && |values| == |fs|
    requires forall i :: 0 <= i < |fs| ==> fs[i].typ in c.types
    requires FieldsRead(c, fs, cuts, values, rest, depth)
    ensures DecodeFields(c, fs, cuts[0], obj, depth) == Done(Overlay(obj, fs, values), rest)
    decreases MAX_DEPTH + 2 - depth, 0, |fs|
  {
    hide Decode, ReadAs;
    if fs != [] {
      assert ReadAs(c, fs[0].typ, cuts[0], values[0], cuts[0 + 1], depth + 1);
      DecodedIsRead(c, fs[0].typ, cuts[0], values[0], cuts[1], depth + 1);
      var gs, more, vs := fs[1..], cuts[1..], values[1..];
      forall i | 0 <= i < |gs| ensures ReadAs(c, gs[i].typ, more[i], vs[i], more[i + 1], depth + 1) {
        assert gs[i] == fs[i + 1] && more[i] == cuts[i + 1] && vs[i] == values[i + 1] && more[i + 1] == cuts[i + 1 + 1];
      }
      CutFields(c, gs, more, vs, rest, depth, obj[fs[0].name := values[0]]);
    }
  }

  lemma {:induction false} StructIsRead(c: Codec, fs: seq<Field>, s: bytes, v: Value, rest: bytes, depth: nat)
    requires Closed(c.types) && depth <= MAX_DEPTH + 1 && v.Obj?
    requires forall i :: 0 <= i < |fs| ==> fs[i].typ in c.types
    ensures DecodeFields(c, fs, s, map[], depth) == Done(v.fields, rest) <==> StructRead(c, fs, s, v, rest, depth)
    decreases MAX_DEPTH + 2 - depth, 0, |fs| + 1
  {
    hide DecodeFields, FieldsRead, Holds, Overlay;
    if DecodeFields(c, fs, s, map[], depth) == Done(v.fields, rest) {
      var cuts, values := FieldCuts(c, fs, s, map[], depth);
      HoldsOverlay(v.fields, fs, values);
    }
    forall cuts: seq<bytes>, values: seq<Value> |
      |cuts| == |fs| + 1 && |values| == |fs| && cuts[0] == s && FieldsRead(c, fs, cuts, values, rest, depth)
      && Holds(v.fields, fs, values)
      ensures DecodeFields(c, fs, s, map[], depth) == Done(v.fields, rest)
    {
      HoldsOverlay(v.fields, fs, values);
      CutFields(c, fs, cuts, values, rest, depth, map[]);
    }
  }
}
