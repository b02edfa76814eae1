/** The builtin leaf codecs: fixed-width and variable integers, booleans, text, fixed-size blobs. */
module Leaf {
  import opened Bytes
  import opened Varint
  import opened Types
  import opened Decoder

  predicate InRange(n: int, width: nat, signed: bool) {
    if signed then 0 - Pow256(width) <= 2 * n < Pow256(width) else 0 <= n < Pow256(width)
  }

  /** Two's complement in `width` bytes, for numbers in range. */
  function ToTwos(n: int, width: nat): (u: nat)
    requires 0 - Pow256(width) <= n
  {
    if n < 0 then n + Pow256(width) else n
  }

  function FromTwos(u: nat, width: nat, signed: bool): int {
    if signed && 2 * u >= Pow256(width) then u - Pow256(width) else u
  }

  /** The bound past which a number no longer converts to a JavaScript number. */
  const SAFE: int := 0x20_0000_0000_0000

  function EncodeLeaf(lt: LeafType, v: Value): (r: Result<bytes>)
  {
    match (lt, v)
    case (BoolType, Bool(b)) => Ok([if b then 1 else 0])
    case (IntType(width, signed), Num(n)) =>
      if InRange(n, width, signed) then Ok(ToLe(ToTwos(n, width), width)) else Err(OutOfRange)
    case (VarUIntType, Num(n)) =>
      if n < 0 then Err(OutOfRange) else if n >= SAFE then Err(UnsafeNumber) else Ok(Varuint(ToUint32(n)))
    case (VarIntType, Num(n)) =>
      if -SAFE < n < SAFE then Ok(Varuint(ZigZag(ToInt32(n)))) else Err(UnsafeNumber)
    case (TextType, Blob(data)) => Ok(Varuint(ToUint32(|data|)) + data)
    case (FixedType(size), Blob(data)) => if |data| == size then Ok(data) else Err(OutOfRange)
    case _ => Err(WrongLeaf)
  }

  function MapParsed<T, U>(p: Parsed<T>, f: T -> U): Parsed<U> {
    match p
    case Done(v, rest) => Done(f(v), rest)
    case Fail(e) => Fail(e)
  }

  function DecodeLeaf(lt: LeafType, s: bytes): (p: Parsed<Value>)
    ensures p.Done? ==> |p.rest| <= |s| && (p.value.Bool? || p.value.Num? || p.value.Blob?)
    ensures p.Done? && lt.IntType? ==> p.value.Num?
  {
    match lt
    case BoolType => if s == [] then Fail(PastEnd) else Done(Bool(s[0] != 0), s[1..])
    case IntType(width, signed) =>
      MapParsed(Take(s, width), bs => Num(FromTwos(FromLe(bs), width, signed)))
    case VarUIntType => MapParsed(ReadVaruint(s), u => Num(u))
    case VarIntType =>
      var u := ReadVaruint(s);
      if u.Fail? then Fail(u.error) else Done(Num(UnZigZag(u.value)), u.rest)
    case TextType => MapParsed(ReadText(s), t => Blob(t))
    case FixedType(size) => MapParsed(Take(s, size), bs => Blob(bs))
  }

  /** The numbers and lengths that 32 bits can carry; every fixed-width leaf qualifies. */
  predicate LeafFits(lt: LeafType, v: Value) {
    match (lt, v)
    case (VarUIntType, Num(n)) => n < TWO32
    case (VarIntType, Num(n)) => IsInt32(n)
    case (TextType, Blob(data)) => |data| < TWO32
    case _ => true
  }

  lemma TwosRoundTrip(n: int, width: nat, signed: bool)
    requires InRange(n, width, signed)
    ensures ToTwos(n, width) < Pow256(width)
    ensures FromTwos(ToTwos(n, width), width, signed) == n
  {
  }

  lemma TakeFront(a: bytes, rest: bytes)
    ensures Take(a + rest, |a|) == Done(a, rest)
  {
    assert (a + rest)[..|a|] == a && (a + rest)[|a|..] == rest;
  }

  lemma IntRoundTrip(n: int, width: nat, signed: bool, rest: bytes)
    requires InRange(n, width, signed)
    ensures DecodeLeaf(IntType(width, signed), ToLe(ToTwos(n, width), width) + rest) == Done(Num(n), rest)
  {
    TwosRoundTrip(n, width, signed);
    FromLeToLe(ToTwos(n, width), width);
    TakeFront(ToLe(ToTwos(n, width), width), rest);
  }

  lemma TextRoundTrip(data: bytes, rest: bytes)
    ensures |data| < TWO32 ==> ReadText(Varuint(ToUint32(|data|)) + data + rest) == Done(data, rest)
    ensures |data| >= TWO32 ==>
              var p := ReadText(Varuint(ToUint32(|data|)) + data + rest); p.Done? ==> |p.value| < |data|
  {
    hide ToUint32, Varuint, ReadVaruintAt;
    var n := ToUint32(|data|);
    ToUint32Small(|data|);
    ReadVaruintOfVaruint(n, data + rest);
    assert Varuint(n) + data + rest == Varuint(n) + (data + rest);
    TakeFront(data, rest);
  }

  /** A leaf written in front of any bytes reads back as itself exactly when it fits. */
  lemma LeafRoundTrip(lt: LeafType, v: Value, rest: bytes)
    requires EncodeLeaf(lt, v).Ok?
    ensures LeafFits(lt, v) ==> DecodeLeaf(lt, EncodeLeaf(lt, v).value + rest) == Done(v, rest)
    ensures !LeafFits(lt, v) ==>
              var p := DecodeLeaf(lt, EncodeLeaf(lt, v).value + rest); p.Done? ==> p.value != v
  {
    hide ToUint32, ToInt32, Varuint, ReadVaruint, ReadText, ZigZag, UnZigZag, ToLe, FromLe;
    var bs := EncodeLeaf(lt, v).value;
    match lt
    case BoolType =>
      assert (bs + rest)[1..] == rest;
    case IntType(width, signed) =>
      IntRoundTrip(v.n, width, signed, rest);
    case VarUIntType =>
      ReadVaruintOfVaruint(ToUint32(v.n), rest);
      ToUint32Small(v.n);
    case VarIntType =>
      ReadVaruintOfVaruint(ZigZag(ToInt32(v.n)), rest);
      UnZigZagOfZigZag(ToInt32(v.n));
      ToInt32Small(v.n);
    case TextType =>
      TextRoundTrip(v.data, rest);
    case FixedType(size) =>
      TakeFront(bs, rest);
  }

  /** Whatever a leaf decoder returns, its encoder accepts, and writes in no more bytes. */
  lemma LeafCanonical(lt: LeafType, s: bytes)
    requires DecodeLeaf(lt, s).Done?
    ensures var p := DecodeLeaf(lt, s);
            EncodeLeaf(lt, p.value).Ok? && LeafFits(lt, p.value)
            && |EncodeLeaf(lt, p.value).value| <= |s| - |p.rest|
            && (EncodeLeaf(lt, p.value).value == [] <==> |p.rest| == |s|)
  {
    hide ToUint32, ToInt32, Varuint, ReadVaruintAt, ZigZag, UnZigZag, ToLe, FromLe;
    match lt
    case BoolType =>
    case IntType(width, signed) =>
    case VarUIntType =>
      var u := ReadVaruint(s).value;
      VaruintShortest(s, 0);
      ToUint32Small(u);
    case VarIntType =>
      var u := ReadVaruint(s).value;
      VaruintShortest(s, 0);
      ZigZagOfUnZigZag(u);
      ToInt32Small(UnZigZag(u));
    case TextType =>
      var n := ReadVaruint(s).value;
      VaruintShortest(s, 0);
      ToUint32Small(n);
    case FixedType(size) =>
  }

  lemma TakeSuffix(s: bytes, n: nat, whole: bytes)
    requires Take(s, n).Done? && Suffix(s, whole)
    ensures Suffix(Take(s, n).rest, whole)
  {
  }

  lemma DecodeLeafSuffix(lt: LeafType, s: bytes)
    requires DecodeLeaf(lt, s).Done?
    ensures Suffix(DecodeLeaf(lt, s).rest, s) && |DecodeLeaf(lt, s).rest| <= |s|
  {
    SuffixSelf(s);
    hide ReadVaruintAt, ToLe, FromLe, UnZigZag, Suffix;
    match lt
    case BoolType =>
    case IntType(width, _) => TakeSuffix(s, width, s);
    case VarUIntType => ReadVaruintSuffix(s, 0);
    case VarIntType => ReadVaruintSuffix(s, 0);
    case TextType =>
      ReadVaruintSuffix(s, 0);
      TakeSuffix(ReadVaruint(s).rest, ReadVaruint(s).value, s);
    case FixedType(size) => TakeSuffix(s, size, s);
  }
}
