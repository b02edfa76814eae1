/** Signing requests as URIs (signing/SigningRequest.ts). */
module SigningRequest {
  import opened Bytes
  import opened Varint
  import opened Types
  import opened Encoder
  import opened Leaf
  import opened Serializer
  import opened RoundTrip
  import B = Base64u

  /** Compression, taken as given. */
  datatype Zlib = Zlib(deflate: bytes -> bytes, inflate: bytes -> Option<bytes>)

  /** The resolved types of the request data of both protocol versions, and of request signatures. */
  datatype Schema = Schema(codec: Codec, v2: nat, v3: nat, signature: nat)

  ghost predicate Valid(m: Schema) {
    && Closed(m.codec.types) && DistinctFields(m.codec)
    && m.v2 in m.codec.types && m.v3 in m.codec.types && m.signature in m.codec.types
  }

  datatype Request = Request(version: nat, data: Value, signature: Option<Value>)

  const COMPRESSED: nat := 128

  // "req", "identity", "flags"
  const REQ: Text := [114, 101, 113]
  const IDENTITY: Text := [105, 100, 101, 110, 116, 105, 116, 121]
  const FLAGS: Text := [102, 108, 97, 103, 115]

  predicate IsIdentity(data: Value) {
    data.Obj? && var req := Property(data, REQ); req.Tagged? && req.tag == IDENTITY
  }

  predicate IsBroadcast(data: Value) {
    data.Obj? && var flags := Property(data, FLAGS); flags.Num? && flags.n % 2 == 1
  }

  function StorageType(m: Schema, version: nat): nat {
    if version == 2 then m.v2 else m.v3
  }

  // ---- Encoding ----

  function DataBytes(m: Schema, r: Request): Result<bytes>
    requires Valid(m)
  {
    Encode(m.codec, StorageType(m, r.version), r.data, m.codec.hops)
  }

  function SignatureBytes(m: Schema, r: Request): Result<bytes>
    requires Valid(m)
  {
    if r.signature.None? then Ok([]) else Encode(m.codec, m.signature, r.signature.value, m.codec.hops)
  }

  function Payload(m: Schema, r: Request): Result<bytes>
    requires Valid(m)
  {
    Join(DataBytes(m, r), SignatureBytes(m, r))
  }

  /** Whether the payload goes out compressed: only when asked for, and only if it gets shorter. */
  predicate Deflates(zlib: Option<Zlib>, compress: bool, payload: bytes)
    requires compress ==> zlib.Some?
  {
    compress && |payload| > |zlib.value.deflate(payload)|
  }

  /** Header and payload. */
  function Packed(zlib: Option<Zlib>, compress: bool, version: nat, payload: bytes): bytes
    requires compress ==> zlib.Some?
    requires version < COMPRESSED
  {
    if Deflates(zlib, compress, payload) then [version + COMPRESSED] + zlib.value.deflate(payload)
    else [version] + payload
  }

  /** The payload goes out deflated only when that is shorter, told by the top bit of the header. */
  lemma PackedShortest(zlib: Option<Zlib>, compress: bool, version: nat, payload: bytes)
    requires (compress ==> zlib.Some?) && version < 128
    ensures var packed := Packed(zlib, compress, version, payload);
            && (packed == [version] + payload
                || (compress && packed == [version + 128] + zlib.value.deflate(payload)))
            && |packed| == 1 + if compress && |zlib.value.deflate(payload)| < |payload|
                               then |zlib.value.deflate(payload)| else |payload|
  {
  }

  method EncodeUri(
    m: Schema, zlib: Option<Zlib>, r: Request, compress: Option<bool>, slashes: Option<bool>, scheme: string)
    returns (uri: Option<string>)
    requires Valid(m) && r.version < COMPRESSED
    ensures var deflate := if compress.Some? then compress.value else zlib.Some?;
            uri == if (deflate && zlib.None?) || Payload(m, r).Err? then None
                   else Some(scheme + (if slashes == Some(false) then "" else "//")
                             + B.EncodeAll(Packed(zlib, deflate, r.version, Payload(m, r).value), true))
  {
    var shouldCompress := if compress.Some? then compress.value else zlib.Some?;
    if shouldCompress && zlib.None? {
      return None;
    }
    var header := r.version;
    var data, sigData := DataBytes(m, r), SignatureBytes(m, r);
    if data.Err? || sigData.Err? {
      return None;
    }
    var payload := data.value + sigData.value;
    if shouldCompress {
      var deflated := zlib.value.deflate(payload);
      if |payload| > |deflated| {
        header := header + COMPRESSED;
        payload := deflated;
      }
    }
    var out := [header] + payload;
    var text := B.Encode(out, true);
    uri := Some(scheme + (if slashes == Some(false) then "" else "//") + text);
  }

  // ---- Decoding ----

  /** The part between the first colon and the next. */
  function PathOf(uri: string): Option<string> {
    if uri == "" then None
    else if uri[0] == ':' then Some(UpToColon(uri[1..]))
    else PathOf(uri[1..])
  }

  function UpToColon(s: string): string {
    if s == "" || s[0] == ':' then "" else [s[0]] + UpToColon(s[1..])
  }

  /** The constructor refuses to broadcast an identity request. */
  function Make(version: nat, data: Value, signature: Option<Value>): Option<Request> {
    if IsBroadcast(data) && IsIdentity(data) then None else Some(Request(version, data, signature))
  }

  function Inflate(zlib: Zlib, maxInflatedBytes: nat, s: bytes): Option<bytes> {
    var inflated := zlib.inflate(s);
    if inflated.Some? && |inflated.value| > maxInflatedBytes then None else inflated
  }

  function FromData(m: Schema, zlib: Zlib, maxInflatedBytes: nat, data: bytes): Option<Request>
    requires Valid(m)
  {
    if data == [] then None
    else
      var version := data[0] % COMPRESSED;
      if version != 2 && version != 3 then None
      else
        var payload := if data[0] >= COMPRESSED then Inflate(zlib, maxInflatedBytes, data[1..]) else Some(data[1..]);
        if payload.None? then None else FromPayload(m, version, payload.value)
  }

  /** The request data, then a signature if there is more input. */
  function FromPayload(m: Schema, version: nat, payload: bytes): Option<Request>
    requires Valid(m)
  {
    var req := Decode(m.codec, StorageType(m, version), payload, 1);
    if req.Fail? then None
    else if req.rest == [] then Make(version, req.value, None)
    else
      var sig := Decode(m.codec, m.signature, req.rest, 1);
      if sig.Fail? then None else Make(version, req.value, Some(sig.value))
  }

  method FromUri(m: Schema, zlib: Zlib, maxInflatedBytes: nat, uri: string) returns (r: Option<Request>)
    requires Valid(m)
    ensures r == From(m, zlib, maxInflatedBytes, uri)
  {
    var path := PathOf(uri);
    if path.None? {
      return None;
    }
    var data := B.Decode(if "//" <= path.value then path.value[2..] else path.value);
    r := FromData(m, zlib, maxInflatedBytes, data);
  }

  function From(m: Schema, zlib: Zlib, maxInflatedBytes: nat, uri: string): Option<Request>
    requires Valid(m)
  {
    var path := PathOf(uri);
    if path.None? then None
    else
      FromData(m, zlib, maxInflatedBytes, B.DecodeAll(if "//" <= path.value then path.value[2..] else path.value))
  }

  /** The first colon is at `i`, and the path is what stands behind it up to the next. */
  predicate PathAt(uri: string, i: nat, path: string) {
    i < |uri| && uri[i] == ':' && ':' !in uri[..i] && UpTo(uri[i + 1..], path)
  }

  /** A request's path is what stands behind the first colon up to the next; without a colon there is none. */
  lemma {:induction false} PathIs(uri: string, path: string)
    ensures PathOf(uri).None? <==> ':' !in uri
    ensures PathOf(uri) == Some(path) <==> exists i: nat :: PathAt(uri, i, path)
  {
    if uri != "" && uri[0] != ':' {
      PathIs(uri[1..], path);
      assert uri == [uri[0]] + uri[1..];
      hide PathAt;
      NotAtFront(uri, path);
      if PathOf(uri) == Some(path) {
        var i: nat :| PathAt(uri[1..], i, path);
        PathShift(uri, i, path);
      }
      forall i: nat | PathAt(uri, i, path) ensures PathOf(uri) == Some(path) {
        PathShift(uri, i - 1, path);
      }
    } else if uri != "" {
      UpToColonIs(uri[1..], path);
      AtFront(uri, path);
      assert PathAt(uri, 0, path) <==> UpTo(uri[1..], path);
    }
  }

  lemma PathShift(uri: string, i: nat, path: string)
    requires uri != "" && uri[0] != ':'
    ensures PathAt(uri, i + 1, path) <==> PathAt(uri[1..], i, path)
  {
    hide UpTo;
    if i + 1 < |uri| {
      assert uri[..i + 1] == [uri[0]] + uri[1..][..i] && uri[1..][i + 1..] == uri[i + 1 + 1..];
    }
  }

  lemma NotAtFront(uri: string, path: string)
    requires uri != "" && uri[0] != ':'
    ensures !PathAt(uri, 0, path)
  {
  }

  lemma AtFront(uri: string, path: string)
    requires uri != "" && uri[0] == ':'
    ensures forall i: nat :: PathAt(uri, i, path) <==> i == 0 && UpTo(uri[1..], path)
  {
    hide UpTo;
    assert uri[..0] == "";
    assert forall i: nat :: 0 < i < |uri| ==> uri[..i][0] == ':';
  }

  /** `path` is the part of `s` before its first colon, or all of it. */
  predicate UpTo(s: string, path: string) {
    path <= s && ':' !in path && (path == s || s[|path|] == ':')
  }

  lemma {:induction false} UpToColonIs(s: string, path: string)
    ensures UpToColon(s) == path <==> UpTo(s, path)
  {
    if s != "" && s[0] != ':' {
      UpToColonIs(s[1..], UpToColon(s[1..]));
      if path != "" && path[0] == s[0] {
        UpToColonIs(s[1..], path[1..]);
        assert path == [s[0]] + path[1..];
      }
    }
  }

  /** Header and payload: the version, with the top bit set in front of a payload that was deflated. */
  ghost predicate Unpacks(z: Zlib, max: nat, data: bytes, version: nat, payload: bytes) {
    || data == [version] + payload
    || (data != [] && data[0] == version + 128 && z.inflate(data[1..]) == Some(payload) && |payload| <= max)
  }

  /** A payload is the request data, in the type of the version, and a signature unless it ends there. */
  ghost predicate Carries(m: Schema, r: Request, payload: bytes)
    requires Valid(m)
  {
    exists rest: bytes ::
      && Decode(m.codec, if r.version == 3 then m.v3 else m.v2, payload, 1) == Done(r.data, rest)
      && if r.signature.None? then rest == []
         else rest != [] && exists more :: Decode(m.codec, m.signature, rest, 1) == Done(r.signature.value, more)
  }

  /**
   The data that a request is read from, and so all that is refused: other versions, payloads too long
   once inflated or that do not decode, and identities to broadcast.
   */
  lemma DataRead(m: Schema, z: Zlib, max: nat, data: bytes, r: Request)
    requires Valid(m)
    ensures FromData(m, z, max, data) == Some(r)
            <==> && (r.version == 2 || r.version == 3) && !(IsBroadcast(r.data) && IsIdentity(r.data))
                 && exists payload :: Unpacks(z, max, data, r.version, payload) && Carries(m, r, payload)
  {
    hide Decode, IsBroadcast, IsIdentity;
    if data != [] {
      var version := data[0] % COMPRESSED;
      var payload := if data[0] >= COMPRESSED then Inflate(z, max, data[1..]) else Some(data[1..]);
      forall p | version == 2 || version == 3
        ensures Unpacks(z, max, data, version, p) <==> payload == Some(p)
      {
        assert data == [data[0]] + data[1..];
      }
      forall p | (version == 2 || version == 3) && payload == Some(p)
        ensures FromPayload(m, version, p) == Some(r)
                <==> r.version == version && !(IsBroadcast(r.data) && IsIdentity(r.data)) && Carries(m, r, p)
      {
        PayloadRead(m, version, p, r);
      }
    }
  }

  lemma PayloadRead(m: Schema, version: nat, payload: bytes, r: Request)
    requires Valid(m) && (version == 2 || version == 3)
    ensures FromPayload(m, version, payload) == Some(r)
            <==> r.version == version && !(IsBroadcast(r.data) && IsIdentity(r.data)) && Carries(m, r, payload)
  {
    hide Decode, IsBroadcast, IsIdentity;
  }

  // ---- Round trip ----

  /** What `encode` wrote and `from` can restore: values that come back through the codec, and no refusal. */
  ghost predicate Readable(m: Schema, r: Request)
    requires Valid(m) && Payload(m, r).Ok?
  {
    && Restores(m.codec, StorageType(m, r.version), r.data, m.codec.hops, SignatureBytes(m, r).value == [], 1)
    && (r.signature.Some? ==>
          && SignatureBytes(m, r).value != []
          && Restores(m.codec, m.signature, r.signature.value, m.codec.hops, true, 1))
    && !(IsBroadcast(r.data) && IsIdentity(r.data))
  }

  lemma FromPayloadBack(m: Schema, r: Request)
    requires Valid(m) && Payload(m, r).Ok?
    ensures FromPayload(m, r.version, Payload(m, r).value) == Some(r) <==> Readable(m, r)
  {
    hide Decode, Encode, Restores, IsBroadcast, IsIdentity;
    var t := StorageType(m, r.version);
    var sig := SignatureBytes(m, r).value;
    DecodeEncode(m.codec, t, r.data, m.codec.hops, sig, 1);
    if r.signature.Some? {
      DecodeEncode(m.codec, m.signature, r.signature.value, m.codec.hops, [], 1);
      assert sig + [] == sig;
    }
  }

  lemma {:induction false} UpToColonAll(s: string)
    requires forall i :: 0 <= i < |s| ==> s[i] != ':'
    ensures UpToColon(s) == s
  {
    if s != "" {
      UpToColonAll(s[1..]);
    }
  }

  lemma {:induction false} PathAfter(name: string, path: string)
    requires forall i :: 0 <= i < |name| ==> name[i] != ':'
    requires forall i :: 0 <= i < |path| ==> path[i] != ':'
    ensures PathOf(name + ":" + path) == Some(path)
  {
    var uri := name + ":" + path;
    if name == "" {
      assert uri[1..] == path;
      UpToColonAll(path);
    } else {
      assert uri[1..] == name[1..] + ":" + path;
      PathAfter(name[1..], path);
    }
  }

  /** The text after the slashes, whether or not they were written. */
  lemma PathText(data: bytes, slashes: bool)
    ensures var text := B.EncodeAll(data, true);
            var path := (if slashes then "//" else "") + text;
            && (forall i :: 0 <= i < |path| ==> path[i] != ':')
            && (if "//" <= path then path[2..] else path) == text
  {
    B.UrlSafeText(data);
    var text := B.EncodeAll(data, true);
    hide B.EncodeAll;
    assert ("//" + text)[2..] == text;
    assert "" + text == text;
    assert text != "" ==> text[0] != '/';
  }

  /** In every mode, what was packed is unpacked, if inflating undoes deflating within the limit. */
  lemma FromPacked(m: Schema, zlib: Option<Zlib>, z: Zlib, max: nat, compress: bool, r: Request, payload: bytes)
    requires Valid(m) && (r.version == 2 || r.version == 3) && (compress ==> zlib == Some(z))
    requires Deflates(zlib, compress, payload) ==> z.inflate(z.deflate(payload)) == Some(payload)
    ensures FromData(m, z, max, Packed(zlib, compress, r.version, payload))
            == if Deflates(zlib, compress, payload) && |payload| > max then None
               else FromPayload(m, r.version, payload)
  {
    hide FromPayload;
    var packed := Packed(zlib, compress, r.version, payload);
    assert packed[1..] == if Deflates(zlib, compress, payload) then z.deflate(payload) else payload;
  }

  /**
   `from` undoes `encode`, compressed or not, with slashes or not, exactly when the request is
   readable and what was deflated is within the limit for inflating.
   */
  lemma FromEncode(
    m: Schema, zlib: Option<Zlib>, z: Zlib, max: nat, r: Request, compress: bool, slashes: bool, name: string)
    requires Valid(m) && (r.version == 2 || r.version == 3) && Payload(m, r).Ok? && (compress ==> zlib == Some(z))
    requires forall s :: z.inflate(z.deflate(s)) == Some(s)
    requires forall i :: 0 <= i < |name| ==> name[i] != ':'
    ensures var payload := Payload(m, r).value;
            var text := B.EncodeAll(Packed(zlib, compress, r.version, payload), true);
            From(m, z, max, name + ":" + (if slashes then "//" else "") + text) == Some(r)
            <==> Readable(m, r) && (Deflates(zlib, compress, payload) ==> |payload| <= max)
  {
    var payload := Payload(m, r).value;
    var packed := Packed(zlib, compress, r.version, payload);
    var text := B.EncodeAll(packed, true);
    var path := (if slashes then "//" else "") + text;
    assert name + ":" + path == name + ":" + (if slashes then "//" else "") + text;
    hide PathOf, FromPayload, FromData, Payload, B.EncodeAll, B.DecodeAll, Packed, Readable, Deflates;
    PathText(packed, slashes);
    PathAfter(name, path);
    B.DecodeEncode(packed, true);
    FromPacked(m, zlib, z, max, compress, r, payload);
    FromPayloadBack(m, r);
  }

  /**
   `setBroadcast` can make a request that its own URI does not give back: one for an identity, with the
   broadcast flag, is refused however it is written.
   */
  lemma BroadcastIdentityRefused(
    m: Schema, zlib: Option<Zlib>, z: Zlib, max: nat, r: Request, compress: bool, slashes: bool, name: string)
    requires Valid(m) && (r.version == 2 || r.version == 3) && Payload(m, r).Ok? && (compress ==> zlib == Some(z))
    requires forall s :: z.inflate(z.deflate(s)) == Some(s)
    requires forall i :: 0 <= i < |name| ==> name[i] != ':'
    requires Restores(m.codec, StorageType(m, r.version), r.data, m.codec.hops, SignatureBytes(m, r).value == [], 1)
    requires IsBroadcast(r.data) && IsIdentity(r.data)
    ensures var text := B.EncodeAll(Packed(zlib, compress, r.version, Payload(m, r).value), true);
            From(m, z, max, name + ":" + (if slashes then "//" else "") + text) == None
  {
    var payload := Payload(m, r).value;
    var packed := Packed(zlib, compress, r.version, payload);
    var text := B.EncodeAll(packed, true);
    var path := (if slashes then "//" else "") + text;
    assert name + ":" + path == name + ":" + (if slashes then "//" else "") + text;
    hide PathOf, FromPayload, FromData, Payload, B.EncodeAll, B.DecodeAll, Packed, Deflates, Decode, Encode, Restores;
    PathText(packed, slashes);
    PathAfter(name, path);
    B.DecodeEncode(packed, true);
    FromPacked(m, zlib, z, max, compress, r, payload);
    RefusedPayload(m, r);
  }

  lemma RefusedPayload(m: Schema, r: Request)
    requires Valid(m) && Payload(m, r).Ok? && IsBroadcast(r.data) && IsIdentity(r.data)
    requires Restores(m.codec, StorageType(m, r.version), r.data, m.codec.hops, SignatureBytes(m, r).value == [], 1)
    ensures FromPayload(m, r.version, Payload(m, r).value) == None
  {
    hide Decode, Encode, Restores, IsBroadcast, IsIdentity;
    DecodeEncode(m.codec, StorageType(m, r.version), r.data, m.codec.hops, SignatureBytes(m, r).value, 1);
  }

  // ---- A request around a serialized transaction ----

  // "chain_id", "callback", "info"
  const CHAIN_ID: Text := [99, 104, 97, 105, 110, 95, 105, 100]
  const CALLBACK: Text := [99, 97, 108, 108, 98, 97, 99, 107]
  const INFO: Text := [105, 110, 102, 111]

  /** The types of the fields of the version 2 request data. */
  datatype Layout = Layout(chain: nat, req: nat, flags: nat, callback: nat, info: nat)

  function LayoutFields(l: Layout): seq<Field> {
    [Field(CHAIN_ID, l.chain), Field(REQ, l.req), Field(FLAGS, l.flags), Field(CALLBACK, l.callback),
     Field(INFO, l.info)]
  }

  predicate Plain(c: Codec, t: nat) {
    t in c.types && !c.types[t].isArray && !c.types[t].isOptional && !c.types[t].isExtension
  }

  /** A class that codes itself as a byte, as the flags' own does, or an alias of one. */
  predicate IsByte(c: Codec, t: nat) {
    && Plain(c, t)
    && if c.types[t].name in c.lookup then c.lookup[c.types[t].name] == IntType(1, false)
       else
         && c.types[t].shape.Alias? && c.hops > 0
         && var ref := c.types[t].shape.ref;
         Plain(c, ref) && c.types[ref].name in c.lookup && c.lookup[c.types[ref].name] == IntType(1, false)
  }

  /**
   `signing_request`: a chain id, a variant whose third case is a transaction, flags that are a byte,
   a string, an array.
   */
  predicate LaidOut(m: Schema, l: Layout)
    requires Closed(m.codec.types)
  {
    var c := m.codec;
    && Plain(c, m.v2) && c.types[m.v2].name !in c.lookup && AllFields(c.types, m.v2) == Some(LayoutFields(l))
    && l.chain in c.types
    && Plain(c, l.req) && c.types[l.req].name !in c.lookup && c.types[l.req].shape.Variant?
    && var cases := c.types[l.req].shape.cases;
    && |cases| > 2 && CaseOf(c.types, cases, c.types[cases[2]].TypeName(), 0) == Some(2)
    && IsByte(c, l.flags)
    && Plain(c, l.callback) && c.types[l.callback].name in c.lookup && c.lookup[c.types[l.callback].name] == TextType
    && l.info in c.types && c.types[l.info].isArray && !c.types[l.info].isOptional
  }

  function TransactionType(m: Schema, l: Layout): nat
    requires Closed(m.codec.types) && LaidOut(m, l)
  {
    m.codec.types[l.req].shape.cases[2]
  }

  /** To be broadcast, with no callback and no info. */
  function TransactionData(m: Schema, l: Layout, chain: Value, tx: Value): Value
    requires Closed(m.codec.types) && LaidOut(m, l)
  {
    var tag := m.codec.types[TransactionType(m, l)].TypeName();
    Obj(map[CHAIN_ID := chain, REQ := Tagged(tag, tx), FLAGS := Num(1), CALLBACK := Blob([]), INFO := Arr([])])
  }

  /** The bytes laid by hand around a chain id and a serialized transaction. */
  method TransactionBytes(chainBytes: bytes, serializedTransaction: bytes) returns (data: bytes)
    ensures data == [2] + (chainBytes + (Varuint(2) + (serializedTransaction + [1, 0, 0])))
  {
    var encoder := new ABIEncoder(1024);
    encoder.WriteByte(2);
    encoder.WriteArray(chainBytes);
    encoder.WriteVaruint32(2);
    encoder.WriteArray(serializedTransaction);
    encoder.WriteByte(1);
    encoder.WriteByte(0);
    encoder.WriteByte(0);
    data := encoder.GetData();
    assert ToUint32(2) == 2;
    hide *;
    Laid(chainBytes, Varuint(2), serializedTransaction);
  }

  lemma Laid(a: bytes, b: bytes, c: bytes)
    ensures [] + [2] + a + b + c + [1] + [0] + [0] == [2] + (a + (b + (c + [1, 0, 0])))
  {
  }

  method FromTransaction(m: Schema, zlib: Zlib, maxInflatedBytes: nat, chain: Value, chainType: nat, tx: bytes)
    returns (r: Option<Request>)
    requires Valid(m) && chainType in m.codec.types
    ensures var chainBytes := Encode(m.codec, chainType, chain, m.codec.hops);
            r == if chainBytes.Err? then None
                 else FromData(m, zlib, maxInflatedBytes,
                               [2] + (chainBytes.value + (Varuint(2) + (tx + [1, 0, 0]))))
  {
    var chainBytes := Encode(m.codec, chainType, chain, m.codec.hops);
    if chainBytes.Err? {
      return None;
    }
    var data := TransactionBytes(chainBytes.value, tx);
    r := FromData(m, zlib, maxInflatedBytes, data);
  }

  lemma PlainVariant(c: Codec, t: nat, v: Value, k: nat)
    requires Closed(c.types) && Plain(c, t) && c.types[t].name !in c.lookup && c.types[t].shape.Variant? && v.Tagged?
    requires CaseOf(c.types, c.types[t].shape.cases, v.tag, 0) == Some(k)
    ensures Encode(c, t, v, c.hops)
            == Join(Ok(Varuint(ToUint32(k))), Encode(c, c.types[t].shape.cases[k], v.value, c.hops))
  {
    hide Varuint, ToUint32;
    assert Encode(c, t, v, c.hops) == EncodeInner(c, t, v, true, c.hops);
  }

  lemma PlainLeaf(c: Codec, t: nat, v: Value, fuel: nat)
    requires Closed(c.types) && Plain(c, t) && c.types[t].name in c.lookup && !v.Null?
    ensures Encode(c, t, v, fuel) == EncodeLeaf(c.lookup[c.types[t].name], v)
  {
    hide EncodeLeaf;
    assert Encode(c, t, v, fuel) == EncodeInner(c, t, v, true, fuel);
  }

  lemma PlainAlias(c: Codec, t: nat, v: Value, fuel: nat)
    requires Closed(c.types) && Plain(c, t) && IsAlias(c, t) && !v.Null? && fuel > 0
    ensures Encode(c, t, v, fuel) == Encode(c, c.types[t].shape.ref, v, fuel - 1)
  {
    assert Encode(c, t, v, fuel) == EncodeInner(c, t, v, true, fuel);
  }

  lemma EmptyArray(c: Codec, t: nat, fuel: nat)
    requires Closed(c.types) && t in c.types && c.types[t].isArray && !c.types[t].isOptional
    ensures Encode(c, t, Arr([]), fuel) == Ok([0])
  {
    assert Encode(c, t, Arr([]), fuel) == EncodeBody(c, t, Arr([]), fuel);
    var zero: bytes := [0];
    assert EncodeElems(c, t, []) == Ok([]) && Varuint(ToUint32(0)) == zero && zero + [] == zero;
  }

  lemma ByteAndText()
    ensures EncodeLeaf(IntType(1, false), Num(1)) == Ok([1]) && EncodeLeaf(TextType, Blob([])) == Ok([0])
  {
    var zero: bytes, one: bytes := [0], [1];
    assert Pow256(1) == 256 * Pow256(0) && ToLe(1, 1) == one + ToLe(0, 0) == one;
    assert ToTwos(1, 1) == 1 && InRange(1, 1, false);
    assert Varuint(ToUint32(0)) == zero && zero + [] == zero;
  }

  lemma ByteEncoded(c: Codec, t: nat)
    requires Closed(c.types) && IsByte(c, t)
    ensures Encode(c, t, Num(1), c.hops) == Ok([1])
  {
    hide Encode, EncodeLeaf;
    ByteAndText();
    if c.types[t].name in c.lookup {
      PlainLeaf(c, t, Num(1), c.hops);
    } else {
      PlainAlias(c, t, Num(1), c.hops);
      PlainLeaf(c, c.types[t].shape.ref, Num(1), c.hops - 1);
    }
  }

  lemma FieldBytes(m: Schema, l: Layout, chain: Value, tx: Value)
    requires Valid(m) && LaidOut(m, l)
    ensures var c, v := m.codec, TransactionData(m, l, chain, tx);
            && Property(v, CHAIN_ID) == chain
            && Encode(c, l.req, Property(v, REQ), c.hops)
               == Join(Ok(Varuint(2)), Encode(c, TransactionType(m, l), tx, c.hops))
            && Encode(c, l.flags, Property(v, FLAGS), c.hops) == Ok([1])
            && Encode(c, l.callback, Property(v, CALLBACK), c.hops) == Ok([0])
            && Encode(c, l.info, Property(v, INFO), c.hops) == Ok([0])
  {
    var c, v := m.codec, TransactionData(m, l, chain, tx);
    assert ToUint32(2) == 2;
    hide Encode, EncodeLeaf, Varuint, ToUint32, AllFields, CaseOf, ResolvedType.TypeName;
    PlainVariant(c, l.req, Property(v, REQ), 2);
    ByteEncoded(c, l.flags);
    PlainLeaf(c, l.callback, Blob([]), c.hops);
    EmptyArray(c, l.info, c.hops);
    ByteAndText();
  }

  lemma EncodeFieldsStep(c: Codec, fs: seq<Field>, i: nat, v: Value, a: bytes, rest: bytes)
    requires Closed(c.types) && v.Obj? && i < |fs| && forall j :: 0 <= j < |fs| ==> fs[j].typ in c.types
    requires Encode(c, fs[i].typ, Property(v, fs[i].name), c.hops) == Ok(a)
    requires EncodeFields(c, fs[i + 1..], v) == Ok(rest)
    ensures EncodeFields(c, fs[i..], v) == Ok(a + rest)
  {
    hide Encode;
    assert fs[i..][0] == fs[i] && fs[i..][1..] == fs[i + 1..];
  }

  /** They are what the type-directed encoder writes for the same request. */
  lemma HandLaid(m: Schema, l: Layout, chain: Value, tx: Value)
    requires Valid(m) && LaidOut(m, l)
    requires Encode(m.codec, l.chain, chain, m.codec.hops).Ok?
    requires Encode(m.codec, TransactionType(m, l), tx, m.codec.hops).Ok?
    ensures var chainBytes := Encode(m.codec, l.chain, chain, m.codec.hops).value;
            var txBytes := Encode(m.codec, TransactionType(m, l), tx, m.codec.hops).value;
            Encode(m.codec, m.v2, TransactionData(m, l, chain, tx), m.codec.hops)
            == Ok(chainBytes + (Varuint(2) + (txBytes + [1, 0, 0])))
  {
    var c, v, fs := m.codec, TransactionData(m, l, chain, tx), LayoutFields(l);
    var chainBytes := Encode(c, l.chain, chain, c.hops).value;
    var txBytes := Encode(c, TransactionType(m, l), tx, c.hops).value;
    hide *;
    FieldBytes(m, l, chain, tx);
    RequestFields(m, l, v);
    EncodeFieldsStep(c, fs, 4, v, [0], []);
    EncodeFieldsStep(c, fs, 3, v, [0], [0] + []);
    EncodeFieldsStep(c, fs, 2, v, [1], [0] + ([0] + []));
    EncodeFieldsStep(c, fs, 1, v, Varuint(2) + txBytes, [1] + ([0] + ([0] + [])));
    EncodeFieldsStep(c, fs, 0, v, chainBytes, Varuint(2) + txBytes + ([1] + ([0] + ([0] + []))));
    LaidFields(chainBytes, Varuint(2), txBytes);
  }

  lemma RequestFields(m: Schema, l: Layout, v: Value)
    requires Valid(m) && LaidOut(m, l) && v.Obj?
    ensures var c, fs := m.codec, LayoutFields(l);
            && |fs| == 5 && fs[0..] == fs && EncodeFields(c, fs[5..], v) == Ok([])
            && (forall j :: 0 <= j < 5 ==> fs[j].typ in c.types)
            && fs[0] == Field(CHAIN_ID, l.chain) && fs[1] == Field(REQ, l.req) && fs[2] == Field(FLAGS, l.flags)
            && fs[3] == Field(CALLBACK, l.callback) && fs[4] == Field(INFO, l.info)
            && Encode(c, m.v2, v, c.hops) == EncodeFields(c, fs, v)
  {
    var c, fs := m.codec, LayoutFields(l);
    assert fs[5..] == [];
    assert EncodeFields(c, [], v) == Ok([]);
    hide EncodeFields, AllFields, IsAlias;
    assert c.types[m.v2].shape.Struct? by { StructOnly(c.types, m.v2); }
    assert !IsAlias(c, m.v2) by { NotAlias(c, m.v2); }
    assert Encode(c, m.v2, v, c.hops) == EncodeInner(c, m.v2, v, true, c.hops) == EncodeFields(c, fs, v);
  }

  lemma StructOnly(g: Graph, t: nat)
    requires Closed(g) && t in g && AllFields(g, t).Some?
    ensures g[t].shape.Struct?
  {
  }

  lemma NotAlias(c: Codec, t: nat)
    requires t in c.types && c.types[t].shape.Struct?
    ensures !IsAlias(c, t)
  {
  }

  lemma LaidFields(a: bytes, b: bytes, c: bytes)
    ensures a + (b + c + ([1] + ([0] + ([0] + [])))) == a + (b + (c + [1, 0, 0]))
  {
  }

  /** So the request it makes is the one with that data, whenever the codec can read it back. */
  lemma FromTransactionData(m: Schema, l: Layout, z: Zlib, max: nat, chain: Value, tx: Value)
    requires Valid(m) && LaidOut(m, l)
    requires Encode(m.codec, l.chain, chain, m.codec.hops).Ok?
    requires Encode(m.codec, TransactionType(m, l), tx, m.codec.hops).Ok?
    ensures var chainBytes := Encode(m.codec, l.chain, chain, m.codec.hops).value;
            var txBytes := Encode(m.codec, TransactionType(m, l), tx, m.codec.hops).value;
            var r := Request(2, TransactionData(m, l, chain, tx), None);
            && Payload(m, r).Ok?
            && (FromData(m, z, max, [2] + (chainBytes + (Varuint(2) + (txBytes + [1, 0, 0])))) == Some(r)
                <==> Readable(m, r))
  {
    var r := Request(2, TransactionData(m, l, chain, tx), None);
    HandLaid(m, l, chain, tx);
    var payload := Encode(m.codec, m.v2, r.data, m.codec.hops).value;
    assert payload + [] == payload;
    FromPayloadBack(m, r);
    FromPacked(m, None, z, max, false, r, payload);
  }
}
