/** URL-safe Base64 without padding (signing/Base64u.ts). */
module Base64u {
  import opened Bytes

  /** The character for a six-bit group; the last two depend on the variant. */
  function Charset(d: int, urlSafe: bool): (c: char)
    requires 0 <= d < 64
  {
    if d < 26 then (d + 65) as char
    else if d < 52 then (d + 71) as char
    else if d < 62 then (d - 4) as char
    else if d == 62 then if urlSafe then '-' else '+'
    else if urlSafe then '_' else '/'
  }

  /** The group of a character: both variants are accepted, and anything else reads as 0. */
  function Lookup(c: char): (d: int)
    ensures 0 <= d < 64
  {
    if 'A' <= c <= 'Z' then c as int - 65
    else if 'a' <= c <= 'z' then c as int - 71
    else if '0' <= c <= '9' then c as int + 4
    else if c == '+' || c == '-' then 62
    else if c == '/' || c == '_' then 63
    else 0
  }

  lemma LookupCharset(d: int, urlSafe: bool)
    requires 0 <= d < 64
    ensures Lookup(Charset(d, urlSafe)) == d
    ensures Charset(d, true) != ':' && Charset(d, true) != '/'
  {
  }

  /** Capitals, small letters, digits, each in order, then the two that depend on the variant. */
  lemma CharsetOrder(d: int, urlSafe: bool)
    requires 0 <= d < 61
    ensures Charset(0, urlSafe) == 'A' && Charset(25, urlSafe) == 'Z'
    ensures Charset(26, urlSafe) == 'a' && Charset(51, urlSafe) == 'z'
    ensures Charset(52, urlSafe) == '0' && Charset(61, urlSafe) == '9'
    ensures d !in {25, 51} ==> Charset(d + 1, urlSafe) as int == Charset(d, urlSafe) as int + 1
    ensures Charset(62, true) == '-' && Charset(63, true) == '_'
    ensures Charset(62, false) == '+' && Charset(63, false) == '/'
  {
  }

  /** Three bytes become four characters, two three, one two. */
  function EncodeAll(data: bytes, urlSafe: bool): string {
    if |data| >= 3 then Quad(data[0], data[1], data[2], urlSafe) + EncodeAll(data[3..], urlSafe)
    else if |data| == 2 then Quad(data[0], data[1], 0, urlSafe)[..3]
    else if |data| == 1 then Quad(data[0], 0, 0, urlSafe)[..2]
    else []
  }

  function Quad(x: byte, y: byte, z: byte, urlSafe: bool): (s: string)
    ensures |s| == 4
  {
    [Charset(x / 4, urlSafe), Charset(x % 4 * 16 + y / 16, urlSafe),
     Charset(y % 16 * 4 + z / 64, urlSafe), Charset(z % 64, urlSafe)]
  }

  function At(s: string, i: nat): (d: int)
    ensures 0 <= d < 64
  {
    if i < |s| then Lookup(s[i]) else 0
  }

  /** The three bytes of the four characters from `i` on, those past the end reading as 0. */
  function Triple(s: string, i: nat): (bs: bytes)
    ensures |bs| == 3
  {
    SixToEight(At(s, i), At(s, i + 1), At(s, i + 2), At(s, i + 3))
  }

  /** Four groups of six bits as three bytes. */
  function SixToEight(a: int, b: int, c: int, d: int): (bs: bytes)
    requires 0 <= a < 64 && 0 <= b < 64 && 0 <= c < 64 && 0 <= d < 64
    ensures |bs| == 3
  {
    [a * 4 + b / 16, b % 16 * 16 + c / 4, c % 4 * 64 + d]
  }

  function DecodeFrom(s: string, i: nat): (bs: bytes)
    decreases |s| - i
  {
    if i >= |s| then [] else Triple(s, i) + DecodeFrom(s, i + 4)
  }

  lemma {:induction false} DecodeFromLength(s: string, i: nat)
    requires i <= |s|
    ensures 4 * |DecodeFrom(s, i)| >= 3 * (|s| - i)
    decreases |s| - i
  {
    hide Triple;
    if i + 4 <= |s| {
      DecodeFromLength(s, i + 4);
    }
  }

  lemma DecodeFromRoom(s: string)
    ensures |DecodeFrom(s, 0)| >= |s| * 3 / 4
  {
    DecodeFromLength(s, 0);
    hide DecodeFrom;
  }

  /** As many bytes as the characters hold: `Uint8Array` drops the fraction of its length, and stores past its end. */
  function DecodeAll(s: string): (bs: bytes)
    ensures |bs| == |s| * 3 / 4
  {
    DecodeFromRoom(s);
    DecodeFrom(s, 0)[..|s| * 3 / 4]
  }

  // ---- The loops ----

  lemma Split24(x: byte, y: byte, z: byte, chunk: int)
    requires chunk == x as int * 65536 + y as int * 256 + z as int
    ensures chunk / 262144 % 64 == x / 4 && chunk / 4096 % 64 == x % 4 * 16 + y / 16
    ensures chunk / 64 % 64 == y % 16 * 4 + z / 64 && chunk % 64 == z % 64
  {
    var a: int, x0: int, y1: int, y0: int, z1: int, z0: int := x / 4, x % 4, y / 16, y % 16, z / 64, z % 64;
    var q1 := 64 * (64 * a + (16 * x0 + y1)) + (4 * y0 + z1);
    assert chunk == 64 * q1 + z0;
    Div64(q1, z0);
    Div64(64 * a + (16 * x0 + y1), 4 * y0 + z1);
    Div64(a, 16 * x0 + y1);
    assert chunk / 4096 == chunk / 64 / 64 && chunk / 262144 == chunk / 4096 / 64;
  }

  lemma Div64(q: int, r: int)
    requires 0 <= r < 64
    ensures (64 * q + r) / 64 == q && (64 * q + r) % 64 == r
  {
  }

  lemma Split16(x: byte, y: byte, chunk: int)
    requires chunk == x as int * 256 + y as int
    ensures chunk / 1024 % 64 == x / 4 && chunk / 16 % 64 == x % 4 * 16 + y / 16 && chunk % 16 * 4 == y % 16 * 4
  {
    var a: int, x0: int, y1: int, y0: int := x / 4, x % 4, y / 16, y % 16;
    var q1 := 64 * a + (16 * x0 + y1);
    assert chunk == 16 * q1 + y0 && chunk / 16 == q1 && chunk % 16 == y0;
    Div64(a, 16 * x0 + y1);
    assert chunk / 1024 == chunk / 16 / 64;
  }

  /** Three bytes combined into one number and split again. */
  function Chunk24(x: byte, y: byte, z: byte, urlSafe: bool): (s: string)
    ensures s == Quad(x, y, z, urlSafe)
  {
    var chunk := x as int * 65536 + y as int * 256 + z as int;
    Split24(x, y, z, chunk);
    var a, b, c, d := chunk / 262144 % 64, chunk / 4096 % 64, chunk / 64 % 64, chunk % 64;
    [Charset(a, urlSafe), Charset(b, urlSafe), Charset(c, urlSafe), Charset(d, urlSafe)]
  }

  method Encode(data: bytes, urlSafe: bool) returns (s: string)
    ensures s == EncodeAll(data, urlSafe)
  {
    var byteRemainder := |data| % 3;
    var mainLength := |data| - byteRemainder;
    assert mainLength == 3 * (|data| / 3);
    hide EncodeAll;
    var main := EncodeMain(data, mainLength, urlSafe, |data| / 3);
    var tail := EncodeTail(data[mainLength..], urlSafe);
    s := main + tail;
  }

  /** The bytes up to `mainLength`, in chunks of three. */
  method EncodeMain(data: bytes, mainLength: nat, urlSafe: bool, ghost n: nat) returns (s: string)
    requires mainLength == 3 * n && mainLength <= |data|
    ensures s + EncodeAll(data[mainLength..], urlSafe) == EncodeAll(data, urlSafe)
  {
    s := [];
    var i := 0;
    ghost var k := 0;
    assert data[0..] == data && s + EncodeAll(data, urlSafe) == EncodeAll(data, urlSafe);
    hide *;
    while i < mainLength
      invariant k <= n && i == 3 * k
      invariant s + EncodeAll(data[i..], urlSafe) == EncodeAll(data, urlSafe)
    {
      assert k + 1 <= n && i + 3 <= mainLength;
      var quad := Chunk24(data[i], data[i + 1], data[i + 2], urlSafe);
      EncodeStep(data, i, urlSafe, s, quad);
      s := s + quad;
      i := i + 3;
      k := k + 1;
    }
  }

  /** The remaining bytes, fewer than three. */
  method EncodeTail(data: bytes, urlSafe: bool) returns (s: string)
    requires |data| < 3
    ensures s == EncodeAll(data, urlSafe)
  {
    hide Charset;
    s := [];
    if |data| == 1 {
      var chunk: int := data[0];
      var a, b := chunk / 4 % 64, chunk % 4 * 16;
      s := [Charset(a, urlSafe), Charset(b, urlSafe)];
    } else if |data| == 2 {
      var chunk := data[0] as int * 256 + data[1] as int;
      Split16(data[0], data[1], chunk);
      var a, b, c := chunk / 1024 % 64, chunk / 16 % 64, chunk % 16 * 4;
      s := [Charset(a, urlSafe), Charset(b, urlSafe), Charset(c, urlSafe)];
    }
  }

  lemma EncodeStep(data: bytes, i: nat, urlSafe: bool, before: string, quad: string)
    requires i + 3 <= |data| && quad == Quad(data[i], data[i + 1], data[i + 2], urlSafe)
    ensures before + EncodeAll(data[i..], urlSafe) == before + quad + EncodeAll(data[i + 3..], urlSafe)
  {
    hide Charset, Quad;
    assert data[i..][3..] == data[i + 3..];
    assert data[i..][0] == data[i] && data[i..][1] == data[i + 1] && data[i..][2] == data[i + 2];
  }

  /** A store at `p`, lost past the end. */
  method Store(data: array<byte>, p: nat, b: byte)
    modifies data
    ensures data[..] == if p < data.Length then old(data[..])[p := b] else old(data[..])
  {
    if p < data.Length {
      data[p] := b;
    }
  }

  method StoreTriple(data: array<byte>, p: nat, triple: bytes, ghost all: bytes)
    requires |triple| == 3 && p + 3 <= |all| && triple == all[p..p + 3]
    requires forall k :: 0 <= k < p && k < data.Length ==> data[k] == all[k]
    modifies data
    ensures forall k :: 0 <= k < p + 3 && k < data.Length ==> data[k] == all[k]
  {
    assert triple[0] == all[p] && triple[1] == all[p + 1] && triple[2] == all[p + 2];
    Store(data, p, triple[0]);
    Store(data, p + 1, triple[1]);
    Store(data, p + 2, triple[2]);
  }

  lemma DecodeStep(s: string, i: nat, all: bytes, p: nat)
    requires i < |s| && p <= |all| && all[p..] == DecodeFrom(s, i)
    ensures p + 3 <= |all| && all[p..p + 3] == Triple(s, i) && all[p + 3..] == DecodeFrom(s, i + 4)
  {
    hide Triple;
    var rest := DecodeFrom(s, i + 4);
    assert (Triple(s, i) + rest)[..3] == Triple(s, i) && (Triple(s, i) + rest)[3..] == rest;
    assert all[p..][..3] == all[p..p + 3] && all[p..][3..] == all[p + 3..];
  }

  method Decode(input: string) returns (r: bytes)
    ensures r == DecodeAll(input)
  {
    var data := new byte[|input| * 3 / 4](_ => 0);
    var p, i := 0, 0;
    DecodeFromRoom(input);
    ghost var all := DecodeFrom(input, 0);
    assert |all| >= data.Length && DecodeAll(input) == all[..data.Length];
    hide DecodeFrom, DecodeAll, At, Lookup, SixToEight;
    while i < |input|
      invariant p <= |all| && all[p..] == DecodeFrom(input, i)
      invariant forall k :: 0 <= k < p && k < data.Length ==> data[k] == all[k]
    {
      var a, b, c, d := At(input, i), At(input, i + 1), At(input, i + 2), At(input, i + 3);
      var triple := SixToEight(a, b, c, d);
      assert triple == Triple(input, i);
      DecodeStep(input, i, all, p);
      StoreTriple(data, p, triple, all);
      p := p + 3;
      i := i + 4;
    }
    DecodeEnds(input, i);
    assert p == |all|;
    r := data[..];
  }

  lemma DecodeEnds(s: string, i: nat)
    requires i >= |s|
    ensures DecodeFrom(s, i) == []
  {
  }

  // ---- Round trip ----

  lemma BytesBack(x: byte, y: byte, z: byte)
    ensures SixToEight(x / 4, x % 4 * 16 + y / 16, y % 16 * 4 + z / 64, z % 64) == [x, y, z]
  {
  }

  lemma TripleOfQuad(x: byte, y: byte, z: byte, urlSafe: bool, s: string, n: nat)
    requires n <= 4 && n <= |s| && s[..n] == Quad(x, y, z, urlSafe)[..n]
    requires |s| == n || n == 4
    requires n < 4 ==> z == 0
    requires n < 3 ==> y == 0
    requires n >= 2
    ensures Triple(s, 0) == [x, y, z]
  {
    BytesBack(x, y, z);
    var q := Quad(x, y, z, urlSafe);
    forall i: nat | i < 4 ensures At(s, i) == Lookup(q[i]) {
      if i < n {
        assert s[i] == s[..n][i] == q[i];
      }
    }
    LookupCharset(x / 4, urlSafe);
    LookupCharset(x % 4 * 16 + y / 16, urlSafe);
    LookupCharset(y % 16 * 4 + z / 64, urlSafe);
    LookupCharset(z % 64, urlSafe);
  }

  lemma {:induction false} DecodeShift(q: string, s: string, i: nat)
    requires |q| == 4
    ensures DecodeFrom(q + s, i + 4) == DecodeFrom(s, i)
    decreases |s| - i
  {
    if i < |s| {
      assert forall j: nat :: At(q + s, j + 4) == At(s, j);
      DecodeShift(q, s, i + 4);
    }
  }

  lemma DecodeAfterQuad(x: byte, y: byte, z: byte, urlSafe: bool, rest: string)
    ensures DecodeAll(Quad(x, y, z, urlSafe) + rest) == [x, y, z] + DecodeAll(rest)
  {
    var q := Quad(x, y, z, urlSafe);
    var s, decoded := q + rest, DecodeFrom(rest, 0);
    hide At, Quad, Triple;
    assert s[..4] == q[..4];
    TripleOfQuad(x, y, z, urlSafe, s, 4);
    DecodeShift(q, rest, 0);
    DecodeFromRoom(rest);
    assert DecodeFrom(s, 0) == [x, y, z] + decoded;
    var n := |rest| * 3 / 4;
    assert |s| * 3 / 4 == 3 + n;
    assert ([x, y, z] + decoded)[..3 + n] == [x, y, z] + decoded[..n];
  }

  /** Decoding undoes encoding at every length, in both variants. */
  lemma {:induction false} DecodeEncode(data: bytes, urlSafe: bool)
    ensures DecodeAll(EncodeAll(data, urlSafe)) == data
  {
    if |data| >= 3 {
      var s, rest := EncodeAll(data, urlSafe), EncodeAll(data[3..], urlSafe);
      var q := Quad(data[0], data[1], data[2], urlSafe);
      assert s == q + rest;
      hide *;
      DecodeEncode(data[3..], urlSafe);
      DecodeAfterQuad(data[0], data[1], data[2], urlSafe, rest);
      assert data == [data[0], data[1], data[2]] + data[3..];
    } else if |data| > 0 {
      DecodeEncodeShort(data, urlSafe);
    }
  }

  lemma DecodeEncodeShort(data: bytes, urlSafe: bool)
    requires 0 < |data| < 3
    ensures DecodeAll(EncodeAll(data, urlSafe)) == data
  {
    var s := EncodeAll(data, urlSafe);
    hide At, Quad;
    var y := if |data| == 2 then data[1] else 0;
    TripleOfQuad(data[0], y, 0, urlSafe, s, |data| + 1);
    assert DecodeFrom(s, 0) == Triple(s, 0);
    assert [data[0], y, 0][..|data|] == data;
  }

  // ---- Character by character ----

  function ByteAt(data: bytes, k: nat): nat {
    if k < |data| then data[k] else 0
  }

  /** Three bytes from `3 * g` on as a 24-bit number, those past the end 0. */
  function ByteGroup(data: bytes, g: nat): nat {
    ByteAt(data, 3 * g) * 65536 + ByteAt(data, 3 * g + 1) * 256 + ByteAt(data, 3 * g + 2)
  }

  /** The six bits at a place of a 24-bit number, counted from the top. */
  function Sextet(n: nat, j: nat): (d: nat)
    requires j < 4
    ensures d < 64
  {
    (if j == 0 then n / 262144 else if j == 1 then n / 4096 else if j == 2 then n / 64 else n) % 64
  }

  lemma QuadAt(x: byte, y: byte, z: byte, urlSafe: bool, j: nat, chunk: nat)
    requires j < 4 && chunk == x as int * 65536 + y as int * 256 + z as int
    ensures Quad(x, y, z, urlSafe)[j] == Charset(Sextet(chunk, j), urlSafe)
  {
    hide Charset;
    Split24(x, y, z, chunk);
  }

  /** Character `i` stands for six bits: those at place `i % 4` of the three bytes from `3 * (i / 4)` on. */
  lemma {:induction false} EncodedAt(data: bytes, urlSafe: bool, g: nat, j: nat)
    requires j < 4 && 4 * g + j < |EncodeAll(data, urlSafe)|
    ensures EncodeAll(data, urlSafe)[4 * g + j] == Charset(Sextet(ByteGroup(data, g), j), urlSafe)
    decreases |data|
  {
    if g == 0 {
      QuadAt(ByteAt(data, 0), ByteAt(data, 1), ByteAt(data, 2), urlSafe, j, ByteGroup(data, 0));
      hide Charset, Sextet, Quad;
    } else {
      EncodedLength(data, urlSafe);
      GroupShift(data, g);
      hide Charset, Sextet;
      EncodedAt(data[3..], urlSafe, g - 1, j);
    }
  }

  lemma GroupShift(data: bytes, g: nat)
    requires g > 0 && |data| >= 3
    ensures ByteGroup(data[3..], g - 1) == ByteGroup(data, g)
  {
    forall k: nat ensures ByteAt(data[3..], k) == ByteAt(data, k + 3) {
    }
  }

  /** As many characters as six bits at a time need. */
  lemma {:induction false} EncodedLength(data: bytes, urlSafe: bool)
    ensures 3 * (|EncodeAll(data, urlSafe)| - 1) < 4 * |data| <= 3 * |EncodeAll(data, urlSafe)|
    ensures |data| < 3 ==> |EncodeAll(data, urlSafe)| <= 3
  {
    hide Quad;
    if |data| >= 3 {
      EncodedLength(data[3..], urlSafe);
    }
  }

  /** Four characters from `4 * g` on as a 24-bit number, those past the end or outside the alphabets 0. */
  function CharGroup(s: string, g: nat): nat {
    At(s, 4 * g) * 262144 + At(s, 4 * g + 1) * 4096 + At(s, 4 * g + 2) * 64 + At(s, 4 * g + 3)
  }

  function Octet(n: nat, j: nat): nat
    requires j < 3
  {
    (if j == 0 then n / 65536 else if j == 1 then n / 256 else n) % 256
  }

  lemma EightAt(a: int, b: int, c: int, d: int, j: nat, n: nat)
    requires 0 <= a < 64 && 0 <= b < 64 && 0 <= c < 64 && 0 <= d < 64 && j < 3
    requires n == a * 262144 + b * 4096 + c * 64 + d
    ensures SixToEight(a, b, c, d)[j] == Octet(n, j)
  {
    var b1, b0, c1, c0 := b / 16, b % 16, c / 4, c % 4;
    var x, y, z := a * 4 + b1, b0 * 16 + c1, c0 * 64 + d;
    assert n == 65536 * x + 256 * y + z;
    Octets(x, y, z, n);
  }

  lemma Octets(x: nat, y: nat, z: nat, n: nat)
    requires x < 256 && y < 256 && z < 256 && n == 65536 * x + 256 * y + z
    ensures n / 65536 == x && n / 256 % 256 == y && n % 256 == z
  {
    assert n / 256 == 256 * x + y;
  }

  /** Byte `i` is the eight bits at place `i % 3` of the four characters from `4 * (i / 3)` on. */
  lemma DecodedAt(s: string, g: nat, j: nat)
    requires j < 3 && 3 * g + j < |DecodeAll(s)|
    ensures DecodeAll(s)[3 * g + j] == Octet(CharGroup(s, g), j)
  {
    DecodeFromRoom(s);
    DecodedFromAt(s, 0, g, j);
  }

  lemma {:induction false} DecodedFromAt(s: string, i: nat, g: nat, j: nat)
    requires j < 3 && 3 * g + j < |DecodeFrom(s, 4 * i)|
    ensures DecodeFrom(s, 4 * i)[3 * g + j] == Octet(CharGroup(s, i + g), j)
    decreases g
  {
    hide Octet;
    if g == 0 {
      EightAt(At(s, 4 * i), At(s, 4 * i + 1), At(s, 4 * i + 2), At(s, 4 * i + 3), j, CharGroup(s, i));
      hide At, SixToEight;
    } else {
      hide Triple, CharGroup;
      assert DecodeFrom(s, 4 * i) == Triple(s, 4 * i) + DecodeFrom(s, 4 * (i + 1));
      DecodedFromAt(s, i + 1, g - 1, j);
    }
  }

  predicate UriSafe(s: string) {
    forall i :: 0 <= i < |s| ==> s[i] != ':' && s[i] != '/'
  }

  /** The URL-safe text has no character that the scheme of a URI ends in. */
  lemma {:induction false} UrlSafeText(data: bytes)
    ensures UriSafe(EncodeAll(data, true))
  {
    if |data| >= 3 {
      UrlSafeText(data[3..]);
      assert UriSafe(Quad(data[0], data[1], data[2], true));
    }
  }
}
