/** Base58 into a given number of bytes, and with a trailing checksum (Base58.ts). */
module Base58Check {
  import opened Bytes
  import opened Radix
  import opened Base58

  // ---- Fixed size ----

  lemma ReverseAppend(front: bytes, d: byte)
    ensures Reverse(front + [d]) == [d] + Reverse(front)
  {
    hide Reverse;
  }

  /** Big-endian bytes are little-endian bytes reversed. */
  lemma {:induction false} ValueFromLe(ds: bytes)
    ensures Value(ds, 256) == FromLe(Reverse(ds))
  {
    if ds == [] {
      assert Reverse(ds) == [];
    } else {
      var front, d := ds[..|ds| - 1], ds[|ds| - 1];
      assert ds == front + [d];
      ValueFromLe(front);
      ReverseAppend(front, d);
      assert ([d] + Reverse(front))[1..] == Reverse(front);
      ValueAppend(front, d, 256);
      ExtendIs(Value(front, 256), 256, d);
      hide Value, Reverse, Extend;
    }
  }

  lemma ReverseTwice(ds: bytes)
    ensures Reverse(Reverse(ds)) == ds
  {
    hide Reverse;
  }

  /** The big-endian bytes of `n`, padded with zeros to `size`. */
  function Padded(n: nat, size: nat): (bs: bytes)
    ensures |bs| == size
  {
    Reverse(ToLe(n, size))
  }

  /** They are the only bytes of that length with that value. */
  lemma PaddedUnique(n: nat, size: nat, bs: bytes)
    ensures n < Pow256(size) ==> Value(Padded(n, size), 256) == n
    ensures |bs| == size && Value(bs, 256) == n ==> n < Pow256(size) && bs == Padded(n, size)
  {
    if n < Pow256(size) {
      ValueFromLe(Padded(n, size));
      ReverseTwice(ToLe(n, size));
      FromLeToLe(n, size);
    }
    ValueFromLe(bs);
    ReverseTwice(bs);
    ToLeFromLe(Reverse(bs));
  }

  /** The value of the characters before `i`. */
  function Upto(s: string, i: nat): nat
    requires i <= |s| && InAlphabet(s[..i])
  {
    Value(Positions(s[..i]), 58)
  }

  lemma UptoStep(s: string, i: nat)
    requires i < |s| && InAlphabet(s[..i]) && CharMap(s[i]) >= 0
    ensures InAlphabet(s[..i + 1]) && Upto(s, i + 1) == Upto(s, i) * 58 + CharMap(s[i])
  {
    hide CharMap;
    assert Positions(s[..i + 1]) == Positions(s[..i]) + [CharMap(s[i])];
    ValueAppend(Positions(s[..i]), CharMap(s[i]), 58);
    ExtendIs(Upto(s, i), 58, CharMap(s[i]));
  }

  lemma {:induction false} UptoGrows(s: string, i: nat, j: nat)
    requires i <= j <= |s| && InAlphabet(s[..j])
    ensures InAlphabet(s[..i]) && Upto(s, i) <= Upto(s, j)
    decreases j
  {
    assert forall k :: 0 <= k < i ==> s[..i][k] == s[..j][k];
    if i < j {
      assert CharMap(s[..j][j - 1]) >= 0;
      assert forall k :: 0 <= k < j - 1 ==> s[..j - 1][k] == s[..j][k];
      UptoGrows(s, i, j - 1);
      UptoStep(s, j - 1);
    }
  }

  lemma InAlphabetUpto(s: string, j: nat)
    requires j <= |s| && InAlphabet(s[..j])
    ensures forall i :: 0 <= i < j ==> CharMap(s[i]) >= 0
  {
    forall i | 0 <= i < j ensures CharMap(s[i]) >= 0 {
      assert s[..j][i] == s[i];
    }
  }

  /** The inner loop: the number in the array times 58 plus `d`, and what does not fit any more. */
  method ScaleInPlace(result: array<byte>, d: nat, ghost v: nat) returns (carry: nat)
    requires v < Pow256(result.Length) && d < 58 && result[..] == ToLe(v, result.Length)
    modifies result
    ensures carry == 0 <==> v * 58 + d < Pow256(result.Length)
    ensures result[..] == ToLe(v * 58 + d, result.Length)
  {
    carry := d;
    ghost var size, goal := result.Length, ToLe(v * 58 + d, result.Length);
    ghost var u: nat, w: nat := v, v * 58 + d;
    for j := 0 to result.Length
      invariant carry < 58 && w == u * 58 + carry && u < Pow256(size - j)
      invariant v * 58 + d < Pow256(size) <==> w < Pow256(size - j)
      invariant result[j..] == ToLe(u, size - j)
      invariant result[..j] + ToLe(w, size - j) == goal
    {
      ghost var low, tail := result[..j], ToLe(w / 256, size - j - 1);
      assert result[j..][0] == u % 256 && result[j..][1..] == result[j + 1..];
      var x: int := result[j] * 58 + carry;
      assert w == 256 * (u / 256 * 58 + x / 256) + x % 256;
      result[j] := x % 256;
      carry := x / 256;
      assert low + ([x % 256] + tail) == low + [x % 256] + tail;
      assert result[..j + 1] == low + [x % 256];
      u, w := u / 256, w / 256;
    }
    assert result[..] == result[..size] && Pow256(0) == 1;
  }

  method DecodeFixed(s: string, size: nat) returns (r: Decoded)
    ensures r.Data? <==> InAlphabet(s) && Value(Positions(s), 58) < Pow256(size)
    ensures r.Data? ==> r.data == Padded(Value(Positions(s), 58), size)
    ensures r == Failed(ValueOutOfRange) <==>
              exists i :: 0 < i <= |s| && InAlphabet(s[..i]) && Upto(s, i) >= Pow256(size)
    ensures r.Failed? && r.error != ValueOutOfRange ==> r.error == InvalidCharacter && !InAlphabet(s)
  {
    var result := new byte[size](_ => 0);
    ZeroBytes(size);
    assert result[..] == ToLe(0, size);
    assert s[..|s|] == s;
    for i := 0 to |s|
      invariant InAlphabet(s[..i]) && Upto(s, i) < Pow256(size) && result[..] == ToLe(Upto(s, i), size)
    {
      var carry := CharMap(s[i]);
      if carry < 0 {
        forall j | 0 < j <= |s| && InAlphabet(s[..j]) ensures Upto(s, j) < Pow256(size) {
          InAlphabetUpto(s, j);
          UptoGrows(s, j, i);
        }
        assert !InAlphabet(s);
        return Failed(InvalidCharacter);
      }
      UptoStep(s, i);
      var over := ScaleInPlace(result, carry, Upto(s, i));
      if over != 0 {
        assert 0 < i + 1 <= |s|;
        if InAlphabet(s) {
          UptoGrows(s, i + 1, |s|);
        }
        return Failed(ValueOutOfRange);
      }
    }
    forall j | 0 < j <= |s| && InAlphabet(s[..j]) ensures Upto(s, j) < Pow256(size) {
      UptoGrows(s, j, |s|);
    }
    r := Data(Reverse(result[..]));
  }

  lemma {:induction false} ZeroBytes(size: nat)
    ensures ToLe(0, size) == seq(size, _ => 0)
  {
    if size > 0 {
      ZeroBytes(size - 1);
    }
  }

  /** Fixed-size decoding gives what variable-size decoding gives, up to zero bytes in front. */
  lemma FixedAgrees(s: string, size: nat)
    requires InAlphabet(s)
    ensures Value(Positions(s), 58) < Pow256(size) ==>
              Value(Padded(Value(Positions(s), 58), size), 256) == Value(BytesOf(s), 256)
  {
    PaddedUnique(Value(Positions(s), 58), size, []);
    var ds := Positions(s);
    SpelledParts(LeadingZeros(ds), Value(ds, 58), 256);
  }

  // ---- Checksums ----

  /** The first four bytes of a digest, of whatever hash and suffix. */
  type Checksum = f: bytes -> bytes | forall d :: |f(d)| == 4 witness (d => [0, 0, 0, 0])

  method EncodeCheck(data: bytes, checksum: Checksum) returns (s: string)
    ensures s == Base58Of(data + checksum(data))
  {
    s := Encode(data + checksum(data));
  }

  /** `subarray(0, -4)` against `subarray(-4)`, which are the whole when there are fewer bytes. */
  method Verify(decoded: bytes, checksum: Checksum) returns (r: Decoded)
    ensures forall d :: r == Data(d) <==> decoded == d + checksum(d)
    ensures r.Failed? ==> r.error == ChecksumMismatch
  {
    var cut := if |decoded| < 4 then 0 else |decoded| - 4;
    var data, expected := decoded[..cut], decoded[cut..];
    var actual := checksum(data);
    assert decoded == data + expected;
    forall d | decoded == d + checksum(d) ensures data == d && expected == checksum(d) {
      assert |decoded| == |d| + 4;
    }
    r := if expected == actual then Data(data) else Failed(ChecksumMismatch);
  }

  /** The texts accepted are exactly those `encodeCheck` writes, and each gives back its data. */
  method DecodeCheck(s: string, checksum: Checksum) returns (r: Decoded)
    ensures forall d :: r == Data(d) <==> s == Base58Of(d + checksum(d))
  {
    r := DecodeVar(s);
    if r.Failed? {
      forall d ensures s != Base58Of(d + checksum(d)) {
        BytesOfBase58Of(d + checksum(d));
      }
      return;
    }
    ghost var decoded := r.data;
    r := Verify(r.data, checksum);
    forall d ensures decoded == d + checksum(d) <==> s == Base58Of(d + checksum(d)) {
      BytesOfBase58Of(d + checksum(d));
      Base58OfBytesOf(s);
    }
  }

  /** `n` is the number whose bytes are `d`, of that size, with its checksum. */
  predicate Carries(n: nat, size: nat, d: bytes, checksum: Checksum) {
    |d| == size && n == Value(d + checksum(d), 256)
  }

  lemma CarriesPadded(n: nat, size: nat, total: nat, d: bytes, checksum: Checksum)
    requires total == size + 4
    ensures Carries(n, size, d, checksum) <==> n < Pow256(total) && Padded(n, total) == d + checksum(d)
  {
    var all := d + checksum(d);
    assert |all| == |d| + 4;
    hide Value, Padded;
    PaddedUnique(n, total, all);
  }

  /** With a size, the texts accepted are those whose number is that of data of that size with its checksum. */
  method DecodeCheckFixed(s: string, size: nat, checksum: Checksum) returns (r: Decoded)
    ensures forall d :: r == Data(d) <==> InAlphabet(s) && Carries(Value(Positions(s), 58), size, d, checksum)
  {
    hide *;
    r := DecodeFixed(s, size + 4);
    if InAlphabet(s) {
      forall d ensures Carries(Value(Positions(s), 58), size, d, checksum) <==>
                       r.Data? && r.data == d + checksum(d) {
        CarriesPadded(Value(Positions(s), 58), size, size + 4, d, checksum);
      }
    }
    if r.Failed? {
      return;
    }
    r := Verify(r.data, checksum);
  }

  /** Data written with its checksum and read back at its own size. */
  lemma CheckedDataFits(data: bytes, checksum: Checksum)
    ensures var s := Base58Of(data + checksum(data));
            InAlphabet(s) && Carries(Value(Positions(s), 58), |data|, data, checksum)
  {
    var all := data + checksum(data);
    var zeros, v := LeadingZeros(all), Value(all, 256);
    SpelledParts(zeros, v, 58);
    PositionsSpell(Spelled(zeros, v, 58));
  }
}
