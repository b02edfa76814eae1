/**
 The variable-length integers of the ABI format (serializer/Varuint.ts and the
 varuint/varint methods of ABIEncoder and ABIDecoder), as functions on byte sequences.
 */
module Varint {
  import opened Bytes

  const TWO32: nat := 0x1_0000_0000

  /** JavaScript's ToUint32, the coercion behind `>>>`. */
  function ToUint32(v: int): (u: nat)
    ensures u < TWO32
  {
    v % 0x1_0000_0000
  }

  /** JavaScript's ToInt32, the coercion behind `<<`, `>>` and `^`. */
  function ToInt32(v: int): (i: int)
    ensures -0x8000_0000 <= i < 0x8000_0000
  {
    var u := v % 0x1_0000_0000; if u < 0x8000_0000 then u else u - 0x1_0000_0000
  }

  predicate IsInt32(v: int) { -0x8000_0000 <= v < 0x8000_0000 }

  /** Base-128 digits, least significant first, every byte but the last with its top bit set. */
  function Varuint(v: nat): (bs: bytes)
    ensures bs != []
  {
    if v < 128 then [v] else [128 + v % 128] + Varuint(v / 128)
  }

  /** One more than the largest value a varuint32 can still carry from its byte `k` on. */
  function Room(k: nat): nat
    requires k < 5
  {
    if k == 0 then TWO32
    else if k == 1 then 0x200_0000
    else if k == 2 then 0x4_0000
    else if k == 3 then 0x800
    else 0x10
  }

  /**
   The number read from byte `k` of a varuint32 on. The fifth byte ends it whatever its
   continuation flag says, and only its low four bits fit into 32.
   */
  function ReadVaruintAt(s: bytes, k: nat): (p: Parsed<nat>)
    requires k < 5
    ensures p.Done? ==> p.value < Room(k) && |p.rest| < |s|
    ensures p.Fail? ==> p.error == PastEnd
    decreases 5 - k
  {
    if s == [] then Fail(PastEnd)
    else if k == 4 then Done(s[0] % 16, s[1..])
    else if s[0] < 128 then Done(s[0], s[1..])
    else
      var tail := ReadVaruintAt(s[1..], k + 1);
      if tail.Fail? then tail else Done(s[0] % 128 + 128 * tail.value, tail.rest)
  }

  function ReadVaruint(s: bytes): (p: Parsed<nat>)
    ensures p.Done? ==> p.value < TWO32 && |p.rest| < |s|
    ensures p.Fail? ==> p.error == PastEnd
  {
    ReadVaruintAt(s, 0)
  }

  /** The number of seven-bit groups, least significant first, whatever their top bits. */
  function Groups(bs: bytes): nat {
    if bs == [] then 0 else bs[0] % 128 + 128 * Groups(bs[1..])
  }

  /** All bytes but the last have the top bit set. */
  predicate Continued(bs: bytes) {
    bs != [] && forall i :: 0 <= i < |bs| - 1 ==> bs[i] >= 128
  }

  /** What is written: the groups of the number, as few as it takes. */
  lemma {:induction false} VaruintSpelled(v: nat)
    ensures var bs := Varuint(v);
            && Continued(bs) && Groups(bs) == v
            && bs[|bs| - 1] < 128 && (|bs| > 1 ==> bs[|bs| - 1] > 0)
  {
    if v >= 128 {
      VaruintSpelled(v / 128);
      var bs, rest := Varuint(v), Varuint(v / 128);
      assert bs[1..] == rest;
      assert forall i :: 0 < i < |bs| ==> bs[i] == rest[i - 1];
    } else {
      assert Varuint(v)[1..] == [];
    }
  }

  /** What is read: the groups up to the first byte without its top bit, or five of them, modulo 2^32. */
  lemma ReadVaruintSpelled(s: bytes, n: nat)
    requires 1 <= n <= 5 && n <= |s| && Continued(s[..n]) && (s[n - 1] < 128 || n == 5)
    ensures ReadVaruint(s) == Done(Groups(s[..n]) % TWO32, s[n..])
  {
    ReadGroups(s, 0, n);
  }

  /** There is nothing to read where the input ends before that. */
  lemma {:induction false} ReadVaruintEnds(s: bytes, k: nat)
    requires k < 5 && |s| < 5 - k && forall i :: 0 <= i < |s| ==> s[i] >= 128
    ensures ReadVaruintAt(s, k) == Fail(PastEnd)
  {
    if s != [] {
      ReadVaruintEnds(s[1..], k + 1);
    }
  }

  lemma {:induction false} ReadGroups(s: bytes, k: nat, n: nat)
    requires k + n <= 5 && 1 <= n <= |s| && Continued(s[..n]) && (s[n - 1] < 128 || k + n == 5)
    ensures var p := ReadVaruintAt(s, k);
            p == Done(Groups(s[..n]) % Room(k), s[n..])
    decreases n
  {
    var g := s[..n];
    if n == 1 {
      OneGroup(s, k);
    } else {
      assert s[1..][..n - 1] == g[1..] && s[1..][n - 1..] == s[n..];
      assert g[0] >= 128;
      ReadGroups(s[1..], k + 1, n - 1);
      GroupModulo(s[0] % 128, Groups(g[1..]), k);
    }
  }

  lemma OneGroup(s: bytes, k: nat)
    requires k < 5 && s != [] && (s[0] < 128 || k == 4)
    ensures ReadVaruintAt(s, k) == Done(Groups(s[..1]) % Room(k), s[1..])
  {
    assert s[..1][1..] == [] && Groups(s[..1]) == s[0] % 128;
    if k == 4 {
      LowFour(s[0]);
    } else {
      SmallModulo(s[0], Room(k));
    }
  }

  lemma LowFour(b: byte)
    ensures b % 128 % 16 == b % 16
  {
  }

  lemma SmallModulo(b: byte, m: nat)
    requires b < 128 <= m
    ensures b % 128 % m == b
  {
  }

  lemma GroupModulo(low: nat, high: nat, k: nat)
    requires k < 4 && low < 128
    ensures low + 128 * (high % Room(k + 1)) == (low + 128 * high) % Room(k)
  {
    var m := Room(k + 1);
    var q, r := high / m, high % m;
    assert Room(k) == 128 * m && high == m * q + r;
    assert low + 128 * high == 128 * m * q + (low + 128 * r);
    Quotient(low + 128 * high, 128 * m, q, low + 128 * r);
  }

  /** Zigzag: sign in bit 0, so small magnitudes stay short. */
  function ZigZag(v: int): (u: nat)
    requires IsInt32(v)
    ensures u < TWO32
  {
    if v >= 0 then 2 * v else -2 * v - 1
  }

  function UnZigZag(u: nat): (v: int)
    requires u < TWO32
    ensures IsInt32(v)
  {
    if u % 2 == 1 then -(u / 2) - 1 else u / 2
  }

  /** The input left over is what follows the bytes consumed. */
  lemma {:induction false} ReadVaruintSuffix(s: bytes, k: nat)
    requires k < 5 && ReadVaruintAt(s, k).Done?
    ensures Suffix(ReadVaruintAt(s, k).rest, s)
    decreases 5 - k
  {
    if k < 4 && s[0] >= 128 {
      ReadVaruintSuffix(s[1..], k + 1);
    }
  }

  lemma {:induction false} VaruintLength(v: nat, k: nat)
    requires k < 5 && v < Room(k)
    ensures 1 <= |Varuint(v)| <= 5 - k
    decreases 5 - k
  {
    if v >= 128 {
      VaruintLength(v / 128, k + 1);
    }
  }

  lemma {:induction false} ReadVaruintAtVaruint(v: nat, k: nat, rest: bytes)
    requires k < 5 && v < Room(k)
    ensures ReadVaruintAt(Varuint(v) + rest, k) == Done(v, rest)
    decreases 5 - k
  {
    var s := Varuint(v) + rest;
    if v < 128 {
      assert s[1..] == rest;
    } else {
      assert s[1..] == Varuint(v / 128) + rest;
      ReadVaruintAtVaruint(v / 128, k + 1, rest);
    }
  }

  /** Any uint32 written in front of any bytes is read back, and nothing more is consumed. */
  lemma ReadVaruintOfVaruint(v: nat, rest: bytes)
    requires v < TWO32
    ensures ReadVaruint(Varuint(v) + rest) == Done(v, rest)
  {
    ReadVaruintAtVaruint(v, 0, rest);
  }

  lemma UnZigZagOfZigZag(v: int)
    requires IsInt32(v)
    ensures UnZigZag(ZigZag(v)) == v
  {
  }

  lemma ZigZagOfUnZigZag(u: nat)
    requires u < TWO32
    ensures ZigZag(UnZigZag(u)) == u
  {
  }

  lemma ToUint32Small(u: nat)
    ensures ToUint32(u) == u <==> u < TWO32
  {
  }

  lemma ToInt32Small(v: int)
    ensures ToInt32(v) == v <==> IsInt32(v)
  {
  }

  /** The reader also takes padded forms; the written form is the shortest that reads as its value. */
  lemma {:induction false} VaruintShortest(s: bytes, k: nat)
    requires k < 5 && ReadVaruintAt(s, k).Done?
    ensures var p := ReadVaruintAt(s, k); |Varuint(p.value)| <= |s| - |p.rest|
    decreases 5 - k
  {
    if k < 4 && s[0] >= 128 {
      VaruintShortest(s[1..], k + 1);
    }
  }

  /** `(b & 0x7f) << bit` as an unsigned 32-bit number: at bit 28 only four of the seven bits fit. */
  function ShiftedGroup(b: byte, bit: nat): nat
  {
    if bit == 0 then b % 128
    else if bit == 7 then b % 128 * 0x80
    else if bit == 14 then b % 128 * 0x4000
    else if bit == 21 then b % 128 * 0x20_0000
    else b % 16 * 0x1000_0000
  }

  function Pow2(k: nat): (p: nat)
    ensures p > 0
  {
    if k == 0 then 1 else 2 * Pow2(k - 1)
  }

  /** `x | y`, bit by bit. */
  function BitOr(x: nat, y: nat): nat {
    if x == 0 then y
    else if y == 0 then x
    else 2 * BitOr(x / 2, y / 2) + if x % 2 == 1 || y % 2 == 1 then 1 else 0
  }

  /** OR-ing in bits above all those set is addition. */
  lemma {:induction false} OrIsSum(v: nat, k: nat, n: nat)
    requires v < Pow2(k)
    ensures BitOr(v, n * Pow2(k)) == v + n * Pow2(k)
    decreases k
  {
    if k > 0 && v > 0 && n > 0 {
      var y := n * Pow2(k);
      Doubled(n, Pow2(k - 1));
      assert y == 2 * (n * Pow2(k - 1));
      assert y / 2 == n * Pow2(k - 1) && y % 2 == 0;
      OrIsSum(v / 2, k - 1, n);
    }
  }

  lemma Doubled(n: nat, p: nat)
    ensures n * (2 * p) == 2 * (n * p)
  {
  }

  /** `v | ((b & 0x7f) << bit)` in 32 bits, where `v` has no bit from `bit` on. */
  function OrGroup(v: nat, b: byte, bit: nat): nat {
    BitOr(v, ToUint32(b % 128 * Pow2(bit)))
  }

  lemma GroupPowers()
    ensures Pow2(0) == 1 && Pow2(7) == 0x80 && Pow2(14) == 0x4000 && Pow2(21) == 0x20_0000 && Pow2(28) == 0x1000_0000
  {
    assert Pow2(7) == 2 * (2 * (2 * (2 * (2 * (2 * (2 * Pow2(0)))))));
    assert Pow2(14) == 2 * (2 * (2 * (2 * (2 * (2 * (2 * Pow2(7)))))));
    assert Pow2(21) == 2 * (2 * (2 * (2 * (2 * (2 * (2 * Pow2(14)))))));
    assert Pow2(28) == 2 * (2 * (2 * (2 * (2 * (2 * (2 * Pow2(21)))))));
  }

  /** What the loop ORs in is the group at its place, less the bits past the 32nd. */
  lemma OrGroupIs(v: nat, b: byte, k: nat)
    requires k < 5 && v < Pow2(7 * k)
    ensures OrGroup(v, b, 7 * k) == v + ShiftedGroup(b, 7 * k)
    ensures k < 4 ==> v + ShiftedGroup(b, 7 * k) < Pow2(7 * (k + 1))
  {
    GroupPowers();
    var n := if k < 4 then b % 128 else b % 16;
    assert 7 * k == 0 || 7 * k == 7 || 7 * k == 14 || 7 * k == 21 || 7 * k == 28;
    assert ShiftedGroup(b, 7 * k) == n * Pow2(7 * k);
    ShiftCut(b, k);
    hide Pow2, ToUint32, ShiftedGroup;
    OrIsSum(v, 7 * k, n);
  }

  lemma ShiftCut(b: byte, k: nat)
    requires k < 5
    ensures ToUint32(b % 128 * Pow2(7 * k)) == (if k < 4 then b % 128 else b % 16) * Pow2(7 * k)
  {
    GroupPowers();
    hide Pow2;
    hide ToUint32;
    if k == 4 {
      CutAt28(b % 128);
    } else {
      assert k == 0 || k == 1 || k == 2 || k == 3;
      ToUint32Small(b % 128 * Pow2(7 * k));
    }
  }

  lemma CutAt28(g: nat)
    requires g < 128
    ensures ToUint32(g * 0x1000_0000) == g % 16 * 0x1000_0000
  {
    var q, r := g / 16, g % 16;
    assert g * 0x1000_0000 == 0x1_0000_0000 * q + 0x1000_0000 * r;
    ModDrops2To32(0x1000_0000 * r, q);
  }

  /** `n` as the part of a varuint32 from byte `k` on. */
  function Placed(n: nat, k: nat): nat
  {
    if k == 0 then n
    else if k == 1 then n * 0x80
    else if k == 2 then n * 0x4000
    else if k == 3 then n * 0x20_0000
    else n * 0x1000_0000
  }

  /** The outcome of the decoder's loop that has gathered `v` from the bytes before byte `k`. */
  ghost function Resumed(s: bytes, k: nat, v: nat): Parsed<nat>
    requires k < 5
  {
    match ReadVaruintAt(s, k)
    case Done(n, rest) => Done(v + Placed(n, k), rest)
    case Fail(e) => Fail(e)
  }

  /** One turn of that loop. */
  lemma ResumedStep(s: bytes, k: nat, v: nat)
    requires k < 5 && s != []
    ensures var next := v + ShiftedGroup(s[0], 7 * k);
            Resumed(s, k, v) == if s[0] < 128 || k == 4 then Done(next, s[1..]) else Resumed(s[1..], k + 1, next)
  {
    if k == 4 {
    } else if s[0] < 128 {
      assert s[0] % 128 == s[0];
    } else {
      var tail := ReadVaruintAt(s[1..], k + 1);
      if tail.Done? {
        var b: int, n: int := s[0] % 128, tail.value;
        assert Placed(b + 128 * n, k) == ShiftedGroup(s[0], 7 * k) + Placed(n, k + 1);
      }
    }
  }

  /** `(v << 1) ^ (v >> 31)`: doubled in 32 bits, and complemented when negative. */
  function ZigZagBits(v: int): (z: int)
    ensures ToUint32(z) == ZigZag(ToInt32(v))
  {
    var doubled := ToInt32(2 * v);
    DoubledInt32(v);
    if ToInt32(v) < 0 then -doubled - 1 else doubled
  }

  lemma DoubledInt32(v: int)
    ensures ToInt32(2 * v) == ToInt32(2 * ToInt32(v))
  {
    var q, u := v / 0x1_0000_0000, v % 0x1_0000_0000;
    var k := if u < 0x8000_0000 then 2 * q else 2 * q + 2;
    assert 2 * v == 2 * ToInt32(v) + 0x1_0000_0000 * k;
    ModDrops2To32(2 * ToInt32(v), k);
  }

  lemma ModDrops2To32(u: int, k: int)
    ensures (u + 0x1_0000_0000 * k) % 0x1_0000_0000 == u % 0x1_0000_0000
  {
  }

  lemma ToUint32Low(w: int)
    ensures w % 128 == ToUint32(w) % 128
    ensures ToUint32(w) < 256 ==> w % 256 == ToUint32(w)
    ensures ToUint32(ToUint32(w) / 128) == ToUint32(w) / 128
  {
    var q, u := w / 0x1_0000_0000, w % 0x1_0000_0000;
    ModDrops128(u, 0x200_0000 * q);
    ModDrops256(u, 0x100_0000 * q);
    var h := u / 128;
    assert h < 0x200_0000;
    assert h % 0x1_0000_0000 == h;
  }

  lemma ModDrops128(u: int, k: int)
    ensures (u + 128 * k) % 128 == u % 128
  {
  }

  lemma ModDrops256(u: int, k: int)
    ensures (u + 256 * k) % 256 == u % 256
  {
  }
}
