/** The Base58 text codec (Base58.ts): bytes as a number rewritten from base 256 to base 58 and back. */
module Base58 {
  import opened Bytes
  import opened Radix

  datatype DecodingError = InvalidCharacter | ValueOutOfRange | ChecksumMismatch

  datatype Decoded = Data(data: bytes) | Failed(error: DecodingError)

  /** The alphabet by position: 1-9, A-H, J-N, P-Z, a-k, m-z. */
  function Char(d: nat): (c: char)
    requires d < 58
  {
    if d < 9 then (d + 49) as char
    else if d < 17 then (d + 56) as char
    else if d < 22 then (d + 57) as char
    else if d < 33 then (d + 58) as char
    else if d < 44 then (d + 64) as char
    else (d + 65) as char
  }

  /** The table of positions, -1 for characters that have none. */
  function CharMap(c: char): (d: int)
    ensures -1 <= d < 58
  {
    if '1' <= c <= '9' then c as int - 49
    else if 'A' <= c <= 'H' then c as int - 56
    else if 'J' <= c <= 'N' then c as int - 57
    else if 'P' <= c <= 'Z' then c as int - 58
    else if 'a' <= c <= 'k' then c as int - 64
    else if 'm' <= c <= 'z' then c as int - 65
    else -1
  }

  lemma CharsInverse(d: nat, c: char)
    ensures d < 58 ==> CharMap(Char(d)) == d
    ensures CharMap(c) >= 0 ==> Char(CharMap(c)) == c
    ensures c == '1' <==> CharMap(c) == 0
  {
  }

  /** The digits but 0, the capitals but I and O, the small letters but l, in the order of their codes. */
  lemma Alphabet(c: char, d: nat)
    ensures CharMap(c) >= 0 <==>
              '1' <= c <= '9' || ('A' <= c <= 'Z' && c != 'I' && c != 'O') || ('a' <= c <= 'z' && c != 'l')
    ensures d < 57 ==> Char(d) < Char(d + 1)
  {
  }

  predicate InAlphabet(s: string) {
    forall i :: 0 <= i < |s| ==> CharMap(s[i]) >= 0
  }

  function Spell(ds: digits): (s: string)
    requires AreDigits(ds, 58)
    ensures |s| == |ds|
  {
    seq(|ds|, i requires 0 <= i < |ds| => Char(ds[i]))
  }

  function Positions(s: string): (ds: digits)
    requires InAlphabet(s)
    ensures |ds| == |s| && AreDigits(ds, 58)
  {
    seq(|s|, i requires 0 <= i < |s| => CharMap(s[i]))
  }

  lemma SpellPositions(s: string)
    requires InAlphabet(s)
    ensures Spell(Positions(s)) == s
  {
    forall i | 0 <= i < |s| ensures Spell(Positions(s))[i] == s[i] {
      CharsInverse(0, s[i]);
    }
  }

  lemma PositionsSpell(ds: digits)
    requires AreDigits(ds, 58)
    ensures InAlphabet(Spell(ds)) && Positions(Spell(ds)) == ds
  {
    forall i | 0 <= i < |ds| ensures CharMap(Spell(ds)[i]) == ds[i] {
      CharsInverse(ds[i], ' ');
    }
  }

  /** The text for a byte string: a `1` for each leading zero byte, then its value in base 58. */
  function Base58Of(data: bytes): (s: string)
  {
    SpelledParts(LeadingZeros(data), Value(data, 256), 58);
    Spell(Spelled(LeadingZeros(data), Value(data, 256), 58))
  }

  /** The bytes for a text over the alphabet: a zero byte for each leading `1`, then its value in base 256. */
  function BytesOf(s: string): (data: bytes)
    requires InAlphabet(s)
  {
    var ds := Positions(s);
    SpelledParts(LeadingZeros(ds), Value(ds, 58), 256);
    AsBytes(Spelled(LeadingZeros(ds), Value(ds, 58), 256))
  }

  function AsBytes(ds: digits): (bs: bytes)
    requires AreDigits(ds, 256)
    ensures bs == ds
  {
    seq(|ds|, i requires 0 <= i < |ds| => ds[i])
  }

  // ---- The loops ----

  /** Base-58 digits, least significant first, times 256 plus `carry`: the loops of `encode`. */
  function Times256(ds: digits, carry: nat): (r: digits)
    ensures AreDigits(r, 58)
  {
    if ds == [] then Minimal(carry, 58)
    else [Rem(ds[0] * 256 + carry, 58)] + Times256(ds[1..], Quo(ds[0] * 256 + carry, 58))
  }

  /** Bytes, least significant first, times 58 plus `carry`: the loop of `decode`. */
  function Times58(ds: digits, carry: nat): (r: digits)
    ensures AreDigits(r, 256)
  {
    if ds == [] then Minimal(carry, 256)
    else [Rem(ds[0] * 58 + carry, 256)] + Times58(ds[1..], Quo(ds[0] * 58 + carry, 256))
  }

  /** `v * m + carry`, one digit of `v` at a time. */
  lemma Carried(v: nat, base: nat, m: nat, carry: nat)
    requires v > 0 && base >= 2 && m > 0
    ensures var x := Rem(v, base) * m + carry;
            var n := Quo(v, base) * m + Quo(x, base);
            v * m + carry == Extend(n, base, Rem(x, base)) && v * m + carry > 0
  {
    var q, r := Quo(v, base), Rem(v, base);
    var x := r * m + carry;
    DivModSum(v, base);
    DivModSum(x, base);
    var c, d := Quo(x, base), Rem(x, base);
    MulMore(v, 0, m);
    hide Quo, Rem;
    Regroup(q, r, base, m, carry, c, d);
  }

  lemma Regroup(q: nat, r: nat, base: nat, m: nat, carry: nat, c: nat, d: nat)
    requires r * m + carry == c * base + d
    ensures (q * base + r) * m + carry == (q * m + c) * base + d
  {
    assert (q * base + r) * m == q * base * m + r * m;
    assert q * base * m == q * m * base;
    assert (q * m + c) * base == q * m * base + c * base;
  }

  lemma MinimalExtend(total: nat, n: nat, base: nat, d: nat)
    requires base >= 2 && d < base && total == Extend(n, base, d) && total > 0
    ensures Minimal(total, base) == [d] + Minimal(n, base)
  {
    ExtendZero(n, base, d);
    MinimalStep(n, base, d);
  }

  /** On the digits of a number they give the digits of the result. */
  lemma {:induction false} Times256Minimal(v: nat, carry: nat, total: nat)
    requires total == v * 256 + carry
    ensures Times256(Minimal(v, 58), carry) == Minimal(total, 58)
    decreases v
  {
    if v > 0 {
      var q, r := Quo(v, 58), Rem(v, 58);
      var x := r * 256 + carry;
      var c, d := Quo(x, 58), Rem(x, 58);
      var n := q * 256 + c;
      DivLess(v, 58);
      MinimalUnfold(v, 58);
      Times256Unfold(Minimal(v, 58), carry, x);
      Carried(v, 58, 256, carry);
      ExtendZero(n, 58, d);
      hide *;
      Times256Minimal(q, c, n);
      MinimalExtend(total, n, 58, d);
    }
  }

  lemma Times256Unfold(ds: digits, carry: nat, x: nat)
    requires ds != [] && x == ds[0] * 256 + carry
    ensures Times256(ds, carry) == [Rem(x, 58)] + Times256(ds[1..], Quo(x, 58))
  {
    hide Rem, Quo, Minimal, AreDigits;
  }

  lemma {:induction false} Times58Minimal(v: nat, carry: nat, total: nat)
    requires total == v * 58 + carry
    ensures Times58(Minimal(v, 256), carry) == Minimal(total, 256)
    decreases v
  {
    if v > 0 {
      var q, r := Quo(v, 256), Rem(v, 256);
      var x := r * 58 + carry;
      var c, d := Quo(x, 256), Rem(x, 256);
      var n := q * 58 + c;
      DivLess(v, 256);
      MinimalUnfold(v, 256);
      Times58Unfold(Minimal(v, 256), carry, x);
      Carried(v, 256, 58, carry);
      ExtendZero(n, 256, d);
      hide *;
      Times58Minimal(q, c, n);
      MinimalExtend(total, n, 256, d);
    }
  }

  lemma Times58Unfold(ds: digits, carry: nat, x: nat)
    requires ds != [] && x == ds[0] * 58 + carry
    ensures Times58(ds, carry) == [Rem(x, 256)] + Times58(ds[1..], Quo(x, 256))
  {
    hide Rem, Quo, Minimal, AreDigits;
  }

  lemma ExtendIs(v: nat, base: nat, d: nat)
    ensures Extend(v, base, d) == v * base + d
  {
  }

  lemma SpellConcat(a: digits, b: digits)
    requires AreDigits(a, 58) && AreDigits(b, 58)
    ensures AreDigits(a + b, 58) && Spell(a + b) == Spell(a) + Spell(b)
  {
  }

  /** One more byte into base-58 characters kept least significant first. */
  method AppendByte(before: string, b: byte, ghost ds: digits) returns (result: string)
    requires AreDigits(ds, 58) && before == Spell(ds)
    ensures result == Spell(Times256(ds, b))
  {
    result := before;
    var carry: nat := b;
    ghost var done: digits := [];
    assert ds[0..] == ds && ds[|ds|..] == [] && [] + Times256(ds, b) == Times256(ds, b);
    assert Spell(done) + Spell(ds)[0..] == Spell(ds);
    hide *;
    for j := 0 to |before|
      invariant |done| == j && AreDigits(done, 58)
      invariant result == Spell(done) + Spell(ds)[j..]
      invariant done + Times256(ds[j..], carry) == Times256(ds, b)
    {
      AreDigitsAt(ds, 58, j);
      CharsInverse(ds[j], ' ');
      SpelledAt(done, ds, j, 0);
      var x: nat := CharMap(result[j]) * 256 + carry;
      SpelledAt(done, ds, j, Rem(x, 58));
      result := result[j := Char(Rem(x, 58))];
      Times256Step(ds, j, carry, done, x);
      AreDigitsAppend(done, Rem(x, 58), 58);
      done := done + [Rem(x, 58)];
      carry := Quo(x, 58);
    }
    assert Spell(ds)[|ds|..] == [] && Spell(done) + [] == Spell(done);
    Times256Empty(carry);
    result := AppendCarry(result, carry, done);
  }

  lemma AreDigitsAt(ds: digits, base: nat, j: nat)
    requires AreDigits(ds, base) && j < |ds|
    ensures ds[j] < base
  {
  }

  lemma AreDigitsAppend(ds: digits, d: nat, base: nat)
    requires AreDigits(ds, base) && d < base
    ensures AreDigits(ds + [d], base)
  {
  }

  lemma Times256Empty(carry: nat)
    ensures Times256([], carry) == Minimal(carry, 58)
  {
  }

  lemma SpelledAt(done: digits, ds: digits, j: nat, d: nat)
    requires AreDigits(done, 58) && AreDigits(ds, 58) && |done| == j < |ds| && d < 58
    ensures AreDigits(done + [d], 58)
    ensures var s := Spell(done) + Spell(ds)[j..];
            s[j] == Char(ds[j]) && s[j := Char(d)] == Spell(done + [d]) + Spell(ds)[j + 1..]
  {
    hide Char;
  }

  lemma Times256Step(ds: digits, j: nat, carry: nat, done: digits, x: nat)
    requires j < |ds| && x == ds[j] * 256 + carry
    ensures done + Times256(ds[j..], carry) == done + [Rem(x, 58)] + Times256(ds[j + 1..], Quo(x, 58))
  {
    assert ds[j..][0] == ds[j] && ds[j..][1..] == ds[j + 1..];
    Times256Unfold(ds[j..], carry, x);
    hide Times256, Rem, Quo;
  }

  /** `while (carry)`: pushes what is left, digit by digit. */
  method AppendCarry(before: string, carry0: nat, ghost ds: digits) returns (result: string)
    requires AreDigits(ds, 58) && before == Spell(ds)
    ensures AreDigits(ds + Minimal(carry0, 58), 58) && result == Spell(ds + Minimal(carry0, 58))
  {
    result := before;
    var carry := carry0;
    ghost var done := ds;
    assert Minimal(0, 58) == [];
    hide Minimal, Spell, Quo, Rem, Char;
    while carry != 0
      invariant AreDigits(done, 58) && result == Spell(done)
      invariant done + Minimal(carry, 58) == ds + Minimal(carry0, 58)
    {
      DivLess(carry, 58);
      MinimalUnfold(carry, 58);
      var d := Rem(carry, 58);
      ghost var rest := Minimal(Quo(carry, 58), 58);
      assert Minimal(carry, 58) == [d] + rest;
      Reassociate(done, [d], rest);
      SpellConcat(done, [d]);
      SpellSingle(d);
      result := result + [Char(d)];
      done := done + [d];
      carry := Quo(carry, 58);
    }
    assert done + [] == done;
  }

  lemma Reassociate(a: digits, b: digits, c: digits)
    ensures a + (b + c) == a + b + c
  {
  }

  lemma SpellSingle(d: nat)
    requires d < 58
    ensures Spell([d]) == [Char(d)]
  {
  }

  /** The base-58 characters of the value read so far, least significant first. */
  function Written(data: bytes): string {
    Spell(Minimal(Value(data, 256), 58))
  }

  lemma WrittenAppend(data: bytes, b: byte)
    ensures Written(data + [b]) == Spell(Times256(Minimal(Value(data, 256), 58), b))
  {
    hide Spell, Minimal, Value, Times256;
    var v := Value(data, 256);
    ValueAppend(data, b, 256);
    Times256Minimal(v, b, Extend(v, 256, b));
  }

  /** The first loop of `encode`. */
  method Rewrite(data: bytes) returns (result: string)
    ensures result == Written(data)
  {
    result := [];
    assert data[..0] == [] && data[..|data|] == data && Written([]) == [];
    for i := 0 to |data|
      invariant result == Written(data[..i])
    {
      hide Spell, Minimal, Value, Times256;
      result := AppendByte(result, data[i], Minimal(Value(data[..i], 256), 58));
      WrittenAppend(data[..i], data[i]);
      assert data[..i + 1] == data[..i] + [data[i]];
    }
  }

  method Encode(data: bytes) returns (s: string)
    ensures s == Base58Of(data)
  {
    var result := Rewrite(data);
    ghost var ds := Minimal(Value(data, 256), 58);
    assert result == Spell(ds);
    var zeros := 0;
    assert ds + Zeros(0) == ds && Char(0) == '1';
    hide Minimal, Value, Spell, Char, Zeros, LeadingZeros, Reverse, Written;
    while zeros < |data| && data[zeros] == 0
      invariant zeros <= |data| && forall j :: 0 <= j < zeros ==> data[j] == 0
      invariant result == Spell(ds + Zeros(zeros))
    {
      MoreZeros(ds, zeros);
      SpellOne(ds + Zeros(zeros));
      result := result + ['1'];
      zeros := zeros + 1;
    }
    LeadingCount(data, zeros);
    ReverseSpelled(ds, zeros);
    s := Reverse(result);
  }

  lemma MoreZeros(ds: digits, n: nat)
    ensures ds + Zeros(n + 1) == ds + Zeros(n) + [0]
  {
  }

  lemma SpellOne(ds: digits)
    requires AreDigits(ds, 58)
    ensures Spell(ds + [0]) == Spell(ds) + ['1']
  {
  }

  lemma ReverseZeros(ds: digits, n: nat)
    ensures Reverse(ds + Zeros(n)) == Zeros(n) + Reverse(ds)
  {
    hide Reverse;
  }

  lemma ReverseSpelled(ds: digits, n: nat)
    requires AreDigits(ds, 58)
    ensures Reverse(Spell(ds + Zeros(n))) == Spell(Zeros(n) + Reverse(ds))
  {
    hide Reverse, Char;
  }

  lemma LeadingCount(data: digits, n: nat)
    requires n <= |data| && (forall j :: 0 <= j < n ==> data[j] == 0) && (n < |data| ==> data[n] != 0)
    ensures LeadingZeros(data) == n
  {
  }

  lemma Times58Empty(carry: nat)
    requires carry < 58
    ensures Times58([], carry) == if carry == 0 then [] else [carry]
  {
    if carry > 0 {
      MinimalStep(0, 256, carry);
      ExtendZero(0, 256, carry);
      assert [carry] + Minimal(0, 256) == [carry];
    }
  }

  lemma Times58Step(ds: digits, j: nat, carry: nat, done: digits, x: nat)
    requires j < |ds| && x == ds[j] * 58 + carry
    ensures done + Times58(ds[j..], carry) == done + [Rem(x, 256)] + Times58(ds[j + 1..], Quo(x, 256))
  {
    assert ds[j..][0] == ds[j] && ds[j..][1..] == ds[j + 1..];
    Times58Unfold(ds[j..], carry, x);
    hide Times58, Rem, Quo;
  }

  /** One more character into bytes kept least significant first. */
  method AppendChar(ds: bytes, d: nat) returns (result: bytes)
    requires d < 58
    ensures result == Times58(ds, d)
  {
    result := ds;
    var carry: nat := d;
    assert ds[0..] == ds && [] + Times58(ds, d) == Times58(ds, d);
    assert ds[|ds|..] == [];
    hide Times58, Minimal;
    for j := 0 to |ds|
      invariant |result| == |ds| && result[j..] == ds[j..] && carry < 58
      invariant result[..j] + Times58(ds[j..], carry) == Times58(ds, d)
    {
      var x: nat := result[j] as int * 58 + carry;
      Times58Step(ds, j, carry, result[..j], x);
      result := result[j := Rem(x, 256)];
      assert result[..j + 1] == result[..j] + [Rem(x, 256)];
      carry := Quo(x, 256);
    }
    assert result[..|ds|] == result;
    Times58Empty(carry);
    if carry != 0 {
      result := result + [carry];
    } else {
      assert result + [] == result;
    }
  }

  /** The bytes of the value read so far, least significant first. */
  function Unwritten(s: string): bytes
    requires InAlphabet(s)
  {
    AsBytes(Minimal(Value(Positions(s), 58), 256))
  }

  lemma UnwrittenAppend(s: string, c: char)
    requires InAlphabet(s) && CharMap(c) >= 0
    ensures InAlphabet(s + [c]) && Unwritten(s + [c]) == Times58(Unwritten(s), CharMap(c))
  {
    var v, d := Value(Positions(s), 58), CharMap(c);
    assert Positions(s + [c]) == Positions(s) + [d];
    hide Spell, Minimal, Value, Times58, CharMap;
    ValueAppend(Positions(s), d, 58);
    Times58Minimal(v, d, Extend(v, 58, d));
  }

  lemma InAlphabetPart(s: string, i: nat)
    requires i < |s| && CharMap(s[i]) < 0
    ensures !InAlphabet(s)
  {
  }

  /** The first loop of `decodeVar`. */
  method Unwrite(s: string) returns (r: Decoded)
    ensures r == if InAlphabet(s) then Data(Unwritten(s)) else Failed(InvalidCharacter)
  {
    var result: bytes := [];
    assert s[..|s|] == s && s[..0] == [] && Unwritten([]) == [];
    for i := 0 to |s|
      invariant InAlphabet(s[..i]) && result == Unwritten(s[..i])
    {
      hide InAlphabet, Unwritten, CharMap, Times58;
      var carry := CharMap(s[i]);
      if carry < 0 {
        InAlphabetPart(s, i);
        return Failed(InvalidCharacter);
      }
      result := AppendChar(result, carry);
      UnwrittenAppend(s[..i], s[i]);
      assert s[..i + 1] == s[..i] + [s[i]];
    }
    r := Data(result);
  }

  method DecodeVar(s: string) returns (r: Decoded)
    ensures r == if InAlphabet(s) then Data(BytesOf(s)) else Failed(InvalidCharacter)
  {
    r := Unwrite(s);
    if r.Failed? {
      return;
    }
    var zeros := PushZeros(s, r.data);
    ReverseZeros(r.data, LeadingZeros(Positions(s)));
    r := Data(Reverse(zeros));
  }

  /** The second loop of `decodeVar`: a zero byte for each leading `1`. */
  method PushZeros(s: string, ds: bytes) returns (result: bytes)
    requires InAlphabet(s)
    ensures result == ds + Zeros(LeadingZeros(Positions(s)))
  {
    result := ds;
    var ones := 0;
    assert ds + Zeros(0) == ds;
    while ones < |s| && s[ones] == '1'
      invariant ones <= |s| && forall j :: 0 <= j < ones ==> Positions(s)[j] == 0
      invariant result == ds + Zeros(ones)
    {
      hide CharMap, Zeros;
      CharsInverse(0, s[ones]);
      MoreZeros(ds, ones);
      result := result + [0];
      ones := ones + 1;
    }
    if ones < |s| {
      CharsInverse(0, s[ones]);
    }
    LeadingCount(Positions(s), ones);
  }

  // ---- Round trips ----

  /** Decoding undoes encoding on every byte string, leading zeros included. */
  lemma BytesOfBase58Of(data: bytes)
    ensures InAlphabet(Base58Of(data)) && BytesOf(Base58Of(data)) == data
  {
    var zeros, v := LeadingZeros(data), Value(data, 256);
    SpelledParts(zeros, v, 58);
    PositionsSpell(Spelled(zeros, v, 58));
    Canonical(data, 256);
  }

  /** Encoding undoes decoding on every text over the alphabet. */
  lemma Base58OfBytesOf(s: string)
    requires InAlphabet(s)
    ensures Base58Of(BytesOf(s)) == s
  {
    var ds := Positions(s);
    SpelledParts(LeadingZeros(ds), Value(ds, 58), 256);
    Canonical(ds, 58);
    SpellPositions(s);
  }
}
