/** Account names packed into 64 bits (chain/Name.ts). */
module Names {

  /** The eight bytes of a packed name, least significant first. */
  type Word = w: seq<bv8> | |w| == 8 witness [0, 0, 0, 0, 0, 0, 0, 0]

  // ---- Bits ----

  predicate BitOf(v: bv8, k: nat)
    requires k < 8
  {
    (v >> k) & 1 == 1
  }

  predicate BitAt(w: Word, b: nat)
    requires b < 64
  {
    BitOf(w[b / 8], b % 8)
  }

  lemma SetBitOf(v: bv8, x: bv8, k: nat, m: nat)
    requires k < 8 && m < 8 && x <= 1
    ensures BitOf(v | (x << k), m) == if m == k then BitOf(v, k) || x == 1 else BitOf(v, m)
  {
    SetBits(v, x, k as bv8, m as bv8);
  }

  lemma SetBits(v: bv8, x: bv8, k: bv8, m: bv8)
    requires k < 8 && m < 8 && x <= 1
    ensures (((v | (x << k)) >> m) & 1) == if m == k then ((v >> k) & 1) | x else (v >> m) & 1
  {
  }

  lemma SameBits(v: bv8, u: bv8)
    requires forall k: nat :: k < 8 ==> BitOf(v, k) == BitOf(u, k)
    ensures v == u
  {
    assert BitOf(v, 0) == BitOf(u, 0) && BitOf(v, 1) == BitOf(u, 1) && BitOf(v, 2) == BitOf(u, 2);
    assert BitOf(v, 3) == BitOf(u, 3) && BitOf(v, 4) == BitOf(u, 4) && BitOf(v, 5) == BitOf(u, 5);
    assert BitOf(v, 6) == BitOf(u, 6) && BitOf(v, 7) == BitOf(u, 7);
  }

  /** A word is its bits. */
  lemma SameWord(w: Word, u: Word)
    requires forall b: nat :: b < 64 ==> BitAt(w, b) == BitAt(u, b)
    ensures w == u
  {
    forall i: nat | i < 8 ensures w[i] == u[i] {
      forall k: nat | k < 8 ensures BitOf(w[i], k) == BitOf(u[i], k) {
        assert (8 * i + k) / 8 == i && (8 * i + k) % 8 == k;
        assert BitAt(w, 8 * i + k) == BitAt(u, 8 * i + k);
      }
      SameBits(w[i], u[i]);
    }
  }

  /** `(n >> j) & 1`. */
  predicate NatBit(n: nat, j: nat) {
    if j == 0 then n % 2 == 1 else NatBit(n / 2, j - 1)
  }

  function Digit(b: bool): nat {
    if b then 1 else 0
  }

  /** The number of five bits. */
  function Five(b4: bool, b3: bool, b2: bool, b1: bool, b0: bool): (n: nat)
    ensures n < if b4 then 32 else 16
  {
    Digit(b4) * 16 + Digit(b3) * 8 + Digit(b2) * 4 + Digit(b1) * 2 + Digit(b0)
  }

  lemma Halve(n: nat, m: nat, b: bool)
    requires n == 2 * m + Digit(b)
    ensures n / 2 == m && NatBit(n, 0) == b
    ensures forall j: nat :: NatBit(n, j + 1) == NatBit(m, j)
  {
    assert n / 2 == m;
  }

  lemma FiveBits(b4: bool, b3: bool, b2: bool, b1: bool, b0: bool)
    ensures var n := Five(b4, b3, b2, b1, b0);
            NatBit(n, 4) == b4 && NatBit(n, 3) == b3 && NatBit(n, 2) == b2 && NatBit(n, 1) == b1 && NatBit(n, 0) == b0
  {
    var n3 := 2 * Digit(b4) + Digit(b3);
    var n2 := 2 * n3 + Digit(b2);
    var n1 := 2 * n2 + Digit(b1);
    var n := 2 * n1 + Digit(b0);
    Halve(n, n1, b0);
    Halve(n1, n2, b1);
    Halve(n2, n3, b2);
    Halve(n3, Digit(b4), b3);
    Halve(Digit(b4), 0, b4);
    hide NatBit;
    assert NatBit(n, 0 + 1) == NatBit(n1, 0) && NatBit(n, 1 + 1) == NatBit(n1, 0 + 1);
    assert NatBit(n, 2 + 1) == NatBit(n1, 1 + 1) == NatBit(n2, 0 + 1);
    assert NatBit(n, 3 + 1) == NatBit(n1, 2 + 1) == NatBit(n2, 1 + 1) == NatBit(n3, 0 + 1);
  }

  lemma Halved(n: nat) returns (m: nat)
    ensures n == 2 * m + Digit(NatBit(n, 0))
    ensures forall j: nat :: NatBit(n, j + 1) == NatBit(m, j)
  {
    m := n / 2;
  }

  lemma LowFour(n: nat, high: nat, low: nat)
    requires n == 16 * high + low && low < 16
    ensures n % 16 == low
  {
  }

  lemma BitsOfFive(n: nat)
    requires n < 32
    ensures Five(NatBit(n, 4), NatBit(n, 3), NatBit(n, 2), NatBit(n, 1), NatBit(n, 0)) == n
    ensures Five(false, NatBit(n, 3), NatBit(n, 2), NatBit(n, 1), NatBit(n, 0)) == n % 16
  {
    hide *;
    var n1 := Halved(n);
    var n2 := Halved(n1);
    var n3 := Halved(n2);
    var n4 := Halved(n3);
    var n5 := Halved(n4);
    FourBits(n, n1, n2, n3, n4);
    FiveSum(n, n1, n2, n3, n4, n5, NatBit(n, 4), NatBit(n, 3), NatBit(n, 2), NatBit(n, 1), NatBit(n, 0));
  }

  lemma FiveSum(n: nat, n1: nat, n2: nat, n3: nat, n4: nat, n5: nat, b4: bool, b3: bool, b2: bool, b1: bool, b0: bool)
    requires n < 32 && n == 2 * n1 + Digit(b0) && n1 == 2 * n2 + Digit(b1) && n2 == 2 * n3 + Digit(b2)
    requires n3 == 2 * n4 + Digit(b3) && n4 == 2 * n5 + Digit(b4)
    ensures Five(b4, b3, b2, b1, b0) == n && Five(false, b3, b2, b1, b0) == n % 16
  {
    LowFour(n, n4, Five(false, b3, b2, b1, b0));
  }

  lemma FourBits(n: nat, n1: nat, n2: nat, n3: nat, n4: nat)
    requires forall j: nat :: NatBit(n, j + 1) == NatBit(n1, j)
    requires forall j: nat :: NatBit(n1, j + 1) == NatBit(n2, j)
    requires forall j: nat :: NatBit(n2, j + 1) == NatBit(n3, j)
    requires forall j: nat :: NatBit(n3, j + 1) == NatBit(n4, j)
    ensures NatBit(n1, 0) == NatBit(n, 1) && NatBit(n2, 0) == NatBit(n, 2)
    ensures NatBit(n3, 0) == NatBit(n, 3) && NatBit(n4, 0) == NatBit(n, 4)
  {
    hide NatBit;
    assert NatBit(n, 0 + 1) == NatBit(n1, 0);
    assert NatBit(n, 1 + 1) == NatBit(n1, 0 + 1) == NatBit(n2, 0);
    assert NatBit(n, 2 + 1) == NatBit(n1, 1 + 1) == NatBit(n2, 0 + 1) == NatBit(n3, 0);
    assert NatBit(n, 3 + 1) == NatBit(n1, 2 + 1) == NatBit(n2, 1 + 1) == NatBit(n3, 0 + 1) == NatBit(n4, 0);
  }

  lemma {:induction false} ZeroBits(j: nat)
    ensures !NatBit(0, j)
  {
    if j > 0 {
      ZeroBits(j - 1);
    }
  }

  // ---- Symbols ----

  function CharToSymbol(c: char): (n: nat)
    ensures n < 32
  {
    if 'a' <= c <= 'z' then c as int - 91
    else if '1' <= c <= '5' then c as int - 48
    else 0
  }

  function SymbolToChar(n: nat): (c: char)
    requires n < 32
    ensures CharToSymbol(c) == n && (c == '.' <==> n == 0)
  {
    if n >= 6 then (n + 91) as char
    else if n >= 1 then (n + 48) as char
    else '.'
  }

  predicate InAlphabet(c: char) {
    c == '.' || '1' <= c <= '5' || 'a' <= c <= 'z'
  }

  lemma SymbolsInverse(c: char)
    requires InAlphabet(c)
    ensures SymbolToChar(CharToSymbol(c)) == c
  {
  }

  /** `.` is 0, then 1 to 5, then a to z. */
  lemma SymbolOrder(n: nat)
    requires n < 32
    ensures SymbolToChar(0) == '.' && SymbolToChar(1) == '1' && SymbolToChar(5) == '5'
    ensures SymbolToChar(6) == 'a' && SymbolToChar(31) == 'z'
    ensures n !in {0, 5, 31} ==> SymbolToChar(n + 1) as int == SymbolToChar(n) as int + 1
    ensures forall c: char :: c !in {'.'} && !('1' <= c <= '5') && !('a' <= c <= 'z') ==> CharToSymbol(c) == 0
  {
  }

  /** The symbol at a place of a string; past its end they are 0. */
  function SymbolAt(s: string, i: nat): (n: nat)
    ensures n < 32
  {
    if i < |s| then CharToSymbol(s[i]) else 0
  }

  /** Bit `b` of a word belongs to the symbol at this place: */
  function PlaceOf(b: nat): (i: nat)
    requires b < 64
    ensures i < 13
  {
    (63 - b) / 5
  }

  /** and is this bit of it: five from the top for each symbol, but only the low four of the 13th. */
  function BitInSymbol(b: nat): (j: nat)
    requires b < 64
    ensures j < 5
  {
    if b < 4 then b else 4 - (63 - b) % 5
  }

  lemma Placement(i: nat, j: nat)
    requires i < 13 && j < if i < 12 then 5 else 4
    ensures var b := if i < 12 then 59 - 5 * i + j else j;
            b < 64 && PlaceOf(b) == i && BitInSymbol(b) == j
  {
    if i < 12 {
      var b := 59 - 5 * i + j;
      assert 63 - b == 5 * i + (4 - j);
    }
  }

  lemma PlacementBack(b: nat)
    requires b < 64
    ensures var i, j := PlaceOf(b), BitInSymbol(b);
            b == (if i < 12 then 59 - 5 * i + j else j) && (i == 12 ==> j < 4)
  {
  }

  predicate NameBit(s: string, b: nat)
    requires b < 64
  {
    NatBit(SymbolAt(s, PlaceOf(b)), BitInSymbol(b))
  }

  /** The symbol at a place of a word. */
  function WordSymbol(w: Word, i: nat): (n: nat)
    requires i < 13
    ensures n < if i < 12 then 32 else 16
  {
    if i < 12 then
      var low := 59 - 5 * i;
      Five(BitAt(w, low + 4), BitAt(w, low + 3), BitAt(w, low + 2), BitAt(w, low + 1), BitAt(w, low))
    else Five(false, BitAt(w, 3), BitAt(w, 2), BitAt(w, 1), BitAt(w, 0))
  }

  lemma WordBit(w: Word, b: nat)
    requires b < 64
    ensures BitAt(w, b) == NatBit(WordSymbol(w, PlaceOf(b)), BitInSymbol(b))
  {
    PlacementBack(b);
    var i, j := PlaceOf(b), BitInSymbol(b);
    WordSymbolBit(w, i, j, if i < 12 then 59 - 5 * i else 0);
  }

  lemma WordSymbolBit(w: Word, i: nat, j: nat, low: nat)
    requires i < 13 && j < (if i < 12 then 5 else 4) && low == if i < 12 then 59 - 5 * i else 0
    ensures BitAt(w, low + j) == NatBit(WordSymbol(w, i), j)
  {
    hide BitAt, NatBit, Five;
    if i < 12 {
      FiveBits(BitAt(w, low + 4), BitAt(w, low + 3), BitAt(w, low + 2), BitAt(w, low + 1), BitAt(w, low));
    } else {
      FiveBits(false, BitAt(w, 3), BitAt(w, 2), BitAt(w, 1), BitAt(w, 0));
    }
    assert j == 0 || j == 1 || j == 2 || j == 3 || j == 4;
  }

  /** `/^(?:|[a-z1-5.]{0,11}[a-z1-5]|[a-z1-5.]{12}[a-j1-5])$/` */
  predicate Pattern(s: string) {
    && |s| <= 13
    && (forall i :: 0 <= i < |s| ==> InAlphabet(s[i]))
    && (s != "" ==> s[|s| - 1] != '.')
    && (|s| == 13 ==> s[12] <= 'j')
  }

  /** Without its trailing dots. */
  function Trim(s: string): (r: string)
    ensures |r| <= |s| && r == s[..|r|]
    ensures forall i :: |r| <= i < |s| ==> s[i] == '.'
    ensures r != "" ==> r[|r| - 1] != '.'
  {
    if s == "" || s[|s| - 1] != '.' then s else Trim(s[..|s| - 1])
  }

  function Chars(w: Word): (s: string)
    ensures |s| == 13
  {
    seq(13, i requires 0 <= i < 13 => SymbolToChar(WordSymbol(w, i)))
  }

  function NameOf(w: Word): string {
    Trim(Chars(w))
  }

  // ---- The loops ----

  function Bottom(i: nat): int {
    if i <= 12 then 63 - 5 * i else -1
  }

  /** The bits above `bit` are those of the string, the others still 0. */
  ghost predicate PackedAbove(s: string, w: Word, bit: int) {
    forall b: nat :: b < 64 ==> BitAt(w, b) == (b > bit && NameBit(s, b))
  }

  method StringToName(s: string) returns (w: Word)
    ensures Packs(s, w)
  {
    var a := new bv8[8](_ => 0);
    var bit := 63;
    assert PackedAbove(s, a[..], 63);
    for i := 0 to |s|
      invariant bit == Bottom(i) && PackedAbove(s, a[..], bit)
    {
      hide PackedAbove;
      var c := CharToSymbol(s[i]);
      bit := PlaceSymbol(a, s, i, c, bit);
    }
    w := a[..];
    NoMoreBits(s, w, bit);
  }

  lemma NoMoreBits(s: string, w: Word, bit: int)
    requires bit == Bottom(|s|) && PackedAbove(s, w, bit)
    ensures Packs(s, w)
  {
    forall b: nat | b < 64 && b <= bit ensures !NameBit(s, b) {
      PlacementBack(b);
      assert PlaceOf(b) >= |s|;
      ZeroBits(BitInSymbol(b));
    }
  }

  method PlaceSymbol(a: array<bv8>, s: string, i: nat, symbol: nat, top: int) returns (bit: int)
    requires a.Length == 8 && i < |s| && symbol == CharToSymbol(s[i])
    requires top == Bottom(i) && PackedAbove(s, a[..], top)
    modifies a
    ensures bit == Bottom(i + 1) && PackedAbove(s, a[..], bit)
  {
    bit := top;
    var c := symbol;
    if bit < 5 {
      c := 2 * c;
    }
    hide PackedAbove;
    var j := 4;
    while j >= 0
      invariant -1 <= j <= 4 && PackedAbove(s, a[..], bit)
      invariant bit == if i < 12 then top - (4 - j) else if i == 12 && j > 0 then j - 1 else -1
    {
      if bit >= 0 {
        var x: bv8 := if NatBit(c, j) then 1 else 0;
        ghost var before := a[..];
        a[bit / 8] := a[bit / 8] | (x << (bit % 8));
        Placement(i, if i < 12 then j else j - 1);
        assert NatBit(c, j) == NameBit(s, bit);
        Placed(s, before, a[..], bit, x);
        bit := bit - 1;
      }
      j := j - 1;
    }
  }

  lemma Placed(s: string, before: Word, after: Word, bit: nat, x: bv8)
    requires bit < 64 && x == (if NameBit(s, bit) then 1 else 0) && PackedAbove(s, before, bit)
    requires after == before[bit / 8 := before[bit / 8] | (x << (bit % 8))]
    ensures PackedAbove(s, after, bit - 1)
  {
    hide NameBit;
    forall b: nat | b < 64 ensures BitAt(after, b) == (b > bit - 1 && NameBit(s, b)) {
      assert BitAt(before, b) == (b > bit && NameBit(s, b));
      SetBitAt(before, after, bit, x, b);
    }
  }

  lemma SetBitAt(before: Word, after: Word, bit: nat, x: bv8, b: nat)
    requires bit < 64 && b < 64 && x <= 1
    requires after == before[bit / 8 := before[bit / 8] | (x << (bit % 8))]
    ensures BitAt(after, b) == if b == bit then BitAt(before, b) || x == 1 else BitAt(before, b)
  {
    hide BitOf;
    if b / 8 == bit / 8 {
      assert b % 8 == bit % 8 <==> b == bit;
      SetBitOf(before[bit / 8], x, bit % 8, b % 8);
    }
  }

  method NameToString(w: Word) returns (result: string)
    ensures result == NameOf(w)
  {
    result := "";
    var bit := 63;
    ghost var n := 0;
    hide WordSymbol;
    while bit >= 0
      invariant n <= 13 && bit == Bottom(n) && result == Chars(w)[..n]
      decreases bit
    {
      var c;
      c, bit := ReadSymbol(w, bit, n);
      result := result + [SymbolToChar(c)];
      assert Chars(w)[n] == SymbolToChar(c);
      n := n + 1;
    }
    assert Chars(w)[..13] == Chars(w);
    while |result| > 0 && result[|result| - 1] == '.'
      invariant Trim(result) == Trim(Chars(w))
    {
      result := result[..|result| - 1];
    }
  }

  /** The next five bits, or as many as there are. */
  method ReadSymbol(w: Word, top: nat, ghost n: nat) returns (c: nat, bit: int)
    requires n < 13 && top == Bottom(n)
    ensures c == WordSymbol(w, n) && bit == Bottom(n + 1)
  {
    c, bit := 0, top;
    for i := 0 to 5
      invariant bit == if top - i >= -1 then top - i else -1
      invariant c == TopBits(w, top, if i <= top + 1 then i else top + 1)
    {
      if bit >= 0 {
        c := 2 * c + Digit(BitAt(w, bit));
        bit := bit - 1;
      }
    }
    hide BitAt;
    TopBitsAre(w, top, n);
  }

  /** The `k` bits from `top` down as a number. */
  function TopBits(w: Word, top: nat, k: nat): nat
    requires top < 64 && k <= top + 1
  {
    if k == 0 then 0 else 2 * TopBits(w, top, k - 1) + Digit(BitAt(w, top - (k - 1)))
  }

  lemma TopBitsAre(w: Word, top: nat, n: nat)
    requires n < 13 && top == Bottom(n)
    ensures TopBits(w, top, if n < 12 then 5 else 4) == WordSymbol(w, n)
  {
    hide BitAt;
    assert TopBits(w, top, 1) == Digit(BitAt(w, top));
    assert TopBits(w, top, 3) == 4 * Digit(BitAt(w, top)) + 2 * Digit(BitAt(w, top - 1)) + Digit(BitAt(w, top - 2));
  }

  // ---- A bijection ----

  /** `w` is what a string packs to. */
  predicate Packs(s: string, w: Word) {
    forall b: nat :: b < 64 ==> BitAt(w, b) == NameBit(s, b)
  }

  lemma PackedBit(s: string, w: Word, i: nat, j: nat)
    requires Packs(s, w) && i < 13 && j < if i < 12 then 5 else 4
    ensures BitAt(w, if i < 12 then 59 - 5 * i + j else j) == NatBit(SymbolAt(s, i), j)
  {
    Placement(i, j);
    hide PlaceOf, BitInSymbol;
    assert NameBit(s, if i < 12 then 59 - 5 * i + j else j) == NatBit(SymbolAt(s, i), j);
  }

  /** The symbols of the word packed from a string, the 13th only by its low four bits. */
  lemma PackedSymbols(s: string, w: Word, i: nat)
    requires i < 13 && Packs(s, w)
    ensures WordSymbol(w, i) == if i < 12 then SymbolAt(s, i) else SymbolAt(s, i) % 16
  {
    hide Packs, NatBit, BitAt, Five;
    BitsOfFive(SymbolAt(s, i));
    PackedBit(s, w, i, 0);
    PackedBit(s, w, i, 1);
    PackedBit(s, w, i, 2);
    PackedBit(s, w, i, 3);
    if i < 12 {
      PackedBit(s, w, i, 4);
    }
  }

  lemma {:induction false} TrimTo(chars: string, s: string)
    requires |s| <= |chars| && chars[..|s|] == s && (s != "" ==> s[|s| - 1] != '.')
    requires forall i :: |s| <= i < |chars| ==> chars[i] == '.'
    ensures Trim(chars) == s
    decreases |chars|
  {
    if |chars| > |s| {
      assert chars[..|chars| - 1][..|s|] == s;
      TrimTo(chars[..|chars| - 1], s);
    } else {
      assert chars == s;
    }
  }

  /** Packing loses nothing of a canonical string. */
  lemma NameOfPacked(s: string, w: Word)
    requires Pattern(s) && Packs(s, w)
    ensures NameOf(w) == s
  {
    hide Packs, WordSymbol, Trim;
    var chars := Chars(w);
    forall i: nat | i < 13 ensures chars[i] == if i < |s| then s[i] else '.' {
      PackedSymbols(s, w, i);
      if i < |s| {
        SymbolsInverse(s[i]);
      }
    }
    TrimTo(chars, s);
  }

  /** Every word has a canonical string, and only the word itself packs to it. */
  lemma PackedNameOf(w: Word, u: Word)
    ensures Pattern(NameOf(w))
    ensures Packs(NameOf(w), u) <==> u == w
  {
    NameOfPattern(w);
    var s, chars := NameOf(w), Chars(w);
    forall i: nat | i < 13 ensures SymbolAt(s, i) == WordSymbol(w, i) {
      assert i < |s| ==> s[i] == chars[i];
      assert i >= |s| ==> chars[i] == '.';
    }
    hide NatBit, BitAt, WordSymbol, PlaceOf, BitInSymbol;
    forall b: nat | b < 64 ensures BitAt(w, b) == NameBit(s, b) {
      WordBit(w, b);
    }
    if Packs(s, u) {
      SameWord(u, w);
    }
  }

  lemma NameOfPattern(w: Word)
    ensures Pattern(NameOf(w))
  {
    var s, chars := NameOf(w), Chars(w);
    forall i | 0 <= i < |s| ensures s[i] == SymbolToChar(WordSymbol(w, i)) {
      assert s[i] == chars[i];
    }
  }

  /** The round trip that `isValid` checks holds of a string exactly when it matches the pattern. */
  lemma PatternIsRoundTrip(s: string, w: Word)
    requires Packs(s, w)
    ensures NameOf(w) == s <==> Pattern(s)
  {
    hide Packs, Pattern, NameOf;
    if Pattern(s) {
      NameOfPacked(s, w);
    }
    NameOfPattern(w);
  }

  method IsValid(value: string) returns (valid: bool)
    ensures valid <==> Pattern(value)
  {
    if !Pattern(value) {
      return false;
    }
    var w := StringToName(value);
    var back := NameToString(w);
    NameOfPacked(value, w);
    valid := back == value;
  }

  // ---- The number ----

  /** The number of the bytes, the last the highest. */
  function Number(w: Word): nat {
    HighBytes(w, 8)
  }

  /** The number of the highest `j` bytes. */
  function HighBytes(w: Word, j: nat): nat
    requires j <= 8
  {
    if j == 0 then 0 else 256 * HighBytes(w, j - 1) + w[8 - j] as nat
  }

  /** The first `i` symbols as base-32 digits. */
  function SymbolsNumber(s: string, i: nat): nat {
    if i == 0 then 0 else 32 * SymbolsNumber(s, i - 1) + SymbolAt(s, i - 1)
  }

  lemma ByteBits(v: bv8)
    ensures v as nat == 128 * Digit(BitOf(v, 7)) + 64 * Digit(BitOf(v, 6)) + 32 * Digit(BitOf(v, 5))
                        + 16 * Digit(BitOf(v, 4)) + 8 * Digit(BitOf(v, 3)) + 4 * Digit(BitOf(v, 2))
                        + 2 * Digit(BitOf(v, 1)) + Digit(BitOf(v, 0))
  {
  }

  lemma BitIn(w: Word, i: nat, k: nat)
    requires i < 8 && k < 8
    ensures BitAt(w, 8 * i + k) == BitOf(w[i], k)
  {
  }

  lemma TopBitsStep(w: Word, k: nat)
    requires k < 64
    ensures TopBits(w, 63, k + 1) == 2 * TopBits(w, 63, k) + Digit(BitAt(w, 63 - k))
  {
  }

  lemma {:induction false} TopBytes(w: Word, j: nat)
    requires j <= 8
    ensures TopBits(w, 63, 8 * j) == HighBytes(w, j)
  {
    if j > 0 {
      TopBytes(w, j - 1);
      NextByte(w, 8 - j, 8 * (j - 1));
    }
  }

  lemma FourBitsOn(w: Word, k: nat)
    requires k + 4 <= 64
    ensures TopBits(w, 63, k + 4)
            == 16 * TopBits(w, 63, k) + 8 * Digit(BitAt(w, 63 - k)) + 4 * Digit(BitAt(w, 62 - k))
               + 2 * Digit(BitAt(w, 61 - k)) + Digit(BitAt(w, 60 - k))
  {
    hide TopBits, BitAt, Digit;
    TopBitsStep(w, k);
    TopBitsStep(w, k + 1);
    TopBitsStep(w, k + 2);
    TopBitsStep(w, k + 3);
  }

  function High(v: bv8): nat {
    8 * Digit(BitOf(v, 7)) + 4 * Digit(BitOf(v, 6)) + 2 * Digit(BitOf(v, 5)) + Digit(BitOf(v, 4))
  }

  function Low(v: bv8): nat {
    8 * Digit(BitOf(v, 3)) + 4 * Digit(BitOf(v, 2)) + 2 * Digit(BitOf(v, 1))
                        + Digit(BitOf(v, 0))
  }

  lemma Nibbles(v: bv8)
    ensures v as nat == 16 * High(v) + Low(v)
  {
    hide BitOf, Digit;
    ByteBits(v);
  }

  lemma HighOn(w: Word, i: nat, k: nat)
    requires i < 8 && k == 56 - 8 * i
    ensures TopBits(w, 63, k + 4) == 16 * TopBits(w, 63, k) + High(w[i])
  {
    hide TopBits, BitAt, BitOf, Digit;
    FourBitsOn(w, k);
    HighBits(w, i, k);
  }

  lemma LowOn(w: Word, i: nat, k: nat)
    requires i < 8 && k == 56 - 8 * i
    ensures TopBits(w, 63, k + 8) == 16 * TopBits(w, 63, k + 4) + Low(w[i])
  {
    hide TopBits, BitAt, BitOf, Digit;
    FourBitsOn(w, k + 4);
    LowBits(w, i, k);
  }

  lemma NextByte(w: Word, i: nat, k: nat)
    requires i < 8 && k == 56 - 8 * i
    ensures TopBits(w, 63, k + 8) == 256 * TopBits(w, 63, k) + w[i] as nat
  {
    hide TopBits, High, Low;
    HighOn(w, i, k);
    LowOn(w, i, k);
    Nibbles(w[i]);
  }

  lemma HighBits(w: Word, i: nat, k: nat)
    requires i < 8 && k == 56 - 8 * i
    ensures BitAt(w, 63 - k) == BitOf(w[i], 7) && BitAt(w, 62 - k) == BitOf(w[i], 6)
    ensures BitAt(w, 61 - k) == BitOf(w[i], 5) && BitAt(w, 60 - k) == BitOf(w[i], 4)
  {
    hide BitAt, BitOf;
    BitIn(w, i, 7);
    BitIn(w, i, 6);
    BitIn(w, i, 5);
    BitIn(w, i, 4);
  }

  lemma LowBits(w: Word, i: nat, k: nat)
    requires i < 8 && k == 56 - 8 * i
    ensures BitAt(w, 63 - (k + 4)) == BitOf(w[i], 3) && BitAt(w, 62 - (k + 4)) == BitOf(w[i], 2)
    ensures BitAt(w, 61 - (k + 4)) == BitOf(w[i], 1) && BitAt(w, 60 - (k + 4)) == BitOf(w[i], 0)
  {
    hide BitAt, BitOf;
    BitIn(w, i, 3);
    BitIn(w, i, 2);
    BitIn(w, i, 1);
    BitIn(w, i, 0);
  }

  lemma {:induction false} TopSymbols(s: string, w: Word, i: nat)
    requires i <= 12 && Packs(s, w)
    ensures TopBits(w, 63, 5 * i) == SymbolsNumber(s, i)
  {
    if i > 0 {
      TopSymbols(s, w, i - 1);
      PackedSymbols(s, w, i - 1);
      NextSymbol(w, i - 1, 5 * (i - 1));
    }
  }

  lemma NextSymbol(w: Word, i: nat, k: nat)
    requires i < 12 && k == 5 * i
    ensures TopBits(w, 63, k + 5) == 32 * TopBits(w, 63, k) + WordSymbol(w, i)
  {
    hide TopBits, BitAt, Digit;
    FourBitsOn(w, k);
    TopBitsStep(w, k + 4);
  }

  lemma LastSymbol(w: Word)
    ensures TopBits(w, 63, 64) == 16 * TopBits(w, 63, 60) + WordSymbol(w, 12)
  {
    hide TopBits, BitAt;
    FourBitsOn(w, 60);
  }

  /** A string packs to the number of its first twelve symbols in base 32, times 16, plus the 13th modulo 16. */
  lemma PackedNumber(s: string, w: Word)
    requires Packs(s, w)
    ensures Number(w) == 16 * SymbolsNumber(s, 12) + SymbolAt(s, 12) % 16
  {
    hide Packs, TopBits, WordSymbol, SymbolsNumber, HighBytes, SymbolAt;
    TopBytes(w, 8);
    LastSymbol(w);
    TopSymbols(s, w, 12);
    PackedSymbols(s, w, 12);
  }
}
