/** Asset amounts and symbols as text and as packed numbers (chain/Asset.ts). */
module Assets {
  import opened Bytes
  import opened Radix
  import FixedPoint
  import Integer

  const MAX_PRECISION: nat := 18
  const MAX_CODE_LENGTH: nat := 7

  /** `/^[A-Z]{0,7}$/` */
  predicate IsCode(name: string) {
    |name| <= MAX_CODE_LENGTH && forall i :: 0 <= i < |name| ==> 'A' <= name[i] <= 'Z'
  }

  predicate IsInt64(n: int) {
    -0x8000_0000_0000_0000 <= n < 0x8000_0000_0000_0000
  }

  /** An amount in the smallest unit of its symbol, the symbol packed. */
  datatype Asset = Asset(units: int, symbol: nat)

  predicate Valid(a: Asset) {
    IsInt64(a.units) && IsSymbol(a.symbol)
  }

  // ---- Symbols as numbers ----

  /** The name and the precision packed together: the precision first, then the letters. */
  function RawSymbol(code: bytes, precision: byte): nat {
    FromLe([precision] + code)
  }

  /** bn.js gives as many bytes as the number needs; the lowest is the precision. */
  function SymbolCode(raw: nat): (code: bytes) {
    Integer.MinimalLe(raw)[1..]
  }

  function SymbolPrecision(raw: nat): byte {
    raw % 256
  }

  predicate IsCodeBytes(code: bytes) {
    |code| <= MAX_CODE_LENGTH && forall i :: 0 <= i < |code| ==> 65 <= code[i] <= 90
  }

  /** The constructor's checks. */
  predicate IsSymbol(raw: nat) {
    SymbolPrecision(raw) <= MAX_PRECISION && (raw == 0 || IsCodeBytes(SymbolCode(raw)))
  }

  lemma {:induction false} MinimalBytes(bs: bytes)
    requires |bs| == 1 || (|bs| > 1 && bs[|bs| - 1] != 0)
    ensures Integer.NumBytes(FromLe(bs)) == |bs|
  {
    if |bs| > 1 {
      MinimalBytes(bs[1..]);
      TopByte(bs[1..]);
    } else {
      assert FromLe(bs) == bs[0] + 256 * FromLe([]);
    }
  }

  lemma {:induction false} TopByte(bs: bytes)
    requires bs != [] && bs[|bs| - 1] != 0
    ensures FromLe(bs) > 0
  {
    if |bs| > 1 {
      TopByte(bs[1..]);
    }
  }

  /** A symbol's number determines its name and precision, and they determine it. */
  lemma SymbolUnique(raw: nat, code: bytes, precision: byte)
    requires IsCodeBytes(code) && precision <= MAX_PRECISION
    ensures IsSymbol(RawSymbol(code, precision)) && RawSymbol(code, precision) < Pow256(8)
    ensures IsSymbol(raw) ==>
              (raw == RawSymbol(code, precision) <==> SymbolCode(raw) == code && SymbolPrecision(raw) == precision)
  {
    var bs := [precision] + code;
    MinimalBytes(bs);
    ToLeFromLe(bs);
    assert SymbolCode(FromLe(bs)) == code && FromLe(bs) % 256 == precision;
    if |bs| < 8 {
      Integer.Pow256Grows(|bs|, 8);
    }
    if IsSymbol(raw) && SymbolCode(raw) == code && SymbolPrecision(raw) == precision {
      var own := Integer.MinimalLe(raw);
      Integer.NumBytesBound(raw, |own|);
      FromLeToLe(raw, |own|);
      assert own[0] == raw % 256 && own == [own[0]] + own[1..];
    }
  }

  // ---- Numbers as text ----

  function Digits(ds: digits): (s: string)
    requires AreDigits(ds, 10)
    ensures |s| == |ds| && forall i :: 0 <= i < |s| ==> '0' <= s[i] <= '9'
  {
    seq(|ds|, i requires 0 <= i < |ds| => (ds[i] + 48) as char)
  }

  predicate AllDigits(s: string) {
    forall i :: 0 <= i < |s| ==> '0' <= s[i] <= '9'
  }

  function ValuesOf(s: string): (ds: digits)
    requires AllDigits(s)
    ensures |ds| == |s|
  {
    seq(|s|, i requires 0 <= i < |s| => s[i] as int - 48)
  }

  function Decimal(n: nat): (s: string)
    ensures s != "" && AllDigits(s)
  {
    Digits(FixedPoint.Decimal(n))
  }

  function Sign(n: int): string {
    if n < 0 then "-" else ""
  }

  function IntToString(n: int): string {
    Sign(n) + Decimal(Magnitude(n))
  }

  /** `Int64.from` on text: a sign and digits, within range. */
  function ParseInt64(s: string): Option<int> {
    var negative := s != "" && s[0] == '-';
    var ds := if negative then s[1..] else s;
    if ds == "" || !AllDigits(ds) then None
    else
      var n := Value(ValuesOf(ds), 10);
      var r := if negative then 0 - n else n;
      if IsInt64(r) then Some(r) else None
  }

  // ---- Assets as text ----

  /** Letters as bytes, and back. */
  function CodeBytes(name: string): (code: bytes)
    requires IsCode(name)
    ensures IsCodeBytes(code)
  {
    seq(|name|, i requires 0 <= i < |name| => name[i] as int)
  }

  function SymbolName(raw: nat): (name: string)
    ensures |name| == |SymbolCode(raw)|
  {
    var code := SymbolCode(raw);
    seq(|code|, i requires 0 <= i < |code| => code[i] as char)
  }

  /** `Asset.Symbol.fromParts`. */
  function SymbolFromParts(name: string, precision: nat): (raw: Option<nat>) {
    if !IsCode(name) || precision > MAX_PRECISION then None
    else
      var raw := RawSymbol(CodeBytes(name), precision);
      if IsSymbol(raw) then Some(raw) else None
  }

  /** The name and precision of a symbol make it again. */
  lemma SymbolParts(raw: nat)
    requires IsSymbol(raw)
    ensures IsCode(SymbolName(raw)) && SymbolFromParts(SymbolName(raw), SymbolPrecision(raw)) == Some(raw)
  {
    var name, code := SymbolName(raw), SymbolCode(raw);
    ZeroSymbol();
    assert IsCodeBytes(code);
    assert IsCode(name);
    assert CodeBytes(name) == code;
    hide SymbolCode, RawSymbol;
    SymbolUnique(raw, code, SymbolPrecision(raw));
  }

  /** The lowest byte of a packed symbol is its precision, the next ones the letters of its name in order. */
  lemma SymbolLetters(raw: nat, i: nat)
    requires i < |SymbolName(raw)|
    ensures SymbolName(raw)[i] as int == raw / Pow256(i + 1) % 256
  {
    ToLeAt(raw, Integer.NumBytes(raw), i + 1);
  }

  lemma ZeroSymbol()
    ensures SymbolCode(0) == []
  {
  }

  method FormatUnits(units: int, precision: nat) returns (rv: string)
    ensures rv == Formatted(units, precision)
  {
    var digits := IntToString(units);
    var negative := false;
    SignFirst(units);
    hide Decimal, IntToString, Magnitude;
    if digits[0] == '-' {
      negative := true;
      digits := digits[1..];
    }
    rv := FormatDigits(digits, precision);
    if negative {
      rv := "-" + rv;
    }
    assert "" + rv == rv;
  }

  lemma SignFirst(units: int)
    ensures var s := IntToString(units);
            s != "" && (s[0] == '-' <==> units < 0)
            && (if units < 0 then s[1..] else s) == Decimal(Magnitude(units))
  {
    hide Decimal;
    assert "" + Decimal(Magnitude(units)) == Decimal(Magnitude(units));
  }

  method FormatDigits(ds: string, precision: nat) returns (digits: string)
    requires AllDigits(ds)
    ensures digits == Pointed(PaddedTo(ds, precision), precision)
  {
    digits := PadDigits(ds, precision);
    if precision > 0 {
      digits := digits[..|digits| - precision] + "." + digits[|digits| - precision..];
    }
  }

  method PadDigits(ds: string, precision: nat) returns (digits: string)
    requires AllDigits(ds)
    ensures digits == PaddedTo(ds, precision)
  {
    digits := ds;
    ghost var added := 0;
    assert Pad(0) + ds == ds;
    while |digits| <= precision
      invariant digits == Pad(added) + ds && |digits| == added + |ds|
      invariant added > 0 ==> |digits| <= precision + 1
    {
      digits := ['0'] + digits;
      added := added + 1;
      assert Pad(added) == ['0'] + Pad(added - 1);
    }
  }

  function Pad(n: nat): (s: string)
    ensures |s| == n
  {
    seq(n, _ => '0')
  }

  /** At least one digit before the point. */
  function PaddedTo(ds: string, precision: nat): (r: string)
    requires AllDigits(ds)
    ensures |r| > precision && AllDigits(r)
  {
    Pad(if |ds| <= precision then precision + 1 - |ds| else 0) + ds
  }

  function Pointed(ds: string, precision: nat): string
    requires |ds| > precision
  {
    if precision > 0 then ds[..|ds| - precision] + "." + ds[|ds| - precision..] else ds
  }

  function Padded(units: int, precision: nat): (s: string)
    ensures |s| > precision && AllDigits(s)
  {
    PaddedTo(Decimal(Magnitude(units)), precision)
  }

  function Formatted(units: int, precision: nat): string {
    Sign(units) + Pointed(Padded(units, precision), precision)
  }

  /** Digits are written from `0` up. */
  lemma DigitChars()
    ensures Digits([0, 1, 2, 3, 4, 5, 6, 7, 8, 9]) == "0123456789"
    ensures ValuesOf("0123456789") == [0, 1, 2, 3, 4, 5, 6, 7, 8, 9]
  {
  }

  /** The number a text of digits stands for. */
  function Number(s: string): nat
    requires AllDigits(s)
  {
    Value(ValuesOf(s), 10)
  }

  /** The parts around the point: as many decimals as asked for, and no needless zero in front. */
  ghost predicate Parts(units: int, precision: nat, whole: string, frac: string) {
    && AllDigits(whole) && AllDigits(frac) && whole != "" && |frac| == precision
    && (whole != "0" ==> whole[0] != '0')
    && Number(whole) == Magnitude(units) / FixedPoint.Pow10(precision)
    && Number(frac) == Magnitude(units) % FixedPoint.Pow10(precision)
  }

  /** An amount is written with the quotient of its units by a power of ten before the point, the rest behind. */
  lemma FormattedMeans(units: int, precision: nat) returns (whole: string, frac: string)
    ensures Parts(units, precision, whole, frac)
    ensures Formatted(units, precision)
            == (if units < 0 then "-" else "") + whole + (if precision == 0 then "" else "." + frac)
  {
    var ds := Padded(units, precision);
    whole, frac := ds[..|ds| - precision], ds[|ds| - precision..];
    hide Number, Padded, Pointed;
    PaddedParts(units, precision);
    PointedText(Sign(units), ds, precision);
  }

  lemma PaddedParts(units: int, precision: nat)
    ensures var ds := Padded(units, precision);
            Parts(units, precision, ds[..|ds| - precision], ds[|ds| - precision..])
  {
    PaddedValue(units, precision);
    PaddedFront(Magnitude(units), precision);
    hide PaddedTo, Decimal, Value, ValuesOf, AllDigits, Parts;
    PartsOf(units, precision, Padded(units, precision));
  }

  lemma PartsOf(units: int, precision: nat, ds: string)
    requires AllDigits(ds) && |ds| > precision && (|ds| == precision + 1 || ds[0] != '0')
    requires Number(ds) == Magnitude(units)
    ensures Parts(units, precision, ds[..|ds| - precision], ds[|ds| - precision..])
  {
    FrontDigit(ds, precision);
    hide AllDigits, Number, FixedPoint.Pow10;
    SplitNumber(ds, precision);
  }

  lemma FrontDigit(ds: string, precision: nat)
    requires AllDigits(ds) && |ds| > precision && (|ds| == precision + 1 || ds[0] != '0')
    ensures var whole, frac := ds[..|ds| - precision], ds[|ds| - precision..];
            AllDigits(whole) && AllDigits(frac) && |frac| == precision && (whole != "0" ==> whole[0] != '0')
  {
    if |ds| == precision + 1 {
      assert ds[..1] == [ds[0]];
    }
  }

  lemma PointedText(sign: string, ds: string, precision: nat)
    requires |ds| > precision
    ensures var k := |ds| - precision;
            sign + Pointed(ds, precision) == sign + ds[..k] + (if precision == 0 then "" else "." + ds[k..])
  {
  }

  /** Either one digit is in front of the point, or no zero is. */
  lemma PaddedFront(n: nat, precision: nat)
    ensures var ds := PaddedTo(Decimal(n), precision);
            |ds| == precision + 1 || ds[0] != '0'
  {
    FixedPoint.NoZeroInFront(n);
    hide FixedPoint.Decimal;
    if |Decimal(n)| > precision {
      assert PaddedTo(Decimal(n), precision) == Decimal(n);
    }
  }

  /** The last digits hold the remainder by their power of ten, the others the quotient. */
  lemma SplitNumber(s: string, precision: nat)
    requires AllDigits(s) && precision <= |s|
    ensures var k, p := |s| - precision, FixedPoint.Pow10(precision);
            Number(s[..k]) == Number(s) / p && Number(s[k..]) == Number(s) % p
  {
    var k, p := |s| - precision, FixedPoint.Pow10(precision);
    SplitValue(s[..k], s[k..]);
    assert s == s[..k] + s[k..];
    var a, b := Number(s[..k]), Number(s[k..]);
    hide *;
    Floor(a, b, p);
  }

  lemma SplitValue(whole: string, frac: string)
    requires AllDigits(whole) && AllDigits(frac)
    ensures Number(whole + frac) == Number(whole) * FixedPoint.Pow10(|frac|) + Number(frac)
    ensures Number(frac) < FixedPoint.Pow10(|frac|)
  {
    ValuesConcat(whole, frac);
    hide ValuesOf, Value, FixedPoint.Pow10, AllDigits;
    FixedPoint.ValueConcat(ValuesOf(whole), ValuesOf(frac));
    FixedPoint.ValueBelow(ValuesOf(frac));
  }

  lemma ValuesConcat(whole: string, frac: string)
    requires AllDigits(whole) && AllDigits(frac)
    ensures AllDigits(whole + frac) && AreDigits(ValuesOf(frac), 10)
    ensures ValuesOf(whole + frac) == ValuesOf(whole) + ValuesOf(frac)
  {
  }

  lemma Floor(q: nat, r: nat, p: nat)
    requires r < p
    ensures (q * p + r) / p == q && (q * p + r) % p == r
  {
    FixedPoint.FloorUnique(q * p + r, p, q);
    FixedPoint.Remainder(q * p + r, p);
  }

  function ToString(a: Asset): string {
    Formatted(a.units, SymbolPrecision(a.symbol)) + " " + SymbolName(a.symbol)
  }

  /** The part before the first `c`, and the part after it. */
  function Before(s: string, c: char): (r: string)
    ensures r <= s
  {
    if s == "" || s[0] == c then "" else [s[0]] + Before(s[1..], c)
  }

  function After(s: string, c: char): string {
    var n := |Before(s, c)|;
    if n == |s| then "" else s[n + 1..]
  }

  predicate Lacks(s: string, c: char) {
    forall i :: 0 <= i < |s| ==> s[i] != c
  }

  function FromString(value: string): Option<Asset> {
    if Lacks(value, ' ') || !Lacks(After(value, ' '), ' ') then None
    else
      var quantity, name := Before(value, ' '), After(value, ' ');
      var amount := Before(quantity, '.') + After(quantity, '.');
      var precision := |Before(After(quantity, '.'), '.')|;
      var symbol := SymbolFromParts(name, precision);
      if symbol.None? then None
      else
        var units := ParseInt64(amount);
        if units.None? then None else Some(Asset(units.value, symbol.value))
  }

  /** Digits, behind at most a minus, of an int64. */
  ghost predicate AmountIs(s: string, units: int) {
    && IsInt64(units)
    && ((s != "" && AllDigits(s) && units == Number(s))
        || (|s| > 1 && s[0] == '-' && AllDigits(s[1..]) && units == 0 - Number(s[1..])))
  }

  /** The text is an amount with a point between `front` and `back` or, with nothing behind it, no point. */
  ghost predicate Spells(value: string, a: Asset, front: string, back: string, name: string) {
    && (value == front + "." + back + " " + name || (back == "" && value == front + " " + name))
    && AmountIs(front + back, a.units)
    && IsCode(name) && |back| <= 18 && a.symbol == RawSymbol(CodeBytes(name), |back|)
  }

  /**
   All that parses: digits behind at most a minus, with at most one point in them, then one space and a
   name. The precision is the number of characters behind the point.
   */
  lemma FromStringSpelled(value: string, a: Asset)
    ensures FromString(value) == Some(a) <==> exists front, back, name :: Spells(value, a, front, back, name)
  {
    if FromString(value) == Some(a) {
      ParsedSpells(value, a);
    }
    forall front, back, name | Spells(value, a, front, back, name) ensures FromString(value) == Some(a) {
      SpellsParsed(value, a, front, back, name);
    }
  }

  /** They need not be digits: a minus behind the point counts as one of them. */
  lemma MinusBehindPoint()
    ensures FromString(".-5 A") == Some(Asset(-5, RawSymbol([65], 2)))
  {
    var five: digits := [5];
    assert ValuesOf("5") == five && five[..0] == [] && Value(five, 10) == 5;
    assert "." + "-5" + " " + "A" == ".-5 A" && "" + "-5" == "-5" && "-5"[1..] == "5";
    var name: bytes := [65];
    assert CodeBytes("A") == name;
    SpellsParsed(".-5 A", Asset(-5, RawSymbol(name, 2)), "", "-5", "A");
  }

  lemma ParseAmount(s: string, units: int)
    ensures ParseInt64(s) == Some(units) <==> AmountIs(s, units)
  {
    hide Value, ValuesOf;
  }

  lemma AmountLacks(s: string, units: int)
    requires AmountIs(s, units)
    ensures Lacks(s, ' ') && Lacks(s, '.')
  {
    hide Number;
    if !AllDigits(s) {
      assert s == [s[0]] + s[1..];
    }
  }

  lemma SymbolMade(name: string, precision: nat)
    ensures SymbolFromParts(name, precision)
            == if IsCode(name) && precision <= 18 then Some(RawSymbol(CodeBytes(name), precision)) else None
  {
    hide RawSymbol, IsSymbol;
    if IsCode(name) && precision <= 18 {
      SymbolUnique(0, CodeBytes(name), precision);
    }
  }

  lemma SpellsParsed(value: string, a: Asset, front: string, back: string, name: string)
    requires Spells(value, a, front, back, name)
    ensures FromString(value) == Some(a)
  {
    var quantity := if value == front + "." + back + " " + name then front + "." + back else front;
    assert value == quantity + [' '] + name;
    AmountLacks(front + back, a.units);
    ParseAmount(front + back, a.units);
    SymbolMade(name, |back|);
    CodeLacks(name);
    HasSpace(quantity, name);
    QuantityParts(front, back, quantity);
    hide Lacks, Before, After, SymbolFromParts, ParseInt64, IsCode, RawSymbol, AmountIs;
    BeforeAfter(quantity, ' ', name);
  }

  lemma QuantityParts(front: string, back: string, quantity: string)
    requires Lacks(front + back, ' ') && Lacks(front + back, '.')
    requires quantity == front + "." + back || (back == "" && quantity == front)
    ensures Lacks(quantity, ' ')
    ensures Before(quantity, '.') + After(quantity, '.') == front + back
    ensures Before(After(quantity, '.'), '.') == back
  {
    LacksParts(front, back, ' ');
    LacksParts(front, back, '.');
    assert Lacks("", '.');
    hide Lacks, Before, After;
    if quantity == front + "." + back {
      PointParts(front, back);
    } else {
      BeforeNone(front, '.');
      BeforeNone("", '.');
    }
  }

  lemma LacksParts(a: string, b: string, c: char)
    requires Lacks(a + b, c)
    ensures Lacks(a, c) && Lacks(b, c)
  {
    assert forall i :: 0 <= i < |a| ==> (a + b)[i] == a[i];
    assert forall i :: 0 <= i < |b| ==> (a + b)[|a| + i] == b[i];
  }

  lemma {:induction false} Rejoined(s: string, c: char)
    ensures if Lacks(s, c) then Before(s, c) == s && After(s, c) == ""
            else s == Before(s, c) + [c] + After(s, c)
  {
    if s != "" && s[0] != c {
      Rejoined(s[1..], c);
      assert s == [s[0]] + s[1..];
    }
  }

  lemma ParsedSpells(value: string, a: Asset)
    requires FromString(value) == Some(a)
    ensures exists front, back, name :: Spells(value, a, front, back, name)
  {
    var quantity, name := Before(value, ' '), After(value, ' ');
    var front, back := Before(quantity, '.'), After(quantity, '.');
    Rejoined(value, ' ');
    Rejoined(quantity, '.');
    ParseAmount(front + back, a.units);
    AmountLacks(front + back, a.units);
    LacksParts(front, back, '.');
    Rejoined(back, '.');
    SymbolMade(name, |back|);
    hide Before, After, ParseInt64, SymbolFromParts, AmountIs, IsCode, RawSymbol;
    assert Spells(value, a, front, back, name);
  }

  lemma {:induction false} BeforeAfter(a: string, c: char, b: string)
    requires Lacks(a, c)
    ensures Before(a + [c] + b, c) == a && After(a + [c] + b, c) == b
  {
    var s := a + [c] + b;
    if a != "" {
      assert s[0] == a[0] && s[1..] == a[1..] + [c] + b;
      BeforeAfter(a[1..], c, b);
    }
    assert s[|a| + 1..] == b;
  }

  lemma {:induction false} BeforeNone(a: string, c: char)
    requires Lacks(a, c)
    ensures Before(a, c) == a && After(a, c) == ""
  {
    if a != "" {
      BeforeNone(a[1..], c);
    }
  }

  lemma ParsePadded(units: int, precision: nat)
    requires IsInt64(units)
    ensures ParseInt64(Sign(units) + Padded(units, precision)) == Some(units)
  {
    var ds := Padded(units, precision);
    PaddedValue(units, precision);
    hide Padded, Value, ValuesOf;
    var s := Sign(units) + ds;
    assert ds[0] != '-';
    if units < 0 {
      assert s[0] == '-' && s[1..] == ds;
    } else {
      assert s == ds;
    }
  }

  lemma PaddedValue(units: int, precision: nat)
    ensures Value(ValuesOf(Padded(units, precision)), 10) == Magnitude(units)
  {
    hide Value, ValuesOf, PaddedTo, Decimal, AllDigits;
    DecimalBack(Magnitude(units));
    PaddedToValue(Decimal(Magnitude(units)), precision);
  }

  lemma PaddedToValue(ds: string, precision: nat)
    requires AllDigits(ds)
    ensures Value(ValuesOf(PaddedTo(ds, precision)), 10) == Value(ValuesOf(ds), 10)
  {
    var zeros := if |ds| <= precision then precision + 1 - |ds| else 0;
    PadBack(zeros, ds);
    hide Value, ValuesOf, Zeros, Pad, AllDigits;
    ValueZeros(zeros, ValuesOf(ds), 10);
  }

  lemma DecimalBack(n: nat)
    ensures Value(ValuesOf(Decimal(n)), 10) == n
  {
    hide Value, FixedPoint.Decimal, ValuesOf, Digits;
    FixedPoint.DecimalValue(n);
    ValuesOfDigits(FixedPoint.Decimal(n));
  }

  lemma ValuesOfDigits(ds: digits)
    requires AreDigits(ds, 10)
    ensures ValuesOf(Digits(ds)) == ds
  {
  }

  lemma PadBack(zeros: nat, ds: string)
    requires AllDigits(ds)
    ensures AllDigits(Pad(zeros) + ds) && ValuesOf(Pad(zeros) + ds) == Zeros(zeros) + ValuesOf(ds)
  {
  }

  lemma DigitsLack(ds: string, i: nat, j: nat, c: char)
    requires AllDigits(ds) && i <= j <= |ds| && (c == ' ' || c == '.')
    ensures Lacks(ds[i..j], c)
  {
  }

  lemma LacksConcat(a: string, b: string, c: char)
    requires Lacks(a, c) && Lacks(b, c)
    ensures Lacks(a + b, c)
  {
  }

  /** An amount splits at its point into the digits of its number. */
  lemma PointedParts(sign: string, ds: string, precision: nat)
    requires (sign == "" || sign == "-") && AllDigits(ds) && |ds| > precision
    ensures var quantity := sign + Pointed(ds, precision);
            && Lacks(quantity, ' ')
            && Before(quantity, '.') + After(quantity, '.') == sign + ds
            && |Before(After(quantity, '.'), '.')| == precision
  {
    var n, k := |ds|, |ds| - precision;
    var whole, frac := ds[0..k], ds[k..n];
    DigitsLack(ds, 0, k, ' ');
    DigitsLack(ds, 0, k, '.');
    DigitsLack(ds, k, n, ' ');
    DigitsLack(ds, k, n, '.');
    LacksConcat(sign, whole, ' ');
    LacksConcat(sign, whole, '.');
    assert whole + frac == ds && sign + whole + frac == sign + ds;
    assert sign + Pointed(ds, precision) == if precision > 0 then sign + whole + ['.'] + frac else sign + whole;
    hide *;
    if precision > 0 {
      PointParts(sign + whole, frac);
    } else {
      BeforeNone(sign + whole, '.');
      assert sign + whole + "" == sign + whole && frac == "";
    }
  }

  lemma PointParts(whole: string, frac: string)
    requires Lacks(whole, ' ') && Lacks(whole, '.') && Lacks(frac, ' ') && Lacks(frac, '.')
    ensures var quantity := whole + ['.'] + frac;
            && Lacks(quantity, ' ')
            && Before(quantity, '.') + After(quantity, '.') == whole + frac
            && Before(After(quantity, '.'), '.') == frac
  {
    LacksConcat(whole, ['.'], ' ');
    LacksConcat(whole + ['.'], frac, ' ');
    hide *;
    BeforeAfter(whole, '.', frac);
    BeforeNone(frac, '.');
  }

  lemma CodeLacks(name: string)
    requires IsCode(name)
    ensures Lacks(name, ' ')
  {
  }

  lemma HasSpace(a: string, b: string)
    ensures !Lacks(a + [' '] + b, ' ')
  {
    assert (a + [' '] + b)[|a|] == ' ';
  }

  /** A printed asset parses as itself: negative amounts, the least one and amounts below one unit included. */
  lemma FromToString(a: Asset)
    requires Valid(a)
    ensures FromString(ToString(a)) == Some(a)
  {
    var name, precision := SymbolName(a.symbol), SymbolPrecision(a.symbol);
    var quantity := Formatted(a.units, precision);
    SymbolParts(a.symbol);
    PointedParts(Sign(a.units), Padded(a.units, precision), precision);
    CodeLacks(name);
    assert ToString(a) == quantity + [' '] + name;
    hide Formatted, Padded, Sign, Pointed, ParseInt64, Lacks, Before, After, IsCode, ToString;
    hide SymbolFromParts, SymbolName, SymbolPrecision;
    ParsePadded(a.units, precision);
    BeforeAfter(quantity, ' ', name);
    HasSpace(quantity, name);
  }
}
