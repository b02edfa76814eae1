/** Unsigned 18-decimal fixed-point numbers in two 128-bit limbs (class UInt256 of chain/Integer.ts). */
module FixedPoint {
  import opened Bytes
  import opened Radix

  const DECIMALS: nat := 18
  const SCALE: nat := 1_000_000_000_000_000_000
  const LIMB: nat := 0x1_0000_0000_0000_0000_0000_0000_0000_0000
  const LIMIT: nat := LIMB * LIMB

  /** The number counts units of 10^-18. */
  datatype UInt256 = UInt256(low: nat, high: nat)

  predicate Valid(x: UInt256) {
    x.low < LIMB && x.high < LIMB
  }

  function Raw(x: UInt256): nat {
    x.high * LIMB + x.low
  }

  /** Splits a number below 2^256 in limbs, and refuses the others. */
  function FromRaw(raw: int): (x: Option<UInt256>)
    ensures x.Some? <==> 0 <= raw < LIMIT
    ensures x.Some? ==> Valid(x.value) && Raw(x.value) == raw
  {
    if raw < 0 || raw > LIMIT - 1 then None
    else
      Limbs(raw);
      Some(UInt256(raw % LIMB, raw / LIMB))
  }

  lemma Limbs(raw: nat)
    requires raw < LIMIT
    ensures raw / LIMB < LIMB && raw / LIMB * LIMB + raw % LIMB == raw
  {
  }

  // ---- Text ----

  /** A decimal literal: the digits before the point, and those after it when there is one. */
  datatype Literal = Literal(whole: digits, frac: Option<digits>)

  function Decimal(n: nat): (ds: digits)
    ensures AreDigits(ds, 10) && ds != []
  {
    if n == 0 then [0] else Reverse(Minimal(n, 10))
  }

  /** `replace(/0+$/, "")`. */
  function DropZeros(ds: digits): (r: digits)
    ensures |r| <= |ds| && ds == r + Zeros(|ds| - |r|)
    ensures r == [] <==> forall i :: 0 <= i < |ds| ==> ds[i] == 0
  {
    if ds == [] || ds[|ds| - 1] != 0 then ds
    else
      var r := DropZeros(ds[..|ds| - 1]);
      assert ds == ds[..|ds| - 1] + [0];
      assert forall i :: 0 <= i < |ds| - 1 ==> ds[..|ds| - 1][i] == ds[i];
      r
  }

  /** Eighteen digits without the zeros at the end. */
  function FractionDigits(fracPart: nat): digits {
    var ds := Decimal(fracPart);
    DropZeros(Zeros(if |ds| < DECIMALS then DECIMALS - |ds| else 0) + ds)
  }

  function TextOf(whole: nat, fracPart: nat): Literal {
    Literal(Decimal(whole), if fracPart == 0 then None else Some(FractionDigits(fracPart)))
  }

  function ToText(x: UInt256): Literal {
    TextOf(Raw(x) / SCALE, Raw(x) % SCALE)
  }

  function Scaled(whole: nat, fracPart: nat): nat {
    whole * SCALE + fracPart
  }

  function Fraction(t: Literal): digits {
    if t.frac.Some? then t.frac.value else []
  }

  /** `/^(?:[0-9]+(?:\.[0-9]*)?|\.[0-9]+)$/` */
  predicate IsLiteral(t: Literal) {
    AreDigits(t.whole, 10) && AreDigits(Fraction(t), 10) && t.whole + Fraction(t) != []
  }

  function FromText(t: Literal): Option<UInt256> {
    var frac := Fraction(t);
    if !IsLiteral(t) || |frac| > DECIMALS then None
    else FromRaw(Scaled(Value(t.whole, 10), Value(frac + Zeros(DECIMALS - |frac|), 10)))
  }

  lemma {:induction false} DecimalValue(n: nat)
    ensures Value(Decimal(n), 10) == n
  {
    if n > 0 {
      ValueOfMinimal(n, 10);
    } else {
      assert [0][..0] == [];
    }
  }

  function Pow10(k: nat): (p: nat)
    ensures p > 0
  {
    if k == 0 then 1 else 10 * Pow10(k - 1)
  }

  lemma {:induction false} ValueBelow(ds: digits)
    requires AreDigits(ds, 10)
    ensures Value(ds, 10) < Pow10(|ds|)
  {
    if ds != [] {
      ValueBelow(ds[..|ds| - 1]);
    }
  }

  lemma {:induction false} ValueConcat(a: digits, b: digits)
    ensures Value(a + b, 10) == Value(a, 10) * Pow10(|b|) + Value(b, 10)
    decreases |b|
  {
    if b == [] {
      assert a + b == a;
    } else {
      var front, d := b[..|b| - 1], b[|b| - 1];
      assert a + b == (a + front) + [d] && b == front + [d];
      ValueConcat(a, front);
      hide Value;
      ValueAppend(a + front, d, 10);
      ValueAppend(front, d, 10);
      TenTimes(Value(a, 10), Pow10(|front|));
    }
  }

  lemma TenTimes(v: nat, p: nat)
    ensures (v * p) * 10 == v * (10 * p)
  {
  }

  lemma {:induction false} DecimalLength(n: nat, k: nat)
    requires n < Pow10(k)
    ensures |Minimal(n, 10)| <= k
  {
    if n > 0 {
      MinimalUnfold(n, 10);
      DivModSum(n, 10);
      assert Quo(n, 10) < Pow10(k - 1);
      DecimalLength(Quo(n, 10), k - 1);
    }
  }

  lemma PaddedDecimal(n: nat)
    requires 0 < n < SCALE
    ensures var ds := Decimal(n);
            |ds| <= DECIMALS && AreDigits(ds, 10) && Value(Zeros(DECIMALS - |ds|) + ds, 10) == n
  {
    assert Pow10(9) == 1_000_000_000;
    assert Pow10(18) == 1_000_000_000_000_000_000;
    DecimalLength(n, DECIMALS);
    DecimalValue(n);
    ValueZeros(DECIMALS - |Decimal(n)|, Decimal(n), 10);
  }

  lemma FractionBack(n: nat)
    requires 0 < n < SCALE
    ensures var f := FractionDigits(n);
            |f| <= DECIMALS && AreDigits(f, 10) && Value(f + Zeros(DECIMALS - |f|), 10) == n
  {
    hide Decimal, Value;
    PaddedDecimal(n);
    var ds := Decimal(n);
    var padded := Zeros(DECIMALS - |ds|) + ds;
    var f := DropZeros(padded);
    assert forall i :: 0 <= i < |f| ==> f[i] == padded[i];
  }

  lemma WholeBack(whole: nat)
    ensures Value(Decimal(whole), 10) == whole && AreDigits(Decimal(whole), 10) && Decimal(whole) != []
  {
    DecimalValue(whole);
  }

  /** The digits of the fraction, none of them for zero, have its value once padded. */
  lemma PaddedFraction(fracPart: nat)
    requires fracPart < SCALE
    ensures var f := if fracPart == 0 then [] else FractionDigits(fracPart);
            |f| <= DECIMALS && AreDigits(f, 10) && Value(f + Zeros(DECIMALS - |f|), 10) == fracPart
  {
    if fracPart == 0 {
      ValueOfZeros([] + Zeros(DECIMALS), 10);
    } else {
      FractionBack(fracPart);
    }
  }

  lemma TextBack(whole: nat, fracPart: nat)
    requires fracPart < SCALE
    ensures FromText(TextOf(whole, fracPart)) == FromRaw(Scaled(whole, fracPart))
  {
    hide Value, Decimal, FractionDigits, FromRaw, Scaled, Zeros, AreDigits;
    WholeBack(whole);
    PaddedFraction(fracPart);
  }

  /** Every number below 2^256 prints as a literal that reads back as itself, through both limbs. */
  lemma FromToText(x: UInt256)
    requires Valid(x)
    ensures FromText(ToText(x)) == Some(x)
  {
    var raw := Raw(x);
    RawBelow(x);
    Unscaled(raw);
    hide FromText, TextOf, Raw, Scaled;
    TextBack(raw / SCALE, raw % SCALE);
    RawUnique(x, FromRaw(raw).value);
  }

  lemma Unscaled(raw: nat)
    ensures Scaled(raw / SCALE, raw % SCALE) == raw
  {
  }

  lemma RawBelow(x: UInt256)
    requires Valid(x)
    ensures Raw(x) < LIMIT
  {
  }

  lemma RawUnique(x: UInt256, y: UInt256)
    requires Valid(x) && Valid(y) && Raw(x) == Raw(y)
    ensures x == y
  {
  }

  /** The whole part has no zero in front of it but its own, the fraction none behind it; both have their value. */
  lemma TextMeans(x: UInt256)
    requires Valid(x)
    ensures var t := ToText(x);
            && AreDigits(t.whole, 10) && Value(t.whole, 10) == Raw(x) / SCALE
            && t.whole != [] && (t.whole == [0] || t.whole[0] != 0)
            && (t.frac.None? <==> Raw(x) % SCALE == 0)
            && (t.frac.Some? ==>
                  var f := t.frac.value;
                  && 1 <= |f| <= 18 && AreDigits(f, 10) && f[|f| - 1] != 0
                  && Value(f + Zeros(18 - |f|), 10) == Raw(x) % SCALE)
  {
    TextOfParts(x);
    var whole, fracPart := Raw(x) / SCALE, Raw(x) % SCALE;
    hide *;
    TextParts(whole, fracPart);
  }

  lemma TextOfParts(x: UInt256)
    ensures ToText(x) == TextOf(Raw(x) / SCALE, Raw(x) % SCALE) && Raw(x) % SCALE < SCALE
  {
  }

  lemma TextParts(whole: nat, fracPart: nat)
    requires fracPart < SCALE
    ensures var t := TextOf(whole, fracPart);
            && AreDigits(t.whole, 10) && Value(t.whole, 10) == whole
            && t.whole != [] && (t.whole == [0] || t.whole[0] != 0)
            && (t.frac.None? <==> fracPart == 0)
            && (t.frac.Some? ==>
                  var f := t.frac.value;
                  && 1 <= |f| <= 18 && AreDigits(f, 10) && f[|f| - 1] != 0
                  && Value(f + Zeros(18 - |f|), 10) == fracPart)
  {
    WholeBack(whole);
    NoZeroInFront(whole);
    if fracPart > 0 {
      FractionBack(fracPart);
      NoZeroBehind(fracPart);
    }
    hide Value, Decimal, FractionDigits, Zeros, AreDigits;
  }

  lemma NoZeroInFront(n: nat)
    ensures var ds := Decimal(n); if n == 0 then ds == [0] else ds[0] != 0
  {
    if n > 0 {
      var m := Minimal(n, 10);
      assert Reverse(m)[0] == m[|m| - 1];
    }
  }

  lemma NoZeroBehind(n: nat)
    requires 0 < n < SCALE
    ensures var f := FractionDigits(n); f != [] && f[|f| - 1] != 0
  {
    PaddedDecimal(n);
    var ds := Decimal(n);
    NoZeroInFront(n);
    var padded := Zeros(DECIMALS - |ds|) + ds;
    assert padded[|padded| - |ds|] == ds[0];
    DroppedLast(padded);
  }

  lemma {:induction false} DroppedLast(ds: digits)
    ensures var r := DropZeros(ds); r != [] ==> r[|r| - 1] != 0
  {
    if ds != [] && ds[|ds| - 1] == 0 {
      DroppedLast(ds[..|ds| - 1]);
    }
  }

  // ---- Arithmetic ----

  function Multiply(a: UInt256, b: UInt256): (r: Option<UInt256>) {
    FromRaw(Raw(a) * Raw(b) / SCALE)
  }

  function Divide(a: UInt256, b: UInt256): (r: Option<UInt256>) {
    if Raw(b) == 0 then None else FromRaw(Raw(a) * SCALE / Raw(b))
  }

  /** Products and quotients are rounded down, and refused only when they do not fit or there is no divisor. */
  lemma RoundedDown(a: UInt256, b: UInt256, r: UInt256)
    requires Valid(a) && Valid(b)
    ensures Multiply(a, b) == Some(r)
            <==> Valid(r) && Raw(r) * SCALE <= Raw(a) * Raw(b) < Raw(r) * SCALE + SCALE
    ensures Divide(a, b) == Some(r)
            <==> Valid(r) && Raw(r) * Raw(b) <= Raw(a) * SCALE < Raw(r) * Raw(b) + Raw(b)
    ensures Divide(a, b).None? <==> Raw(b) == 0 || Raw(a) * SCALE >= LIMIT * Raw(b)
    ensures Multiply(a, b).None? <==> Raw(a) * Raw(b) >= LIMIT * SCALE
  {
    MultiplyDown(a, b, r, Raw(a) * Raw(b));
    DivideDown(a, b, r, Raw(a) * SCALE);
  }

  lemma MultiplyDown(a: UInt256, b: UInt256, r: UInt256, n: nat)
    requires n == Raw(a) * Raw(b)
    ensures Multiply(a, b) == Some(r) <==> Valid(r) && Raw(r) * SCALE <= n < Raw(r) * SCALE + SCALE
    ensures Multiply(a, b).None? <==> n >= LIMIT * SCALE
  {
    assert Multiply(a, b) == FromRaw(n / SCALE);
    hide Raw, Multiply;
    FloorIs(n, SCALE, r);
    FloorLimit(n, SCALE, LIMIT);
  }

  lemma DivideDown(a: UInt256, b: UInt256, r: UInt256, n: nat)
    requires n == Raw(a) * SCALE
    ensures Divide(a, b) == Some(r) <==> Valid(r) && Raw(r) * Raw(b) <= n < Raw(r) * Raw(b) + Raw(b)
    ensures Divide(a, b).None? <==> Raw(b) == 0 || n >= LIMIT * Raw(b)
  {
    if Raw(b) > 0 {
      assert Divide(a, b) == FromRaw(n / Raw(b));
      hide Raw, Divide;
      FloorIs(n, Raw(b), r);
      FloorLimit(n, Raw(b), LIMIT);
    }
  }

  lemma FloorIs(n: nat, d: nat, r: UInt256)
    requires d > 0
    ensures FromRaw(n / d) == Some(r) <==> Valid(r) && Raw(r) * d <= n < Raw(r) * d + d
  {
    FloorOf(n, d, n / d);
    hide Raw;
    if Valid(r) && Raw(r) * d <= n < Raw(r) * d + d {
      FloorUnique(n, d, Raw(r));
      RawBelow(r);
      RawUnique(r, FromRaw(n / d).value);
    }
  }

  lemma FloorLimit(n: nat, d: nat, limit: nat)
    requires d > 0
    ensures n / d >= limit <==> n >= limit * d
  {
    var q := n / d;
    FloorOf(n, d, q);
    if q >= limit {
      MultiplyLess(limit, q, d);
      if q > limit {
        MulMore(q, limit, d);
      }
    } else {
      MulMore(limit, q, d);
    }
  }

  /** The remainder that dividing drops. */
  function Dropped(a: UInt256, b: UInt256): (r: nat)
    requires Raw(b) > 0
    ensures r < Raw(b)
  {
    Raw(a) * SCALE % Raw(b)
  }

  /**
   Multiplying a quotient back gives the dividend less what was dropped, rounded up to a unit: never
   more than it, less than b / 10^18 + 1 units short, and exactly it when nothing was dropped.
   */
  lemma MultiplyDivide(a: UInt256, b: UInt256)
    requires Valid(a) && Valid(b) && Divide(a, b).Some?
    ensures var m := Multiply(Divide(a, b).value, b);
            && m.Some?
            && Raw(m.value) == Raw(a) - (Dropped(a, b) + SCALE - 1) / SCALE
            && Raw(m.value) <= Raw(a) && (Raw(a) - Raw(m.value)) * SCALE < Raw(b) + SCALE
            && (m == Some(a) <==> Dropped(a, b) == 0)
  {
    var x, y, r := Raw(a), Raw(b), Dropped(a, b);
    var q := x * SCALE / y;
    RawBelow(a);
    Shortfall(x, y, SCALE, q, r, q * y / SCALE, (r + SCALE - 1) / SCALE);
    hide Raw;
    if q * y / SCALE == x {
      RawUnique(a, Multiply(Divide(a, b).value, b).value);
    }
  }

  lemma Shortfall(x: nat, y: nat, scale: nat, q: nat, r: nat, m: nat, short: nat)
    requires y > 0 && scale > 0 && q == x * scale / y && r == x * scale % y
    requires m == q * y / scale && short == (r + scale - 1) / scale
    ensures m == x - short && m <= x && short * scale < y + scale && (short == 0 <==> r == 0)
  {
    FloorOf(x * scale, y, q);
    FloorOf(r + scale - 1, scale, short);
    assert q * y == x * scale - r by { Remainder(x * scale, y); }
    if short > x {
      MultiplyLess(short, x + 1, scale);
      MulMore(short, x, scale);
    }
    MultiplyLess(short, x, scale);
    FloorUnique(q * y, scale, x - short);
    if short == 0 {
      assert short * scale == 0;
    }
  }

  lemma Remainder(n: nat, d: nat)
    requires d > 0
    ensures n / d * d == n - n % d
  {
  }

  lemma FloorUnique(n: nat, d: nat, q: nat)
    requires d > 0 && q * d <= n < q * d + d
    ensures n / d == q
  {
    FloorOf(n, d, n / d);
    if n / d > q {
      MulMore(n / d, q, d);
    } else if n / d < q {
      MulMore(q, n / d, d);
    }
  }

  lemma MultiplyLess(a: nat, b: nat, k: nat)
    requires k > 0
    ensures a * k <= b * k ==> a <= b
    ensures a <= b ==> (b - a) * k == b * k - a * k
  {
    if a > b {
      MulMore(a, b, k);
    }
  }

  lemma FloorOf(n: nat, d: nat, q: nat)
    requires d > 0 && q == n / d
    ensures q * d <= n < q * d + d
  {
    assert n == q * d + n % d;
  }

  /** It can fall short: one divided by three and multiplied by three is not one. */
  lemma MultiplyDivideFalls()
    ensures var one, three := UInt256(SCALE, 0), UInt256(3 * SCALE, 0);
            Divide(one, three) == Some(UInt256(SCALE / 3, 0))
            && Multiply(UInt256(SCALE / 3, 0), three) == Some(UInt256(SCALE - 1, 0))
  {
  }
}
