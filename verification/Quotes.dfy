/** Quotes that round up: RAM prices (resources/Ram.ts) and deposit fees (SolanaSyndicationClient.ts). */
module Quotes {
  import opened Bytes
  import opened Leaf
  import opened Integer

  // ---- Division ----

  /** Truncated toward zero, as bn.js and bigint divide. */
  function Truncate0(a: int, b: int): (q: int)
    requires b != 0
  {
    var q := Magnitude(a) / Magnitude(b);
    if (a < 0) == (b < 0) then q else 0 - q
  }

  /** `divCeil`: away from zero whenever there is a remainder. */
  function DivCeil(a: int, b: int): (q: int)
    requires b != 0
  {
    var q := Truncate0(a, b);
    if Magnitude(a) % Magnitude(b) == 0 then q else if q < 0 then q - 1 else q + 1
  }

  /** `p` is the least number of `unit`s that cover `amount`. */
  ghost predicate Covers(p: int, unit: nat, amount: int) {
    amount <= p * unit < amount + unit
  }

  lemma Larger(a: int, b: int, unit: nat)
    ensures a >= b ==> a * unit >= b * unit
    ensures a > b ==> a * unit >= b * unit + unit
  {
    if a >= b {
      assert (a - b) * unit >= 0 && a * unit == (a - b) * unit + b * unit;
    }
    if a > b {
      assert (a - b - 1) * unit >= 0 && a * unit == (a - b - 1) * unit + b * unit + unit;
    }
  }

  lemma CoversLeast(p: int, unit: nat, amount: int, r: int)
    requires Covers(p, unit, amount)
    ensures r * unit >= amount <==> r >= p
  {
    Larger(r, p, unit);
    Larger(p, r, unit);
  }

  lemma DivCeilCovers(a: nat, b: nat)
    requires b > 0
    ensures Covers(DivCeil(a, b), b, a)
  {
    assert a == a / b * b + a % b;
  }

  /**
   `divCeil` of any operands rounds away from zero; but a quotient between -1 and 0 is 0 without a sign
   before it is rounded, and becomes 1.
   */
  lemma DivCeilAway(a: int, b: int)
    requires b != 0
    ensures var q := DivCeil(a, b);
            && Magnitude(a) <= Magnitude(q) * Magnitude(b) < Magnitude(a) + Magnitude(b)
            && (0 < Magnitude(a) < Magnitude(b) ==> q == 1)
            && (Magnitude(a) >= Magnitude(b) ==> (q > 0 <==> (a > 0 <==> b > 0)))
  {
    var x, y := Magnitude(a), Magnitude(b);
    DivCeilCovers(x, y);
    QuotientBelow(x, y);
  }

  lemma QuotientBelow(x: nat, y: nat)
    requires y > 0
    ensures x / y == 0 <==> x < y
    ensures x < y ==> x % y == x
  {
    assert x == y * (x / y) + x % y;
    if x / y > 0 {
      Larger(x / y, 1, y);
    }
  }

  // ---- RAM ----

  const INT64: Kind := Kind(8, true)

  predicate IsInt64(n: Int) {
    Valid(n) && n.kind == INT64
  }

  /** `dividing(by, "ceil")` on two int64 numbers; none for a division by zero. */
  function CeilDividing(a: Int, b: Int): Option<Int>
    requires IsInt64(a) && IsInt64(b)
  {
    if b.value == 0 then None
    else
      var q := DivCeil(a.value, b.value);
      QuotientSize(a.value, b.value);
      Pow256Of8();
      Some(Int(INT64, Truncated(q, ResultKind(q, INT64), INT64)))
  }

  lemma QuotientSize(a: int, b: int)
    requires b != 0
    ensures Magnitude(DivCeil(a, b)) <= Magnitude(a) + 1
  {
    DivLeast(Magnitude(a), Magnitude(b));
  }

  lemma DivLeast(a: nat, b: nat)
    requires b > 0
    ensures a / b <= a
  {
    var q, r := a / b, a % b;
    assert a == b * q + r;
    Larger(b, 1, q);
  }

  /** `(quote * value) / (base - value)`, rounded up, every step in int64. */
  function GetInput(base: Int, quote: Int, value: Int): Option<Int>
    requires IsInt64(base) && IsInt64(quote) && IsInt64(value)
    requires Operable(Mul, quote, value) && Operable(Sub, base, value)
  {
    CeilDividing(Operate(Mul, quote, value), Operate(Sub, base, value))
  }

  /** A result that is not negative and fits int64 is exact. */
  lemma OperateFits(op: Op, a: Int, b: Int)
    requires IsInt64(a) && IsInt64(b) && 0 <= Exact(op, a.value, b.value) && Fits(Exact(op, a.value, b.value), INT64)
    ensures Operable(op, a, b) && Operate(op, a, b) == Int(INT64, Exact(op, a.value, b.value))
  {
    SameKind(a, b);
    OperateExact(op, a, b);
    hide Operate, ToLe, Exact;
    PatternUnique(Operate(op, a, b).value, Exact(op, a.value, b.value), INT64);
  }

  lemma SameKind(a: Int, b: Int)
    requires IsInt64(a) && IsInt64(b)
    ensures Convert(a, b) == (a, b) && CommonKind(a.kind, b.kind) == INT64
  {
  }

  lemma CeilFits(n: nat, d: nat)
    requires d > 0 && Fits(n, INT64)
    ensures var q := DivCeil(n, d);
            0 <= q <= n && Fits(q, INT64) && Truncated(q, INT64, INT64) == q
  {
    var q := DivCeil(n, d);
    DivCeilCovers(n, d);
    AtMost(q, d, n);
    TruncateExact(q, INT64, INT64);
    PatternValue(TruncatedBytes(q, INT64, INT64), INT64);
    hide ToLe, TruncatedBytes, FromPattern;
    PatternUnique(Truncated(q, INT64, INT64), q, INT64);
  }

  lemma AtMost(p: int, unit: nat, amount: nat)
    requires Covers(p, unit, amount) && unit > 0
    ensures 0 <= p <= amount
  {
    Larger(p, amount, unit);
    Larger(unit, 1, amount);
    Larger(0, p, unit);
  }

  /** Paying `p` for `value` keeps the product of the balances from falling. */
  predicate Keeps(base: int, quote: int, value: int, p: int) {
    (quote + p) * (base - value) >= base * quote
  }

  lemma Balances(quote: int, p: int, base: int, value: int)
    ensures Keeps(base, quote, value, p) <==> p * (base - value) >= quote * value
  {
    assert (quote + p) * (base - value) == quote * base - quote * value + p * (base - value);
  }

  /** Without overflow every step is exact. */
  lemma GetInputExact(base: Int, quote: Int, value: Int, n: nat, d: nat)
    requires IsInt64(base) && IsInt64(quote) && IsInt64(value)
    requires n == Exact(Mul, quote.value, value.value) && d == Exact(Sub, base.value, value.value) && d > 0
    requires Fits(n, INT64) && Fits(d, INT64)
    ensures Operable(Mul, quote, value) && Operable(Sub, base, value)
    ensures 0 <= DivCeil(n, d) && GetInput(base, quote, value) == Some(Int(INT64, DivCeil(n, d)))
  {
    hide Exact, Operate, Operable, DivCeil, Fits, Truncated;
    OperateFits(Mul, quote, value);
    OperateFits(Sub, base, value);
    CeilFits(n, d);
  }

  lemma ProductFits(base: Int, quote: Int, value: Int)
    requires IsInt64(base) && IsInt64(quote) && IsInt64(value)
    requires 0 <= value.value < base.value && 0 <= quote.value && 2 * (quote.value * value.value) < Pow256(8)
    ensures var n, d := Exact(Mul, quote.value, value.value), Exact(Sub, base.value, value.value);
            n == quote.value * value.value && d == base.value - value.value > 0 && n >= 0
            && Fits(n, INT64) && Fits(d, INT64)
  {
    Larger(quote.value, 0, value.value);
  }

  /**
   Without overflow the price is the least one that keeps the product of the two balances: what is
   bought leaves the base, the price enters the quote.
   */
  lemma RamPrice(base: Int, quote: Int, value: Int)
    requires IsInt64(base) && IsInt64(quote) && IsInt64(value)
    requires 0 <= value.value < base.value && 0 <= quote.value && 2 * (quote.value * value.value) < Pow256(8)
    ensures Operable(Mul, quote, value) && Operable(Sub, base, value)
    ensures var p := GetInput(base, quote, value);
            && p.Some?
            && forall q :: Keeps(base.value, quote.value, value.value, q) <==> q >= p.value.value
  {
    ProductFits(base, quote, value);
    var n, d := Exact(Mul, quote.value, value.value), Exact(Sub, base.value, value.value);
    hide *;
    GetInputExact(base, quote, value, n, d);
    DivCeilCovers(n, d);
    forall q ensures Keeps(base.value, quote.value, value.value, q) <==> q >= DivCeil(n, d) {
      CoversLeast(DivCeil(n, d), d, n, q);
      Balances(quote.value, q, base.value, value.value);
    }
  }

  // ---- Deposit fees ----

  const PAY_RATES: nat := 5
  const FEE_SCALE: nat := 1_000_000_000_000
  const MAX_AMOUNT: nat := 0xFFFF_FFFF_FFFF_FFFF
  const MAX_NUMERATOR: nat := 0xFFFF_FFFF_FFFF_FFFF_FFFF_FFFF_FFFF_FFFF

  /** The pay-rate history: a ring of `maxEntries` scaled rates, of which some are stored. */
  datatype History = History(entries: seq<nat>, currentIndex: nat, maxEntries: nat, empty: bool)

  /** Which entry the `offset`th of the averaged rates is. */
  function RingIndex(h: History, offset: nat): (index: int)
    requires h.maxEntries > 0
  {
    if h.empty then offset else (h.currentIndex - 1 - offset + h.maxEntries) % h.maxEntries
  }

  function Count(h: History): (n: nat)
    ensures n <= 5 && n <= h.maxEntries && n <= |h.entries|
    ensures n == 5 || n == h.maxEntries || n == |h.entries|
  {
    var n := if PAY_RATES < h.maxEntries then PAY_RATES else h.maxEntries;
    if n < |h.entries| then n else |h.entries|
  }

  /** The positive ones among the rates from the `offset`th on; one that is not stored counts as 0. */
  function RatesFrom(h: History, offset: nat): (rates: seq<nat>)
    requires offset <= Count(h)
    ensures |rates| <= Count(h) - offset && forall i :: 0 <= i < |rates| ==> rates[i] > 0
    decreases Count(h) - offset
  {
    if offset == Count(h) then []
    else
      var index := RingIndex(h, offset);
      var rate := if 0 <= index < |h.entries| then h.entries[index] else 0;
      (if rate > 0 then [rate] else []) + RatesFrom(h, offset + 1)
  }

  /** What an averaged place holds: an entry that is not stored counts as 0. */
  function RateAt(h: History, offset: nat): nat
    requires h.maxEntries > 0
  {
    var index := if h.empty then offset else RingIndex(h, offset);
    if 0 <= index < |h.entries| then h.entries[index] else 0
  }

  /** Some of the places, in order. */
  ghost predicate Increasing(places: seq<nat>, from: nat, to: nat) {
    && (forall i :: 0 <= i < |places| ==> from <= places[i] < to)
    && forall i, j :: 0 <= i < j < |places| ==> places[i] < places[j]
  }

  /** `places` are those from `from` on that hold a rate, `rates` what they hold. */
  ghost predicate Holding(h: History, places: seq<nat>, rates: seq<nat>, from: nat)
    requires h.maxEntries > 0
  {
    && Increasing(places, from, Count(h)) && |places| == |rates|
    && (forall i :: 0 <= i < |rates| ==> rates[i] == RateAt(h, places[i]))
    && forall k :: from <= k < Count(h) && RateAt(h, k) > 0 ==> k in places
  }

  lemma HoldingTaken(h: History, places: seq<nat>, rates: seq<nat>, from: nat)
    requires h.maxEntries > 0 && from < Count(h) && Holding(h, places, rates, from + 1)
    ensures Holding(h, [from] + places, [RateAt(h, from)] + rates, from)
  {
    hide RateAt, Count;
    var all := [from] + places;
    assert forall i :: 0 < i < |all| ==> all[i] == places[i - 1];
    forall k | from <= k < Count(h) && RateAt(h, k) > 0 ensures k in all {
      if k > from {
        assert k in places;
      } else {
        assert all[0] == k;
      }
    }
  }

  lemma HoldingSkipped(h: History, places: seq<nat>, rates: seq<nat>, from: nat)
    requires h.maxEntries > 0 && from < Count(h) && Holding(h, places, rates, from + 1) && RateAt(h, from) == 0
    ensures Holding(h, places, rates, from)
  {
    hide RateAt, Count;
  }

  lemma {:induction false} RatesPlaces(h: History, offset: nat) returns (places: seq<nat>)
    requires h.maxEntries > 0 && offset <= Count(h)
    ensures Holding(h, places, RatesFrom(h, offset), offset)
    decreases Count(h) - offset
  {
    places := [];
    if offset < Count(h) {
      hide RatesFrom, RateAt, Count, Holding;
      RatesStep(h, offset);
      var rest := RatesPlaces(h, offset + 1);
      if RateAt(h, offset) > 0 {
        places := [offset] + rest;
        HoldingTaken(h, rest, RatesFrom(h, offset + 1), offset);
      } else {
        places := rest;
        HoldingSkipped(h, rest, RatesFrom(h, offset + 1), offset);
      }
    }
  }

  lemma RatesStep(h: History, offset: nat)
    requires offset < Count(h)
    ensures var rate, more := RateAt(h, offset), RatesFrom(h, offset + 1);
            RatesFrom(h, offset) == if rate > 0 then [rate] + more else more
  {
    var more := RatesFrom(h, offset + 1);
    assert [] + more == more;
  }

  /** The rates averaged are the positive ones, in order, of those at the first `Count(h)` places back in the ring. */
  lemma RatesAveraged(h: History)
    ensures h.maxEntries == 0 ==> RatesFrom(h, 0) == []
    ensures h.maxEntries > 0 ==>
              exists places: seq<nat> ::
                && Increasing(places, 0, Count(h)) && |places| == |RatesFrom(h, 0)|
                && (forall i :: 0 <= i < |places| ==> RatesFrom(h, 0)[i] == RateAt(h, places[i]) > 0)
                && forall k :: 0 <= k < Count(h) && RateAt(h, k) > 0 ==> k in places
  {
    if h.maxEntries > 0 {
      var places := RatesPlaces(h, 0);
    }
  }

  function Sum(rates: seq<nat>): nat {
    if rates == [] then 0 else rates[0] + Sum(rates[1..])
  }

  /** Division that rounds up. */
  function Ceiling(n: nat, d: nat): (q: nat)
    requires d > 0
  {
    (n + d - 1) / d
  }

  function Average(rates: seq<nat>): nat {
    if rates == [] then 0 else Ceiling(Sum(rates), |rates|)
  }

  datatype Quote = Quote(amount: nat, fee: nat, totalDebit: nat)

  function QuoteDeposit(h: History, multiplier: nat, amount: int): Option<Quote> {
    if amount <= 0 || amount > MAX_AMOUNT then None
    else
      var numerator := Average(RatesFrom(h, 0)) * multiplier * amount;
      var fee := Ceiling(numerator, FEE_SCALE);
      if numerator > MAX_NUMERATOR || amount + fee > MAX_AMOUNT then None
      else Some(Quote(amount, fee, amount + fee))
  }

  lemma CeilingCovers(n: nat, d: nat)
    requires d > 0
    ensures Covers(Ceiling(n, d), d, n)
  {
    var q, r := (n + d - 1) / d, (n + d - 1) % d;
    assert n + d - 1 == d * q + r;
  }

  lemma ModOnce(n: int, m: nat, q: int, r: nat)
    requires m > 0 && n == q * m + r && r < m
    ensures n % m == r
  {
    var q', r' := n / m, n % m;
    assert n == q' * m + r';
    Larger(q, q', m);
    Larger(q', q, m);
  }

  /** Each averaged entry is in the ring, written just before the one averaged before it, and no other's. */
  lemma RingIndexes(h: History, i: nat)
    requires 0 < h.maxEntries && h.currentIndex <= h.maxEntries && !h.empty && i < Count(h)
    ensures 0 <= RingIndex(h, i) < h.maxEntries
    ensures (RingIndex(h, i) + 1) % h.maxEntries
            == if i == 0 then h.currentIndex % h.maxEntries else RingIndex(h, i - 1)
    ensures forall j: nat :: j < i ==> RingIndex(h, j) != RingIndex(h, i)
  {
    var m, c := h.maxEntries, h.currentIndex;
    forall k: nat | k <= i ensures RingIndex(h, k) == if c - 1 - k >= 0 then c - 1 - k else c - 1 - k + m {
      ModOnce(c - 1 - k + m, m, if c - 1 - k >= 0 then 1 else 0, if c - 1 - k >= 0 then c - 1 - k else c - 1 - k + m);
    }
    var index := RingIndex(h, i);
    if i == 0 {
      ModOnce(c, m, if c == m then 1 else 0, if c == m then 0 else c);
      ModOnce(index + 1, m, if index + 1 == m then 1 else 0, if c == m then 0 else c);
    } else {
      ModOnce(index + 1, m, if index + 1 == m then 1 else 0, RingIndex(h, i - 1));
    }
  }

  lemma {:induction false} SumConcat(a: seq<nat>, b: seq<nat>)
    ensures Sum(a + b) == Sum(a) + Sum(b)
    ensures forall x: nat :: Sum([x]) == x
  {
    if a == [] {
      assert a + b == b;
    } else {
      assert (a + b)[1..] == a[1..] + b;
      SumConcat(a[1..], b);
    }
  }

  /** The least number of which as many as there are rates reach their sum; 0 when there are none. */
  ghost predicate IsAverage(rates: seq<nat>, average: nat) {
    if rates == [] then average == 0
    else average * |rates| >= Sum(rates) && (average > 0 ==> (average - 1) * |rates| < Sum(rates))
  }

  lemma AverageIs(rates: seq<nat>, average: nat)
    ensures IsAverage(rates, average) <==> average == Average(rates)
  {
    if rates != [] {
      var n, q := |rates|, Ceiling(Sum(rates), |rates|);
      CeilingCovers(Sum(rates), n);
      CoversLeast(q, n, Sum(rates), average);
      CoversLeast(q, n, Sum(rates), average - 1);
      if average == q && average > 0 {
        assert average - 1 < q;
      }
    }
  }

  /** The least fee that covers `numerator` in units of 10^-12. */
  ghost predicate IsFee(numerator: nat, fee: nat) {
    fee * 1_000_000_000_000 >= numerator && (fee > 0 ==> (fee - 1) * 1_000_000_000_000 < numerator)
  }

  /**
   The quote for a deposit: the fee is the least that covers average rate x multiplier x amount over 10^12.
   It is refused exactly when the amount is not a positive u64, or that product is over 128 bits, or amount
   and fee together over 64.
   */
  lemma QuoteExactly(h: History, multiplier: nat, amount: int, average: nat, fee: nat)
    requires IsAverage(RatesFrom(h, 0), average)
    requires amount > 0 ==> IsFee(average * multiplier * amount, fee)
    ensures QuoteDeposit(h, multiplier, amount)
            == if amount <= 0 || amount > 0xFFFF_FFFF_FFFF_FFFF
                  || average * multiplier * amount > 0xFFFF_FFFF_FFFF_FFFF_FFFF_FFFF_FFFF_FFFF
                  || amount + fee > 0xFFFF_FFFF_FFFF_FFFF then None
               else Some(Quote(amount, fee, amount + fee))
  {
    AverageIs(RatesFrom(h, 0), average);
    if amount > 0 {
      var numerator := average * multiplier * amount;
      Fee(numerator, fee);
      Fee(numerator, fee - 1);
      assert fee == Ceiling(numerator, FEE_SCALE);
    }
  }

  lemma Fee(numerator: nat, f: int)
    ensures f >= Ceiling(numerator, FEE_SCALE) <==> f * FEE_SCALE >= numerator
  {
    CeilingCovers(numerator, FEE_SCALE);
    CoversLeast(Ceiling(numerator, FEE_SCALE), FEE_SCALE, numerator, f);
  }

  /** A smaller deposit can be quoted whenever a larger one can, for no higher a fee. */
  lemma FeeMonotone(h: History, multiplier: nat, less: nat, more: nat)
    requires 0 < less <= more && QuoteDeposit(h, multiplier, more).Some?
    ensures QuoteDeposit(h, multiplier, less).Some?
    ensures QuoteDeposit(h, multiplier, less).value.fee <= QuoteDeposit(h, multiplier, more).value.fee
  {
    var rate := Average(RatesFrom(h, 0)) * multiplier;
    Larger(more, less, rate);
    Fee(rate * less, Ceiling(rate * more, FEE_SCALE));
    Fee(rate * more, Ceiling(rate * more, FEE_SCALE));
  }

  lemma {:induction false} SumBounds(rates: seq<nat>, low: nat, high: nat)
    requires forall i :: 0 <= i < |rates| ==> low <= rates[i] <= high
    ensures low * |rates| <= Sum(rates) <= high * |rates|
  {
    if rates != [] {
      SumBounds(rates[1..], low, high);
    }
  }

  /** The average lies between the rates it is taken of. */
  lemma AverageBetween(rates: seq<nat>, low: nat, high: nat)
    requires rates != [] && forall i :: 0 <= i < |rates| ==> low <= rates[i] <= high
    ensures low <= Average(rates) <= high
  {
    var n := |rates|;
    SumBounds(rates, low, high);
    CeilingCovers(Sum(rates), n);
    CoversLeast(Average(rates), n, Sum(rates), high);
    Larger(low, Average(rates), n);
  }
}
