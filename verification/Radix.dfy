/** Positional numbers in any base, most significant digit first. */
module Radix {
  type digits = seq<nat>

  function Zeros(n: nat): (ds: digits)
    ensures |ds| == n
  {
    seq(n, _ => 0)
  }

  function Reverse<T>(s: seq<T>): (r: seq<T>)
    ensures |r| == |s| && forall i :: 0 <= i < |s| ==> r[i] == s[|s| - 1 - i]
  {
    if s == [] then [] else Reverse(s[1..]) + [s[0]]
  }

  function Quo(n: nat, base: nat): nat
    requires base > 0
  {
    n / base
  }

  function Rem(n: nat, base: nat): (r: nat)
    requires base > 0
    ensures r < base
  {
    n % base
  }

  /** The number `v` with one more digit. */
  function Extend(v: nat, base: nat, d: nat): nat {
    v * base + d
  }

  function Value(ds: digits, base: nat): nat {
    if ds == [] then 0 else Extend(Value(ds[..|ds| - 1], base), base, ds[|ds| - 1])
  }

  function LeadingZeros(ds: digits): (n: nat)
    ensures n <= |ds| && (n < |ds| ==> ds[n] != 0) && forall i :: 0 <= i < n ==> ds[i] == 0
  {
    if ds == [] || ds[0] != 0 then 0 else 1 + LeadingZeros(ds[1..])
  }

  predicate AreDigits(ds: digits, base: nat) {
    forall i :: 0 <= i < |ds| ==> ds[i] < base
  }

  lemma DivMod(v: nat, base: nat, d: nat)
    requires d < base
    ensures Quo(Extend(v, base, d), base) == v && Rem(Extend(v, base, d), base) == d
  {
    var n := v * base + d;
    var q, r := n / base, n % base;
    assert n == q * base + r;
    if q < v {
      MulMore(v, q, base);
    } else if v < q {
      MulMore(q, v, base);
    }
  }

  lemma DivModSum(n: nat, base: nat)
    requires base > 0
    ensures Extend(Quo(n, base), base, Rem(n, base)) == n
  {
  }

  lemma MulMore(a: nat, b: nat, base: nat)
    requires a > b
    ensures a * base >= b * base + base
  {
    assert a * base == b * base + (a - b) * base;
    assert (a - b) * base == base + (a - b - 1) * base;
  }

  lemma DivLess(n: nat, base: nat)
    requires n > 0 && base >= 2
    ensures Quo(n, base) < n
  {
    var q := n / base;
    assert n == q * base + n % base;
    if q > 0 {
      assert q * base == q + q * (base - 1);
      MulMore(q, 0, base - 1);
    }
  }

  /** The digits of `n` least significant first, without zeros at the top; none for zero. */
  function Minimal(n: nat, base: nat): (ds: digits)
    requires base >= 2
    ensures AreDigits(ds, base) && (ds != [] ==> ds[|ds| - 1] != 0) && (ds == [] <==> n == 0)
  {
    if n == 0 then []
    else
      DivLess(n, base);
      [Rem(n, base)] + Minimal(Quo(n, base), base)
  }

  lemma MinimalUnfold(n: nat, base: nat)
    requires base >= 2 && n > 0
    ensures var ds := Minimal(n, base);
            ds != [] && ds[0] == Rem(n, base) && ds[1..] == Minimal(Quo(n, base), base)
  {
    hide Quo, Rem;
  }

  lemma {:induction false} MinimalStep(v: nat, base: nat, d: nat)
    requires base >= 2 && d < base && (v > 0 || d > 0)
    ensures Minimal(Extend(v, base, d), base) == [d] + Minimal(v, base)
  {
    DivMod(v, base, d);
    ExtendZero(v, base, d);
  }

  lemma ExtendZero(v: nat, base: nat, d: nat)
    requires base > 0
    ensures Extend(v, base, d) == 0 <==> v == 0 && d == 0
    ensures Extend(0, base, d) == d
  {
    if v > 0 {
      MulMore(v, 0, base);
    }
  }

  lemma ReverseStep<T>(x: T, s: seq<T>)
    ensures Reverse([x] + s) == Reverse(s) + [x]
  {
    assert ([x] + s)[1..] == s;
  }

  lemma ValueAppend(ds: digits, d: nat, base: nat)
    ensures Value(ds + [d], base) == Extend(Value(ds, base), base, d)
  {
    assert (ds + [d])[..|ds|] == ds;
  }

  /** A digit sequence is its leading zeros and the digits of its value. */
  lemma {:induction false} Canonical(ds: digits, base: nat)
    requires base >= 2 && AreDigits(ds, base)
    ensures ds == Zeros(LeadingZeros(ds)) + Reverse(Minimal(Value(ds, base), base))
  {
    if ds == [] {
    } else {
      hide Reverse, Minimal, LeadingZeros, Zeros, Value, Extend;
      var front, d := ds[..|ds| - 1], ds[|ds| - 1];
      Canonical(front, base);
      assert ds == front + [d];
      ValueAppend(front, d, base);
      if Value(front, base) == 0 {
        CanonicalZeroFront(front, d, base);
      } else {
        CanonicalFront(front, d, base);
      }
    }
  }

  /** All digits are zero when the value is. */
  lemma {:induction false} ZeroValue(ds: digits, base: nat)
    requires base >= 1 && Value(ds, base) == 0
    ensures ds == Zeros(|ds|) && LeadingZeros(ds) == |ds|
  {
    if ds != [] {
      var front := ds[..|ds| - 1];
      ExtendZero(Value(front, base), base, ds[|ds| - 1]);
      ZeroValue(front, base);
      assert ds == front + [0];
    }
    assert forall i :: 0 <= i < |ds| ==> ds[i] == 0;
  }

  lemma CanonicalZeroFront(front: digits, d: nat, base: nat)
    requires base >= 2 && d < base && Value(front, base) == 0
    ensures front + [d] == Zeros(LeadingZeros(front + [d])) + Reverse(Minimal(Extend(0, base, d), base))
  {
    hide Value, Minimal, Reverse, Extend;
    var ds := front + [d];
    ExtendZero(0, base, d);
    ZeroValue(front, base);
    if d == 0 {
      assert ds == Zeros(|ds|);
      LeadingAll(ds);
    } else {
      assert forall i :: 0 <= i < |front| ==> ds[i] == front[i] == 0;
      LeadingZerosUnique(ds, |front|);
      MinimalStep(0, base, d);
      ReverseStep(d, Minimal(0, base));
    }
  }

  lemma {:induction false} LeadingAll(ds: digits)
    requires forall i :: 0 <= i < |ds| ==> ds[i] == 0
    ensures LeadingZeros(ds) == |ds|
  {
  }

  lemma CanonicalFront(front: digits, d: nat, base: nat)
    requires base >= 2 && d < base && Value(front, base) > 0
    requires front == Zeros(LeadingZeros(front)) + Reverse(Minimal(Value(front, base), base))
    ensures front + [d]
            == Zeros(LeadingZeros(front + [d])) + Reverse(Minimal(Extend(Value(front, base), base, d), base))
  {
    hide Reverse, Minimal, LeadingZeros, Zeros, Value, Extend;
    var ds, v, n := front + [d], Value(front, base), LeadingZeros(front);
    MinimalStep(v, base, d);
    ReverseStep(d, Minimal(v, base));
    assert n < |front| by {
      if n == |front| {
        ValueOfZeros(front, base);
      }
    }
    assert forall i :: 0 <= i < n ==> ds[i] == front[i];
    LeadingZerosUnique(ds, n);
  }

  lemma {:induction false} ValueOfZeros(ds: digits, base: nat)
    requires forall i :: 0 <= i < |ds| ==> ds[i] == 0
    ensures Value(ds, base) == 0
  {
    if ds != [] {
      assert Extend(0, base, 0) == 0;
      ValueOfZeros(ds[..|ds| - 1], base);
    }
  }

  lemma LeadingZerosUnique(ds: digits, n: nat)
    requires n < |ds| && ds[n] != 0 && forall i :: 0 <= i < n ==> ds[i] == 0
    ensures LeadingZeros(ds) == n
  {
  }

  lemma {:induction false} ValueZeros(n: nat, ds: digits, base: nat)
    ensures Value(Zeros(n) + ds, base) == Value(ds, base)
    decreases n + |ds|
  {
    var all := Zeros(n) + ds;
    if ds != [] {
      assert all[..|all| - 1] == Zeros(n) + ds[..|ds| - 1];
      ValueZeros(n, ds[..|ds| - 1], base);
    } else if n > 0 {
      assert all[..|all| - 1] == Zeros(n - 1) + [];
      ValueZeros(n - 1, [], base);
    }
  }

  lemma {:induction false} ValueOfMinimal(n: nat, base: nat)
    requires base >= 2
    ensures Value(Reverse(Minimal(n, base)), base) == n
    decreases n
  {
    if n == 0 {
    } else {
      var q, d := Quo(n, base), Rem(n, base);
      DivLess(n, base);
      DivModSum(n, base);
      ExtendZero(q, base, d);
      hide Reverse, Value, Extend, Minimal, Quo, Rem;
      ValueOfMinimal(q, base);
      MinimalStep(q, base, d);
      ReverseStep(d, Minimal(q, base));
      ValueAppend(Reverse(Minimal(q, base)), d, base);
    }
  }

  /** Leading zeros and a value determine the digits, and any such pair has digits. */
  function Spelled(zeros: nat, n: nat, base: nat): (ds: digits)
    requires base >= 2
  {
    Zeros(zeros) + Reverse(Minimal(n, base))
  }

  lemma SpelledParts(zeros: nat, n: nat, base: nat)
    requires base >= 2
    ensures var ds := Spelled(zeros, n, base);
            AreDigits(ds, base) && LeadingZeros(ds) == zeros && Value(ds, base) == n
  {
    var m := Minimal(n, base);
    var ds := Spelled(zeros, n, base);
    ValueZeros(zeros, Reverse(m), base);
    ValueOfMinimal(n, base);
    if m != [] {
      assert ds[zeros] == m[|m| - 1];
      LeadingZerosUnique(ds, zeros);
    }
  }
}
