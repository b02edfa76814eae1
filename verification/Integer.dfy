/** Fixed-width integers with C++11 conversions (chain/Integer.ts). */
module Integer {
  import opened Bytes
  import opened Leaf

  /** An integer class: its byte width and signedness. */
  datatype Kind = Kind(width: nat, signed: bool)

  datatype Int = Int(kind: Kind, value: int)

  const INT32 := Kind(4, true)

  predicate Fits(value: int, kind: Kind) {
    InRange(value, kind.width, kind.signed)
  }

  /** Instances exist for values in range only; there is no class without bytes. */
  predicate Valid(n: Int) {
    n.kind.width >= 1 && Fits(n.value, n.kind)
  }

  // ---- Bit patterns ----

  /** The bytes of bn.js's `toArrayLike("le")`: as many as needed, at least one. */
  function NumBytes(u: nat): (k: nat)
    ensures k >= 1
  {
    if u < 256 then 1 else 1 + NumBytes(u / 256)
  }

  function MinimalLe(u: nat): bytes {
    ToLe(u, NumBytes(u))
  }

  /** `toBytes.fill(fill)` and `toBytes.set(fromBytes.slice(0, width))`. */
  function Resized(bs: bytes, width: nat, fill: byte): (r: bytes)
    ensures |r| == width
  {
    seq(width, i requires 0 <= i < width => if i < |bs| then bs[i] else fill)
  }

  /** Where bn.js's `toTwos` is two's complement in the source width. */
  predicate Complementable(value: int, from: Kind) {
    value < 0 ==> from.signed && value > 0 - Pow256(from.width)
  }

  function FromValue(value: int, from: Kind): (u: nat)
    requires Complementable(value, from)
  {
    if value < 0 then value + Pow256(from.width) else value
  }

  function TruncatedBytes(value: int, from: Kind, to: Kind): bytes
    requires Complementable(value, from)
  {
    Resized(MinimalLe(FromValue(value, from)), to.width, if value < 0 then 255 else 0)
  }

  /** Signed types read the top bit as a sign. */
  function FromPattern(bs: bytes, kind: Kind): int
    requires |bs| == kind.width
  {
    FromTwos(FromLe(bs), kind.width, kind.signed)
  }

  function Truncated(value: int, from: Kind, to: Kind): (r: int)
    requires Complementable(value, from)
  {
    FromPattern(TruncatedBytes(value, from, to), to)
  }

  method Truncate(value: int, from: Kind, to: Kind) returns (r: int)
    requires Complementable(value, from)
    ensures r == Truncated(value, from, to)
  {
    var fill: byte := if value < 0 then 255 else 0;
    var fromBytes := MinimalLe(FromValue(value, from));
    var toBytes := new byte[to.width](_ => fill);
    forall i | 0 <= i < to.width && i < |fromBytes| {
      toBytes[i] := fromBytes[i];
    }
    assert toBytes[..] == TruncatedBytes(value, from, to);
    var toValue := FromLe(toBytes[..]);
    r := FromTwos(toValue, to.width, to.signed);
  }

  lemma {:induction false} LowAt(v: int, w: nat, i: nat)
    requires i < w
    ensures ToLe(v, i + 1)[i] == ToLe(v, w)[i]
    decreases w
  {
    if i > 0 {
      LowAt(v / 256, w - 1, i - 1);
      assert ToLe(v, i + 1)[i] == ToLe(v / 256, i)[i - 1];
    }
  }

  /** Past its last byte a number has zeros. */
  lemma {:induction false} LowPastEnd(u: nat, w: nat, i: nat)
    requires NumBytes(u) <= i < w
    ensures ToLe(u, w)[i] == 0
  {
    if u < 256 {
      LowZero(w - 1, i - 1);
    } else {
      LowPastEnd(u / 256, w - 1, i - 1);
    }
  }

  lemma {:induction false} LowZero(w: nat, i: nat)
    requires i < w
    ensures ToLe(0, w)[i] == 0
  {
    if i > 0 {
      LowZero(w - 1, i - 1);
    }
  }

  /** The bytes of a negative number: those of its complement, then all ones. */
  lemma {:induction false} LowNegative(u: nat, f: nat, w: nat, i: nat)
    requires u < Pow256(f) && i < w
    ensures ToLe(u - Pow256(f), w)[i] == if i < f then ToLe(u, w)[i] else 255
  {
    var v := u - Pow256(f);
    if f == 0 {
      assert v == -1;
      LowMinusOne(w, i);
    } else {
      assert v % 256 == u % 256 && v / 256 == u / 256 - Pow256(f - 1);
      if i > 0 {
        LowNegative(u / 256, f - 1, w - 1, i - 1);
      }
    }
  }

  lemma {:induction false} LowMinusOne(w: nat, i: nat)
    requires i < w
    ensures ToLe(-1, w)[i] == 255
  {
    if i > 0 {
      LowMinusOne(w - 1, i - 1);
    }
  }

  /** The narrower of two widths. */
  function Narrower(a: nat, b: nat): nat {
    if a < b then a else b
  }

  /**
   Where `truncate` goes wrong: a negative number so low that its complement has fewer bytes
   than both widths, and the missing zero bytes are filled with ones.
   */
  predicate Misfilled(value: int, from: Kind, to: Kind)
    requires Complementable(value, from)
  {
    value < 0 && NumBytes(FromValue(value, from)) < Narrower(from.width, to.width)
  }

  lemma TruncatedAt(value: int, from: Kind, to: Kind, i: nat)
    requires Complementable(value, from) && i < to.width
    ensures var out := TruncatedBytes(value, from, to);
            out[i] == ToLe(value, to.width)[i]
            <==> !(value < 0 && NumBytes(FromValue(value, from)) <= i < from.width)
  {
    hide ToLe, NumBytes;
    var u, w := FromValue(value, from), to.width;
    var k := NumBytes(u);
    if value < 0 {
      assert value == u - Pow256(from.width) && from.width >= 1;
      NumBytesBound(u, from.width);
      LowNegative(u, from.width, w, i);
    }
    if i < k {
      LowAt(u, k, i);
      LowAt(u, w, i);
    } else {
      LowPastEnd(u, w, i);
    }
  }

  /** `truncate` keeps the bit pattern, extending the sign, exactly unless it misfills. */
  lemma TruncateExact(value: int, from: Kind, to: Kind)
    requires Complementable(value, from)
    ensures TruncatedBytes(value, from, to) == ToLe(value, to.width) <==> !Misfilled(value, from, to)
  {
    var u, w := FromValue(value, from), to.width;
    var k := NumBytes(u);
    var out := TruncatedBytes(value, from, to);
    forall i | 0 <= i < w
      ensures out[i] == ToLe(value, w)[i] <==> !(value < 0 && k <= i < from.width)
    {
      TruncatedAt(value, from, to, i);
    }
    if Misfilled(value, from, to) {
      assert out[k] != ToLe(value, w)[k];
    }
  }

  /** The same condition as a bound: only numbers near the bottom of twice the signed range misfill. */
  lemma {:induction false} NumBytesBound(u: nat, k: nat)
    ensures NumBytes(u) <= k <==> k >= 1 && u < Pow256(k)
  {
    if k >= 1 && u >= 256 {
      NumBytesBound(u / 256, k - 1);
    } else if k >= 1 {
      assert Pow256(k) == 256 * Pow256(k - 1);
    }
  }

  // ---- Congruence ----

  lemma {:induction false} LowShift(x: int, k: int, w: nat)
    ensures ToLe(x + Pow256(w) * k, w) == ToLe(x, w)
    decreases w
  {
    if w > 0 {
      var m := Pow256(w - 1) * k;
      MulAssociates(256, Pow256(w - 1), k);
      assert (x + 256 * m) % 256 == x % 256 && (x + 256 * m) / 256 == x / 256 + m;
      LowShift(x / 256, k, w - 1);
    }
  }

  /** Equal patterns differ by a multiple of the modulus. */
  lemma {:induction false} LowDifference(a: int, b: int, w: nat) returns (k: int)
    requires ToLe(a, w) == ToLe(b, w)
    ensures a == b + Pow256(w) * k
    decreases w
  {
    if w == 0 {
      k := a - b;
    } else {
      assert ToLe(a, w)[0] == ToLe(b, w)[0];
      assert ToLe(a, w)[1..] == ToLe(a / 256, w - 1) && ToLe(b, w)[1..] == ToLe(b / 256, w - 1);
      k := LowDifference(a / 256, b / 256, w - 1);
      MulAssociates(256, Pow256(w - 1), k);
    }
  }

  /** A narrower pattern is a part of a wider one. */
  lemma LowNarrows(a: int, b: int, w: nat, n: nat)
    requires ToLe(a, w) == ToLe(b, w) && n <= w
    ensures ToLe(a, n) == ToLe(b, n)
  {
    forall i | 0 <= i < n ensures ToLe(a, n)[i] == ToLe(b, n)[i] {
      LowAt(a, n, i);
      LowAt(a, w, i);
      LowAt(b, n, i);
      LowAt(b, w, i);
    }
  }

  datatype Op = Add | Sub | Mul

  function Exact(op: Op, a: int, b: int): int {
    match op
    case Add => a + b
    case Sub => a - b
    case Mul => a * b
  }

  /** Patterns of results depend on patterns of operands only. */
  lemma LowExact(op: Op, a: int, b: int, a': int, b': int, w: nat)
    requires ToLe(a, w) == ToLe(a', w) && ToLe(b, w) == ToLe(b', w)
    ensures ToLe(Exact(op, a, b), w) == ToLe(Exact(op, a', b'), w)
  {
    var j := LowDifference(a, a', w);
    var k := LowDifference(b, b', w);
    var m := Pow256(w);
    hide ToLe, Pow256;
    match op
    case Add =>
      Distribute(m, j, k);
      LowShift(a' + b', j + k, w);
    case Sub =>
      Distribute(m, j, k);
      LowShift(a' - b', j - k, w);
    case Mul =>
      Product(a, b, a', b', m, j, k);
      LowShift(a' * b', j * b' + a' * k + m * j * k, w);
  }

  lemma Distribute(m: int, j: int, k: int)
    ensures m * (j + k) == m * j + m * k && m * (j - k) == m * j - m * k
  {
  }

  lemma Product(a: int, b: int, a': int, b': int, m: int, j: int, k: int)
    requires a == a' + m * j && b == b' + m * k
    ensures a * b == a' * b' + m * (j * b' + a' * k + m * j * k)
  {
    calc {
      a * b;
      a' * b' + a' * (m * k) + (m * j) * b' + (m * j) * (m * k);
      { Swap(a', m, k); MulAssociates(m, j, b'); Swap(m * j, m, k); }
      a' * b' + m * (a' * k) + m * (j * b') + m * (m * j * k);
      { Distribute(m, a' * k, j * b'); Distribute(m, j * b' + a' * k, m * j * k); }
      a' * b' + m * (j * b' + a' * k + m * j * k);
    }
  }

  lemma Swap(x: int, m: int, k: int)
    ensures x * (m * k) == m * (x * k)
  {
  }

  /** Reading a pattern gives a number in range with that pattern, and it is the only one. */
  lemma PatternValue(bs: bytes, kind: Kind)
    requires |bs| == kind.width
    ensures Fits(FromPattern(bs, kind), kind) && ToLe(FromPattern(bs, kind), kind.width) == bs
  {
    ToLeFromLe(bs);
    var u := FromLe(bs);
    if kind.signed && 2 * u >= Pow256(kind.width) {
      LowShift(u, -1, kind.width);
      assert Pow256(kind.width) * -1 == 0 - Pow256(kind.width);
    }
  }

  lemma MultipleSize(m: int, k: int)
    requires m > 0
    ensures k >= 1 ==> m * k >= m
    ensures k <= -1 ==> m * k <= -m
  {
    if k >= 1 {
      assert m * k == m + m * (k - 1);
    } else if k <= -1 {
      assert m * k == -m + m * (k + 1);
    }
  }

  lemma PatternUnique(a: int, b: int, kind: Kind)
    requires Fits(a, kind) && Fits(b, kind) && ToLe(a, kind.width) == ToLe(b, kind.width)
    ensures a == b
  {
    var k := LowDifference(a, b, kind.width);
    var m := Pow256(kind.width);
    MultipleSize(m, k);
  }

  // ---- Conversions ----

  lemma {:induction false} Pow256Grows(a: nat, b: nat)
    requires a < b
    ensures Pow256(b) >= 256 * Pow256(a)
  {
    if a < b - 1 {
      Pow256Grows(a, b - 1);
    }
  }

  /** An instance's own value never misfills. */
  lemma ValidTruncates(n: Int, to: Kind)
    requires Valid(n)
    ensures Complementable(n.value, n.kind) && !Misfilled(n.value, n.kind, to)
  {
    if n.value < 0 {
      var w := n.kind.width;
      assert Pow256(w) == 256 * Pow256(w - 1);
      NumBytesBound(FromValue(n.value, n.kind), w - 1);
    }
  }

  /** `cast` keeps the pattern, and the value wherever it fits: the conversions of C++11 section 4.7. */
  function Cast(n: Int, kind: Kind): (r: Int)
    requires Valid(n) && kind.width >= 1
    ensures Valid(r) && r.kind == kind && ToLe(r.value, kind.width) == ToLe(n.value, kind.width)
    ensures Fits(n.value, kind) ==> r.value == n.value
  {
    ValidTruncates(n, kind);
    if kind == n.kind then n
    else
      TruncateExact(n.value, n.kind, kind);
      PatternValue(TruncatedBytes(n.value, n.kind, kind), kind);
      var v := Truncated(n.value, n.kind, kind);
      assert Fits(n.value, kind) ==> v == n.value by {
        if Fits(n.value, kind) {
          PatternUnique(v, n.value, kind);
        }
      }
      Int(kind, v)
  }

  /** Integral promotion, section 4.5. */
  function Promote(n: Int): (r: Int)
    requires Valid(n)
  {
    if n.kind.width < 4 then Cast(n, INT32) else n
  }

  function Max(kind: Kind): int {
    (if kind.signed then Pow256(kind.width) / 2 else Pow256(kind.width)) - 1
  }

  function Min(kind: Kind): int {
    if kind.signed then 0 - Max(kind) - 1 else 0
  }

  /** The branches of `convert`, the last of which its author calls dead. */
  function Convert(a0: Int, b0: Int): (Int, Int)
    requires Valid(a0) && Valid(b0)
  {
    PromoteValid(a0);
    PromoteValid(b0);
    var a, b := Promote(a0), Promote(b0);
    if a.kind == b.kind then (a, b)
    else if a.kind.signed == b.kind.signed then
      if a.kind.width > b.kind.width then (a, Cast(b, a.kind))
      else if b.kind.width > a.kind.width then (Cast(a, b.kind), b)
      else (a, b)
    else if !a.kind.signed && a.kind.width >= b.kind.width then (a, Cast(b, a.kind))
    else if !b.kind.signed && b.kind.width >= a.kind.width then (Cast(a, b.kind), b)
    else if a.kind.signed && Max(a.kind) >= Max(b.kind) && Min(a.kind) <= Min(b.kind) then (a, Cast(b, a.kind))
    else if b.kind.signed && Max(b.kind) >= Max(a.kind) && Min(b.kind) <= Min(a.kind) then (Cast(a, b.kind), b)
    else (a, b)
  }

  lemma PromoteValid(n: Int)
    requires Valid(n)
    ensures var r := Promote(n);
            Valid(r) && r.value == n.value && r.kind == if n.kind.width < 4 then INT32 else n.kind
  {
    if n.kind.width < 4 {
      Pow256Grows(n.kind.width, 4);
    }
  }

  /** The usual arithmetic conversions, clause 5 paragraph 9: the type both operands end up in. */
  function CommonKind(a: Kind, b: Kind): Kind {
    var p, q := if a.width < 4 then INT32 else a, if b.width < 4 then INT32 else b;
    var unsigned, signed := if p.signed then q else p, if p.signed then p else q;
    if p.signed == q.signed then (if p.width >= q.width then p else q)
    else if unsigned.width >= signed.width then unsigned
    else signed
  }

  /** At least four bytes and as wide as either operand; unsigned exactly when an operand of that width is. */
  lemma CommonKindRule(a: Kind, b: Kind)
    ensures var kind := CommonKind(a, b);
            && kind.width >= 4 && kind.width >= a.width && kind.width >= b.width
            && (kind.width == 4 || kind.width == a.width || kind.width == b.width)
            && (!kind.signed <==> (!a.signed && a.width == kind.width) || (!b.signed && b.width == kind.width))
  {
  }

  /** `n` in the common type: the same pattern, and the same value unless a sign is lost. */
  ghost predicate Represents(x: Int, n: Int, kind: Kind) {
    && Valid(x) && x.kind == kind && ToLe(x.value, kind.width) == ToLe(n.value, kind.width)
    && (n.value >= 0 || kind.signed ==> x.value == n.value)
  }

  /**
   Both operands end in the standard's common type, at least four bytes wide, so the dead
   branch is dead for every pair of widths.
   */
  lemma ConvertStandard(a: Int, b: Int)
    requires Valid(a) && Valid(b)
    ensures var (x, y) := Convert(a, b);
            var kind := CommonKind(a.kind, b.kind);
            && kind.width >= 4 && kind.width >= a.kind.width && kind.width >= b.kind.width
            && Represents(x, a, kind) && Represents(y, b, kind)
  {
    hide ToLe, Cast, Promote, Pow256;
    var p, q := Promote(a), Promote(b);
    PromoteValid(a);
    PromoteValid(b);
    var kind := CommonKind(a.kind, b.kind);
    if p.kind.width < q.kind.width {
      Widens(p.kind, q.kind);
    } else if q.kind.width < p.kind.width {
      Widens(q.kind, p.kind);
    }
    FitsCommon(p, kind);
    FitsCommon(q, kind);
  }

  /** A wider signed type covers any narrower type. */
  lemma Widens(narrow: Kind, wide: Kind)
    requires narrow.width < wide.width
    ensures wide.signed ==> Max(wide) >= Max(narrow) && Min(wide) <= Min(narrow)
    ensures !narrow.signed ==> Max(wide) >= Max(narrow)
  {
    Pow256Grows(narrow.width, wide.width);
  }

  lemma FitsCommon(n: Int, kind: Kind)
    requires Valid(n)
    requires n.kind.width < kind.width || n.kind == kind
             || (n.kind.width == kind.width && n.kind.signed && !kind.signed)
    ensures n.value >= 0 || kind.signed ==> Fits(n.value, kind)
  {
    if n.kind.width < kind.width {
      Pow256Grows(n.kind.width, kind.width);
    }
  }

  // ---- Operators ----

  /** The type a result is read from: a negative one is taken as signed. */
  function ResultKind(r: int, kind: Kind): Kind {
    if r < 0 then Kind(kind.width, true) else kind
  }

  /** The exact result of the converted operands. */
  function ExactResult(op: Op, a: Int, b: Int): int
    requires Valid(a) && Valid(b)
  {
    var (x, y) := Convert(a, b);
    Exact(op, x.value, y.value)
  }

  /** Results this low are past what `toTwos` complements in the common width. */
  predicate Operable(op: Op, a: Int, b: Int)
    requires Valid(a) && Valid(b)
  {
    ExactResult(op, a, b) > 0 - Pow256(CommonKind(a.kind, b.kind).width)
  }

  /** `Int.add`, `Int.sub` and `Int.mul` with their default, truncating overflow behaviour. */
  function Operator(op: Op, a: Int, b: Int): (r: Int)
    requires Valid(a) && Valid(b) && Operable(op, a, b)
    ensures Valid(r) && r.kind == CommonKind(a.kind, b.kind)
    ensures var exact := ExactResult(op, a, b);
            ToLe(r.value, r.kind.width) == TruncatedBytes(exact, ResultKind(exact, r.kind), r.kind)
  {
    ConvertStandard(a, b);
    var kind := Convert(a, b).0.kind;
    var r := ExactResult(op, a, b);
    PatternValue(TruncatedBytes(r, ResultKind(r, kind), kind), kind);
    Int(kind, Truncated(r, ResultKind(r, kind), kind))
  }

  /** `adding`, `subtracting`, `multiplying`: the result cast to the type of the left operand. */
  function Operate(op: Op, a: Int, b: Int): (r: Int)
    requires Valid(a) && Valid(b) && Operable(op, a, b)
    ensures Valid(r) && r.kind == a.kind
  {
    Cast(Operator(op, a, b), a.kind)
  }

  /**
   When the result in the left operand's width comes out right: it is not negative, or its
   complement reaches up to the last of the bytes kept.
   */
  predicate Wraps(r: int, width: nat, common: nat)
    requires width >= 1
  {
    r >= 0 || width == 1 || r + Pow256(common) >= Pow256(width - 1)
  }

  /**
   The mathematical result of the operands themselves, modulo 2 to the power of 8 times the
   left operand's width, exactly when `Wraps`; the instance returned is then the only one.
   */
  lemma OperateExact(op: Op, a: Int, b: Int)
    requires Valid(a) && Valid(b) && Operable(op, a, b)
    ensures var w := a.kind.width;
            ToLe(Operate(op, a, b).value, w) == ToLe(Exact(op, a.value, b.value), w)
            <==> Wraps(ExactResult(op, a, b), w, CommonKind(a.kind, b.kind).width)
  {
    hide ToLe, Pow256, Convert, Cast, TruncatedBytes, Truncated, CommonKind;
    ConvertStandard(a, b);
    var kind, n := CommonKind(a.kind, b.kind), a.kind.width;
    var w := kind.width;
    var (x, y) := Convert(a, b);
    var r := ExactResult(op, a, b);
    LowExact(op, x.value, y.value, a.value, b.value, w) by {
      assert ToLe(x.value, w) == ToLe(a.value, w);
    }
    LowNarrows(r, Exact(op, a.value, b.value), w, n);
    var t := Operator(op, a, b).value;
    var out := TruncatedBytes(r, ResultKind(r, kind), kind);
    PatternsAgree(r, kind, t, n);
  }

  lemma PatternsAgree(r: int, kind: Kind, t: int, n: nat)
    requires 1 <= n <= kind.width && r > 0 - Pow256(kind.width)
    requires ToLe(t, kind.width) == TruncatedBytes(r, ResultKind(r, kind), kind)
    ensures ToLe(t, n) == ToLe(r, n) <==> Wraps(r, n, kind.width)
  {
    hide ToLe, TruncatedBytes;
    var from, w := ResultKind(r, kind), kind.width;
    var k := NumBytes(FromValue(r, from));
    forall i | 0 <= i < n ensures ToLe(t, n)[i] == ToLe(r, n)[i] <==> !(r < 0 && k <= i) {
      TruncatedAt(r, from, kind, i);
      LowAt(t, n, i);
      LowAt(t, w, i);
      LowAt(r, n, i);
      LowAt(r, w, i);
    }
    NumBytesBound(FromValue(r, from), n - 1);
    if r < 0 && k < n {
      assert ToLe(t, n)[k] != ToLe(r, n)[k];
    } else {
      assert forall i :: 0 <= i < n ==> ToLe(t, n)[i] == ToLe(r, n)[i];
    }
  }

  /** uint32 zero minus its largest value should wrap to 1 and comes out as 0xFFFFFF01. */
  lemma SubtractionMisfills()
    ensures var uint32 := Kind(4, false);
            var a, b := Int(uint32, 0), Int(uint32, 0xFFFF_FFFF);
            Valid(a) && Valid(b) && Operable(Sub, a, b) && Operate(Sub, a, b).value == 0xFFFF_FF01
  {
    var uint32 := Kind(4, false);
    var a, b := Int(uint32, 0), Int(uint32, 0xFFFF_FFFF);
    assert Pow256(4) == 256 * (256 * (256 * (256 * Pow256(0))));
    assert ExactResult(Sub, a, b) == -0xFFFF_FFFF;
    var bs := TruncatedBytes(-0xFFFF_FFFF, Kind(4, true), uint32);
    assert bs == [1, 255, 255, 255];
    assert bs[1..] == [255, 255, 255] && bs[1..][1..] == [255, 255] && bs[1..][1..][1..] == [255];
    assert FromLe([255]) == 255;
    assert FromLe([255, 255]) == 0xFFFF;
    assert FromLe([255, 255, 255]) == 0xFFFFFF;
    assert FromLe(bs) == 0xFFFF_FF01;
  }

  /** A number updated in place by `add`, `subtract` and `multiply`. */
  class MutableInt {
    const kind: Kind
    var value: int

    constructor (n: Int)
      requires Valid(n)
      ensures Current() == n
    {
      kind, value := n.kind, n.value;
    }

    function Current(): Int
      reads this
    {
      Int(kind, value)
    }

    /**
     Stays in its type's range, and becomes the exact result of its old value and the operand modulo
     2 to the power of 8 times its width, exactly when `Wraps`; in its own range then the result itself.
     */
    method Apply(op: Op, num: Int)
      requires Valid(Current()) && Valid(num) && Operable(op, Current(), num)
      modifies `value
      ensures Valid(Current()) && Current() == Operate(op, old(Current()), num)
      ensures ToLe(value, kind.width) == ToLe(Exact(op, old(value), num.value), kind.width)
              <==> Wraps(ExactResult(op, old(Current()), num), kind.width, CommonKind(kind, num.kind).width)
      ensures Wraps(ExactResult(op, old(Current()), num), kind.width, CommonKind(kind, num.kind).width)
              && Fits(Exact(op, old(value), num.value), kind)
              ==> value == Exact(op, old(value), num.value)
    {
      hide ToLe, Operate, Operable, Exact, Wraps;
      OperateExact(op, Current(), num);
      ghost var exact := Exact(op, value, num.value);
      value := Operate(op, Current(), num).value;
      if ToLe(value, kind.width) == ToLe(exact, kind.width) && Fits(exact, kind) {
        PatternUnique(value, exact, kind);
      }
    }
  }
}
