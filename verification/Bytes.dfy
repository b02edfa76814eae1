/** Bytes, outcomes and the little-endian number representation every binary codec stands on. */
module Bytes {
  type byte = x: int | 0 <= x < 256

  type bytes = seq<byte>

  /** UTF-8 text is taken as the byte sequence it encodes to. */
  type Text = seq<byte>

  datatype Option<+T> = None | Some(value: T)

  /** The exceptions the modelled code throws. */
  datatype Error =
    | PastEnd
    | DepthExceeded
    | ZeroWidthElement
    | InvalidStruct
    | UnknownType
    | UnknownVariant
    | UnknownEnumValue
    | ExpectedArray
    | ExpectedObject
    | UnexpectedNull
    | WrongLeaf
    | UnsafeNumber
    | OutOfRange
    | StackOverflow

  datatype Result<+T> = Ok(value: T) | Err(error: Error) {
    predicate IsFailure() {
      Err?
    }

    function PropagateFailure<U>(): Result<U>
      requires Err?
    {
      Err(error)
    }

    function Extract(): T
      requires Ok?
    {
      value
    }
  }

  /** What a reader makes of its input: a value and the input left over, or an error. */
  datatype Parsed<+T> = Done(value: T, rest: bytes) | Fail(error: Error) {
    predicate IsFailure() {
      Fail?
    }

    function PropagateFailure<U>(): Parsed<U>
      requires Fail?
    {
      Fail(error)
    }

    function Extract(): Parsed<T>
      requires Done?
    {
      this
    }
  }

  /** `rest` is what is left of `s` after consuming some bytes at its front. */
  ghost predicate Suffix(rest: bytes, s: bytes) {
    |rest| <= |s| && rest == s[|s| - |rest|..]
  }

  function Pow256(w: nat): (p: nat)
    ensures p >= 1
  {
    if w == 0 then 1 else 256 * Pow256(w - 1)
  }

  lemma Pow256Of8()
    ensures Pow256(8) == 0x1_0000_0000_0000_0000
  {
    assert Pow256(4) == 256 * (256 * (256 * (256 * Pow256(0))));
    assert Pow256(8) == 256 * (256 * (256 * (256 * Pow256(4))));
  }

  function Magnitude(n: int): nat {
    if n < 0 then 0 - n else n
  }

  /** The value of little-endian bytes. */
  function FromLe(bs: bytes): (n: nat)
    ensures n < Pow256(|bs|)
  {
    if bs == [] then 0 else bs[0] + 256 * FromLe(bs[1..])
  }

  /** The low `w` bytes of `n` in two's complement, least significant first: its pattern modulo 256^w. */
  function ToLe(n: int, w: nat): (bs: bytes)
    ensures |bs| == w
    decreases w
  {
    if w == 0 then [] else [n % 256] + ToLe(n / 256, w - 1)
  }

  lemma {:induction false} FromLeToLe(n: nat, w: nat)
    requires n < Pow256(w)
    ensures FromLe(ToLe(n, w)) == n
  {
    if w == 0 {
    } else {
      FromLeToLe(n / 256, w - 1);
      assert ToLe(n, w)[1..] == ToLe(n / 256, w - 1);
    }
  }

  lemma {:induction false} ToLeFromLe(bs: bytes)
    ensures ToLe(FromLe(bs), |bs|) == bs
  {
    if bs == [] {
    } else {
      ToLeFromLe(bs[1..]);
      assert FromLe(bs) % 256 == bs[0] && FromLe(bs) / 256 == FromLe(bs[1..]);
    }
  }

  /** Byte `i` of a number's little-endian form is its digit for 256^i. */
  lemma {:induction false} ToLeAt(n: int, w: nat, i: nat)
    requires i < w
    ensures ToLe(n, w)[i] == n / Pow256(i) % 256
    decreases w
  {
    if i > 0 {
      ToLeAt(n / 256, w - 1, i - 1);
      DivideTwice(n, Pow256(i - 1));
    }
  }

  lemma DivideTwice(n: int, p: nat)
    requires p > 0
    ensures n / 256 / p == n / (256 * p)
  {
    var q, r := n / 256, n % 256;
    var a, b := q / p, q % p;
    assert n == 256 * (p * a + b) + r && q == p * a + b;
    assert n == 256 * p * a + (256 * b + r) by { MulAssociates(256, p, a); }
    assert 0 <= 256 * b + r < 256 * p;
    Quotient(n, 256 * p, a, 256 * b + r);
  }

  lemma Quotient(n: int, d: nat, q: int, r: nat)
    requires d > 0 && n == d * q + r && r < d
    ensures n / d == q
  {
    var q', r' := n / d, n % d;
    assert n == d * q' + r';
    if q' > q {
      Multiples(d, q', q);
    } else if q' < q {
      Multiples(d, q, q');
    }
  }

  lemma Multiples(d: nat, a: int, b: int)
    requires a > b
    ensures d * a >= d * b + d
  {
    var k := a - b - 1;
    assert d * a == d * b + d + d * k;
    assert d * k >= 0;
  }

  lemma MulAssociates(x: int, y: int, z: int)
    ensures x * y * z == x * (y * z)
  {
  }

  function Concat(chunks: seq<bytes>): bytes {
    if chunks == [] then [] else chunks[0] + Concat(chunks[1..])
  }

  lemma ConcatAssociates(a: bytes, b: bytes, c: bytes)
    ensures a + b + c == a + (b + c)
  {
  }

  lemma SuffixTrans(a: bytes, b: bytes, s: bytes)
    requires Suffix(a, b) && Suffix(b, s)
    ensures Suffix(a, s) && |a| <= |b| <= |s|
  {
  }

  lemma SuffixSelf(s: bytes)
    ensures Suffix(s, s)
    ensures s != [] ==> Suffix(s[1..], s)
  {
    assert s[0..] == s;
  }
}
