/** Short uppercase codes packed into 48 bits (SlugName.ts). */
module Slugs {
  import opened Radix

  const MAX_CHARS: nat := 8

  /** The six-bit slot of a character; 0 for characters that have none. */
  function Slot(c: char): (n: nat)
    ensures n < 38
  {
    if 'A' <= c <= 'Z' then c as int - 64
    else if '0' <= c <= '9' then c as int - 21
    else if c == '_' then 37
    else 0
  }

  /** A to Z are 1 to 26, 0 to 9 follow, then the underscore; nothing else has a slot. */
  lemma SlotOrder(c: char)
    ensures Slot('A') == 1 && Slot('Z') == 26 && Slot('0') == 27 && Slot('9') == 36 && Slot('_') == 37
    ensures Slot(c) > 0 <==> 'A' <= c <= 'Z' || '0' <= c <= '9' || c == '_'
    ensures forall a: char, b: char :: 'A' <= a < b <= 'Z' || '0' <= a < b <= '9' ==> Slot(a) < Slot(b)
  {
  }

  /** The character of a slot; none for the terminator and for slots past the alphabet. */
  function SlotChar(n: nat): (c: string)
    ensures |c| <= 1 && (c != "" ==> Slot(c[0]) == n > 0)
  {
    if 1 <= n <= 26 then [(n + 64) as char]
    else if 27 <= n <= 36 then [(n + 21) as char]
    else if n == 37 then "_"
    else ""
  }

  /** What `from` accepts. */
  predicate Legal(s: string) {
    0 < |s| <= MAX_CHARS && 'A' <= s[0] <= 'Z' && forall i :: 0 <= i < |s| ==> Slot(s[i]) > 0
  }

  function Slots(s: string): (ds: digits)
    ensures |ds| == |s| && AreDigits(ds, 64)
  {
    seq(|s|, i requires 0 <= i < |s| => Slot(s[i]))
  }

  function Pow64(k: nat): (p: nat)
    ensures p > 0
  {
    if k == 0 then 1 else 64 * Pow64(k - 1)
  }

  /** The first character in the highest of eight slots, the slots after the last one zero. */
  function Packed(s: string): nat {
    Value(Slots(s) + Zeros(if |s| < MAX_CHARS then MAX_CHARS - |s| else 0), 64)
  }

  method From(s: string) returns (r: (bool, nat))
    ensures r.0 <==> Legal(s)
    ensures r.0 ==> r.1 == Packed(s) < 0x1_0000_0000_0000
  {
    if s == "" || |s| > MAX_CHARS || !('A' <= s[0] <= 'Z') {
      return (false, 0);
    }
    var v := 0;
    assert s[..|s|] == s;
    for i := 0 to |s|
      invariant forall j :: 0 <= j < i ==> Slot(s[j]) > 0
      invariant v == Value(Slots(s[..i]), 64) * Pow64(MAX_CHARS - i)
    {
      var slot := Slot(s[i]);
      if slot == 0 {
        return (false, 0);
      }
      AddSlot(s, i);
      v := v + slot * Pow64(7 - i);
    }
    ValueShift(Slots(s), MAX_CHARS - |s|);
    PackedBelow(Slots(s) + Zeros(MAX_CHARS - |s|));
    Pow64Of8();
    r := (true, v);
  }

  lemma AddSlot(s: string, i: nat)
    requires i < |s| && i < MAX_CHARS
    ensures Value(Slots(s[..i + 1]), 64) * Pow64(7 - i)
            == Value(Slots(s[..i]), 64) * Pow64(MAX_CHARS - i) + Slot(s[i]) * Pow64(7 - i)
  {
    assert Slots(s[..i + 1]) == Slots(s[..i]) + [Slot(s[i])];
    ValueAppend(Slots(s[..i]), Slot(s[i]), 64);
    Distribute(Value(Slots(s[..i]), 64), Slot(s[i]), Pow64(7 - i));
  }

  lemma Distribute(v: nat, d: nat, p: nat)
    ensures (v * 64 + d) * p == v * (64 * p) + d * p
  {
  }

  lemma {:induction false} ValueShift(ds: digits, k: nat)
    ensures Value(ds + Zeros(k), 64) == Value(ds, 64) * Pow64(k)
  {
    if k == 0 {
      assert ds + Zeros(0) == ds;
    } else {
      ValueShift(ds, k - 1);
      assert ds + Zeros(k) == ds + Zeros(k - 1) + [0];
      ValueAppend(ds + Zeros(k - 1), 0, 64);
      Distribute(Value(ds, 64), 0, Pow64(k - 1));
      Reorder(Value(ds, 64), Pow64(k - 1));
    }
  }

  lemma Reorder(v: nat, p: nat)
    ensures v * p * 64 == v * (64 * p)
  {
  }

  lemma {:induction false} PackedBelow(ds: digits)
    requires AreDigits(ds, 64)
    ensures Value(ds, 64) < Pow64(|ds|)
  {
    if ds != [] {
      PackedBelow(ds[..|ds| - 1]);
    }
  }

  lemma Pow64Of8()
    ensures Pow64(8) == 0x1_0000_0000_0000
  {
    assert Pow64(4) == 64 * (64 * (64 * (64 * Pow64(0))));
    assert Pow64(8) == 64 * (64 * (64 * (64 * Pow64(4))));
  }

  function SlotAt(n: nat, i: nat): nat
    requires i < MAX_CHARS
  {
    n / Pow64(7 - i) % 64
  }

  /** The characters of the slots from `i` on, up to the first that has none. */
  function TextFrom(n: nat, i: nat): string
    requires i <= MAX_CHARS
    decreases MAX_CHARS - i
  {
    if i == MAX_CHARS then ""
    else
      var c := SlotChar(SlotAt(n, i));
      if c == "" then "" else c + TextFrom(n, i + 1)
  }

  method ToString(n: nat) returns (out: string)
    ensures out == TextFrom(n, 0)
  {
    out := "";
    assert "" + TextFrom(n, 0) == TextFrom(n, 0);
    hide SlotAt, SlotChar, TextFrom;
    for i := 0 to MAX_CHARS
      invariant out + TextFrom(n, i) == TextFrom(n, 0)
    {
      var c := SlotChar(SlotAt(n, i));
      TextStep(n, i, out);
      if c == "" {
        return;
      }
      out := out + c;
    }
    TextEnd(n, out);
  }

  lemma TextStep(n: nat, i: nat, out: string)
    requires i < MAX_CHARS
    ensures var c := SlotChar(SlotAt(n, i));
            out + TextFrom(n, i) == if c == "" then out else out + c + TextFrom(n, i + 1)
  {
    hide SlotAt, SlotChar;
  }

  lemma TextEnd(n: nat, out: string)
    ensures out + TextFrom(n, MAX_CHARS) == out
  {
  }

  lemma {:induction false} SlotOf(ds: digits, i: nat)
    requires AreDigits(ds, 64) && i < |ds|
    ensures Value(ds, 64) / Pow64(|ds| - 1 - i) % 64 == ds[i]
  {
    var front, d := ds[..|ds| - 1], ds[|ds| - 1];
    var v := Value(front, 64);
    assert Value(ds, 64) == v * 64 + d;
    if i == |ds| - 1 {
    } else {
      SlotOf(front, i);
      DivideTwice(v, d, Pow64(|ds| - 2 - i));
    }
  }

  lemma DivideTwice(v: nat, d: nat, p: nat)
    requires d < 64 && p > 0
    ensures (v * 64 + d) / (64 * p) == v / p
  {
    var q, r := v / p, v % p;
    assert v == q * p + r;
    assert v * 64 + d == q * (64 * p) + (64 * r + d);
    DivMod(q, 64 * p, 64 * r + d);
  }

  /** Unpacking a packed slug gives it back. */
  lemma ToStringFrom(s: string)
    requires Legal(s)
    ensures TextFrom(Packed(s), 0) == s
  {
    TextFromPacked(s, 0);
    assert s[0..] == s;
  }

  lemma SlotCharOf(c: char)
    ensures Slot(c) > 0 ==> SlotChar(Slot(c)) == [c]
  {
  }

  lemma PackedSlot(s: string, i: nat)
    requires |s| <= MAX_CHARS && i < MAX_CHARS
    ensures SlotAt(Packed(s), i) == if i < |s| then Slot(s[i]) else 0
  {
    var ds := Slots(s) + Zeros(MAX_CHARS - |s|);
    hide Value, Pow64, Slot;
    SlotOf(ds, i);
  }

  lemma {:induction false} TextFromPacked(s: string, i: nat)
    requires Legal(s) && i <= |s|
    ensures TextFrom(Packed(s), i) == s[i..]
    decreases |s| - i
  {
    hide SlotAt, Packed, SlotChar, Slot;
    if i < MAX_CHARS {
      PackedSlot(s, i);
    }
    if i < |s| {
      TextFromPacked(s, i + 1);
      SlotCharOf(s[i]);
    } else if i < MAX_CHARS {
      NoChar();
    }
  }

  lemma NoChar()
    ensures SlotChar(0) == ""
  {
  }
}
