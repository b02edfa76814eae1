/** The second writer of the same layouts (serializer/Writer.ts). */
module Writer {
  import opened Bytes
  import opened Varint

  /** What `writeVarUint32` pushes for any number: the shift coerces to 32 bits, the test does not. */
  function Pushed(v: int): (bs: bytes)
    decreases if v < 0 then 0 else v
  {
    if v < 128 then [v % 256]
    else
      ShiftLess(v);
      [128 + v % 128] + Pushed(ToUint32(v) / 128)
  }

  lemma ShiftLess(v: int)
    requires v >= 128
    ensures ToUint32(v) / 128 < v && ToUint32(v) / 128 < TWO32
  {
  }

  class ManualWriter {
    var buf: bytes

    constructor ()
      ensures buf == []
    {
      buf := [];
    }

    method WriteVarUint32(v: int)
      modifies this
      ensures buf == old(buf) + Pushed(v)
    {
      var w := v;
      hide ToUint32;
      while w >= 128
        invariant buf + Pushed(w) == old(buf) + Pushed(v)
        decreases w
      {
        ShiftLess(w);
        ConcatAssociates(buf, [128 + w % 128], Pushed(ToUint32(w) / 128));
        buf := buf + [128 + w % 128];
        w := ToUint32(w) / 128;
      }
      buf := buf + [w % 256];
    }
  }

  lemma {:induction false} PushedNat(v: nat)
    requires v < TWO32
    ensures Pushed(v) == Varuint(v)
  {
    assert ToUint32(v) == v;
    if v >= 128 {
      PushedNat(v / 128);
    }
  }

  /** It writes what `ABIEncoder.writeVaruint32` does exactly when the coercion does not change the test. */
  lemma PushedIsVaruint(v: int)
    ensures Pushed(v) == Varuint(ToUint32(v)) <==> (v >= 128 <==> ToUint32(v) >= 128)
  {
    ToUint32Low(v);
    var u := ToUint32(v);
    PushedNat(u / 128);
    hide ToUint32;
    assert u < 128 ==> Varuint(u) == [u];
    assert u >= 128 ==> Varuint(u) == [128 + u % 128] + Varuint(u / 128);
  }

  /** 2^32 is one zero byte to the encoder, and two bytes here. */
  lemma PushedTwo32()
    ensures Pushed(TWO32) == [128, 0] && Varuint(ToUint32(TWO32)) == [0]
  {
    assert Pushed(0) == [0];
  }
}
