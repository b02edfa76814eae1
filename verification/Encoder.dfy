/** The growing output buffer of serializer/Encoder.ts. */
module Encoder {
  import opened Bytes
  import opened Varint

  class ABIEncoder {
    const pageSize: nat
    var buffer: array<byte>
    var pos: nat

    ghost predicate Valid()
      reads this
    {
      pageSize > 0 && pos <= buffer.Length
    }

    /** Everything written so far. */
    ghost function Contents(): (s: bytes)
      requires Valid()
      reads this, buffer
    {
      buffer[..pos]
    }

    constructor (pageSize: nat)
      requires pageSize > 0
      ensures Valid() && fresh(buffer) && Contents() == []
    {
      this.pageSize := pageSize;
      buffer := new byte[pageSize](_ => 0);
      pos := 0;
    }

    /** Makes room for `count` more bytes by whole pages, copying what is there. */
    method Ensure(count: nat)
      requires Valid()
      modifies this
      ensures Valid() && pos == old(pos) && pos + count <= buffer.Length
      ensures buffer == old(buffer) || fresh(buffer)
      ensures Contents() == old(Contents())
    {
      if buffer.Length >= pos + count {
        return;
      }
      var pages := (count + pageSize - 1) / pageSize;
      assert pageSize * pages >= count by {
        var m := (count + pageSize - 1) % pageSize;
        assert count + pageSize - 1 == pageSize * pages + m;
      }
      var before := buffer;
      var grown := new byte[before.Length + pageSize * pages](_ => 0);
      forall i | 0 <= i < before.Length {
        grown[i] := before[i];
      }
      buffer := grown;
    }

    /** `array[pos++] = v`: a byte store keeps the low eight bits. */
    method Put(v: int)
      requires Valid() && pos < buffer.Length
      modifies `pos, buffer
      ensures Valid() && pos == old(pos) + 1
      ensures Contents() == old(Contents()) + [v % 256]
    {
      buffer[pos] := v % 256;
      pos := pos + 1;
    }

    method WriteByte(b: byte)
      requires Valid()
      modifies this, buffer
      ensures Valid() && (buffer == old(buffer) || fresh(buffer))
      ensures Contents() == old(Contents()) + [b]
    {
      Ensure(1);
      Put(b);
    }

    method WriteArray(bs: bytes)
      requires Valid()
      modifies this, buffer
      ensures Valid() && (buffer == old(buffer) || fresh(buffer))
      ensures Contents() == old(Contents()) + bs
    {
      Ensure(|bs|);
      forall i | 0 <= i < |bs| {
        buffer[pos + i] := bs[i];
      }
      pos := pos + |bs|;
    }

    /** `v` is any number; the unsigned shift coerces it to 32 bits. */
    method WriteVaruint32(v: int)
      requires Valid()
      modifies this, buffer
      ensures Valid() && (buffer == old(buffer) || fresh(buffer))
      ensures Contents() == old(Contents()) + Varuint(ToUint32(v))
    {
      Ensure(5);
      VaruintLength(ToUint32(v), 0);
      hide ToUint32;
      var w := v;
      ghost var u := ToUint32(w);
      while true
        invariant Valid() && (buffer == old(buffer) || fresh(buffer)) && u == ToUint32(w)
        invariant Contents() + Varuint(u) == old(Contents()) + Varuint(ToUint32(v))
        invariant pos + |Varuint(u)| <= buffer.Length
        decreases u
      {
        ghost var out := Contents();
        ToUint32Low(w);
        if ToUint32(w) / 128 != 0 {
          assert 0 <= u / 128 < u;
          Put(128 + w % 128);
          w := ToUint32(w) / 128;
          assert Contents() + Varuint(w) == out + ([128 + u % 128] + Varuint(w));
          u := u / 128;
        } else {
          Put(w);
          break;
        }
      }
    }

    method WriteVarint32(v: int)
      requires Valid()
      modifies this, buffer
      ensures Valid() && (buffer == old(buffer) || fresh(buffer))
      ensures Contents() == old(Contents()) + Varuint(ZigZag(ToInt32(v)))
    {
      WriteVaruint32(ZigZagBits(v));
    }

    method WriteString(text: Text)
      requires Valid()
      modifies this, buffer
      ensures Valid() && (buffer == old(buffer) || fresh(buffer))
      ensures Contents() == old(Contents()) + (Varuint(ToUint32(|text|)) + text)
    {
      WriteVaruint32(|text|);
      WriteArray(text);
    }

    method GetData() returns (data: bytes)
      requires Valid()
      ensures data == Contents()
    {
      data := buffer[..pos];
    }
  }
}
