/** The cursor of serializer/Decoder.ts over a fixed input. */
module Decoder {
  import opened Bytes
  import opened Varint

  /** The result `r` and the input left over are those of the parse `p`. */
  ghost predicate Follows<T>(p: Parsed<T>, r: Result<T>, rest: bytes)
  {
    match p
    case Done(v, s) => r == Ok(v) && rest == s
    case Fail(e) => r == Err(e)
  }

  function Take(s: bytes, n: nat): (p: Parsed<bytes>)
    ensures p.Done? ==> s == p.value + p.rest && |p.value| == n
    ensures p.Done? <==> n <= |s|
    ensures p.Fail? ==> p.error == PastEnd
  {
    if n <= |s| then Done(s[..n], s[n..]) else Fail(PastEnd)
  }

  function ReadText(s: bytes): (p: Parsed<Text>)
    ensures p.Done? ==> |p.rest| < |s|
  {
    var n := ReadVaruint(s);
    if n.Fail? then Fail(n.error) else Take(n.rest, n.value)
  }

  /** `(~v >> 1) | 0x80000000`: the complement halved, its low 31 bits under a set sign bit. */
  function ComplementHalf(v: nat): (r: int)
    requires v < TWO32 && v % 2 == 1
    ensures r == UnZigZag(v)
  {
    var complement := ToInt32(-1 - v);
    assert complement == if v < 0x8000_0000 then -1 - v else 0xFFFF_FFFF - v;
    var half := complement / 2;
    half % 0x8000_0000 - 0x8000_0000
  }

  class ABIDecoder {
    const buffer: array<byte>
    var pos: nat

    ghost predicate Valid()
      reads this
    {
      pos <= buffer.Length
    }

    /** The input not yet consumed. */
    ghost function Rest(): (s: bytes)
      requires Valid()
      reads this, buffer
    {
      buffer[pos..]
    }

    constructor (buffer: array<byte>)
      ensures Valid() && this.buffer == buffer && Rest() == buffer[..]
    {
      this.buffer := buffer;
      pos := 0;
    }

    predicate CanRead(count: nat)
      requires Valid()
      reads this, buffer
      ensures CanRead(count) <==> count <= |Rest()|
    {
      !(pos + count > buffer.Length)
    }

    method SetPosition(p: int) returns (ok: bool)
      requires Valid()
      modifies `pos
      ensures Valid()
      ensures ok <==> 0 <= p <= buffer.Length
      ensures pos == if ok then p else old(pos)
    {
      ok := !(p < 0 || p > buffer.Length);
      if ok {
        pos := p;
      }
    }

    method Advance(count: nat) returns (r: Result<()>)
      requires Valid()
      modifies `pos
      ensures Valid() && old(pos) <= pos
      ensures match Take(old(Rest()), count)
              case Done(_, rest) => r == Ok(()) && Rest() == rest
              case Fail(e) => r == Err(e) && pos == old(pos)
    {
      if !CanRead(count) {
        return Err(PastEnd);
      }
      pos := pos + count;
      return Ok(());
    }

    method ReadByte() returns (r: Result<byte>)
      requires Valid()
      modifies `pos
      ensures Valid() && old(pos) <= pos
      ensures old(Rest()) == [] ==> r == Err(PastEnd) && pos == old(pos)
      ensures old(Rest()) != [] ==> r == Ok(old(Rest())[0]) && Rest() == old(Rest())[1..]
    {
      if !CanRead(1) {
        return Err(PastEnd);
      }
      r := Ok(buffer[pos]);
      pos := pos + 1;
    }

    method ReadVaruint32() returns (r: Result<nat>)
      requires Valid()
      modifies `pos
      ensures Valid() && old(pos) <= pos
      ensures Follows(ReadVaruint(old(Rest())), r, Rest())
    {
      hide ReadVaruintAt, ShiftedGroup, OrGroup, Pow2;
      var v: nat, bit: nat := 0, 0;
      GroupPowers();
      ghost var k := 0;
      while true
        invariant Valid() && old(pos) <= pos && k < 5 && bit == 7 * k && v < Pow2(bit)
        invariant Resumed(Rest(), k, v) == ReadVaruintAt(old(Rest()), 0)
        decreases 5 - k
      {
        ghost var s := Rest();
        var b := ReadByte();
        if b.Err? {
          return Err(b.error);
        }
        ResumedStep(s, k, v);
        OrGroupIs(v, b.value, k);
        v := OrGroup(v, b.value, bit);
        bit := bit + 7;
        if b.value < 128 || bit >= 32 {
          break;
        }
        k := k + 1;
      }
      r := Ok(v);
    }

    /** An odd `v` gives `(~v >> 1) | 0x80000000`, an even one `v >>> 1`. */
    method ReadVarint32() returns (r: Result<int>)
      requires Valid()
      modifies `pos
      ensures Valid() && old(pos) <= pos
      ensures match ReadVaruint(old(Rest()))
              case Done(u, rest) => r == Ok(UnZigZag(u)) && Rest() == rest
              case Fail(e) => r == Err(e)
    {
      var u := ReadVaruint32();
      if u.Err? {
        return Err(u.error);
      }
      if u.value % 2 == 1 {
        r := Ok(ComplementHalf(u.value));
      } else {
        r := Ok(u.value / 2);
      }
    }

    method ReadArray(count: nat) returns (r: Result<bytes>)
      requires Valid()
      modifies `pos
      ensures Valid() && old(pos) <= pos
      ensures Follows(Take(old(Rest()), count), r, Rest())
    {
      if !CanRead(count) {
        return Err(PastEnd);
      }
      r := Ok(buffer[pos..pos + count]);
      assert r.value == Rest()[..count];
      pos := pos + count;
    }

    method ReadString() returns (r: Result<Text>)
      requires Valid()
      modifies `pos
      ensures Valid() && old(pos) <= pos
      ensures Follows(ReadText(old(Rest())), r, Rest())
    {
      var n := ReadVaruint32();
      if n.Err? {
        return Err(n.error);
      }
      r := ReadArray(n.value);
    }
  }
}
