/** The bounded buffer for response bodies, and the loop that fills it (api/Provider.ts). */
module ResponseBody {
  import opened Bytes

  const INITIAL_BYTES: nat := 16384

  function Min(a: nat, b: nat): nat {
    if a < b then a else b
  }

  function Max(a: nat, b: nat): nat {
    if a < b then b else a
  }

  class ResponseBodyBuffer {
    const maxBytes: nat
    var buffer: array<byte>
    var length: nat
    /** The bytes copied so far because the buffer grew. */
    ghost var copied: nat

    ghost predicate Valid()
      reads this
    {
      && length <= buffer.Length <= maxBytes
      // Each growth at least doubles, until the limit is reached.
      && (copied <= buffer.Length || (buffer.Length == maxBytes && copied < 2 * maxBytes))
    }

    ghost function Contents(): (s: bytes)
      requires Valid()
      reads this, buffer
    {
      buffer[..length]
    }

    constructor (maxBytes: nat)
      ensures Valid() && this.maxBytes == maxBytes && fresh(buffer) && Contents() == [] && copied == 0
    {
      this.maxBytes := maxBytes;
      buffer := new byte[Min(INITIAL_BYTES, maxBytes)](_ => 0);
      length := 0;
      copied := 0;
    }

    /** Refuses a chunk exactly when it does not fit, and then changes nothing. */
    method Append(chunk: bytes) returns (ok: bool)
      requires Valid()
      modifies this, buffer
      ensures Valid() && (buffer == old(buffer) || fresh(buffer))
      ensures ok <==> |old(Contents())| + |chunk| <= maxBytes
      ensures Contents() == if ok then old(Contents()) + chunk else old(Contents())
      ensures !ok ==> buffer == old(buffer) && length == old(length) && copied == old(copied)
      ensures copied <= 2 * maxBytes
    {
      var nextLength := length + |chunk|;
      if nextLength > maxBytes {
        return false;
      }
      EnsureCapacity(nextLength);
      forall i | 0 <= i < |chunk| {
        buffer[length + i] := chunk[i];
      }
      length := nextLength;
      return true;
    }

    method EnsureCapacity(nextLength: nat)
      requires Valid() && nextLength <= maxBytes
      modifies this
      ensures Valid() && length == old(length) && nextLength <= buffer.Length
      ensures buffer == old(buffer) || fresh(buffer)
      ensures Contents() == old(Contents())
    {
      if nextLength <= buffer.Length {
        return;
      }
      var nextCapacity := Min(maxBytes, Max(nextLength, buffer.Length * 2));
      var before := buffer;
      var nextBuffer := new byte[nextCapacity](_ => 0);
      forall i | 0 <= i < length {
        nextBuffer[i] := before[i];
      }
      buffer := nextBuffer;
      copied := copied + length;
    }
  }

  lemma {:induction false} ConcatSplit(chunks: seq<bytes>, i: nat)
    requires i <= |chunks|
    ensures Concat(chunks) == Concat(chunks[..i]) + Concat(chunks[i..])
  {
    if i == 0 {
      assert chunks[..0] == [] && chunks[0..] == chunks;
    } else {
      ConcatSplit(chunks[1..], i - 1);
      assert chunks[..i][0] == chunks[0] && chunks[..i][1..] == chunks[1..][..i - 1];
      assert chunks[1..][i - 1..] == chunks[i..];
      ConcatAssociates(chunks[0], Concat(chunks[1..][..i - 1]), Concat(chunks[i..]));
    }
  }

  lemma ConcatNext(chunks: seq<bytes>, i: nat)
    requires i < |chunks|
    ensures Concat(chunks[..i + 1]) == Concat(chunks[..i]) + chunks[i]
    ensures |Concat(chunks[..i + 1])| <= |Concat(chunks)|
  {
    ConcatSplit(chunks[..i + 1], i);
    assert chunks[..i + 1][..i] == chunks[..i] && chunks[..i + 1][i..] == [chunks[i]];
    assert Concat([chunks[i]]) == chunks[i] + Concat([]) == chunks[i];
    ConcatSplit(chunks, i + 1);
  }

  /**
   Reading a body chunk by chunk: all of it when it is within the limit, none of it otherwise, with
   the buffer never larger than the limit and at most twice the limit copied.
   */
  method ReadBody(chunks: seq<bytes>, maxBytes: nat) returns (body: Option<bytes>, buffer: ResponseBodyBuffer)
    ensures body == if |Concat(chunks)| <= maxBytes then Some(Concat(chunks)) else None
    ensures buffer.Valid() && buffer.maxBytes == maxBytes && buffer.copied <= 2 * maxBytes
  {
    buffer := new ResponseBodyBuffer(maxBytes);
    assert chunks[..0] == [] && chunks[..|chunks|] == chunks;
    for i := 0 to |chunks|
      invariant buffer.Valid() && fresh(buffer) && fresh(buffer.buffer) && buffer.maxBytes == maxBytes
      invariant buffer.Contents() == Concat(chunks[..i])
    {
      ConcatNext(chunks, i);
      var ok := buffer.Append(chunks[i]);
      if !ok {
        return None, buffer;
      }
    }
    body := Some(buffer.buffer[..buffer.length]);
  }
}
