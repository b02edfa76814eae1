/** Frame reassembly over a byte stream cut into arbitrary chunks (p2p/Provider.ts). */
module P2p {
  import opened Bytes
  import opened Varint

  const PREFIX: nat := 4
  const MAX_READ: nat := 8 * 1024 * 1024

  /** What the data handlers do once these messages were delivered: whether they end or destroy the provider. */
  type Handlers = seq<bytes> -> bool

  /** Messages delivered so far, bytes kept for the next chunk, and how the stream ended, if it did. */
  datatype Stream = Open(delivered: seq<bytes>, remaining: bytes) | Closed(delivered: seq<bytes>, oversized: bool)

  function Header(s: bytes): nat
    requires |s| >= PREFIX
  {
    FromLe(s[..PREFIX])
  }

  /** What `write` sends for a message. */
  function Frame(message: bytes): bytes {
    ToLe(ToUint32(|message|), PREFIX) + message
  }

  /** A message goes out behind its length in four bytes, least significant first. */
  lemma FrameLayout(m: bytes)
    requires |m| < 0x1_0000_0000
    ensures Frame(m) == [|m| % 256, |m| / 0x100 % 256, |m| / 0x1_0000 % 256, |m| / 0x100_0000] + m
  {
    var n := |m|;
    ToUint32Small(n);
    var bytes3, bytes2, bytes1 := ToLe(n / 0x100, 3), ToLe(n / 0x1_0000, 2), ToLe(n / 0x100_0000, 1);
    assert n / 0x100 / 256 == n / 0x1_0000 && n / 0x1_0000 / 256 == n / 0x100_0000;
    assert bytes1 == [n / 0x100_0000] + [];
    assert bytes2 == [n / 0x1_0000 % 256] + bytes1;
    assert bytes3 == [n / 0x100 % 256] + bytes2;
    assert ToLe(n, 4) == [n % 256] + bytes3;
  }

  function Frames(messages: seq<bytes>): bytes {
    if messages == [] then [] else Frame(messages[0]) + Frames(messages[1..])
  }

  /** Whether the front of `s` can be dealt with: a whole frame, or the header of one too long. */
  predicate Ready(s: bytes) {
    |s| >= PREFIX && (Header(s) > MAX_READ || |s| >= PREFIX + Header(s))
  }

  /** Delivers the whole frames at the front of `s`. */
  function Drain(h: Handlers, delivered: seq<bytes>, s: bytes): (st: Stream)
    ensures st.Open? ==> !Ready(st.remaining)
    decreases |s|
  {
    if !Ready(s) then Open(delivered, s)
    else if Header(s) > MAX_READ then Closed(delivered, true)
    else
      var n := PREFIX + Header(s);
      var next := delivered + [s[PREFIX..n]];
      if h(next) then Closed(next, false) else Drain(h, next, s[n..])
  }

  /** One chunk from the lower transport. */
  function Feed(h: Handlers, st: Stream, chunk: bytes): Stream {
    if st.Closed? then st else Drain(h, st.delivered, st.remaining + chunk)
  }

  function FeedAll(h: Handlers, st: Stream, chunks: seq<bytes>): Stream
    decreases |chunks|
  {
    if chunks == [] then st else FeedAll(h, Feed(h, st, chunks[0]), chunks[1..])
  }

  class SimpleEnvelopeP2PProvider {
    const handlers: Handlers
    var remainingData: bytes
    var destroyed: bool
    /** The messages passed to the data handlers, whether the error handlers were told of an
        oversized one, and the buffers passed to the lower transport. */
    var delivered: seq<bytes>
    var oversized: bool
    var sent: seq<bytes>

    constructor (handlers: Handlers)
      ensures Valid() && State() == Open([], []) && sent == [] && this.handlers == handlers
    {
      this.handlers := handlers;
      remainingData, destroyed := [], false;
      delivered, oversized, sent := [], false, [];
    }

    ghost predicate Valid()
      reads this
    {
      && (destroyed ==> remainingData == [])
      && (!destroyed ==> !oversized && !Ready(remainingData))
    }

    ghost function State(): Stream
      reads this
    {
      if destroyed then Closed(delivered, oversized) else Open(delivered, remainingData)
    }

    method OnData(data: bytes)
      requires Valid()
      modifies this
      ensures Valid() && sent == old(sent) && State() == Feed(handlers, old(State()), data)
    {
      if destroyed {
        return;
      }
      remainingData := remainingData + data;
      ghost var goal := Drain(handlers, delivered, remainingData);
      while |remainingData| >= PREFIX
        invariant sent == old(sent)
        invariant if destroyed then remainingData == [] && goal == Closed(delivered, false) && !oversized
                  else goal == Drain(handlers, delivered, remainingData) && !oversized
        decreases |remainingData|
      {
        var messageLength := Header(remainingData);
        if messageLength > MAX_READ {
          DestroyWithError();
          return;
        }
        if |remainingData| < PREFIX + messageLength {
          break;
        }
        var messageBuffer := remainingData[PREFIX..PREFIX + messageLength];
        remainingData := remainingData[PREFIX + messageLength..];
        EmitData(messageBuffer);
      }
    }

    /** Runs the data handlers, which may call `end` or `destroy` on this provider. */
    method EmitData(messageBuffer: bytes)
      modifies this
      ensures delivered == old(delivered) + [messageBuffer] && sent == old(sent) && oversized == old(oversized)
      ensures destroyed == (old(destroyed) || handlers(delivered))
      ensures remainingData == if handlers(delivered) then [] else old(remainingData)
    {
      delivered := delivered + [messageBuffer];
      if handlers(delivered) {
        Destroy();
      }
    }

    method Destroy()
      modifies `destroyed, `remainingData
      ensures destroyed && remainingData == []
    {
      destroyed := true;
      remainingData := [];
    }

    method DestroyWithError()
      modifies `destroyed, `remainingData, `oversized
      ensures destroyed && remainingData == [] && oversized
    {
      destroyed := true;
      remainingData := [];
      oversized := true;
    }

    method Write(data: bytes)
      requires Valid()
      modifies `sent
      ensures Valid() && sent == old(sent) + [Frame(data)]
    {
      var nextBuffer := ToLe(|data| % 0x1_0000_0000, PREFIX) + data;
      sent := sent + [nextBuffer];
    }
  }

  // ---- The stream does not depend on how it is cut ----

  lemma HeaderPrefix(s: bytes, more: bytes)
    requires |s| >= PREFIX
    ensures Header(s + more) == Header(s)
  {
    assert (s + more)[..PREFIX] == s[..PREFIX];
  }

  lemma {:induction false} DrainConcat(h: Handlers, delivered: seq<bytes>, a: bytes, b: bytes)
    ensures Drain(h, delivered, a + b) == Feed(h, Drain(h, delivered, a), b)
    decreases |a|
  {
    if Ready(a) {
      HeaderPrefix(a, b);
      if Header(a) <= MAX_READ {
        var n := PREFIX + Header(a);
        var next := delivered + [a[PREFIX..n]];
        assert (a + b)[PREFIX..n] == a[PREFIX..n] && (a + b)[n..] == a[n..] + b;
        if !h(next) {
          DrainConcat(h, next, a[n..], b);
        }
      }
    }
  }

  /** Two chunks do what their concatenation does. */
  lemma FeedConcat(h: Handlers, st: Stream, a: bytes, b: bytes)
    ensures Feed(h, Feed(h, st, a), b) == Feed(h, st, a + b)
  {
    if st.Open? {
      DrainConcat(h, st.delivered, st.remaining + a, b);
      assert st.remaining + a + b == st.remaining + (a + b);
    }
  }

  /** However the bytes are cut into chunks, only their concatenation counts. */
  lemma {:induction false} FeedAllConcat(h: Handlers, st: Stream, chunks: seq<bytes>)
    requires st.Open? ==> !Ready(st.remaining)
    ensures FeedAll(h, st, chunks) == Feed(h, st, Concat(chunks))
    decreases |chunks|
  {
    if chunks == [] {
      if st.Open? {
        assert st.remaining + [] == st.remaining;
      }
    } else {
      FeedAllConcat(h, Feed(h, st, chunks[0]), chunks[1..]);
      FeedConcat(h, st, chunks[0], Concat(chunks[1..]));
    }
  }

  lemma ChunkingIrrelevant(h: Handlers, chunks: seq<bytes>, chunks': seq<bytes>)
    requires Concat(chunks) == Concat(chunks')
    ensures FeedAll(h, Open([], []), chunks) == FeedAll(h, Open([], []), chunks')
  {
    FeedAllConcat(h, Open([], []), chunks);
    FeedAllConcat(h, Open([], []), chunks');
  }

  // ---- Nothing is lost, added or reordered ----

  lemma {:induction false} FramesAppend(a: seq<bytes>, b: seq<bytes>)
    ensures Frames(a + b) == Frames(a) + Frames(b)
  {
    if a == [] {
      assert a + b == b;
    } else {
      assert (a + b)[0] == a[0] && (a + b)[1..] == a[1..] + b;
      FramesAppend(a[1..], b);
    }
  }

  /** The front of a ready buffer is the frame of the message delivered. */
  lemma FrameAtFront(s: bytes)
    requires Ready(s) && Header(s) <= MAX_READ
    ensures var n := PREFIX + Header(s); s == Frame(s[PREFIX..n]) + s[n..]
  {
    var n := PREFIX + Header(s);
    var m := s[PREFIX..n];
    ToUint32Small(Header(s));
    ToLeFromLe(s[..PREFIX]);
    assert Frame(m) == s[..PREFIX] + m;
  }

  lemma DeliverOne(delivered: seq<bytes>, s: bytes, n: nat)
    requires Ready(s) && Header(s) <= MAX_READ && n == PREFIX + Header(s)
    ensures Frames(delivered) + s == Frames(delivered + [s[PREFIX..n]]) + s[n..]
    ensures Frames(delivered + [s[PREFIX..n]]) <= Frames(delivered) + s
  {
    var m := s[PREFIX..n];
    FrameAtFront(s);
    FramesAppend(delivered, [m]);
    assert Frames([m]) == Frame(m) + Frames([]) == Frame(m);
    ConcatAssociates(Frames(delivered), Frame(m), s[n..]);
  }

  /** While it is open, the frames delivered and the bytes kept are exactly the bytes received. */
  lemma {:induction false} DrainConserves(h: Handlers, delivered: seq<bytes>, s: bytes)
    ensures var st := Drain(h, delivered, s);
            && delivered <= st.delivered
            && (st.Open? ==> Frames(st.delivered) + st.remaining == Frames(delivered) + s)
            && Frames(st.delivered) <= Frames(delivered) + s
    decreases |s|
  {
    if Ready(s) && Header(s) <= MAX_READ {
      var n := PREFIX + Header(s);
      var m := s[PREFIX..n];
      var next := delivered + [m];
      DeliverOne(delivered, s, n);
      hide Frames, Frame;
      if !h(next) {
        DrainConserves(h, next, s[n..]);
      }
    }
  }

  /** On every run: what was delivered is what the received bytes say, and nothing is held back. */
  lemma BytesConserved(h: Handlers, chunks: seq<bytes>)
    ensures var st := FeedAll(h, Open([], []), chunks);
            && Frames(st.delivered) <= Concat(chunks)
            && (st.Open? ==> Frames(st.delivered) + st.remaining == Concat(chunks) && !Ready(st.remaining))
  {
    FeedAllConcat(h, Open([], []), chunks);
    assert [] + Concat(chunks) == Concat(chunks);
    assert Frames([]) + Concat(chunks) == Concat(chunks);
    DrainConserves(h, [], Concat(chunks));
  }

  // ---- Sender to receiver ----

  /** The handlers' first objection among the longer and longer prefixes of `messages` past `k`. */
  function Kept(h: Handlers, messages: seq<bytes>, k: nat): (n: nat)
    requires k <= |messages|
    ensures k <= n <= |messages|
    decreases |messages| - k
  {
    if k == |messages| then k
    else if h(messages[..k + 1]) then k + 1
    else Kept(h, messages, k + 1)
  }

  lemma ReadyFrame(m: bytes, rest: bytes)
    requires |m| < TWO32
    ensures var s := Frame(m) + rest;
            && |s| >= PREFIX && Header(s) == |m| && Ready(s)
            && s[PREFIX..PREFIX + |m|] == m && s[PREFIX + |m|..] == rest
  {
    var s := Frame(m) + rest;
    ToUint32Small(|m|);
    assert Pow256(4) == 256 * (256 * (256 * (256 * Pow256(0))));
    FromLeToLe(|m|, PREFIX);
    assert s[..PREFIX] == ToLe(|m|, PREFIX);
    assert s == ToLe(|m|, PREFIX) + m + rest;
  }

  lemma DrainOne(h: Handlers, delivered: seq<bytes>, m: bytes, tail: bytes)
    requires |m| <= MAX_READ
    ensures var next := delivered + [m];
            Drain(h, delivered, Frame(m) + tail) == if h(next) then Closed(next, false) else Drain(h, next, tail)
  {
    hide Frame, Header;
    ReadyFrame(m, tail);
  }

  lemma FramesFrom(messages: seq<bytes>, k: nat, rest: bytes)
    requires k < |messages|
    ensures Frames(messages[k..]) + rest == Frame(messages[k]) + (Frames(messages[k + 1..]) + rest)
  {
    hide Frame;
    assert messages[k..][0] == messages[k] && messages[k..][1..] == messages[k + 1..];
    ConcatAssociates(Frame(messages[k]), Frames(messages[k + 1..]), rest);
  }

  /**
   The messages written by a peer, each of at most 8 MiB, arrive in order, each once and whole,
   until the handlers close the provider; a longer one closes it before anything of it is seen.
   */
  lemma {:induction false} DrainFrames(h: Handlers, messages: seq<bytes>, k: nat, rest: bytes)
    requires k <= |messages| && forall i :: k <= i < |messages| ==> |messages[i]| <= MAX_READ
    ensures var n := Kept(h, messages, k);
            var st := Drain(h, messages[..k], Frames(messages[k..]) + rest);
            if k < n && h(messages[..n]) then st == Closed(messages[..n], false)
            else st == Drain(h, messages, rest)
    decreases |messages| - k
  {
    if k == |messages| {
      assert Frames(messages[k..]) + rest == rest && messages[..k] == messages;
    } else {
      hide Drain, Frames, Frame;
      FramesFrom(messages, k, rest);
      DrainOne(h, messages[..k], messages[k], Frames(messages[k + 1..]) + rest);
      assert messages[..k] + [messages[k]] == messages[..k + 1];
      if !h(messages[..k + 1]) {
        DrainFrames(h, messages, k + 1, rest);
        if k + 1 == |messages| {
          assert messages[..k + 1] == messages;
        }
      }
    }
  }

  /** End to end: the buffers one provider sent, cut up anyhow, give the other exactly its messages. */
  lemma MessagesArrive(h: Handlers, messages: seq<bytes>, chunks: seq<bytes>)
    requires forall i :: 0 <= i < |messages| ==> |messages[i]| <= 8_388_608
    requires Concat(chunks) == Frames(messages)
    ensures var n := Kept(h, messages, 0);
            FeedAll(h, Open([], []), chunks)
            == if n > 0 && h(messages[..n]) then Closed(messages[..n], false) else Open(messages, [])
  {
    FeedAllConcat(h, Open([], []), chunks);
    DrainFrames(h, messages, 0, []);
    assert messages[0..] == messages && messages[..0] == [];
    assert Frames(messages) + [] == Frames(messages) && [] + Concat(chunks) == Concat(chunks);
  }

  /**
   Once a peer declares a message over the limit the provider is closed, however the bytes are cut and
   whatever follows: the messages before the declaration are all that is delivered, unless the handlers
   close it earlier still.
   */
  lemma OversizedCloses(h: Handlers, messages: seq<bytes>, header: bytes, rest: bytes, chunks: seq<bytes>)
    requires forall i :: 0 <= i < |messages| ==> |messages[i]| <= 8_388_608
    requires |header| == 4 && FromLe(header) > 8_388_608
    requires Concat(chunks) == Frames(messages) + (header + rest)
    ensures var n := Kept(h, messages, 0);
            FeedAll(h, Open([], []), chunks)
            == if n > 0 && h(messages[..n]) then Closed(messages[..n], false) else Closed(messages, true)
  {
    FeedAllConcat(h, Open([], []), chunks);
    DrainFrames(h, messages, 0, header + rest);
    assert messages[0..] == messages && messages[..0] == [];
    assert [] + Concat(chunks) == Concat(chunks);
    assert (header + rest)[..PREFIX] == header;
  }

  /** Nothing is delivered once the stream is closed. */
  lemma {:induction false} ClosedStays(h: Handlers, st: Stream, chunks: seq<bytes>)
    requires st.Closed?
    ensures FeedAll(h, st, chunks) == st
  {
    if chunks != [] {
      ClosedStays(h, st, chunks[1..]);
    }
  }
}
