/** Length-prefixed framing over a byte stream that arrives in pieces: a frame is the type byte 2,
    a little-endian length that counts the five header bytes, and the body. */
module Framing {
  import opened Bytes
  import opened Codec
  import opened ByteBuffers

  const HEADER_LEN := 5
  const INT32_MAX := 0x7FFF_FFFF

  // ---- the decoder as a function of the whole stream ------------------------

  /** What the decoder sees at the front of its bytes. A length below five would be a body of
      negative size, on which the source has no defined behaviour. */
  datatype Front = Wait | Malformed | Frame(length: nat)

  function FrontOf(bytes: seq<byte>): (f: Front)
    ensures f.Frame? ==> HEADER_LEN <= f.length <= |bytes| && f.length <= INT32_MAX
  {
    if |bytes| < HEADER_LEN || bytes[0] != 2 then Wait
    else
      var length := FromLe32(bytes[1..5]);
      if length > INT32_MAX || |bytes| < length then Wait
      else if length < HEADER_LEN then Malformed
      else Frame(length)
  }

  /** The decoder's decision, byte by byte: type 2, a little-endian length that is not negative as a
      32-bit integer, and as many bytes as it says. */
  lemma FrontIs(bytes: seq<byte>)
    ensures |bytes| < 5 ==> FrontOf(bytes) == Wait
    ensures |bytes| >= 5 ==>
              var length := bytes[1] as int + 256 * bytes[2] as int + 0x1_0000 * bytes[3] as int
                            + 0x100_0000 * bytes[4] as int;
              && (FrontOf(bytes) == Frame(length) <==> bytes[0] == 2 && 5 <= length < 0x8000_0000 && length <= |bytes|)
              && (FrontOf(bytes) == Malformed <==> bytes[0] == 2 && length < 5)
              && (FrontOf(bytes) == Wait <==>
                    bytes[0] != 2 || length >= 0x8000_0000 || length > |bytes|)
  {
    if |bytes| >= 5 {
      FromLe32Is(bytes[1..5]);
      hide FromLe32;
    }
  }

  /** The bodies sent on, the bytes kept, and whether a malformed length was met. */
  datatype Parsed = Parsed(bodies: seq<seq<byte>>, rest: seq<byte>, broken: bool)

  predicate Sendable(bodies: seq<seq<byte>>) {
    forall i :: 0 <= i < |bodies| ==> HEADER_LEN + |bodies[i]| <= INT32_MAX
  }

  function Parse(bytes: seq<byte>): (p: Parsed)
    ensures Sendable(p.bodies)
    decreases |bytes|
  {
    match FrontOf(bytes)
    case Wait => Parsed([], bytes, false)
    case Malformed => Parsed([], bytes, true)
    case Frame(length) => Then([bytes[HEADER_LEN..length]], Parse(bytes[length..]))
  }

  function Then(bodies: seq<seq<byte>>, p: Parsed): Parsed {
    Parsed(bodies + p.bodies, p.rest, p.broken)
  }

  lemma ThenThen(a: seq<seq<byte>>, b: seq<seq<byte>>, p: Parsed)
    ensures Then(a, Then(b, p)) == Then(a + b, p)
  {
    assert a + (b + p.bodies) == a + b + p.bodies;
  }

  // ---- the decoder as it is fed ---------------------------------------------

  /** One more piece. After a malformed length nothing is decoded any more. */
  function Feed(p: Parsed, chunk: seq<byte>): (r: Parsed)
    requires Sendable(p.bodies)
    ensures Sendable(r.bodies)
  {
    if p.broken then p.(rest := p.rest + chunk) else Then(p.bodies, Parse(p.rest + chunk))
  }

  function FeedAll(chunks: seq<seq<byte>>): (r: Parsed)
    ensures Sendable(r.bodies)
  {
    if chunks == [] then Parsed([], [], false)
    else Feed(FeedAll(chunks[..|chunks| - 1]), chunks[|chunks| - 1])
  }

  function Concat(chunks: seq<seq<byte>>): seq<byte> {
    if chunks == [] then [] else Concat(chunks[..|chunks| - 1]) + chunks[|chunks| - 1]
  }

  lemma FrontStays(a: seq<byte>, b: seq<byte>)
    requires !FrontOf(a).Wait?
    ensures FrontOf(a + b) == FrontOf(a)
  {
    assert (a + b)[1..5] == a[1..5];
  }

  /** Decoding a longer stream resumes where decoding its front stopped. */
  lemma {:induction false} ParseResumes(a: seq<byte>, b: seq<byte>)
    ensures Parse(a + b) == Feed(Parse(a), b)
    decreases |a|
  {
    hide FrontOf;
    match FrontOf(a)
    case Wait =>
    case Malformed => FrontStays(a, b);
    case Frame(length) =>
      FrontStays(a, b);
      var s := a + b;
      assert s[HEADER_LEN..length] == a[HEADER_LEN..length];
      assert s[length..] == a[length..] + b;
      ParseResumes(a[length..], b);
      var first := [a[HEADER_LEN..length]];
      var p := Parse(a[length..]);
      assert Parse(a) == Then(first, p);
      if !p.broken {
        ThenThen(first, p.bodies, Parse(p.rest + b));
      }
  }

  /** However the bytes are cut into pieces, the outcome is that of the whole stream. */
  lemma {:induction false} ChunkIndependence(chunks: seq<seq<byte>>)
    ensures FeedAll(chunks) == Parse(Concat(chunks))
  {
    if chunks != [] {
      var n := |chunks| - 1;
      ChunkIndependence(chunks[..n]);
      ParseResumes(Concat(chunks[..n]), chunks[n]);
    }
  }

  // ---- streams of frames ----------------------------------------------------

  function Framed(body: seq<byte>): (r: seq<byte>)
    requires HEADER_LEN + |body| <= INT32_MAX
    ensures |r| == HEADER_LEN + |body|
  {
    [2] + Le32(HEADER_LEN + |body|) + body
  }

  function Stream(bodies: seq<seq<byte>>): seq<byte>
    requires Sendable(bodies)
  {
    if bodies == [] then [] else Framed(bodies[0]) + Stream(bodies[1..])
  }

  lemma FramedFront(body: seq<byte>, behind: seq<byte>)
    requires HEADER_LEN + |body| <= INT32_MAX
    ensures var s := Framed(body) + behind; var n := HEADER_LEN + |body|;
            FrontOf(s) == Frame(n) && s[HEADER_LEN..n] == body && s[n..] == behind
  {
    var s := Framed(body) + behind;
    assert s[1..5] == Le32(HEADER_LEN + |body|);
    Le32RoundTrip(HEADER_LEN + |body|);
  }

  /** Every strict prefix of a frame is incomplete. */
  lemma PrefixWaits(body: seq<byte>, k: nat)
    requires HEADER_LEN + |body| <= INT32_MAX && k < HEADER_LEN + |body|
    ensures FrontOf(Framed(body)[..k]).Wait?
  {
    var s := Framed(body)[..k];
    if k >= HEADER_LEN {
      assert s[1..5] == Framed(body)[1..5] == Le32(HEADER_LEN + |body|);
      Le32RoundTrip(HEADER_LEN + |body|);
    }
  }

  lemma {:induction false} StreamParses(bodies: seq<seq<byte>>, tail: seq<byte>)
    requires Sendable(bodies) && FrontOf(tail).Wait?
    ensures Parse(Stream(bodies) + tail) == Parsed(bodies, tail, false)
  {
    if bodies == [] {
      assert Stream(bodies) + tail == tail;
    } else {
      var behind := Stream(bodies[1..]) + tail;
      assert Stream(bodies) + tail == Framed(bodies[0]) + behind;
      FramedFront(bodies[0], behind);
      StreamParses(bodies[1..], tail);
      assert [bodies[0]] + bodies[1..] == bodies;
    }
  }

  /** The framing promise: whatever the pieces, the bodies come out in order, each once, and the
      buffer holds exactly the part of the last frame that has arrived. */
  lemma FramesArrive(bodies: seq<seq<byte>>, last: seq<byte>, k: nat, chunks: seq<seq<byte>>)
    requires Sendable(bodies) && HEADER_LEN + |last| <= INT32_MAX && k < HEADER_LEN + |last|
    requires Concat(chunks) == Stream(bodies) + Framed(last)[..k]
    ensures FeedAll(chunks) == Parsed(bodies, Framed(last)[..k], false)
  {
    ChunkIndependence(chunks);
    PrefixWaits(last, k);
    StreamParses(bodies, Framed(last)[..k]);
  }

  lemma StreamCons(body: seq<byte>, bodies: seq<seq<byte>>, rest: seq<byte>)
    requires HEADER_LEN + |body| <= INT32_MAX && Sendable(bodies)
    ensures Sendable([body] + bodies)
    ensures Stream([body] + bodies) + rest == Framed(body) + (Stream(bodies) + rest)
  {
    hide Framed;
    assert ([body] + bodies)[1..] == bodies;
  }

  /** The bytes the decoder took and kept are the bytes it was given, framing included. */
  lemma {:induction false} ParseLosesNothing(bytes: seq<byte>)
    ensures var p := Parse(bytes); bytes == Stream(p.bodies) + p.rest
    decreases |bytes|
  {
    hide FrontOf, Framed;
    match FrontOf(bytes)
    case Wait => assert Stream([]) + bytes == bytes;
    case Malformed => assert Stream([]) + bytes == bytes;
    case Frame(length) =>
      hide Stream, Sendable;
      var p := Parse(bytes[length..]);
      ParseLosesNothing(bytes[length..]);
      FrameOf(bytes);
      StreamCons(bytes[HEADER_LEN..length], p.bodies, p.rest);
      assert bytes == bytes[..length] + bytes[length..];
  }

  lemma LowByte(b: seq<byte>)
    requires |b| == 4
    ensures FromLe32(b) % 256 == b[0]
  {
  }

  lemma SecondByte(b: seq<byte>)
    requires |b| == 4
    ensures FromLe32(b) / 256 % 256 == b[1]
  {
    var b0: int, b1: int, b2: int, b3: int := b[0], b[1], b[2], b[3];
    assert FromLe32(b) / 256 == b1 + 256 * (b2 + 256 * b3);
  }

  lemma ThirdByte(b: seq<byte>)
    requires |b| == 4
    ensures FromLe32(b) / 0x1_0000 % 256 == b[2] && FromLe32(b) / 0x100_0000 == b[3]
  {
    var b0: int, b1: int, b2: int, b3: int := b[0], b[1], b[2], b[3];
    assert FromLe32(b) / 0x1_0000 == b2 + 256 * b3;
  }

  lemma Le32OfBytes(b: seq<byte>)
    requires |b| == 4
    ensures Le32(FromLe32(b)) == b
  {
    hide FromLe32;
    var x := FromLe32(b);
    LowByte(b);
    SecondByte(b);
    ThirdByte(b);
    assert Le32(x) == [b[0], b[1], b[2], b[3]];
  }

  lemma FrameOf(bytes: seq<byte>)
    requires FrontOf(bytes).Frame?
    ensures bytes[..FrontOf(bytes).length] == Framed(bytes[HEADER_LEN..FrontOf(bytes).length])
  {
    var n := FrontOf(bytes).length;
    Le32OfBytes(bytes[1..5]);
    assert bytes[..n] == [bytes[0]] + bytes[1..5] + bytes[5..n];
  }

  // ---- when the decoder gets stuck ------------------------------------------

  /** A foreign type byte, or a length that is negative as a 32-bit integer. */
  predicate Stalled(bytes: seq<byte>) {
    |bytes| > 0 && (bytes[0] != 2 || (|bytes| >= HEADER_LEN && FromLe32(bytes[1..5]) > INT32_MAX))
  }

  lemma StallStays(bytes: seq<byte>, more: seq<byte>)
    requires Stalled(bytes)
    ensures FrontOf(bytes + more).Wait?
  {
    if |bytes| >= HEADER_LEN {
      assert (bytes + more)[1..5] == bytes[1..5];
    }
  }

  lemma StallEnds(bytes: seq<byte>)
    requires !Stalled(bytes)
    ensures exists more :: !FrontOf(bytes + more).Wait?
  {
    var zeros: seq<byte> := seq(INT32_MAX, _ => 0);
    var more := if bytes == [] then [2] + zeros else zeros;
    var s := bytes + more;
    assert s[0] == 2;
    if |bytes| >= HEADER_LEN {
      assert s[1..5] == bytes[1..5];
    } else {
      assert s[4] == 0;
    }
    assert !FrontOf(bytes + more).Wait?;
  }

  /** Kept bytes are never decoded, whatever arrives behind them, exactly when they are stalled. */
  lemma StuckIffStalled(bytes: seq<byte>)
    ensures (forall more :: Parse(bytes + more) == Parsed([], bytes + more, false)) <==> Stalled(bytes)
  {
    if Stalled(bytes) {
      forall more ensures Parse(bytes + more) == Parsed([], bytes + more, false) {
        StallStays(bytes, more);
      }
    } else {
      StallEnds(bytes);
      var more :| !FrontOf(bytes + more).Wait?;
      assert Parse(bytes + more) != Parsed([], bytes + more, false);
    }
  }

  // ---- the client's data ----------------------------------------------------

  function EachMasked(items: seq<seq<byte>>): (r: seq<seq<byte>>)
    ensures |r| == |items|
  {
    if items == [] then [] else [Masked(items[0])] + EachMasked(items[1..])
  }

  /** The frames a client's encoder writes, one behind the other. */
  function ClientStream(items: seq<seq<byte>>): seq<byte>
    requires Sendable(items)
  {
    if items == [] then [] else Wire(2, HEADER_LEN + |items[0]|, items[0]) + ClientStream(items[1..])
  }

  lemma {:induction false} ClientFrames(items: seq<seq<byte>>)
    requires Sendable(items)
    ensures Sendable(EachMasked(items)) && ClientStream(items) == Stream(EachMasked(items))
  {
    if items != [] {
      ClientFrames(items[1..]);
      var r := EachMasked(items);
      assert r[0] == Masked(items[0]) && r[1..] == EachMasked(items[1..]);
    }
  }

  lemma {:induction false} EachMaskedAt(items: seq<seq<byte>>, i: nat)
    requires i < |items|
    ensures EachMasked(items)[i] == Masked(items[i])
  {
    if i > 0 {
      EachMaskedAt(items[1..], i - 1);
    }
  }

  /** Encoded by the client, cut up by the network, decoded and unshifted: the data again. */
  lemma ClientDataArrives(items: seq<seq<byte>>, chunks: seq<seq<byte>>)
    requires Sendable(items) && Concat(chunks) == ClientStream(items)
    ensures var p := FeedAll(chunks);
            p.rest == [] && !p.broken && |p.bodies| == |items|
            && forall i :: 0 <= i < |items| ==> Unmasked(p.bodies[i]) == items[i]
  {
    ClientFrames(items);
    var bodies := EachMasked(items);
    assert Stream(bodies) + [] == Stream(bodies);
    StreamParses(bodies, []);
    ChunkIndependence(chunks);
    forall i | 0 <= i < |items| ensures Unmasked(bodies[i]) == items[i] {
      EachMaskedAt(items, i);
      UnmaskMask(items[i]);
    }
  }

  // ---- the server -----------------------------------------------------------

  /** What goes out for the bodies: a stamped header and the body, each. */
  function Relayed(bodies: seq<seq<byte>>, clock: nat -> Time): seq<seq<byte>>
    requires Sendable(bodies)
  {
    if bodies == [] then []
    else
      var n := |bodies| - 1;
      Relayed(bodies[..n], clock) + [Header(|bodies[n]|, clock(n)), bodies[n]]
  }

  lemma RelayedSnoc(bodies: seq<seq<byte>>, body: seq<byte>, clock: nat -> Time)
    requires Sendable(bodies) && HEADER_LEN + |body| <= INT32_MAX
    ensures Sendable(bodies + [body])
    ensures Relayed(bodies + [body], clock) == Relayed(bodies, clock) + [Header(|body|, clock(|bodies|)), body]
  {
    assert (bodies + [body])[..|bodies|] == bodies;
  }

  /** A header and the body behind it, body after body. */
  lemma {:induction false} RelayedAt(bodies: seq<seq<byte>>, clock: nat -> Time, i: nat)
    requires Sendable(bodies) && i < |bodies|
    ensures var r := Relayed(bodies, clock);
            |r| == 2 * |bodies| && r[2 * i] == Header(|bodies[i]|, clock(i)) && r[2 * i + 1] == bodies[i]
    decreases |bodies|
  {
    var n := |bodies| - 1;
    RelayedLength(bodies[..n], clock);
    if i < n {
      RelayedAt(bodies[..n], clock, i);
    }
  }

  lemma {:induction false} RelayedLength(bodies: seq<seq<byte>>, clock: nat -> Time)
    requires Sendable(bodies)
    ensures |Relayed(bodies, clock)| == 2 * |bodies|
    decreases |bodies|
  {
    if bodies != [] {
      RelayedLength(bodies[..|bodies| - 1], clock);
    }
  }

  /** One turn of the loop: the first frame's body goes behind those already sent. */
  lemma ParseStep(bodies: seq<seq<byte>>, bytes: seq<byte>)
    requires FrontOf(bytes).Frame?
    ensures var n := FrontOf(bytes).length;
            Then(bodies, Parse(bytes)) == Then(bodies + [bytes[HEADER_LEN..n]], Parse(bytes[n..]))
  {
    var n := FrontOf(bytes).length;
    ThenThen(bodies, [bytes[HEADER_LEN..n]], Parse(bytes[n..]));
  }

  lemma ParseEnd(bodies: seq<seq<byte>>, bytes: seq<byte>)
    requires !FrontOf(bytes).Frame?
    ensures Then(bodies, Parse(bytes)) == Parsed(bodies, bytes, FrontOf(bytes).Malformed?)
  {
  }

  lemma RelayedNone(clock: nat -> Time, bytes: seq<byte>)
    ensures Relayed([], clock) == [] && Then([], Parse(bytes)) == Parse(bytes)
  {
  }

  lemma FeedAllSnoc(chunks: seq<seq<byte>>, chunk: seq<byte>)
    requires !FeedAll(chunks).broken
    ensures var p := FeedAll(chunks); var q := Parse(p.rest + chunk);
            FeedAll(chunks + [chunk]) == Parsed(p.bodies + q.bodies, q.rest, q.broken)
  {
    assert (chunks + [chunk])[..|chunks|] == chunks;
  }

  datatype Outcome = Incomplete | Undefined | Body(length: nat, timestamp: nat)

  class CubeServer {
    const buffer: SimpleBuffer

    // The pieces received and the bodies sent on so far.
    ghost var received: seq<seq<byte>>
    ghost var relayed: seq<seq<byte>>
    ghost var broken: bool

    constructor ()
      ensures Valid() && fresh(buffer) && fresh(buffer.buffer) && buffer.buffer.Length == 4096
      ensures received == [] && relayed == [] && !broken && Settled()
    {
      buffer := new SimpleBuffer(SIMPLE_DEFAULT_SIZE);
      received, relayed, broken := [], [], false;
    }

    ghost predicate Valid()
      reads this, buffer
    {
      buffer.Valid() && buffer.buffer.Length >= 16
    }

    /** Over the whole life of the connection: what was relayed and what is buffered are what the
        stream decoder makes of everything received. */
    ghost predicate Settled()
      requires Valid()
      reads this, buffer, buffer.buffer
    {
      FeedAll(received) == Parsed(relayed, buffer.Contents(), broken)
    }

    /** Takes the header off when a frame is complete. The eight timestamp bytes are read even from
        a shorter body; the read never leaves the buffer's block. */
    method Decode() returns (r: Outcome)
      requires Valid()
      modifies buffer, buffer.buffer
      ensures Valid() && buffer.buffer == old(buffer.buffer)
      ensures match FrontOf(old(buffer.Contents()))
              case Wait => r.Incomplete? && buffer.Contents() == old(buffer.Contents())
              case Malformed => r.Undefined? && buffer.Contents() == old(buffer.Contents())
              case Frame(length) =>
                r.Body? && r.length == length - HEADER_LEN
                && buffer.Contents() == old(buffer.Contents())[HEADER_LEN..]
                && (r.length >= 8 ==> r.timestamp == Assemble(buffer.Contents()[..8], 8))
    {
      var size := buffer.writePos - buffer.readPos;
      if size < HEADER_LEN {
        return Incomplete;
      }
      var data := buffer.buffer[buffer.readPos..buffer.writePos];
      var messageLen := FromLe32(data[1..5]);
      if data[0] != 2 || messageLen > INT32_MAX || size < messageLen {
        return Incomplete;
      }
      if messageLen < HEADER_LEN {
        return Undefined;
      }
      buffer.Advance(HEADER_LEN);
      var at := buffer.readPos;
      var timestamp := DecodeTimeStamp(buffer.buffer[at..at + 8]);
      assert messageLen >= 13 ==> buffer.buffer[at..at + 8] == buffer.Contents()[..8];
      return Body(messageLen - HEADER_LEN, timestamp);
    }

    /** One turn of the loop: what is sent for the frame at the front, if it is complete. */
    method RelayFrame(time: Time) returns (r: Outcome, header: seq<byte>, body: seq<byte>)
      requires Valid()
      modifies buffer, buffer.buffer
      ensures Valid() && buffer.buffer == old(buffer.buffer)
      ensures var before := old(buffer.Contents());
              match FrontOf(before)
              case Wait => r.Incomplete? && buffer.Contents() == before
              case Malformed => r.Undefined? && buffer.Contents() == before
              case Frame(length) =>
                r.Body? && body == before[HEADER_LEN..length] && header == Header(|body|, time)
                && buffer.Contents() == before[length..]
    {
      hide FrontOf, Header, FromLe32, Le32, Assemble, SimpleConsumed;
      header, body := [], [];
      r := Decode();
      if r.Body? {
        var output := EncodeHeaderWithTimeStamp(r.length, time);
        header := output[..];
        body := buffer.Data(r.length);
        buffer.Advance(r.length);
      }
    }

    /** Everything sent on the connection for one piece of input, and whether the source's
        behaviour was defined throughout. `clock` gives the time of each header. */
    method OnMessage(data: seq<byte>, clock: nat -> Time) returns (sent: seq<seq<byte>>, defined: bool)
      requires Valid() && Settled() && !broken
      modifies this, buffer, buffer.buffer
      ensures Valid() && (buffer.buffer == old(buffer.buffer) || fresh(buffer.buffer))
      ensures Settled() && received == old(received) + [data] && defined == !broken
      ensures var p := Parse(old(buffer.Contents()) + data);
              sent == Relayed(p.bodies, clock) && relayed == old(relayed) + p.bodies && buffer.Contents() == p.rest
      ensures var bodies := Parse(old(buffer.Contents()) + data).bodies;
              && |sent| == 2 * |bodies|
              && forall i :: 0 <= i < |bodies| ==>
                   |sent[2 * i]| == 13 && sent[2 * i] == Header(|bodies[i]|, clock(i)) && sent[2 * i + 1] == bodies[i]
    {
      hide FrontOf, Parse, Relayed, Then, Header, SimpleAppended, FeedAll;
      FeedAllSnoc(received, data);
      buffer.Write(data);
      ghost var whole := buffer.Contents();
      ghost var bodies: seq<seq<byte>> := [];
      var count := 0;
      sent := [];
      RelayedNone(clock, whole);
      while true
        invariant Valid() && (buffer.buffer == old(buffer.buffer) || fresh(buffer.buffer))
        invariant Sendable(bodies) && sent == Relayed(bodies, clock) && count == |bodies|
        invariant received == old(received) && relayed == old(relayed)
        invariant Parse(whole) == Then(bodies, Parse(buffer.Contents()))
        decreases |buffer.Contents()|
      {
        ghost var before := buffer.Contents();
        var r, header, body := RelayFrame(clock(count));
        if !r.Body? {
          defined := r.Incomplete?;
          ParseEnd(bodies, before);
          received, relayed, broken := received + [data], relayed + bodies, r.Undefined?;
          RelayedLength(bodies, clock);
          forall i | 0 <= i < |bodies|
            ensures sent[2 * i] == Header(|bodies[i]|, clock(i)) && sent[2 * i + 1] == bodies[i]
          {
            RelayedAt(bodies, clock, i);
          }
          return;
        }
        ParseStep(bodies, before);
        RelayedSnoc(bodies, body, clock);
        sent := sent + [header, body];
        bodies, count := bodies + [body], count + 1;
      }
    }
  }
}
