/**
 Length-prefixed frames of the sync protocol: magic, version, big-endian length,
 payload. Bincode is a parameter: a partial serializer and a partial parser.
 */
module WireProtocol {
  import opened Common
  import opened Streaming

  const PROTOCOL_VERSION: byte := 1
  const MAX_FRAME_SIZE: nat := 16 * 1024 * 1024
  const HEADER: nat := 9

  datatype Error = BadMagic | BadVersion(version: byte) | TooLong(length: nat) | BadPayload

  datatype Result<+T> = Ok(value: T) | Err(error: Error)

  datatype Codec<!M> = Codec(serialize: M -> Option<Bytes>, deserialize: Bytes -> Option<M>)

  /** What bincode promises: parsing undoes serializing. */
  ghost predicate Lossless<M(!new)>(c: Codec<M>) {
    forall m :: c.serialize(m).Some? ==> c.deserialize(c.serialize(m).value) == Some(m)
  }

  function Header(length: nat): Bytes
    requires length <= MAX_FRAME_SIZE
  {
    MAGIC + [PROTOCOL_VERSION] + PutU32(length)
  }

  function Encode<M>(c: Codec<M>, m: M): Result<Bytes> {
    var payload := c.serialize(m);
    if payload.None? then Err(BadPayload)
    else if |payload.value| > MAX_FRAME_SIZE then Err(TooLong(|payload.value|))
    else Ok(Header(|payload.value|) + payload.value)
  }

  function Parse<M>(c: Codec<M>, payload: Bytes): Result<M> {
    var m := c.deserialize(payload);
    if m.Some? then Ok(m.value) else Err(BadPayload)
  }

  function Decode<M>(c: Codec<M>, b: Bytes): Outcome<Result<M>> {
    if |b| < HEADER then Wait
    else if b[..4] != MAGIC then Item(Err(BadMagic), 1)
    else if b[4] != PROTOCOL_VERSION then Item(Err(BadVersion(b[4])), 5)
    else
      var n := GetU32(b, 5);
      if n > MAX_FRAME_SIZE then Item(Err(TooLong(n)), HEADER)
      else if |b| < HEADER + n then Wait
      else Item(Parse(c, b[HEADER..HEADER + n]), HEADER + n)
  }

  function Decoder<M>(c: Codec<M>): Bytes -> Outcome<Result<M>> {
    (b: Bytes) => Decode(c, b)
  }

  method EncodeFrame<M>(c: Codec<M>, m: M) returns (r: Result<Bytes>)
    ensures r == Encode(c, m)
    // "ASTR", version 1, the length, the payload; or one of two errors.
    ensures r.Ok? <==> c.serialize(m).Some? && |c.serialize(m).value| <= 0x100_0000
    ensures r.Ok? ==>
              && |r.value| == 9 + |c.serialize(m).value|
              && r.value[..5] == [0x41, 0x53, 0x54, 0x52, 1]
              && BigEndian(r.value[5], r.value[6], r.value[7], r.value[8]) == |c.serialize(m).value|
              && r.value[9..] == c.serialize(m).value
    ensures r.Err? ==> r.error == if c.serialize(m).None? then BadPayload else TooLong(|c.serialize(m).value|)
  {
    var payload := c.serialize(m);
    if payload.None? {
      return Err(BadPayload);
    }
    if |payload.value| > MAX_FRAME_SIZE {
      return Err(TooLong(|payload.value|));
    }
    var buf := MAGIC;
    buf := buf + [PROTOCOL_VERSION];
    buf := buf + PutU32(|payload.value|);
    buf := buf + payload.value;
    U32RoundTrip(|payload.value|, MAGIC + [PROTOCOL_VERSION], payload.value);
    U32BigEndian(buf, 5);
    r := Ok(buf);
  }

  /** The decoder as called: it advances the caller's buffer past what it consumed. */
  method DecodeFrame<M>(c: Codec<M>, buf: Buffer) returns (r: Option<Result<M>>)
    modifies buf
    ensures match Decode(c, old(buf.data))
            case Wait => r == None && buf.data == old(buf.data)
            case Item(x, n) => n <= |old(buf.data)| && r == Some(x) && buf.data == old(buf.data)[n..]
  {
    if |buf.data| < |MAGIC| + 1 + 4 {
      return None;
    }
    if buf.data[0..|MAGIC|] != MAGIC {
      buf.Advance(1);
      return Some(Err(BadMagic));
    }
    var version := buf.data[|MAGIC|];
    if version != PROTOCOL_VERSION {
      buf.Advance(|MAGIC| + 1);
      return Some(Err(BadVersion(version)));
    }
    var payloadLen := GetU32(buf.data, |MAGIC| + 1);
    if payloadLen > MAX_FRAME_SIZE {
      buf.Advance(|MAGIC| + 1 + 4);
      return Some(Err(TooLong(payloadLen)));
    }
    var frameLen := |MAGIC| + 1 + 4 + payloadLen;
    if |buf.data| < frameLen {
      return None;
    }
    var payload := buf.data[|MAGIC| + 5..frameLen];
    buf.Advance(frameLen);
    r := Some(Parse(c, payload));
  }

  lemma DecodeStable<M>(c: Codec<M>, b: Bytes, more: Bytes)
    ensures Unmoved(Decoder(c), b, more)
    ensures Decode(c, b).Item? ==> 1 <= Decode(c, b).consumed <= |b|
  {
    if |b| >= HEADER {
      assert (b + more)[..4] == b[..4];
      var n := GetU32(b, 5);
      assert GetU32(b + more, 5) == n;
      if |b| >= HEADER + n {
        assert (b + more)[HEADER..HEADER + n] == b[HEADER..HEADER + n];
      }
    }
  }

  /** Whatever the payload parser: results are final and always consume something. */
  lemma DecoderIsStreaming<M(!new)>(c: Codec<M>)
    ensures IsStreaming(Decoder(c))
  {
    var d := Decoder(c);
    forall b: Bytes, more: Bytes ensures Unmoved(d, b, more) && (d(b).Item? ==> 1 <= d(b).consumed <= |b|) {
      DecodeStable(c, b, more);
    }
  }

  /** However the stream is cut into chunks, draining after each yields the same messages and errors. */
  lemma ChunksDoNotMatter<M(!new)>(c: Codec<M>, chunks: seq<Bytes>)
    ensures IsStreaming(Decoder(c))
    ensures DrainChunks(Decoder(c), [], chunks) == Drain(Decoder(c), Concat(chunks))
  {
    DecoderIsStreaming(c);
    ChunkInvariance(Decoder(c), [], chunks);
    assert [] + Concat(chunks) == Concat(chunks);
  }

  /** How a frame's first bytes read, whatever follows them. */
  lemma HeaderReads(n: nat, after: Bytes)
    requires n <= MAX_FRAME_SIZE
    ensures var b := Header(n) + after;
            |Header(n)| == HEADER && b[..4] == MAGIC && b[4] == PROTOCOL_VERSION && GetU32(b, 5) == n
  {
    var front := MAGIC + [PROTOCOL_VERSION];
    U32RoundTrip(n, front, after);
  }

  /** An encoded frame followed by anything decodes to its message and leaves exactly what follows. */
  lemma RoundTrip<M(!new)>(c: Codec<M>, m: M, rest: Bytes)
    requires Lossless(c) && Encode(c, m).Ok?
    ensures var frame := Encode(c, m).value;
            && Decode(c, frame + rest) == Item(Ok(m), |frame|)
            && (frame + rest)[|frame|..] == rest
  {
    var payload := c.serialize(m).value;
    var frame := Encode(c, m).value;
    HeaderReads(|payload|, payload + rest);
    assert frame + rest == Header(|payload|) + (payload + rest);
    assert (frame + rest)[HEADER..HEADER + |payload|] == payload;
  }

  /** The frames of the messages, one behind the other. */
  function Stream<M>(c: Codec<M>, messages: seq<M>): Bytes
    requires forall i :: 0 <= i < |messages| ==> Encode(c, messages[i]).Ok?
  {
    if messages == [] then [] else Encode(c, messages[0]).value + Stream(c, messages[1..])
  }

  function AllOk<M>(messages: seq<M>): seq<Result<M>> {
    if messages == [] then [] else [Ok(messages[0])] + AllOk(messages[1..])
  }

  lemma {:induction false} DrainStream<M(!new)>(c: Codec<M>, messages: seq<M>)
    requires Lossless(c) && IsStreaming(Decoder(c))
    requires forall i :: 0 <= i < |messages| ==> Encode(c, messages[i]).Ok?
    ensures Drain(Decoder(c), Stream(c, messages)) == Drained(AllOk(messages), [])
    decreases |messages|
  {
    if messages != [] {
      RoundTrip(c, messages[0], Stream(c, messages[1..]));
      DrainStream(c, messages[1..]);
    }
  }

  /** Messages sent one after the other, and cut anywhere on the way, arrive as sent, with nothing left over. */
  lemma StreamRoundTrip<M(!new)>(c: Codec<M>, messages: seq<M>, chunks: seq<Bytes>)
    requires Lossless(c) && forall i :: 0 <= i < |messages| ==> Encode(c, messages[i]).Ok?
    requires Concat(chunks) == Stream(c, messages)
    ensures IsStreaming(Decoder(c))
    ensures DrainChunks(Decoder(c), [], chunks) == Drained(AllOk(messages), [])
  {
    ChunksDoNotMatter(c, chunks);
    DrainStream(c, messages);
  }

  /** Where a version 1 frame says it ends. */
  function ClaimedLength(b: Bytes): nat
    requires |b| >= HEADER
  {
    BigEndian(b[5], b[6], b[7], b[8])
  }

  /** The buffer starts with the magic and a version byte `v`. */
  predicate StartsFrame(b: Bytes, v: byte) {
    |b| >= HEADER && b[..5] == [0x41, 0x53, 0x54, 0x52, v]
  }

  lemma StartsFrameMeans(b: Bytes)
    requires |b| >= HEADER
    ensures b[..4] == MAGIC <==> StartsFrame(b, b[4])
  {
    assert b[..5] == b[..4] + [b[4]];
    assert [0x41, 0x53, 0x54, 0x52, b[4]][..4] == MAGIC;
    assert b[..5][..4] == b[..4];
  }

  /**
   When each error is reported, and how many bytes it takes: one for a missing
   magic, five for a foreign version, the header for an excessive length, the
   whole frame for a payload that does not parse.
   */
  lemma ErrorsIff<M>(c: Codec<M>, b: Bytes, v: byte, n: nat)
    ensures Decode(c, b) == Item(Err(BadMagic), 1) <==> |b| >= HEADER && !StartsFrame(b, b[4])
    ensures Decode(c, b) == Item(Err(BadVersion(v)), 5) <==> StartsFrame(b, v) && v != 1
    ensures Decode(c, b) == Item(Err(TooLong(n)), 9) <==> StartsFrame(b, 1) && ClaimedLength(b) == n > 0x100_0000
    ensures Decode(c, b) == Item(Err(BadPayload), 9 + n) <==>
              && StartsFrame(b, 1) && ClaimedLength(b) == n <= 0x100_0000 && |b| >= 9 + n
              && c.deserialize(b[9..9 + n]).None?
  {
    if |b| >= HEADER {
      StartsFrameMeans(b);
      U32BigEndian(b, 5);
    }
  }

  /** A message is accepted exactly from a complete version 1 frame whose payload parses to it. */
  lemma DecodesIff<M>(c: Codec<M>, b: Bytes, m: M, k: nat)
    ensures Decode(c, b) == Item(Ok(m), k) <==>
              && StartsFrame(b, 1) && ClaimedLength(b) <= 0x100_0000
              && k == 9 + ClaimedLength(b) <= |b| && c.deserialize(b[9..k]) == Some(m)
  {
    if |b| >= HEADER {
      StartsFrameMeans(b);
      U32BigEndian(b, 5);
    }
  }

  /** And it waits exactly for the rest of a header, or of a version 1 frame of acceptable length. */
  lemma WaitsIff<M>(c: Codec<M>, b: Bytes)
    ensures Decode(c, b).Wait? <==>
              |b| < 9 || (StartsFrame(b, 1) && ClaimedLength(b) <= 0x100_0000 && |b| < 9 + ClaimedLength(b))
  {
    if |b| >= HEADER {
      StartsFrameMeans(b);
      U32BigEndian(b, 5);
    }
  }

  /** Until the last byte of a frame is there, the decoder waits and touches nothing. */
  lemma StrictPrefixWaits<M>(c: Codec<M>, m: M, k: nat)
    requires Encode(c, m).Ok? && k < |Encode(c, m).value|
    ensures Decode(c, Encode(c, m).value[..k]).Wait?
  {
    var payload := c.serialize(m).value;
    var frame := Encode(c, m).value;
    if k >= HEADER {
      HeaderReads(|payload|, payload[..k - HEADER]);
      assert frame[..k] == Header(|payload|) + payload[..k - HEADER];
    }
  }

  /**
   Resynchronisation: garbage in which no magic starts costs exactly one error
   per byte, then the next frame and everything after it are recovered.
   */
  lemma Resync<M(!new)>(c: Codec<M>, garbage: Bytes, m: M, rest: Bytes)
    requires Lossless(c) && Encode(c, m).Ok? && NoMagicIn(garbage, Encode(c, m).value)
    ensures IsStreaming(Decoder(c))
    ensures var got := Drain(Decoder(c), garbage + (Encode(c, m).value + rest));
            var tail := Drain(Decoder(c), rest);
            && got.rest == tail.rest
            && got.items == Repeat(Err(BadMagic), |garbage|) + ([Ok(m)] + tail.items)
  {
    DecoderIsStreaming(c);
    var d, frame := Decoder(c), Encode(c, m).value;
    forall i: nat | i < |garbage| ensures d(garbage[i..] + (frame + rest)) == Item(Err(BadMagic), 1) {
      GarbageWindow(garbage, frame, rest, i);
    }
    DrainSkips(d, Err(BadMagic), garbage, frame + rest);
    RoundTrip(c, m, rest);
  }
}
