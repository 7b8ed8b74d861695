/**
 Encrypted frames of the peer-to-peer streams: magic, version, and two
 length-prefixed byte strings.
 */
module SyncFrames {
  import opened Common
  import opened Streaming

  const SYNC_VERSION: byte := 1
  const MAX_FRAME_SIZE: nat := 1024 * 1024

  datatype SyncFrame = SyncFrame(nonce: Bytes, ciphertext: Bytes)

  datatype Error = BadMagic | BadVersion(version: byte) | TooLarge(length: nat)

  datatype Result<+T> = Ok(value: T) | Err(error: Error)

  function TotalLength(f: SyncFrame): nat {
    4 + 1 + 4 + |f.nonce| + 4 + |f.ciphertext|
  }

  function Encode(f: SyncFrame): Result<Bytes> {
    if TotalLength(f) > MAX_FRAME_SIZE + 13 then Err(TooLarge(TotalLength(f)))
    else Ok(MAGIC + [SYNC_VERSION] + PutU32(|f.nonce|) + f.nonce + PutU32(|f.ciphertext|) + f.ciphertext)
  }

  function Decode(b: Bytes): Outcome<Result<SyncFrame>> {
    if |b| < 9 then Wait
    else if b[..4] != MAGIC then Item(Err(BadMagic), 1)
    else if b[4] != SYNC_VERSION then Item(Err(BadVersion(b[4])), 5)
    else
      var n := GetU32(b, 5);
      if |b| < 13 + n then Wait
      else
        var m := GetU32(b, 9 + n);
        if |b| < 13 + n + m then Wait
        else Item(Ok(SyncFrame(b[9..9 + n], b[13 + n..13 + n + m])), 13 + n + m)
  }

  function Decoder(): Bytes -> Outcome<Result<SyncFrame>> {
    (b: Bytes) => Decode(b)
  }

  method EncodeFrame(f: SyncFrame) returns (r: Result<Bytes>)
    ensures r == Encode(f)
    ensures r.Ok? <==> 13 + |f.nonce| + |f.ciphertext| <= 0x10_0000 + 13
    ensures r.Err? ==> r.error == TooLarge(13 + |f.nonce| + |f.ciphertext|)
    // "ASTR", version 1, then each byte string behind its length.
    ensures r.Ok? ==>
              var n := |f.nonce|;
              && |r.value| == 13 + n + |f.ciphertext|
              && r.value[..5] == [0x41, 0x53, 0x54, 0x52, 1]
              && BigEndian(r.value[5], r.value[6], r.value[7], r.value[8]) == n
              && r.value[9..9 + n] == f.nonce
              && BigEndian(r.value[9 + n], r.value[10 + n], r.value[11 + n], r.value[12 + n]) == |f.ciphertext|
              && r.value[13 + n..] == f.ciphertext
  {
    var totalLen := 4 + 1 + 4 + |f.nonce| + 4 + |f.ciphertext|;
    if totalLen > MAX_FRAME_SIZE + 13 {
      return Err(TooLarge(totalLen));
    }
    var buf := MAGIC;
    buf := buf + [SYNC_VERSION];
    buf := buf + PutU32(|f.nonce|);
    buf := buf + f.nonce;
    buf := buf + PutU32(|f.ciphertext|);
    buf := buf + f.ciphertext;
    EncodeLayout(f);
    r := Ok(buf);
  }

  /** The decoder as called: it advances the caller's buffer past what it consumed. */
  method DecodeFrame(buf: Buffer) returns (r: Option<Result<SyncFrame>>)
    modifies buf
    ensures match Decode(old(buf.data))
            case Wait => r == None && buf.data == old(buf.data)
            case Item(x, n) => n <= |old(buf.data)| && r == Some(x) && buf.data == old(buf.data)[n..]
  {
    if |buf.data| < 9 {
      return None;
    }
    var magic := buf.data[0..4];
    if magic != MAGIC {
      buf.Advance(1);
      return Some(Err(BadMagic));
    }
    var version := buf.data[4];
    if version != SYNC_VERSION {
      buf.Advance(5);
      return Some(Err(BadVersion(version)));
    }
    var nonceLen := GetU32(buf.data, 5);
    var headerLen := 9 + 4 + nonceLen;
    if |buf.data| < headerLen {
      return None;
    }
    var ctLen := GetU32(buf.data, 9 + nonceLen);
    var totalLen := headerLen + ctLen;
    if |buf.data| < totalLen {
      return None;
    }
    var nonce := buf.data[9..9 + nonceLen];
    var ciphertext := buf.data[13 + nonceLen..13 + nonceLen + ctLen];
    buf.Advance(totalLen);
    r := Some(Ok(SyncFrame(nonce, ciphertext)));
  }

  lemma DecodeStable(b: Bytes, more: Bytes)
    ensures Unmoved(Decoder(), b, more)
    ensures Decode(b).Item? ==> 1 <= Decode(b).consumed <= |b|
  {
    if |b| >= 9 {
      assert (b + more)[..4] == b[..4];
      var n := GetU32(b, 5);
      assert GetU32(b + more, 5) == n;
      if |b| >= 13 + n {
        var m := GetU32(b, 9 + n);
        assert GetU32(b + more, 9 + n) == m;
        if |b| >= 13 + n + m {
          assert (b + more)[9..9 + n] == b[9..9 + n];
          assert (b + more)[13 + n..13 + n + m] == b[13 + n..13 + n + m];
        }
      }
    }
  }

  /** Results are final and always consume something. */
  lemma DecoderIsStreaming()
    ensures IsStreaming(Decoder())
  {
    var d := Decoder();
    forall b: Bytes, more: Bytes ensures Unmoved(d, b, more) && (d(b).Item? ==> 1 <= d(b).consumed <= |b|) {
      DecodeStable(b, more);
    }
  }

  /** However the stream is cut into chunks, draining after each yields the same messages and errors. */
  lemma ChunksDoNotMatter(chunks: seq<Bytes>)
    ensures IsStreaming(Decoder())
    ensures DrainChunks(Decoder(), [], chunks) == Drain(Decoder(), Concat(chunks))
  {
    DecoderIsStreaming();
    ChunkInvariance(Decoder(), [], chunks);
    assert [] + Concat(chunks) == Concat(chunks);
  }

  /** The lengths fit their fields; `decode` asks for no more. */
  predicate LengthsFit(f: SyncFrame) {
    |f.nonce| <= U32_MAX && |f.ciphertext| <= U32_MAX
  }

  function Front(f: SyncFrame): Bytes
    requires LengthsFit(f)
  {
    MAGIC + [SYNC_VERSION] + PutU32(|f.nonce|)
  }

  /** The layout of a frame, of any size the length fields can express. */
  function Raw(f: SyncFrame): (r: Bytes)
    requires LengthsFit(f)
    ensures |r| == TotalLength(f)
  {
    Front(f) + f.nonce + PutU32(|f.ciphertext|) + f.ciphertext
  }

  /** What the decoder reads of a frame cut off anywhere after the nonce length. */
  lemma FrontReads(f: SyncFrame, after: Bytes)
    requires LengthsFit(f)
    ensures var b := Front(f) + after;
            |Front(f)| == 9 && b[..4] == MAGIC && b[4] == SYNC_VERSION && GetU32(b, 5) == |f.nonce|
  {
    U32RoundTrip(|f.nonce|, MAGIC + [SYNC_VERSION], after);
  }

  lemma SecondLengthReads(f: SyncFrame, after: Bytes)
    requires LengthsFit(f)
    ensures var b := Front(f) + f.nonce + PutU32(|f.ciphertext|) + after;
            |b| == 13 + |f.nonce| + |after| && GetU32(b, 9 + |f.nonce|) == |f.ciphertext|
  {
    U32RoundTrip(|f.ciphertext|, Front(f) + f.nonce, after);
  }

  lemma RawReads(f: SyncFrame, rest: Bytes)
    requires LengthsFit(f)
    ensures Decode(Raw(f) + rest) == Item(Ok(f), |Raw(f)|)
  {
    var b := Raw(f) + rest;
    var n, m := |f.nonce|, |f.ciphertext|;
    var lengths := PutU32(m);
    FrontReads(f, f.nonce + lengths + f.ciphertext + rest);
    assert b == Front(f) + (f.nonce + lengths + f.ciphertext + rest);
    SecondLengthReads(f, f.ciphertext + rest);
    assert b == Front(f) + f.nonce + lengths + (f.ciphertext + rest);
    assert b[9..9 + n] == f.nonce;
    assert b[13 + n..13 + n + m] == f.ciphertext;
  }

  lemma RawPrefixWaits(f: SyncFrame, k: nat)
    requires LengthsFit(f) && k < |Raw(f)|
    ensures Decode(Raw(f)[..k]).Wait?
  {
    var frame := Raw(f);
    var n := |f.nonce|;
    var tail := f.nonce + PutU32(|f.ciphertext|) + f.ciphertext;
    assert frame == Front(f) + tail;
    if 9 <= k {
      FrontReads(f, tail[..k - 9]);
      assert frame[..k] == Front(f) + tail[..k - 9];
      if 13 + n <= k {
        SecondLengthReads(f, f.ciphertext[..k - 13 - n]);
        assert frame[..k] == Front(f) + f.nonce + PutU32(|f.ciphertext|) + f.ciphertext[..k - 13 - n];
      }
    }
  }

  lemma EncodeIsRaw(f: SyncFrame)
    requires Encode(f).Ok?
    ensures LengthsFit(f) && Encode(f).value == Raw(f)
  {
  }

  /** An encoded frame followed by anything decodes to itself and leaves exactly what follows. */
  lemma RoundTrip(f: SyncFrame, rest: Bytes)
    requires Encode(f).Ok?
    ensures var frame := Encode(f).value;
            && Decode(frame + rest) == Item(Ok(f), |frame|)
            && (frame + rest)[|frame|..] == rest
  {
    EncodeIsRaw(f);
    RawReads(f, rest);
  }

  lemma EncodeLayout(f: SyncFrame)
    requires Encode(f).Ok?
    ensures var n, b := |f.nonce|, Encode(f).value;
            && |b| == 13 + n + |f.ciphertext| && b[..5] == [0x41, 0x53, 0x54, 0x52, 1]
            && BigEndian(b[5], b[6], b[7], b[8]) == n && b[9..9 + n] == f.nonce
            && BigEndian(b[9 + n], b[10 + n], b[11 + n], b[12 + n]) == |f.ciphertext| && b[13 + n..] == f.ciphertext
  {
    var n, b := |f.nonce|, Encode(f).value;
    var lengths := PutU32(|f.ciphertext|);
    EncodeIsRaw(f);
    assert b == Front(f) + (f.nonce + lengths + f.ciphertext);
    FrontReads(f, f.nonce + lengths + f.ciphertext);
    SecondLengthReads(f, f.ciphertext);
    U32BigEndian(b, 5);
    U32BigEndian(b, 9 + n);
    assert b[..5] == MAGIC + [SYNC_VERSION];
  }

  /** The buffer starts with the magic and a version byte `v`. */
  predicate StartsFrame(b: Bytes, v: byte) {
    |b| >= 9 && b[..5] == [0x41, 0x53, 0x54, 0x52, v]
  }

  lemma StartsFrameMeans(b: Bytes)
    requires |b| >= 9
    ensures b[..4] == MAGIC <==> StartsFrame(b, b[4])
  {
    assert b[..5] == b[..4] + [b[4]];
    assert [0x41, 0x53, 0x54, 0x52, b[4]][..4] == MAGIC;
    assert b[..5][..4] == b[..4];
  }

  /** When each error is reported, and how many bytes it takes: one for a missing magic, five for a foreign version. */
  lemma ErrorsIff(b: Bytes, v: byte)
    ensures Decode(b) == Item(Err(BadMagic), 1) <==> |b| >= 9 && !StartsFrame(b, b[4])
    ensures Decode(b) == Item(Err(BadVersion(v)), 5) <==> StartsFrame(b, v) && v != 1
  {
    if |b| >= 9 {
      StartsFrameMeans(b);
    }
  }

  /** What is accepted is exactly the layout of a frame at the front of the buffer. */
  lemma DecodesIff(b: Bytes, f: SyncFrame, k: nat)
    ensures Decode(b) == Item(Ok(f), k) <==> LengthsFit(f) && Raw(f) <= b && k == |Raw(f)|
  {
    if LengthsFit(f) && Raw(f) <= b {
      RawReads(f, b[|Raw(f)|..]);
      assert b == Raw(f) + b[|Raw(f)|..];
    }
    if Decode(b) == Item(Ok(f), k) {
      AcceptedIsRaw(b, f, k);
    }
  }

  lemma AcceptedIsRaw(b: Bytes, f: SyncFrame, k: nat)
    requires Decode(b) == Item(Ok(f), k)
    ensures LengthsFit(f) && k <= |b| && Raw(f) == b[..k]
  {
    var n := GetU32(b, 5);
    U32BigEndian(b, 5);
    U32BigEndian(b, 9 + n);
    var m := GetU32(b, 9 + n);
    assert k == 13 + n + m && f == SyncFrame(b[9..9 + n], b[13 + n..k]);
    assert Front(f) == b[..9] by {
      assert b[..9] == b[..4] + [b[4]] + b[5..9];
    }
    Pieces(b, 9, 9 + n, 13 + n, k);
  }

  lemma Pieces(b: Bytes, i: nat, j: nat, l: nat, k: nat)
    requires i <= j <= l <= k <= |b|
    ensures b[..k] == b[..i] + b[i..j] + b[j..l] + b[l..k]
  {
  }

  /** The frames, one behind the other. */
  function Stream(frames: seq<SyncFrame>): Bytes
    requires forall i :: 0 <= i < |frames| ==> Encode(frames[i]).Ok?
  {
    if frames == [] then [] else Encode(frames[0]).value + Stream(frames[1..])
  }

  function AllOk(frames: seq<SyncFrame>): seq<Result<SyncFrame>> {
    if frames == [] then [] else [Ok(frames[0])] + AllOk(frames[1..])
  }

  lemma {:induction false} DrainStream(frames: seq<SyncFrame>)
    requires IsStreaming(Decoder()) && forall i :: 0 <= i < |frames| ==> Encode(frames[i]).Ok?
    ensures Drain(Decoder(), Stream(frames)) == Drained(AllOk(frames), [])
    decreases |frames|
  {
    if frames != [] {
      RoundTrip(frames[0], Stream(frames[1..]));
      DrainStream(frames[1..]);
    }
  }

  /** Frames sent one after the other, and cut anywhere on the way, arrive as sent, with nothing left over. */
  lemma StreamRoundTrip(frames: seq<SyncFrame>, chunks: seq<Bytes>)
    requires forall i :: 0 <= i < |frames| ==> Encode(frames[i]).Ok?
    requires Concat(chunks) == Stream(frames)
    ensures IsStreaming(Decoder())
    ensures DrainChunks(Decoder(), [], chunks) == Drained(AllOk(frames), [])
  {
    ChunksDoNotMatter(chunks);
    DrainStream(frames);
  }

  /** Until the last byte of a frame is there, the decoder waits and touches nothing. */
  lemma StrictPrefixWaits(f: SyncFrame, k: nat)
    requires Encode(f).Ok? && k < |Encode(f).value|
    ensures Decode(Encode(f).value[..k]).Wait?
  {
    EncodeIsRaw(f);
    RawPrefixWaits(f, k);
  }

  /**
   The decoder has no limit on lengths: a header that claims any `n` and `m`
   swallows the 13 + n + m bytes it stands for, whatever they hold, and yields
   nothing before the last of them has arrived.
   */
  lemma HeaderSwallows(nonce: Bytes, ciphertext: Bytes, k: nat, rest: Bytes)
    requires |nonce| <= U32_MAX && |ciphertext| <= U32_MAX && k < 13 + |nonce| + |ciphertext|
    ensures IsStreaming(Decoder())
    ensures var f := SyncFrame(nonce, ciphertext);
            && |Raw(f)| == 13 + |nonce| + |ciphertext|
            && Drain(Decoder(), Raw(f)[..k]) == Drained([], Raw(f)[..k])
            && Drain(Decoder(), Raw(f) + rest) == Prepend(Ok(f), Drain(Decoder(), rest))
  {
    DecoderIsStreaming();
    var f := SyncFrame(nonce, ciphertext);
    RawPrefixWaits(f, k);
    RawReads(f, rest);
    assert (Raw(f) + rest)[|Raw(f)|..] == rest;
  }

  /** So valid frames behind a damaged header are lost: the decoder takes them for a nonce. */
  lemma FramesAreSwallowed(frames: seq<SyncFrame>, rest: Bytes)
    requires forall i :: 0 <= i < |frames| ==> Encode(frames[i]).Ok?
    requires |Stream(frames)| <= U32_MAX
    ensures IsStreaming(Decoder())
    ensures var f := SyncFrame(Stream(frames), []);
            && Raw(f) == MAGIC + [SYNC_VERSION] + PutU32(|Stream(frames)|) + Stream(frames) + PutU32(0)
            && Drain(Decoder(), Raw(f) + rest) == Prepend(Ok(f), Drain(Decoder(), rest))
  {
    HeaderSwallows(Stream(frames), [], 0, rest);
  }

  /**
   Resynchronisation: garbage in which no magic starts costs exactly one error
   per byte, then the next frame and everything after it are recovered.
   */
  lemma Resync(garbage: Bytes, f: SyncFrame, rest: Bytes)
    requires Encode(f).Ok? && NoMagicIn(garbage, Encode(f).value)
    ensures IsStreaming(Decoder())
    ensures var got := Drain(Decoder(), garbage + (Encode(f).value + rest));
            var tail := Drain(Decoder(), rest);
            && got.rest == tail.rest
            && got.items == Repeat(Err(BadMagic), |garbage|) + ([Ok(f)] + tail.items)
  {
    DecoderIsStreaming();
    var d, frame := Decoder(), Encode(f).value;
    forall i: nat | i < |garbage| ensures d(garbage[i..] + (frame + rest)) == Item(Err(BadMagic), 1) {
      GarbageWindow(garbage, frame, rest, i);
    }
    DrainSkips(d, Err(BadMagic), garbage, frame + rest);
    RoundTrip(f, rest);
  }
}
