/**
 Incremental decoding of a byte stream, for any decoder that looks at the front
 of a buffer and either waits for more bytes or yields an item and consumes some.
 */
module Streaming {
  type byte = x: int | 0 <= x < 256

  type Bytes = seq<byte>

  /** `None`, or `Some(item)` after advancing the buffer by `consumed`. */
  datatype Outcome<+R> = Wait | Item(item: R, consumed: nat)

  /** Each item consumes at least one byte of the buffer, and appending bytes never changes it. */
  ghost predicate IsStreaming<R(!new)>(d: Bytes -> Outcome<R>) {
    && (forall b: Bytes :: d(b).Item? ==> 1 <= d(b).consumed <= |b|)
    && (forall b: Bytes, more: Bytes {:trigger Unmoved(d, b, more)} :: Unmoved(d, b, more))
  }

  ghost predicate Unmoved<R>(d: Bytes -> Outcome<R>, b: Bytes, more: Bytes) {
    d(b).Item? ==> d(b + more) == d(b)
  }

  datatype Drained<R> = Drained(items: seq<R>, rest: Bytes)

  /** Decode until the decoder waits: the items, and the bytes left in the buffer. */
  ghost function Drain<R(!new)>(d: Bytes -> Outcome<R>, b: Bytes): Drained<R>
    requires IsStreaming(d)
    decreases |b|
  {
    match d(b)
    case Wait => Drained([], b)
    case Item(r, n) =>
      var t := Drain(d, b[n..]);
      Drained([r] + t.items, t.rest)
  }

  /** Chunks arrive one after the other, and the buffer is drained after each. */
  ghost function DrainChunks<R(!new)>(d: Bytes -> Outcome<R>, buffer: Bytes, chunks: seq<Bytes>): Drained<R>
    requires IsStreaming(d)
    decreases |chunks|
  {
    if chunks == [] then Drain(d, buffer)
    else
      var now := Drain(d, buffer + chunks[0]);
      var later := DrainChunks(d, now.rest, chunks[1..]);
      Drained(now.items + later.items, later.rest)
  }

  function Concat(chunks: seq<Bytes>): Bytes {
    if chunks == [] then [] else chunks[0] + Concat(chunks[1..])
  }

  /** A first item stays the first item when bytes are appended. */
  lemma DrainItem<R(!new)>(d: Bytes -> Outcome<R>, b: Bytes, more: Bytes)
    requires IsStreaming(d) && d(b).Item?
    ensures var n := d(b).consumed;
            n <= |b| && Drain(d, b + more) == Prepend(d(b).item, Drain(d, b[n..] + more))
  {
    assert Unmoved(d, b, more);
    assert (b + more)[d(b).consumed..] == b[d(b).consumed..] + more;
  }

  ghost function Prepend<R>(r: R, t: Drained<R>): Drained<R> {
    Drained([r] + t.items, t.rest)
  }

  /** First `now`, then whatever its rest followed by `more` still yields. */
  ghost function Resume<R(!new)>(d: Bytes -> Outcome<R>, now: Drained<R>, more: Bytes): Drained<R>
    requires IsStreaming(d)
  {
    var later := Drain(d, now.rest + more);
    Drained(now.items + later.items, later.rest)
  }

  lemma ResumePrepend<R(!new)>(d: Bytes -> Outcome<R>, r: R, t: Drained<R>, more: Bytes)
    requires IsStreaming(d)
    ensures Resume(d, Prepend(r, t), more) == Prepend(r, Resume(d, t, more))
  {
    var later := Drain(d, t.rest + more).items;
    assert [r] + t.items + later == [r] + (t.items + later);
  }

  /** Draining, then appending and draining again, is draining everything at once. */
  lemma {:induction false} DrainAppend<R(!new)>(d: Bytes -> Outcome<R>, b: Bytes, more: Bytes)
    requires IsStreaming(d)
    ensures Drain(d, b + more) == Resume(d, Drain(d, b), more)
    decreases |b|
  {
    if d(b).Wait? {
      assert [] + Drain(d, b + more).items == Drain(d, b + more).items;
    } else {
      var tail := b[d(b).consumed..];
      DrainItem(d, b, more);
      DrainAppend(d, tail, more);
      ResumePrepend(d, d(b).item, Drain(d, tail), more);
    }
  }

  /** What draining leaves behind is not yet a whole item. */
  lemma {:induction false} DrainLeavesPartial<R(!new)>(d: Bytes -> Outcome<R>, b: Bytes)
    requires IsStreaming(d)
    ensures d(Drain(d, b).rest).Wait?
    decreases |b|
  {
    if d(b).Item? {
      DrainLeavesPartial(d, b[d(b).consumed..]);
    }
  }

  lemma ChunkThenRest<R(!new)>(d: Bytes -> Outcome<R>, buffer: Bytes, chunk: Bytes, rest: Bytes)
    requires IsStreaming(d)
    ensures Drain(d, buffer + (chunk + rest)) == Resume(d, Drain(d, buffer + chunk), rest)
  {
    DrainAppend(d, buffer + chunk, rest);
    assert buffer + (chunk + rest) == buffer + chunk + rest;
  }

  /** Chunk invariance: however a stream is cut, the items and the leftover bytes are those of the whole. */
  lemma {:induction false} ChunkInvariance<R(!new)>(d: Bytes -> Outcome<R>, buffer: Bytes, chunks: seq<Bytes>)
    requires IsStreaming(d)
    ensures DrainChunks(d, buffer, chunks) == Drain(d, buffer + Concat(chunks))
    decreases |chunks|
  {
    if chunks == [] {
      assert buffer + [] == buffer;
    } else {
      ChunkInvariance(d, Drain(d, buffer + chunks[0]).rest, chunks[1..]);
      ChunkThenRest(d, buffer, chunks[0], Concat(chunks[1..]));
    }
  }

  function Repeat<R>(x: R, n: nat): (r: seq<R>)
    ensures |r| == n && forall y :: y in r ==> y == x
  {
    if n == 0 then [] else [x] + Repeat(x, n - 1)
  }

  /** If at each byte of `skipped` the decoder yields `e` and moves one byte on, draining yields that many and then the rest. */
  lemma {:induction false} DrainSkips<R(!new)>(d: Bytes -> Outcome<R>, e: R, skipped: Bytes, after: Bytes)
    requires IsStreaming(d)
    requires forall i: nat :: i < |skipped| ==> d(skipped[i..] + after) == Item(e, 1)
    ensures Drain(d, skipped + after) == Drained(Repeat(e, |skipped|) + Drain(d, after).items, Drain(d, after).rest)
    decreases |skipped|
  {
    if skipped == [] {
      assert skipped + after == after;
      assert Repeat(e, 0) + Drain(d, after).items == Drain(d, after).items;
    } else {
      var s := skipped[1..];
      assert skipped[0..] == skipped;
      assert d(skipped + after) == Item(e, 1);
      assert (skipped + after)[1..] == s + after;
      forall i: nat | i < |s| ensures d(s[i..] + after) == Item(e, 1) {
        assert s[i..] == skipped[i + 1..];
      }
      DrainSkips(d, e, s, after);
      RepeatMore(e, |s|, Drain(d, after).items);
    }
  }

  lemma RepeatMore<R>(e: R, n: nat, items: seq<R>)
    ensures [e] + (Repeat(e, n) + items) == Repeat(e, n + 1) + items
  {
    assert Repeat(e, n + 1) == [e] + Repeat(e, n);
  }

  // ----- big-endian words

  function PutU32(n: nat): Bytes
    requires n < 0x1_0000_0000
  {
    [n / 0x100_0000, n / 0x1_0000 % 0x100, n / 0x100 % 0x100, n % 0x100]
  }

  function GetU32(b: Bytes, at: nat): nat
    requires at + 4 <= |b|
  {
    (((b[at] as int) * 0x100 + b[at + 1]) * 0x100 + b[at + 2]) * 0x100 + b[at + 3]
  }

  lemma U32RoundTrip(n: nat, before: Bytes, after: Bytes)
    requires n < 0x1_0000_0000
    ensures GetU32(before + PutU32(n) + after, |before|) == n
  {
    var b := before + PutU32(n) + after;
    assert b[|before|..|before| + 4] == PutU32(n);
    var x := |before|;
    assert b[x] == PutU32(n)[0] && b[x + 1] == PutU32(n)[1] && b[x + 2] == PutU32(n)[2] && b[x + 3] == PutU32(n)[3];
    var q := n / 0x100;
    assert n == q * 0x100 + n % 0x100;
    assert n / 0x1_0000 == q / 0x100 && n / 0x100_0000 == q / 0x1_0000;
    assert q == (q / 0x100) * 0x100 + q % 0x100;
    assert q / 0x1_0000 == (q / 0x100) / 0x100;
  }

  /** The number four bytes spell, most significant first. */
  function BigEndian(a: byte, b: byte, c: byte, d: byte): nat {
    a * 0x100_0000 + b * 0x1_0000 + c * 0x100 + d
  }

  /** Lengths are big-endian, and every four bytes are the spelling of one. */
  lemma U32BigEndian(b: Bytes, at: nat)
    requires at + 4 <= |b|
    ensures GetU32(b, at) == BigEndian(b[at], b[at + 1], b[at + 2], b[at + 3]) < 0x1_0000_0000
    ensures PutU32(GetU32(b, at)) == b[at..at + 4]
  {
    var n := GetU32(b, at);
    var w, x, y, z := b[at], b[at + 1], b[at + 2], b[at + 3];
    var hi := (w as int) * 0x100 + x;
    var mid := hi * 0x100 + y;
    assert n == mid * 0x100 + z;
    assert n / 0x100 == mid && n % 0x100 == z;
    assert mid / 0x100 == hi && mid % 0x100 == y;
    assert hi / 0x100 == w && hi % 0x100 == x;
    assert n / 0x1_0000 == hi && n / 0x100_0000 == w;
  }

  /** The caller's `BytesMut`. */
  class Buffer {
    var data: Bytes

    constructor (data: Bytes)
      ensures this.data == data
    {
      this.data := data;
    }

    method Advance(n: nat)
      requires n <= |data|
      modifies this
      ensures data == old(data)[n..]
    {
      data := data[n..];
    }
  }

  const MAGIC: Bytes := [0x41, 0x53, 0x54, 0x52]

  /** No position of `garbage`, read on into `after`, shows the magic bytes. */
  ghost predicate NoMagicIn(garbage: Bytes, after: Bytes) {
    forall i: nat :: i < |garbage| ==> !MagicAt(garbage + after, i)
  }

  /** Then each byte of the garbage starts a window of four that is not the magic. */
  lemma GarbageWindow(garbage: Bytes, after: Bytes, rest: Bytes, i: nat)
    requires NoMagicIn(garbage, after) && i < |garbage| && |after| >= 4
    ensures (garbage[i..] + (after + rest))[..4] != MAGIC
  {
    assert !MagicAt(garbage + after, i);
    assert (garbage[i..] + (after + rest))[..4] == (garbage + after)[i..i + 4];
  }

  predicate MagicAt(b: Bytes, i: nat) {
    i + 4 <= |b| && b[i..i + 4] == MAGIC
  }
}
