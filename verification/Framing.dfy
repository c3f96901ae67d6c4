/** The incremental frame splitter of the session stream
    (crates/dlep-net/src/framed.rs, crates/dlep-daemon/src/session.rs:577-591).
 */
module Framing {
  import opened Types
  import opened Wire
  import opened Codec
  import opened Buffers

  /** The buffer starts with a whole frame. */
  predicate HasFrame(buf: Bytes) { |buf| >= 4 && |buf| >= 4 + Declared(buf) }

  /** `MessageCodec::decode`: None waits for more; an error still consumes its frame. */
  method Decode(src: ByteBuffer) returns (r: Result<Option<Message>>)
    modifies src
    ensures !HasFrame(old(src.bytes)) ==> r == Ok(None) && src.bytes == old(src.bytes)
    ensures HasFrame(old(src.bytes)) ==>
              var total := 4 + Declared(old(src.bytes));
              && src.bytes == old(src.bytes)[total..]
              && r == Lift(DecodeMessage(old(src.bytes)[..total]))
  {
    if |src.bytes| < 4 { return Ok(None); }
    var declared: nat := GetU16(src.bytes[2..4]);
    var total := 4 + declared;
    if |src.bytes| < total { return Ok(None); }
    hide Get;
    var frame := src.SplitTo(total);
    r := Lift(DecodeMessage(frame));
  }

  function Lift(r: Result<Message>): Result<Option<Message>> {
    if r.Err? then Err(r.error) else Ok(Some(r.value))
  }

  datatype Drained = Drained(out: seq<Result<Message>>, rest: Bytes)

  /** Call the decoder until it waits. */
  function Drain(buf: Bytes): Drained
    decreases |buf|
  {
    if !HasFrame(buf) then Drained([], buf) else
      var total := 4 + Declared(buf);
      var later := Drain(buf[total..]);
      Drained([DecodeMessage(buf[..total])] + later.out, later.rest)
  }

  /** A read appends a chunk; then the decoder is drained. */
  function Feed(state: Drained, chunk: Bytes): Drained {
    var d := Drain(state.rest + chunk);
    Drained(state.out + d.out, d.rest)
  }

  function FeedAll(chunks: seq<Bytes>): Drained {
    if |chunks| == 0 then Drained([], []) else Feed(FeedAll(chunks[..|chunks| - 1]), chunks[|chunks| - 1])
  }

  function Joined(chunks: seq<Bytes>): Bytes {
    if |chunks| == 0 then [] else Joined(chunks[..|chunks| - 1]) + chunks[|chunks| - 1]
  }

  /** The loop around the decoder computes `Drain`. */
  method DrainBuffer(src: ByteBuffer) returns (out: seq<Result<Message>>)
    modifies src
    ensures Drained(out, src.bytes) == Drain(old(src.bytes))
  {
    out := [];
    ghost var all := Drain(src.bytes);
    assert [] + all.out == all.out;
    hide DecodeMessage, Declared;
    while HasFrame(src.bytes)
      invariant all == Drained(out + Drain(src.bytes).out, Drain(src.bytes).rest)
      decreases |src.bytes|
    {
      ghost var before := src.bytes;
      ghost var later := Drain(before).out;
      var r := Decode(src);
      var next := if r.Err? then Err(r.error) else Ok(r.value.value);
      assert later == [next] + Drain(src.bytes).out;
      assert out + later == (out + [next]) + Drain(src.bytes).out;
      out := out + [next];
    }
    assert out + [] == out;
  }

  lemma FrameStays(a: Bytes, b: Bytes)
    requires HasFrame(a)
    ensures HasFrame(a + b) && Declared(a + b) == Declared(a)
    ensures var total := 4 + Declared(a); (a + b)[..total] == a[..total] && (a + b)[total..] == a[total..] + b
  {
    assert (a + b)[2..4] == a[2..4];
  }

  /** More octets never change what was already delivered. */
  lemma {:induction false} DrainSplit(a: Bytes, b: Bytes)
    ensures Drain(a + b) == Drained(Drain(a).out + Drain(Drain(a).rest + b).out, Drain(Drain(a).rest + b).rest)
    decreases |a|
  {
    hide DecodeMessage, Declared;
    if HasFrame(a) {
      var total := 4 + Declared(a);
      FrameStays(a, b);
      DrainSplit(a[total..], b);
      var head, mid, tail := [DecodeMessage(a[..total])], Drain(a[total..]).out, Drain(Drain(a).rest + b).out;
      assert head + (mid + tail) == (head + mid) + tail;
    } else {
      assert [] + Drain(a + b).out == Drain(a + b).out;
    }
  }

  /** However a stream is cut into reads, the outcome is that of reading it at once. */
  lemma {:induction false} ChunkingIndependent(chunks: seq<Bytes>)
    ensures FeedAll(chunks) == Drain(Joined(chunks))
  {
    hide HasFrame, Drain;
    if |chunks| == 0 {
      NothingToDrain();
    } else {
      var front, last := chunks[..|chunks| - 1], chunks[|chunks| - 1];
      ChunkingIndependent(front);
      DrainSplit(Joined(front), last);
    }
  }

  lemma NothingToDrain()
    ensures Drain([]) == Drained([], [])
  {
  }

  function Stream(msgs: seq<Message>): Bytes
    requires forall i :: 0 <= i < |msgs| ==> MessageEncodable(msgs[i])
  {
    if |msgs| == 0 then [] else EncodeMessage(msgs[0]).value + Stream(msgs[1..])
  }

  function Delivered(msgs: seq<Message>): (r: seq<Result<Message>>)
    ensures |r| == |msgs|
  {
    seq(|msgs|, i requires 0 <= i < |msgs| => Ok(NormalMessage(msgs[i])))
  }

  ghost predicate Sendable(msgs: seq<Message>) {
    forall i :: 0 <= i < |msgs| ==> MessageEncodable(msgs[i]) && AllTyped(msgs[i].items)
  }

  lemma FrameOf(msg: Message, rest: Bytes)
    requires MessageEncodable(msg)
    ensures var f := EncodeMessage(msg).value;
            && HasFrame(f + rest) && 4 + Declared(f + rest) == |f|
            && (f + rest)[..|f|] == f && (f + rest)[|f|..] == rest
  {
    hide Put, Get, Body, Encodable;
    var f := EncodeMessage(msg).value;
    HeaderBack(msg.messageType, Body(msg.items), rest);
    assert f + rest == Put(msg.messageType, 2) + Put(|Body(msg.items)|, 2) + Body(msg.items) + rest;
  }

  /** A stream of messages drains to exactly those messages, in wire form. */
  lemma {:induction false} StreamDrains(msgs: seq<Message>)
    requires Sendable(msgs)
    ensures Drain(Stream(msgs)) == Drained(Delivered(msgs), [])
  {
    hide MessageEncodable, AllTyped, EncodeMessage, DecodeMessage, NormalMessage, Declared, HasFrame;
    if |msgs| == 0 {
      NothingToDrain();
    } else {
      var f, rest := EncodeMessage(msgs[0]).value, Stream(msgs[1..]);
      FrameOf(msgs[0], rest);
      StreamDrains(msgs[1..]);
      assert DecodeMessage(f) == Ok(NormalMessage(msgs[0])) by {
        MessageRoundTrip(msgs[0], []);
        assert f + [] == f;
      }
      assert Delivered(msgs) == [Ok(NormalMessage(msgs[0]))] + Delivered(msgs[1..]);
    }
  }

  /** Every list of messages survives every way of cutting its octets into reads. */
  lemma StreamSurvivesChunking(msgs: seq<Message>, chunks: seq<Bytes>)
    requires Sendable(msgs) && Joined(chunks) == Stream(msgs)
    ensures FeedAll(chunks) == Drained(Delivered(msgs), [])
  {
    ChunkingIndependent(chunks);
    StreamDrains(msgs);
  }

  /** A malformed body costs its own frame only; what follows stays aligned. */
  lemma BadFrameConsumed(kind: u16, body: Bytes, msgs: seq<Message>)
    requires |body| < 0x1_0000 && Sendable(msgs) && DecodeBody(body).Err?
    ensures Drain(Put(kind, 2) + Put(|body|, 2) + body + Stream(msgs))
         == Drained([Err(DecodeBody(body).error)] + Delivered(msgs), [])
  {
    var rest := Stream(msgs);
    var f := Put(kind, 2) + Put(|body|, 2) + body;
    HeaderBack(kind, body, rest);
    HeaderBack(kind, body, []);
    assert f + [] == f;
    StreamDrains(msgs);
    hide Put, Get, DecodeBody, Delivered, Stream, Sendable;
    assert (f + rest)[..|f|] == f && (f + rest)[|f|..] == rest;
    assert DecodeMessage(f) == Err(DecodeBody(body).error);
  }
}
