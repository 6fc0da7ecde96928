/** RPC messages over a byte stream that arrives in arbitrary pieces. */
module RpcChannel {
  import opened Basics
  import opened Bytes
  import opened Sequences
  import opened Wire

  const CHUNK: nat := 4096

  datatype Received =
    | Message(msg: RpcMessage)
    | CleanEof
    | MalformedRpc
    | FramingError
    | ClosedMidFrame

  /** The bytes of a list of reads, in order. */
  function Flat(chunks: seq<bytes>): bytes {
    if chunks == [] then [] else chunks[0] + Flat(chunks[1..])
  }

  /** What a connection can deliver: nonempty reads no larger than the caller's buffer. */
  ghost predicate Reads(chunks: seq<bytes>) {
    forall i | 0 <= i < |chunks| :: 0 < |chunks[i]| <= CHUNK
  }

  // ---- receiving, seen from the stream ----

  /** What comes first on the stream, and what is left of it. */
  datatype Next = Next(received: Received, rest: bytes)

  function Receive(stream: bytes): Next {
    match TryDecodeFrame(stream)
    case Complete(payload, consumed) =>
      var d := DecodeRpc(payload);
      Next(if d.Decoded? then Message(d.msg) else MalformedRpc, stream[consumed..])
    case Oversized => Next(FramingError, stream)
    case NeedMore => Next(if stream == [] then CleanEof else ClosedMidFrame, stream)
  }

  /** What the buffer alone decides stands, and only the buffer is used up. */
  lemma DecidedByBuffer(buffer: bytes, later: bytes)
    requires !TryDecodeFrame(buffer).NeedMore?
    ensures Receive(buffer + later) == Next(Receive(buffer).received, Receive(buffer).rest + later)
  {
    DecisionStands(buffer, later);
    if TryDecodeFrame(buffer).Complete? {
      DropOfFirst(buffer, later, TryDecodeFrame(buffer).consumed);
    }
  }

  lemma DropOfFirst(a: bytes, b: bytes, n: nat)
    requires n <= |a|
    ensures (a + b)[n..] == a[n..] + b
  {
  }

  // ---- receiving, as the channel does it ----

  class RpcChannel {
    var buffer: bytes
    var incoming: seq<bytes>   // the reads the connection has yet to deliver
    var outgoing: bytes        // what has been written to it

    ghost predicate Valid()
      reads this
    {
      Reads(incoming)
    }

    /** Everything received and not yet consumed. */
    ghost function Stream(): bytes
      reads this
    {
      buffer + Flat(incoming)
    }

    constructor (chunks: seq<bytes>)
      requires Reads(chunks)
      ensures Valid() && Stream() == Flat(chunks) && outgoing == []
    {
      buffer, incoming, outgoing := [], chunks, [];
      new;
      assert [] + Flat(chunks) == Flat(chunks);
    }

    method ReadSome() returns (chunk: bytes)
      requires Valid()
      modifies this`incoming
      ensures Valid() && |chunk| <= CHUNK
      ensures chunk == [] <==> old(incoming) == []
      ensures chunk == [] ==> incoming == old(incoming)
      ensures chunk != [] ==> |incoming| < |old(incoming)|
      ensures chunk + Flat(incoming) == Flat(old(incoming))
    {
      if incoming == [] {
        return [];
      }
      chunk := incoming[0];
      incoming := incoming[1..];
    }

    /** Whatever pieces the stream arrives in, what is received and what is left depend on the stream
        alone. */
    method Recv() returns (r: Received)
      requires Valid()
      modifies this`buffer, this`incoming
      ensures Valid()
      ensures Next(r, Stream()) == Receive(old(Stream()))
    {
      while true
        invariant Valid() && Stream() == old(Stream())
        decreases |incoming|
      {
        ghost var later := Flat(incoming);
        match TryDecodeFrame(buffer) {
          case Complete(payload, consumed) =>
            DecidedByBuffer(buffer, later);
            buffer := buffer[consumed..];
            var d := DecodeRpc(payload);
            return if d.Decoded? then Message(d.msg) else MalformedRpc;
          case Oversized =>
            DecidedByBuffer(buffer, later);
            return FramingError;
          case NeedMore =>
            var chunk := ReadSome();
            if chunk == [] {
              assert buffer + Flat(incoming) == buffer;
              return if buffer == [] then CleanEof else ClosedMidFrame;
            }
            Assoc(buffer, chunk, Flat(incoming));
            buffer := buffer + chunk;
        }
      }
    }

    /** A message beyond the frame cap is refused and nothing is written. */
    method Send(msg: RpcMessage) returns (ok: bool)
      modifies this`outgoing
      ensures ok <==> Sendable(msg)
      ensures outgoing == old(outgoing) + if ok then Frame(EncodeRpc(msg)) else []
    {
      var payload := EncodeRpcMessage(msg);
      if |payload| > MAX_FRAME_BYTES {
        return false;
      }
      var header := Le32(|payload|);
      outgoing := outgoing + (header + payload);
      return true;
    }
  }

  /** The message fits a frame. */
  predicate Sendable(msg: RpcMessage) {
    |EncodeRpc(msg)| <= MAX_FRAME_BYTES
  }

  ghost predicate AllSendable(msgs: seq<RpcMessage>) {
    forall i | 0 <= i < |msgs| :: Sendable(msgs[i])
  }

  function Framed(msg: RpcMessage): bytes
    requires Sendable(msg)
  {
    Frame(EncodeRpc(msg))
  }

  // ---- what each outcome means ----

  /** A message is received exactly when the stream starts with that message as it is sent. */
  lemma ReceivesExactly(stream: bytes, msg: RpcMessage, rest: bytes)
    ensures Receive(stream) == Next(Message(msg), rest) <==> Sendable(msg) && stream == Framed(msg) + rest
  {
    var st := TryDecodeFrame(stream);
    if Receive(stream) == Next(Message(msg), rest) {
      CompleteExactly(stream, st.payload, st.consumed);
      RpcDecodesExactly(st.payload, msg);
      SplitAt(stream, st.consumed);
    }
    if Sendable(msg) && stream == Framed(msg) + rest {
      CompleteExactly(stream, EncodeRpc(msg), |Framed(msg)|);
      RpcRoundTrip(msg);
      assert stream[|Framed(msg)|..] == rest;
    }
  }

  /** The end of the stream: clean exactly when nothing is left, and in the middle of a frame exactly when
      what is left starts one. */
  lemma EndsExactly(stream: bytes)
    ensures Receive(stream).received == CleanEof <==> stream == []
    ensures Receive(stream).received == ClosedMidFrame <==>
            stream != [] && exists payload :: |payload| <= MAX_FRAME_BYTES && stream < Frame(payload)
  {
    NeedsMoreExactly(stream);
  }

  /** The stream is in error exactly when no stream of frames starts like it. */
  lemma FramingErrorExactly(stream: bytes)
    ensures Receive(stream).received == FramingError <==>
            forall payload | |payload| <= MAX_FRAME_BYTES :: !(Frame(payload) <= stream) && !(stream < Frame(payload))
  {
    OversizedExactly(stream);
  }

  /** A message is malformed exactly when it is a frame too short for a header. */
  lemma MalformedExactly(stream: bytes)
    ensures Receive(stream).received == MalformedRpc <==>
            exists payload :: |payload| < RPC_HEADER_BYTES && Frame(payload) <= stream
  {
    var st := TryDecodeFrame(stream);
    if st.Complete? {
      CompleteExactly(stream, st.payload, st.consumed);
    }
    if payload :| |payload| < RPC_HEADER_BYTES && Frame(payload) <= stream {
      CompleteExactly(stream, payload, |Frame(payload)|);
    }
  }

  // ---- whole streams ----

  /** Successive receives until something other than a message: the messages, and how it ended. */
  datatype Transcript = Transcript(messages: seq<RpcMessage>, end: Received)

  function ReceiveAll(stream: bytes): Transcript
    decreases |stream|
  {
    var n := Receive(stream);
    if n.received.Message?
    then
      var t := ReceiveAll(n.rest);
      Transcript([n.received.msg] + t.messages, t.end)
    else Transcript([], n.received)
  }

  function Encoded(msgs: seq<RpcMessage>): bytes
    requires AllSendable(msgs)
  {
    if msgs == [] then [] else Framed(msgs[0]) + Encoded(msgs[1..])
  }

  lemma ReceivesFirst(msg: RpcMessage, more: bytes)
    requires Sendable(msg)
    ensures Receive(Framed(msg) + more) == Next(Message(msg), more)
  {
    FrameDecodes(EncodeRpc(msg), more);
    RpcRoundTrip(msg);
    var frame := Framed(msg);
    assert (frame + more)[|frame|..] == more;
  }

  lemma ReceivesFirstOfAll(msg: RpcMessage, more: bytes)
    requires Sendable(msg)
    ensures ReceiveAll(Framed(msg) + more) ==
            Transcript([msg] + ReceiveAll(more).messages, ReceiveAll(more).end)
  {
    ReceivesFirst(msg, more);
  }

  /** A stream that starts with encoded messages yields them, then whatever the rest yields. */
  lemma {:induction false} ReceivesEncoded(msgs: seq<RpcMessage>, more: bytes)
    requires AllSendable(msgs)
    ensures ReceiveAll(Encoded(msgs) + more) ==
            Transcript(msgs + ReceiveAll(more).messages, ReceiveAll(more).end)
  {
    if msgs == [] {
      assert Encoded(msgs) + more == more;
    } else {
      Assoc(Framed(msgs[0]), Encoded(msgs[1..]), more);
      ReceivesFirstOfAll(msgs[0], Encoded(msgs[1..]) + more);
      ReceivesEncoded(msgs[1..], more);
      Assoc([msgs[0]], msgs[1..], ReceiveAll(more).messages);
      assert [msgs[0]] + msgs[1..] == msgs;
    }
  }

  /** What was sent is what is received, and then the stream ends cleanly. */
  lemma StreamRoundTrip(msgs: seq<RpcMessage>)
    requires AllSendable(msgs)
    ensures ReceiveAll(Encoded(msgs)) == Transcript(msgs, CleanEof)
  {
    ReceivesEncoded(msgs, []);
    assert Encoded(msgs) + [] == Encoded(msgs) && msgs + [] == msgs;
  }

  /** A stream cut strictly inside a frame yields every earlier message, then an error. */
  lemma CutStreamIsNoticed(msgs: seq<RpcMessage>, cut: RpcMessage, k: nat)
    requires AllSendable(msgs) && Sendable(cut)
    requires 0 < k < |Framed(cut)|
    ensures ReceiveAll(Encoded(msgs) + Framed(cut)[..k]) == Transcript(msgs, ClosedMidFrame)
  {
    CutFrameNeedsMore(EncodeRpc(cut), k);
    ReceivesEncoded(msgs, Framed(cut)[..k]);
  }

  /** Every cut of an encoded stream is either between two frames or inside one. */
  lemma {:induction false} EveryCutIsPlaced(msgs: seq<RpcMessage>, k: nat)
    requires AllSendable(msgs) && k <= |Encoded(msgs)|
    ensures exists i: nat, j: nat :: i <= |msgs| && Placed(msgs, k, i, j)
  {
    if msgs == [] || k == 0 {
      assert Placed(msgs, k, 0, 0);
    } else if k < |Framed(msgs[0])| {
      CutInFirst(msgs, k);
    } else {
      var k' := k - |Framed(msgs[0])|;
      EveryCutIsPlaced(msgs[1..], k');
      var i: nat, j: nat :| i <= |msgs[1..]| && Placed(msgs[1..], k', i, j);
      PlacedBehindFirst(msgs, k', i, j);
    }
  }

  lemma CutInFirst(msgs: seq<RpcMessage>, k: nat)
    requires AllSendable(msgs) && msgs != [] && 0 < k < |Framed(msgs[0])|
    ensures k <= |Encoded(msgs)| && Placed(msgs, k, 0, k)
  {
    TakeOfFirst(Framed(msgs[0]), Encoded(msgs[1..]), k);
    assert [] + Framed(msgs[0])[..k] == Framed(msgs[0])[..k];
  }

  lemma PlacedBehindFirst(msgs: seq<RpcMessage>, k: nat, i: nat, j: nat)
    requires AllSendable(msgs) && msgs != [] && k <= |Encoded(msgs[1..])| && i < |msgs|
    requires Placed(msgs[1..], k, i, j)
    ensures Placed(msgs, |Framed(msgs[0])| + k, i + 1, j)
  {
    var frame := Framed(msgs[0]);
    var earlier := msgs[1..][..i];
    assert msgs[..i + 1][1..] == earlier;
    assert (frame + Encoded(msgs[1..]))[..|frame| + k] == frame + Encoded(msgs[1..])[..k];
    if j != 0 {
      Assoc(frame, Encoded(earlier), Framed(msgs[i + 1])[..j]);
    }
  }

  /** Cutting after `k` bytes leaves `i` whole messages and `j` bytes of the next one. */
  ghost predicate Placed(msgs: seq<RpcMessage>, k: nat, i: nat, j: nat)
    requires AllSendable(msgs) && k <= |Encoded(msgs)| && i <= |msgs|
  {
    if j == 0 then Encoded(msgs)[..k] == Encoded(msgs[..i])
    else i < |msgs| && j < |Framed(msgs[i])| &&
         Encoded(msgs)[..k] == Encoded(msgs[..i]) + Framed(msgs[i])[..j]
  }

  /** For every cut of every encoded stream: the messages wholly before the cut arrive, and the end
      is clean if and only if the cut falls between two frames. */
  lemma CutAnywhere(msgs: seq<RpcMessage>, k: nat)
    requires AllSendable(msgs) && k <= |Encoded(msgs)|
    ensures exists i: nat, j: nat :: i <= |msgs| && Placed(msgs, k, i, j) &&
              ReceiveAll(Encoded(msgs)[..k]) ==
              Transcript(msgs[..i], if j == 0 then CleanEof else ClosedMidFrame)
  {
    EveryCutIsPlaced(msgs, k);
    var i: nat, j: nat :| i <= |msgs| && Placed(msgs, k, i, j);
    if j == 0 {
      StreamRoundTrip(msgs[..i]);
    } else {
      CutStreamIsNoticed(msgs[..i], msgs[i], j);
    }
  }

  /** Draining a channel: however the encoded stream was split into reads, the messages come out
      whole, in order, and are followed by a clean end. */
  method DrainChannel(ch: RpcChannel, ghost msgs: seq<RpcMessage>) returns (out: seq<RpcMessage>, end: Received)
    requires ch.Valid()
    requires AllSendable(msgs) && ch.Stream() == Encoded(msgs)
    modifies ch`buffer, ch`incoming
    ensures out == msgs && end == CleanEof
  {
    StreamRoundTrip(msgs);
    out := [];
    ghost var before := ch.Stream();
    var r := ch.Recv();
    while r.Message?
      invariant ch.Valid() && Next(r, ch.Stream()) == Receive(before)
      invariant out + ReceiveAll(before).messages == msgs && ReceiveAll(before).end == CleanEof
      decreases |ch.Stream()|, if r.Message? then 1 else 0
    {
      Assoc(out, [r.msg], ReceiveAll(ch.Stream()).messages);
      out := out + [r.msg];
      before := ch.Stream();
      r := ch.Recv();
    }
    end := r;
    assert out + [] == out;
  }
}
