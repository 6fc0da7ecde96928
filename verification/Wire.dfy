/** The length-prefixed frame envelope and the binary RPC header inside it. */
module Wire {
  import opened Basics
  import opened Bytes

  const MAX_FRAME_BYTES: nat := 16 * 1024 * 1024
  const RPC_HEADER_BYTES: nat := 12

  // ---- little-endian words ----

  function LoadLe32(p: bytes): u32
    requires |p| >= 4
  {
    p[0] as int + 0x100 * (p[1] as int) + 0x1_0000 * (p[2] as int) + 0x100_0000 * (p[3] as int)
  }

  function Le32(value: u32): (p: bytes)
    ensures |p| == 4
  {
    [value % 0x100, value / 0x100 % 0x100, value / 0x1_0000 % 0x100, value / 0x100_0000]
  }

  lemma Le32RoundTrip(value: u32)
    ensures LoadLe32(Le32(value)) == value
  {
    var hi := value / 0x1_0000;
    assert value == value % 0x1_0000 + 0x1_0000 * hi;
    assert value % 0x1_0000 == value % 0x100 + 0x100 * (value / 0x100 % 0x100);
    assert hi == hi % 0x100 + 0x100 * (value / 0x100_0000);
  }

  /** The other way round. */
  lemma Le32OfLoaded(p: bytes)
    requires |p| >= 4
    ensures Le32(LoadLe32(p)) == p[..4]
  {
    var low, high := p[0] as int + 0x100 * (p[1] as int), p[2] as int + 0x100 * (p[3] as int);
    var value := LoadLe32(p);
    assert value == low + 0x1_0000 * high;
    assert value / 0x100 == p[1] as int + 0x100 * high && value / 0x1_0000 == high;
    assert value / 0x100_0000 == high / 0x100 == p[3];
  }

  /** A number by its bytes, the least significant first. */
  function LowFirst(p: bytes): nat {
    if p == [] then 0 else p[0] + 0x100 * LowFirst(p[1..])
  }

  lemma LowFirstOf(p: bytes)
    requires p != []
    ensures LowFirst(p) == p[0] + 0x100 * LowFirst(p[1..])
  {
  }

  /** Words are little-endian. */
  lemma WordsAreLowFirst(p: bytes)
    requires |p| >= 4
    ensures LoadLe32(p) == LowFirst(p[..4])
  {
    assert p[..4][1..] == p[1..4] && p[1..4][1..] == p[2..4] && p[2..4][1..] == p[3..4] && p[3..4][1..] == [];
    LowFirstOf(p[..4]);
    LowFirstOf(p[1..4]);
    LowFirstOf(p[2..4]);
    LowFirstOf(p[3..4]);
  }

  method StoreLe32(value: u32, p: array<byte>, at: nat)
    requires at + 4 <= p.Length
    modifies p
    ensures p[..] == old(p[..at]) + Le32(value) + old(p[at + 4..])
  {
    p[at] := value % 0x100;
    p[at + 1] := value / 0x100 % 0x100;
    p[at + 2] := value / 0x1_0000 % 0x100;
    p[at + 3] := value / 0x100_0000 % 0x100;
  }

  // ---- frames ----

  datatype FrameStatus =
    | Complete(payload: bytes, consumed: nat)
    | NeedMore
    | Oversized

  function Frame(payload: bytes): bytes
    requires |payload| <= MAX_FRAME_BYTES
  {
    Le32(|payload|) + payload
  }

  function TryDecodeFrame(buffer: bytes): (st: FrameStatus)
    ensures st.Complete? ==> 4 <= st.consumed <= |buffer|
  {
    if |buffer| < 4 then NeedMore
    else
      var len := LoadLe32(buffer);
      if len > MAX_FRAME_BYTES then Oversized
      else if |buffer| - 4 < len then NeedMore
      else Complete(buffer[4..4 + len], 4 + len)
  }

  /** A decision taken on a prefix of the stream stands however the stream goes on. */
  lemma DecisionStands(buffer: bytes, more: bytes)
    requires !TryDecodeFrame(buffer).NeedMore?
    ensures TryDecodeFrame(buffer + more) == TryDecodeFrame(buffer)
  {
    var len := LoadLe32(buffer);
    assert LoadLe32(buffer + more) == len;
    if len <= MAX_FRAME_BYTES {
      assert (buffer + more)[4..4 + len] == buffer[4..4 + len];
    }
  }

  /** A frame decodes to its payload, and no proper prefix of it decodes to anything. */
  lemma FrameDecodes(payload: bytes, more: bytes)
    requires |payload| <= MAX_FRAME_BYTES
    ensures TryDecodeFrame(Frame(payload) + more) == Complete(payload, |Frame(payload)|)
  {
    var buffer := Frame(payload) + more;
    assert buffer[..4] == Le32(|payload|);
    assert LoadLe32(buffer) == LoadLe32(Le32(|payload|));
    Le32RoundTrip(|payload|);
    assert buffer[4..4 + |payload|] == payload;
  }

  lemma CutFrameNeedsMore(payload: bytes, k: nat)
    requires |payload| <= MAX_FRAME_BYTES && k < |Frame(payload)|
    ensures TryDecodeFrame(Frame(payload)[..k]) == NeedMore
  {
    var buffer := Frame(payload)[..k];
    if k >= 4 {
      assert buffer[..4] == Le32(|payload|);
      assert LoadLe32(buffer) == LoadLe32(Le32(|payload|));
      Le32RoundTrip(|payload|);
    }
  }

  /** What decodes is a frame at the front, and only that. */
  lemma CompleteExactly(buffer: bytes, payload: bytes, consumed: nat)
    ensures TryDecodeFrame(buffer) == Complete(payload, consumed) <==>
            |payload| <= MAX_FRAME_BYTES && consumed == |Frame(payload)| && Frame(payload) <= buffer
  {
    if TryDecodeFrame(buffer) == Complete(payload, consumed) {
      Le32OfLoaded(buffer);
      assert buffer[..consumed] == buffer[..4] + payload;
    }
    if |payload| <= MAX_FRAME_BYTES && consumed == |Frame(payload)| && Frame(payload) <= buffer {
      assert buffer == Frame(payload) + buffer[consumed..];
      FrameDecodes(payload, buffer[consumed..]);
    }
  }

  function Zeros(n: nat): (s: bytes)
    ensures |s| == n
  {
    seq(n, _ => 0)
  }

  /** The rest of a frame that starts like this: there always is one while its length is open or within
      the cap. */
  lemma CanBeCompleted(buffer: bytes) returns (payload: bytes)
    requires TryDecodeFrame(buffer) == NeedMore
    ensures |payload| <= MAX_FRAME_BYTES && buffer < Frame(payload)
  {
    if |buffer| < 4 {
      var head := buffer + Zeros(4 - |buffer|);
      Le32OfLoaded(head);
      assert head[..4] == head && head[3] == 0;
      payload := Zeros(LoadLe32(head));
      assert Frame(payload)[..|buffer|] == buffer;
    } else {
      var len := LoadLe32(buffer);
      payload := buffer[4..] + Zeros(len - (|buffer| - 4));
      Le32OfLoaded(buffer);
      assert Frame(payload)[..|buffer|] == buffer[..4] + buffer[4..] == buffer;
    }
  }

  /** More is asked for exactly when what is there is the start of a frame, and not all of it. */
  lemma NeedsMoreExactly(buffer: bytes)
    ensures TryDecodeFrame(buffer) == NeedMore <==>
            exists payload :: |payload| <= MAX_FRAME_BYTES && buffer < Frame(payload)
  {
    if TryDecodeFrame(buffer) == NeedMore {
      var payload := CanBeCompleted(buffer);
    }
    if payload :| |payload| <= MAX_FRAME_BYTES && buffer < Frame(payload) {
      CutFrameNeedsMore(payload, |buffer|);
      assert Frame(payload)[..|buffer|] == buffer;
    }
  }

  /** A buffer is refused exactly when no stream of frames starts like it. */
  lemma OversizedExactly(buffer: bytes)
    ensures TryDecodeFrame(buffer) == Oversized <==>
            forall payload | |payload| <= MAX_FRAME_BYTES :: !(Frame(payload) <= buffer) && !(buffer < Frame(payload))
  {
    NeedsMoreExactly(buffer);
    var st := TryDecodeFrame(buffer);
    if st.Complete? {
      CompleteExactly(buffer, st.payload, st.consumed);
    }
    forall payload | |payload| <= MAX_FRAME_BYTES && Frame(payload) <= buffer
      ensures TryDecodeFrame(buffer).Complete?
    {
      CompleteExactly(buffer, payload, |Frame(payload)|);
    }
  }

  // ---- RPC messages ----

  datatype RpcMessage = RpcMessage(op: u32, requestId: u32, status: u32, body: bytes)

  function EncodeRpc(msg: RpcMessage): bytes {
    Le32(msg.op) + Le32(msg.requestId) + Le32(msg.status) + msg.body
  }

  datatype Decoded = Decoded(msg: RpcMessage) | TooShort

  function DecodeRpc(payload: bytes): Decoded {
    if |payload| < RPC_HEADER_BYTES then TooShort
    else Decoded(RpcMessage(LoadLe32(payload), LoadLe32(payload[4..]), LoadLe32(payload[8..]),
                            payload[RPC_HEADER_BYTES..]))
  }

  lemma RpcRoundTrip(msg: RpcMessage)
    ensures DecodeRpc(EncodeRpc(msg)) == Decoded(msg)
  {
    var payload := EncodeRpc(msg);
    assert payload[..4] == Le32(msg.op);
    assert payload[4..][..4] == Le32(msg.requestId);
    assert payload[8..][..4] == Le32(msg.status);
    assert payload[RPC_HEADER_BYTES..] == msg.body;
    Le32RoundTrip(msg.op);
    Le32RoundTrip(msg.requestId);
    Le32RoundTrip(msg.status);
  }

  /** The header: three little-endian words, then the body. */
  lemma HeaderIsLaidOut(msg: RpcMessage)
    ensures var p := EncodeRpc(msg);
            && |p| == RPC_HEADER_BYTES + |msg.body| && LowFirst(p[..4]) == msg.op
            && LowFirst(p[4..8]) == msg.requestId && LowFirst(p[8..12]) == msg.status && p[12..] == msg.body
  {
    var p := EncodeRpc(msg);
    assert p[..4] == Le32(msg.op) && p[4..8] == Le32(msg.requestId) && p[8..12] == Le32(msg.status);
    WordIs(msg.op);
    WordIs(msg.requestId);
    WordIs(msg.status);
  }

  lemma WordIs(value: u32)
    ensures LowFirst(Le32(value)) == value
  {
    Le32RoundTrip(value);
    WordsAreLowFirst(Le32(value));
    assert Le32(value)[..4] == Le32(value);
  }

  /** A payload decodes to a message exactly when it is that message's encoding. */
  lemma RpcDecodesExactly(payload: bytes, msg: RpcMessage)
    ensures DecodeRpc(payload) == Decoded(msg) <==> payload == EncodeRpc(msg)
  {
    RpcRoundTrip(msg);
    if DecodeRpc(payload) == Decoded(msg) {
      Le32OfLoaded(payload);
      Le32OfLoaded(payload[4..]);
      Le32OfLoaded(payload[8..]);
      assert payload == payload[..4] + payload[4..][..4] + payload[8..][..4] + payload[12..];
    }
  }

  /** The header is stored in place, then the body appended. */
  method EncodeRpcMessage(msg: RpcMessage) returns (out: bytes)
    ensures out == EncodeRpc(msg)
  {
    var p := new byte[RPC_HEADER_BYTES](_ => 0);
    StoreLe32(msg.op, p, 0);
    StoreLe32(msg.requestId, p, 4);
    StoreLe32(msg.status, p, 8);
    assert p[..] == Le32(msg.op) + Le32(msg.requestId) + Le32(msg.status);
    out := p[..] + msg.body;
  }
}
