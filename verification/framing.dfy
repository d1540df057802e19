/** Stream framing of the TCP convergence layer (src/cla/tcp/server.rs and
    `send_bundle` in src/cla/tcp/client.rs).

    A frame is the bundle's encoding preceded by its length as a big-endian
    32-bit number. The receiving side is modelled as a function of everything
    the peer sends on one connection, returning the bundles handed to the
    receive callback and the replies written back, in order. */
module Framing {
  import opened Wrappers
  import opened Numeric
  import opened Text
  import opened Bpv7
  import opened Codec

  /** Bytes of the length prefix. */
  const LENGTH_PREFIX: nat := 4
  /** Size of the buffer the sender reads the acknowledgement into. */
  const ACK_BUFFER_SIZE: nat := 16

  datatype Reply = OkReply | ErrorReply

  /** What one connection did: the bundles passed to the callback, the
      replies written, and the result `handle_connection` returns. */
  datatype Session = Session(delivered: seq<Bundle>, replies: seq<Reply>, outcome: Result<(), string>)

  /** `b"OK"` and `b"ERROR"`. */
  function ReplyBytes(r: Reply): (b: Bytes)
    ensures |b| > 0
  {
    match r
    case OkReply => [0x4F, 0x4B]
    case ErrorReply => [0x45, 0x52, 0x52, 0x4F, 0x52]
  }

  /** Everything written back on the connection. */
  function WrittenBack(replies: seq<Reply>): Bytes {
    if |replies| == 0 then [] else ReplyBytes(replies[0]) + WrittenBack(replies[1..])
  }

  function CountOk(replies: seq<Reply>): nat {
    if |replies| == 0 then 0 else (if replies[0] == OkReply then 1 else 0) + CountOk(replies[1..])
  }

  /** A frame around `data`: its length, cut to 32 bits as `len() as u32`
      does, then the data. */
  function RawFrame(data: Bytes): (f: Bytes)
    ensures |f| == LENGTH_PREFIX + |data| && f[LENGTH_PREFIX..] == data
  {
    ToBe32(TruncateToU32(|data|)) + data
  }

  /** The bytes `send_bundle` writes for a bundle. */
  function Frame(b: Bundle): Bytes {
    RawFrame(Encode(b))
  }

  /** `handle_connection` on the complete input of one connection. The loop
      ends, returning Ok, as soon as fewer than four bytes remain or the
      declared length exceeds what remains. Every complete frame gets one
      reply: "OK" after the callback when it decodes, "ERROR" otherwise. */
  function HandleConnection(input: Bytes): (s: Session)
    ensures s.outcome.Ok?
    ensures |s.replies| <= |input| / LENGTH_PREFIX
    ensures |input| < LENGTH_PREFIX ==> s.delivered == [] && s.replies == []
    ensures |input| >= LENGTH_PREFIX && FromBe32(input[..LENGTH_PREFIX]) as int > |input| - LENGTH_PREFIX ==>
              s.delivered == [] && s.replies == []
    decreases |input|
  {
    if |input| < LENGTH_PREFIX then Session([], [], Ok(()))
    else
      var len := FromBe32(input[..LENGTH_PREFIX]) as int;
      if len > |input| - LENGTH_PREFIX then Session([], [], Ok(()))
      else
        var data := input[LENGTH_PREFIX..LENGTH_PREFIX + len];
        var rest := HandleConnection(input[LENGTH_PREFIX + len..]);
        match Decode(data)
        case Some(b) => Session([b] + rest.delivered, [OkReply] + rest.replies, Ok(()))
        case None => Session(rest.delivered, [ErrorReply] + rest.replies, Ok(()))
  }

  /** Every bundle handed to the callback is acknowledged with "OK", and
      every "OK" acknowledges a delivered bundle. */
  lemma {:induction false} OkRepliesMatchDeliveries(input: Bytes)
    ensures CountOk(HandleConnection(input).replies) == |HandleConnection(input).delivered|
    decreases |input|
  {
    if |input| >= LENGTH_PREFIX {
      var len := FromBe32(input[..LENGTH_PREFIX]) as int;
      if len <= |input| - LENGTH_PREFIX {
        OkRepliesMatchDeliveries(input[LENGTH_PREFIX + len..]);
      }
    }
  }

  /** A frame whose length fits in 32 bits announces exactly its data. */
  lemma FrameAnnouncesLength(data: Bytes, rest: Bytes)
    requires |data| < TWO_TO_THE_32
    ensures (RawFrame(data) + rest)[..LENGTH_PREFIX] == ToBe32(|data| as u32)
    ensures FromBe32((RawFrame(data) + rest)[..LENGTH_PREFIX]) as int == |data|
    ensures (RawFrame(data) + rest)[LENGTH_PREFIX..LENGTH_PREFIX + |data|] == data
    ensures (RawFrame(data) + rest)[LENGTH_PREFIX + |data|..] == rest
  {
    Be32RoundTrip(|data| as u32);
    assert (RawFrame(data) + rest)[..LENGTH_PREFIX] == ToBe32(|data| as u32);
  }

  /** A frame that decodes is delivered and acknowledged with "OK", and the
      loop goes on with the bytes after it. */
  lemma HandleGoodFrame(b: Bundle, rest: Bytes)
    requires |Encode(b)| < TWO_TO_THE_32
    ensures var s := HandleConnection(Frame(b) + rest); var t := HandleConnection(rest);
      s.delivered == [b] + t.delivered && s.replies == [OkReply] + t.replies
  {
    FrameAnnouncesLength(Encode(b), rest);
    RoundTrip(b);
  }

  /** A complete frame that does not decode is answered with "ERROR",
      delivers nothing, and the loop goes on with the bytes after it. */
  lemma HandleBadFrame(data: Bytes, rest: Bytes)
    requires |data| < TWO_TO_THE_32 && Decode(data).None?
    ensures var s := HandleConnection(RawFrame(data) + rest); var t := HandleConnection(rest);
      s.delivered == t.delivered && s.replies == [ErrorReply] + t.replies
  {
    FrameAnnouncesLength(data, rest);
  }

  /** The bytes of a sequence of frames, one per bundle, in order. */
  function Frames(bs: seq<Bundle>): Bytes {
    if |bs| == 0 then [] else Frame(bs[0]) + Frames(bs[1..])
  }

  /** The first frame of a sequence is handled on its own, then the rest. */
  lemma HandleFramesStep(bs: seq<Bundle>)
    requires |bs| > 0 && |Encode(bs[0])| < TWO_TO_THE_32
    ensures var s := HandleConnection(Frames(bs)); var t := HandleConnection(Frames(bs[1..]));
      s.delivered == [bs[0]] + t.delivered && s.replies == [OkReply] + t.replies
  {
    HandleGoodFrame(bs[0], Frames(bs[1..]));
  }

  /** `n` acknowledgements, all "OK". */
  function OkReplies(n: nat): seq<Reply> {
    if n == 0 then [] else [OkReply] + OkReplies(n - 1)
  }

  lemma {:induction false} OkRepliesAreOk(n: nat)
    ensures |OkReplies(n)| == n && forall i :: 0 <= i < n ==> OkReplies(n)[i] == OkReply
  {
    if n > 0 {
      OkRepliesAreOk(n - 1);
    }
  }

  /** Every bundle of `bs` has an encoding short enough for its length to
      fit the 32-bit prefix. */
  predicate AllFit(bs: seq<Bundle>) {
    forall i :: 0 <= i < |bs| ==> |Encode(bs[i])| < TWO_TO_THE_32
  }

  lemma TailFits(bs: seq<Bundle>)
    requires |bs| > 0 && AllFit(bs)
    ensures |Encode(bs[0])| < TWO_TO_THE_32 && AllFit(bs[1..])
  {
    forall i | 0 <= i < |bs| - 1 ensures |Encode(bs[1..][i])| < TWO_TO_THE_32 {
      assert bs[1..][i] == bs[i + 1];
    }
  }

  lemma HeadAndTail(bs: seq<Bundle>)
    requires |bs| > 0
    ensures bs == [bs[0]] + bs[1..]
  {
  }

  /** A connection carrying the frames of `bs` delivers exactly `bs`, in
      order, and acknowledges each with "OK". */
  lemma {:induction false} HandleFrames(bs: seq<Bundle>)
    requires AllFit(bs)
    ensures HandleConnection(Frames(bs)).delivered == bs
    ensures HandleConnection(Frames(bs)).replies == OkReplies(|bs|)
  {
    if |bs| > 0 {
      TailFits(bs);
      HandleFramesStep(bs);
      HandleFrames(bs[1..]);
      HeadAndTail(bs);
    }
  }

  /** A frame cut short anywhere delivers nothing and gets no reply: the
      loop reads a short length prefix or a length longer than the data and
      stops. */
  lemma TruncatedFrame(b: Bundle, k: nat)
    requires |Encode(b)| < TWO_TO_THE_32 && k < |Frame(b)|
    ensures HandleConnection(Frame(b)[..k]).delivered == []
    ensures HandleConnection(Frame(b)[..k]).replies == []
  {
    if k >= LENGTH_PREFIX {
      var cut := Frame(b)[..k];
      FrameAnnouncesLength(Encode(b), []);
      assert Frame(b) + [] == Frame(b);
      assert cut[..LENGTH_PREFIX] == Frame(b)[..LENGTH_PREFIX];
    }
  }

  // ---------------------------------------------------------------------
  // Sending side

  /** What the connection does when a bundle is sent: a failed write, a
      failed read, or the bytes the read returned (empty at end of stream). */
  datatype SendOutcome = WriteFailed | ReadFailed | Received(bytes: Bytes)

  datatype SendError = IoError | Utf8Error

  /** The acknowledgement text the sender checks: at most the first
      sixteen bytes the read returns. */
  function AckWindow(bytes: Bytes): (w: Bytes)
    ensures |w| <= ACK_BUFFER_SIZE && w <= bytes
    ensures |bytes| <= ACK_BUFFER_SIZE ==> w == bytes
  {
    if |bytes| > ACK_BUFFER_SIZE then bytes[..ACK_BUFFER_SIZE] else bytes
  }

  /** `send_bundle`: writes the bundle's frame, reads once, and fails only
      on an I/O error or when the bytes read are not UTF-8. The text of the
      acknowledgement is not inspected. Returns the bytes it sets out to
      write and the result. */
  function SendBundle(b: Bundle, outcome: SendOutcome): (r: (Bytes, Result<(), SendError>))
    ensures r.0 == Frame(b)
    ensures r.1.Ok? <==> outcome.Received? && ValidUtf8(AckWindow(outcome.bytes))
    ensures outcome.WriteFailed? || outcome.ReadFailed? ==> r.1 == Err(IoError)
  {
    var frame := Frame(b);
    match outcome
    case WriteFailed => (frame, Err(IoError))
    case ReadFailed => (frame, Err(IoError))
    case Received(bytes) =>
      if ValidUtf8(AckWindow(bytes)) then (frame, Ok(())) else (frame, Err(Utf8Error))
  }

  /** `create_bundle` is `Bundle::new`. */
  function CreateBundle(source: string, destination: string, payload: Bytes, now: u64): (b: Bundle)
    ensures b.primary.version == DEFAULT_VERSION && b.primary.reportTo == DEFAULT_REPORT_TO
    ensures b.primary.lifetime == DEFAULT_LIFETIME && b.primary.creationTimestamp == now
    ensures b.primary.source == source && b.primary.destination == destination && b.payload == payload
  {
    NewBundle(source, destination, payload, now)
  }

  /** Both replies of the receiving side are UTF-8 text, so the sender
      counts either as success, "ERROR" included; so does an empty read at
      end of stream. */
  lemma EitherReplyIsSuccess(b: Bundle, r: Reply)
    ensures SendBundle(b, Received(ReplyBytes(r))).1.Ok?
    ensures SendBundle(b, Received([])).1.Ok?
  {
    match r
    case OkReply =>
      assert ValidUtf8([0x4F, 0x4B][1..]);
    case ErrorReply =>
      assert ValidUtf8([0x52]);
      assert ValidUtf8([0x4F, 0x52]);
      assert ValidUtf8([0x52, 0x4F, 0x52]);
      assert ValidUtf8([0x52, 0x52, 0x4F, 0x52]);
  }

  /** Only the first sixteen bytes are checked: a valid two-byte character
      that straddles the sixteenth byte makes the send fail. */
  lemma AckCutInsideCharacter(b: Bundle)
    ensures var ack := Letters(15) + [0xC3, 0xA9];
      ValidUtf8(ack) && SendBundle(b, Received(ack)).1 == Err(Utf8Error)
  {
    var ack := Letters(15) + [0xC3, 0xA9];
    AsciiThenValid(15, [0xC3, 0xA9]);
    assert ValidUtf8([0xC3, 0xA9][2..]);
    var w := AckWindow(ack);
    assert w == Letters(15) + [0xC3];
    AsciiThenInvalid(15, [0xC3]);
  }

  /** `n` bytes of the letter "A". */
  function Letters(n: nat): (r: Bytes)
    ensures |r| == n
  {
    if n == 0 then [] else [0x41] + Letters(n - 1)
  }

  lemma {:induction false} AsciiThenValid(n: nat, tail: Bytes)
    requires ValidUtf8(tail)
    ensures ValidUtf8(Letters(n) + tail)
  {
    if n > 0 {
      var x := Letters(n) + tail;
      AsciiThenValid(n - 1, tail);
      assert x == [0x41] + (Letters(n - 1) + tail);
      assert x[0] == 0x41 && LeadingSequenceLength(x) == 1;
      assert x[1..] == Letters(n - 1) + tail;
    } else {
      assert Letters(n) + tail == tail;
    }
  }

  lemma {:induction false} AsciiThenInvalid(n: nat, tail: Bytes)
    requires !ValidUtf8(tail)
    ensures !ValidUtf8(Letters(n) + tail)
  {
    if n > 0 {
      var x := Letters(n) + tail;
      AsciiThenInvalid(n - 1, tail);
      assert x == [0x41] + (Letters(n - 1) + tail);
      assert x[0] == 0x41 && LeadingSequenceLength(x) == 1;
      assert x[1..] == Letters(n - 1) + tail;
    } else {
      assert Letters(n) + tail == tail;
    }
  }


  /** What the sender writes, the receiver delivers: one bundle, answered
      with "OK", whatever the connection then does. */
  lemma SendThenReceive(b: Bundle, outcome: SendOutcome)
    requires |Encode(b)| < TWO_TO_THE_32
    ensures HandleConnection(SendBundle(b, outcome).0).delivered == [b]
    ensures HandleConnection(SendBundle(b, outcome).0).replies == [OkReply]
    ensures WrittenBack(HandleConnection(SendBundle(b, outcome).0).replies) == [0x4F, 0x4B]
  {
    HandleGoodFrame(b, []);
    assert Frame(b) + [] == Frame(b);
    assert WrittenBack([OkReply]) == ReplyBytes(OkReply) + WrittenBack([]);
  }
}
