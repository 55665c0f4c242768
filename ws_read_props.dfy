/**
  * What the read path of nhooyr.io/websocket promises, stated on the
  * functions of module WsRead: the per-frame checks of RFC 6455 sections
  * 5.2, 5.3 and 5.5, the servicing of control frames inside `readLoop`,
  * the sequencing rules of `reader` and `msgReader.read`, the unmasking of
  * a payload read in pieces, and the per-message byte budget.
  */
module WsReadProps {
  import opened Wrappers
  import opened WsMask
  import opened WsFrame
  import opened WsRead

  /** The connection is open and the next frame on the transport has header `h`. */
  predicate NextHeader(c: ConnState, h: Header) {
    !Closed(c) && c.incoming != [] && c.incoming[0].header == h
  }

  /** The state right after the header of the next frame was read. */
  function AfterHeader(c: ConnState): ConnState
    requires c.incoming != []
  {
    c.(incoming := c.incoming[1..], body := c.incoming[0].payload)
  }

  /** The frames `writeClose` adds: a close frame with `code` and `reason`, unless one was sent before. */
  function CloseSent(c: ConnState, code: nat, reason: CloseReason): seq<Outgoing> {
    if c.wroteClose then [] else [CloseFrame(code, reason)]
  }

  /**
    * `writeError` keeps the first close error and sends at most one close
    * frame, which carries the error's text; a second call sends nothing.
    */
  lemma WriteErrorEffect(c: ConnState, code: nat, e: Error, code2: nat, e2: Error)
    ensures var w := WriteError(c, code, e);
      && w.closeErr == (if Closed(c) then c.closeErr else Some(e))
      && w.sent == c.sent + CloseSent(c, code, ErrorText(e))
      && w.incoming == c.incoming && w.msg == c.msg
      && WriteError(w, code2, e2) == w
  {
  }

  /** The header passes the reserved-bit and masking checks of `readLoop`. */
  predicate Accepted(c: ConnState, h: Header) {
    !RsvRejected(c.copts, h) && (c.client || h.masked)
  }

  // ----- readLoop: the checks on every frame -----

  /**
    * RFC 6455 section 5.2: a frame with rsv2 or rsv3 set, or with rsv1 set
    * while compression is off or on a frame other than the first of a data
    * message, fails the connection with a protocol-error close.
    */
  lemma RsvBitsRejected(c: ConnState, h: Header)
    requires NextHeader(c, h)
    requires h.rsv2 || h.rsv3 || (h.rsv1 && (c.copts.None? || !(h.opcode == OpText || h.opcode == OpBinary)))
    ensures var r := ReadLoop(c);
      && r.result == Err(UnexpectedRsv(h.rsv1, h.rsv2, h.rsv3))
      && r.c.closeErr == Some(UnexpectedRsv(h.rsv1, h.rsv2, h.rsv3))
      && r.c.sent == c.sent + CloseSent(c, StatusProtocolError, ErrorText(UnexpectedRsv(h.rsv1, h.rsv2, h.rsv3)))
      && r.c.incoming == c.incoming[1..]
  {
  }

  /** An opcode RFC 6455 does not define fails the connection with a protocol-error close. */
  lemma UnknownOpcodeRejected(c: ConnState, h: Header)
    requires NextHeader(c, h) && Accepted(c, h)
    requires !IsControl(h.opcode) && !IsData(h.opcode)
    ensures var r := ReadLoop(c);
      && r.result == Err(UnknownOpcode(h.opcode))
      && r.c.closeErr == Some(UnknownOpcode(h.opcode))
      && r.c.sent == c.sent + CloseSent(c, StatusProtocolError, ErrorText(UnknownOpcode(h.opcode)))
  {
  }

  /**
    * RFC 6455 section 5.3: a server refuses an unmasked frame; this error
    * neither sends a close frame nor closes the connection.
    */
  lemma UnmaskedFrameToServerRejected(c: ConnState, h: Header)
    requires NextHeader(c, h) && !RsvRejected(c.copts, h)
    requires !c.client && !h.masked
    ensures ReadLoop(c) == Step(AfterHeader(c), Err(UnmaskedClientFrame))
  {
  }

  /**
    * A data frame ends the loop and is handed over as it is; in the client
    * role this holds whether or not the frame is masked.
    */
  lemma DataFrameEndsLoop(c: ConnState, h: Header)
    requires NextHeader(c, h) && Accepted(c, h) && IsData(h.opcode)
    ensures ReadLoop(c) == Step(AfterHeader(c), Ok(h))
  {
  }

  // ----- readLoop: control frames -----

  /**
    * RFC 6455 section 5.5: a control frame longer than 125 bytes fails the
    * connection before any of its payload is read.
    */
  lemma LongControlRejected(c: ConnState, h: Header)
    requires NextHeader(c, h) && Accepted(c, h) && IsControl(h.opcode)
    requires h.payloadLength > MaxControlPayload
    ensures var r := ReadLoop(c);
      && r.result == Err(ControlFailed(h.opcode, InvalidControlLength(h.payloadLength)))
      && r.c.closeErr == Some(InvalidControlLength(h.payloadLength))
      && r.c.sent == c.sent + CloseSent(c, StatusProtocolError, ErrorText(InvalidControlLength(h.payloadLength)))
      && r.c.body == c.incoming[0].payload
  {
  }

  /** RFC 6455 section 5.5: a fragmented control frame fails the connection before its payload is read. */
  lemma FragmentedControlRejected(c: ConnState, h: Header)
    requires NextHeader(c, h) && Accepted(c, h) && IsControl(h.opcode)
    requires h.payloadLength <= MaxControlPayload && !h.fin
    ensures var r := ReadLoop(c);
      && r.result == Err(ControlFailed(h.opcode, FragmentedControl))
      && r.c.closeErr == Some(FragmentedControl)
      && r.c.sent == c.sent + CloseSent(c, StatusProtocolError, ErrorText(FragmentedControl))
      && r.c.body == c.incoming[0].payload
  {
  }

  /** A well-formed control frame whose payload arrived in full. */
  predicate CompleteControl(c: ConnState, h: Header) {
    && NextHeader(c, h) && Accepted(c, h) && IsControl(h.opcode)
    && h.payloadLength <= MaxControlPayload && h.fin
    && h.payloadLength <= |c.incoming[0].payload|
  }

  /** The unmasked payload of the next frame, a control frame. */
  function ControlPayload(c: ConnState, h: Header): seq<byte>
    requires CompleteControl(c, h)
  {
    Unmasked(h, c.incoming[0].payload[..h.payloadLength])
  }

  /** The state after the whole next frame, a control frame, was read. */
  function AfterControl(c: ConnState, h: Header): ConnState
    requires CompleteControl(c, h)
  {
    c.(incoming := c.incoming[1..], body := c.incoming[0].payload[h.payloadLength..])
  }

  /**
    * RFC 6455 section 5.5.2: a ping is answered with a pong carrying the
    * same (unmasked) payload, and the loop goes on to the next frame.
    */
  lemma PingAnswered(c: ConnState, h: Header)
    requires CompleteControl(c, h) && h.opcode == OpPing
    ensures ReadLoop(c) == ReadLoop(AfterControl(c, h).(sent := c.sent + [Pong(ControlPayload(c, h))]))
  {
    var p := c.incoming[0].payload;
    assert p[..h.payloadLength] + p[h.payloadLength..] == p;
  }

  /**
    * RFC 6455 section 5.5.3: a pong carrying the payload of a ping that is
    * waiting signals that ping (a signal already pending is not repeated);
    * any other pong changes nothing; the loop goes on either way.
    */
  lemma PongSignalsWaiter(c: ConnState, h: Header)
    requires CompleteControl(c, h) && h.opcode == OpPong
    ensures var b := ControlPayload(c, h);
      ReadLoop(c) == ReadLoop(AfterControl(c, h).(activePings :=
        if b in c.activePings then c.activePings[b := true] else c.activePings))
  {
    var p := c.incoming[0].payload;
    assert p[..h.payloadLength] + p[h.payloadLength..] == p;
  }

  /**
    * RFC 6455 section 5.5.1: a close frame with a valid payload is echoed
    * with its status code and reason (once), closes the connection, and
    * its close error reaches the caller unwrapped.
    */
  lemma CloseFrameEchoed(c: ConnState, h: Header, code: nat, reason: seq<byte>)
    requires CompleteControl(c, h) && h.opcode == OpClose
    requires ParseClosePayload(ControlPayload(c, h)) == Some((code, reason))
    ensures var r := ReadLoop(c);
      && r.result == Err(CloseReceived(code, reason))
      && r.c.closeErr == Some(CloseReceived(code, reason))
      && r.c.readCloseFrameErr == Some(CloseReceived(code, reason))
      && r.c.sent == c.sent + CloseSent(c, code, Echo(reason))
  {
    var p := c.incoming[0].payload;
    assert p[..h.payloadLength] + p[h.payloadLength..] == p;
  }

  /** A close frame whose payload does not parse fails the connection with a protocol error. */
  lemma InvalidCloseRejected(c: ConnState, h: Header)
    requires CompleteControl(c, h) && h.opcode == OpClose
    requires ParseClosePayload(ControlPayload(c, h)).None?
    ensures var r := ReadLoop(c);
      && r.result == Err(ControlFailed(OpClose, InvalidClosePayload))
      && r.c.closeErr == Some(InvalidClosePayload)
      && r.c.readCloseFrameErr == Some(InvalidClosePayload)
      && r.c.sent == c.sent + CloseSent(c, StatusProtocolError, ErrorText(InvalidClosePayload))
  {
    var p := c.incoming[0].payload;
    assert p[..h.payloadLength] + p[h.payloadLength..] == p;
  }

  // ----- reader -----

  /**
    * A new message cannot start while the previous one is unfinished: the
    * reader fails, closes the connection, and reads nothing.
    */
  lemma ReaderRefusesUnfinished(c: ConnState)
    requires !c.msg.fin
    ensures var r := Reader(c);
      && r.result == Err(ReaderFailed(PreviousNotRead))
      && Closed(r.c)
      && r.c.incoming == c.incoming && r.c.sent == c.sent
  {
  }

  /** RFC 6455 section 5.4: a message may not start with a continuation frame. */
  lemma ReaderRejectsContinuation(c: ConnState, h: Header)
    requires c.msg.fin
    requires ReadLoop(c).result == Ok(h) && h.opcode == OpContinuation
    ensures var r := Reader(c); var c2 := ReadLoop(c).c;
      && r.result == Err(ReaderFailed(ContinuationWithoutStart))
      && r.c.closeErr == (if Closed(c2) then c2.closeErr else Some(ContinuationWithoutStart))
      && r.c.sent == c2.sent + CloseSent(c2, StatusProtocolError, ErrorText(ContinuationWithoutStart))
  {
    var c2 := ReadLoop(c).c;
    assert Reader(c).c == WriteError(c2, StatusProtocolError, ContinuationWithoutStart);
    WriteErrorEffect(c2, StatusProtocolError, ContinuationWithoutStart, StatusProtocolError, ContinuationWithoutStart);
  }

  /**
    * A message starts at the first text or binary frame: its type is that
    * frame's opcode, the reader follows that frame, the budget is the full
    * limit, and a compressed message reads through the decompressor.
    */
  lemma ReaderStartsMessage(c: ConnState, h: Header)
    requires c.msg.fin
    requires ReadLoop(c).result == Ok(h) && h.opcode != OpContinuation
    ensures h.opcode == OpText || h.opcode == OpBinary
    ensures var r := Reader(c); var c2 := ReadLoop(c).c;
      && r.result == Ok(MessageTypeOf(h.opcode))
      && r.c.msg.fin == h.fin && r.c.msg.payloadLength == h.payloadLength && r.c.msg.maskKey == h.maskKey
      && r.c.msg.flate == h.rsv1
      && r.c.msg.limiter.n == c.msg.limiter.limit
      && r.c.incoming == c2.incoming && r.c.sent == c2.sent
  {
  }

  // ----- msgReader.read -----

  /** The smaller of two numbers. */
  function Min(a: nat, b: nat): nat {
    if a < b then a else b
  }

  /**
    * Inside a frame a read delivers at most the smaller of the request and
    * what is left of the frame, and exactly that much when the transport
    * has it; on success the frame's remaining length drops by what was
    * delivered, the client delivers the bytes as they came, and the server
    * delivers them unmasked and rolls its key past them.
    */
  lemma ReadInsideFrame(c: ConnState, want: nat)
    requires c.msg.payloadLength > 0
    ensures var r := ReadRaw(c, want); var n := |r.data|;
      && n <= Min(want, c.msg.payloadLength)
      && (!Closed(c) && Min(want, c.msg.payloadLength) <= |c.body| ==> r.err.None? && n == Min(want, c.msg.payloadLength))
      && (r.err.None? ==>
        && n == Min(want, c.msg.payloadLength)
        && r.c.msg.payloadLength == c.msg.payloadLength - n
        && r.c.msg.fin == c.msg.fin
        && r.c.incoming == c.incoming && r.c.body == c.body[n..]
        && (c.client ==> r.data == c.body[..n] && r.c.msg.maskKey == c.msg.maskKey)
        && (!c.client ==> r.data == Mask(c.msg.maskKey, c.body[..n]) && r.c.msg.maskKey == KeyAfter(c.msg.maskKey, n)))
  {
    var k := Min(want, c.msg.payloadLength);
    var p := ReadFramePayload(c, k);
    if p.err.None? {
      assert p.data == c.body[..k] by {
        assert p.data + p.c.body == c.body;
        assert c.body[..k] == (p.data + p.c.body)[..k];
      }
      assert p.c.body == c.body[k..] by {
        assert c.body[k..] == (p.data + p.c.body)[k..];
      }
    }
  }

  /**
    * At the end of the last frame an uncompressed message ends with io.EOF
    * and nothing changes; a compressed one delivers the rest of the deflate
    * tail first.
    */
  lemma ReadAtMessageEnd(c: ConnState, want: nat)
    requires c.msg.payloadLength == 0 && c.msg.fin
    ensures !c.msg.flate ==> ReadRaw(c, want) == Chunk(c, [], Some(EOF))
    ensures c.msg.flate && c.msg.flateTail == [] ==> ReadRaw(c, want) == Chunk(c, [], Some(EOF))
    ensures c.msg.flate && c.msg.flateTail != [] ==>
      var k := Min(want, |c.msg.flateTail|);
      ReadRaw(c, want) == Chunk(c.(msg := c.msg.(flateTail := c.msg.flateTail[k..])), c.msg.flateTail[..k], None)
  {
  }

  /**
    * RFC 6455 section 5.4: after a non-final frame the next data frame
    * must be a continuation; anything else fails the connection with a
    * protocol error and delivers nothing.
    */
  lemma ContinuationRequired(c: ConnState, h: Header, want: nat)
    requires c.msg.payloadLength == 0 && !c.msg.fin
    requires ReadLoop(c).result == Ok(h) && h.opcode != OpContinuation
    ensures var r := ReadRaw(c, want); var c2 := ReadLoop(c).c;
      && r.data == [] && r.err == Some(UnfinishedMessage)
      && r.c.closeErr == (if Closed(c2) then c2.closeErr else Some(UnfinishedMessage))
      && r.c.sent == c2.sent + CloseSent(c2, StatusProtocolError, ErrorText(UnfinishedMessage))
  {
  }

  /** A continuation frame carries the message on: the reader follows it and reads from it. */
  lemma ContinuationFollowed(c: ConnState, h: Header, want: nat)
    requires c.msg.payloadLength == 0 && !c.msg.fin
    requires ReadLoop(c).result == Ok(h) && h.opcode == OpContinuation
    ensures ReadRaw(c, want) == ReadRaw(ReadLoop(c).c.(msg := SetFrame(c.msg, h)), want)
  {
    ReadLoopKeepsMsg(c);
  }

  /**
    * RFC 6455 section 5.3 for a payload read in two pieces: what the server
    * delivers is the unmasked payload, as if the frame had been unmasked at
    * once.
    */
  lemma ServerPiecesUnmaskWhole(c: ConnState, want1: nat, want2: nat)
    requires !c.client && c.msg.payloadLength > 0
    requires ReadRaw(c, want1).err.None?
    requires |ReadRaw(c, want1).data| < c.msg.payloadLength
    requires ReadRaw(ReadRaw(c, want1).c, want2).err.None?
    ensures var r1 := ReadRaw(c, want1); var r2 := ReadRaw(r1.c, want2);
      && |r1.data| + |r2.data| <= |c.body|
      && r1.data + r2.data == Mask(c.msg.maskKey, c.body[..|r1.data| + |r2.data|])
  {
    var r1 := ReadRaw(c, want1);
    ReadInsideFrame(c, want1);
    var n1 := |r1.data|;
    ReadInsideFrame(r1.c, want2);
    var r2 := ReadRaw(r1.c, want2);
    var n2 := |r2.data|;
    var body := c.body;
    assert r1.c.body == body[n1..];
    assert body[..n1 + n2] == body[..n1] + body[n1..][..n2];
    MaskAppend(c.msg.maskKey, body[..n1], body[n1..][..n2]);
  }

  // ----- limitReader and SetReadLimit -----

  /**
    * With no budget left a read fails with a message-too-big close and
    * reads nothing; otherwise it delivers at most the budget (and the
    * request) and the budget drops by exactly what was delivered, so it
    * never goes negative.
    */
  lemma LimitReadBudget(c: ConnState, want: nat, inflate: Decompressor)
    ensures var r := LimitRead(c, want, inflate); var lim := c.msg.limiter;
      && (lim.n <= 0 ==>
        && r.data == [] && r.err == Some(ReadLimited(lim.limit))
        && Closed(r.c) && r.c.sent == c.sent + CloseSent(c, StatusMessageTooBig, ErrorText(ReadLimited(lim.limit)))
        && r.c.incoming == c.incoming && r.c.body == c.body && r.c.msg == c.msg)
      && (lim.n > 0 ==>
        && |r.data| <= want && |r.data| <= lim.n
        && r.c.msg.limiter.n == lim.n - |r.data| >= 0)
  {
  }

  /**
    * For a compressed message the budget is charged with the decompressed
    * bytes: once the decompressor has its input, a read hands out the next
    * of the bytes it decompressed, no more than the request and the budget,
    * and the budget drops by exactly that many.
    */
  lemma CompressedBudgetCountsInflated(c: ConnState, want: nat, inflate: Decompressor)
    requires c.msg.limiter.n > 0 && c.msg.limiter.r == Inflate && Drained(c.msg)
    ensures var r := LimitRead(c, want, inflate); var k := Min(Min(want, c.msg.limiter.n), |c.msg.inflated|);
      && r.data == c.msg.inflated[..k] && r.c.msg.inflated == c.msg.inflated[k..]
      && r.err == (if k == |c.msg.inflated| then c.msg.inflateErr else None)
      && r.c.msg.limiter.n == c.msg.limiter.n - k
  {
    var k := Min(Min(want, c.msg.limiter.n), |c.msg.inflated|);
    var d := InflateDeliver(c, Min(want, c.msg.limiter.n));
    assert d.data == c.msg.inflated[..|d.data|] && d.c.msg.inflated == c.msg.inflated[|d.data|..] by {
      assert c.msg.inflated[..|d.data|] == (d.data + d.c.msg.inflated)[..|d.data|];
      assert c.msg.inflated[|d.data|..] == (d.data + d.c.msg.inflated)[|d.data|..];
    }
  }

  /**
    * `SetReadLimit(n)` takes effect at the next message, whose budget is
    * n + 1 bytes.
    */
  lemma ReadLimitAppliesToNextMessage(c: ConnState, n: int)
    requires IsInt64(n) && n < MaxInt64
    ensures var r := Reader(SetReadLimit(c, n));
      r.result.Ok? ==> r.c.msg.limiter.n == n + 1
  {
  }

  /**
    * `SetReadLimit` with the largest int64 wraps the stored limit to the
    * smallest one, so every read of the next message fails as too big.
    */
  lemma LargestReadLimitWraps(c: ConnState, want: nat, inflate: Decompressor)
    ensures var r := Reader(SetReadLimit(c, MaxInt64));
      r.result.Ok? ==> LimitRead(r.c, want, inflate).err == Some(ReadLimited(MinInt64))
  {
  }

  // ----- msgReader.Read -----

  /**
    * RFC 7692 section 7.1.1: the decompressed bytes are kept as the next
    * message's dictionary exactly when the message is compressed and the
    * peer keeps its compression context.
    */
  lemma WindowKeepsInflatedBytes(c: ConnState, want: nat, inflate: Decompressor)
    requires c.msg.flate ==> c.copts.Some?
    ensures var r := MsgRead(c, want, inflate);
      r.c.msg.window == c.msg.window +
        (if c.msg.flate && FlateContextTakeover(c.client, c.copts.value) then r.data else [])
  {
  }

  /** Every failure of a read other than the end of the message closes the connection. */
  lemma ReadFailureCloses(c: ConnState, want: nat, inflate: Decompressor)
    requires c.msg.flate ==> c.copts.Some?
    ensures var r := MsgRead(c, want, inflate);
      r.err.Some? && r.err != Some(EOF) ==> Closed(r.c) && r.err.value.ReadFailed?
  {
  }

  /** Neither io.EOF nor io.ErrUnexpectedEOF itself. */
  predicate NotBare(e: Error) {
    e != EOF && e != UnexpectedEOF
  }

  predicate CloseErrNotBare(c: ConnState) {
    c.closeErr.Some? ==> NotBare(c.closeErr.value)
  }

  lemma HeaderNotBare(c: ConnState)
    requires CloseErrNotBare(c)
    ensures var s := ReadFrameHeader(c);
      && CloseErrNotBare(s.c)
      && (s.result.Err? ==> NotBare(s.result.error))
  {
  }

  lemma ControlNotBare(c: ConnState, h: Header)
    requires CloseErrNotBare(c)
    ensures var d := HandleControl(c, h);
      && CloseErrNotBare(d.c)
      && (d.err.Some? ==> NotBare(d.err.value))
  {
  }

  /** Everything `readLoop` fails with arrives wrapped, and so does every close error it records. */
  lemma {:induction false} ReadLoopNotBare(c: ConnState)
    requires CloseErrNotBare(c)
    ensures var r := ReadLoop(c);
      && CloseErrNotBare(r.c)
      && (r.result.Err? ==> NotBare(r.result.error))
    decreases |c.incoming|
  {
    var s := ReadFrameHeader(c);
    HeaderNotBare(c);
    if s.result.Ok? {
      var h := s.result.value;
      if !RsvRejected(c.copts, h) && (c.client || h.masked) && IsControl(h.opcode) {
        var d := HandleControl(s.c, h);
        ControlNotBare(s.c, h);
        if d.err.None? {
          assert ReadLoop(c) == ReadLoop(d.c);
          ReadLoopNotBare(d.c);
        }
      }
    }
  }

  /**
    * The raw reader fails with io.EOF itself only at the end of the last
    * frame of an uncompressed message.
    */
  lemma {:induction false} ReadRawEndsOnlyAtEnd(c: ConnState, want: nat)
    requires CloseErrNotBare(c) && !c.msg.flate
    ensures var r := ReadRaw(c, want);
      r.err == Some(EOF) ==> r.c.msg.payloadLength == 0 && r.c.msg.fin
    decreases |c.incoming|
  {
    if c.msg.payloadLength == 0 && !c.msg.fin {
      ReadLoopNotBare(c);
      ReadLoopKeepsMsg(c);
      var s := ReadLoop(c);
      if s.result.Ok? && s.result.value.opcode == OpContinuation {
        ReadRawEndsOnlyAtEnd(s.c.(msg := SetFrame(s.c.msg, s.result.value)), want);
      }
    }
  }

  /**
    * A read of an uncompressed message reports its end (io.EOF) only once
    * the last frame has been read in full.
    */
  lemma CleanEndOnlyAtMessageEnd(c: ConnState, want: nat, inflate: Decompressor)
    requires CloseErrNotBare(c) && !c.msg.flate && c.msg.limiter.r == Raw
    ensures var r := MsgRead(c, want, inflate);
      r.err == Some(EOF) ==> r.c.msg.payloadLength == 0 && r.c.msg.fin
  {
    if c.msg.limiter.n > 0 {
      var k := if want > c.msg.limiter.n then c.msg.limiter.n else want;
      ReadRawEndsOnlyAtEnd(c, k);
    }
  }

  /**
    * The transport ending where a frame's payload should start: the read
    * fails with a wrapped io.EOF while the frame is unfinished. The test as
    * written in read.go:381 takes that error for the end of the message,
    * so `msgReader.Read` as written reports io.EOF and the caller sees a
    * complete, truncated message, where the message reader with the
    * corrected test reports a failure.
    */
  lemma TruncatedPayloadLooksComplete(c: ConnState, want: nat, inflate: Decompressor)
    requires !Closed(c) && c.body == [] && c.msg.payloadLength > 0
    requires c.msg.limiter.n > 0 && c.msg.limiter.r == Raw && !c.msg.flate
    requires want > 0
    ensures var r := LimitRead(c, want, inflate);
      && r.err == Some(PayloadReadFailed(EOF))
      && r.c.msg.payloadLength == c.msg.payloadLength
      && EndsMessageAsWritten(r.err.value, r.c.msg.fin, r.c.msg.flate)
      && !EndsMessage(r.err.value, r.c.msg.fin, r.c.msg.flate)
    ensures MsgRead(c, want, inflate).err == Some(ReadFailed(PayloadReadFailed(EOF)))
    ensures var w := MsgReadAsWritten(c, want, inflate);
      w.err == Some(EOF) && w.data == [] && w.c.msg.payloadLength == c.msg.payloadLength
  {
  }
}
