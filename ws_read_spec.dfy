/**
  * The read path of nhooyr.io/websocket (read.go) as functions on a value
  * of the connection's state: reading frame headers and payloads from the
  * transport, the control-frame handling and per-frame checks of
  * `readLoop`, the start of a message in `reader`, the fragment reassembly
  * of `msgReader.read`, the per-message byte budget of `limitReader`, and
  * the error mapping of `msgReader.Read`. The classes of module WsConn
  * perform these steps in place and are proved against these functions.
  *
  * The transport is a sequence of frames already split into header and
  * payload; `body` holds the unread payload bytes of the frame whose header
  * was read last. Locks, contexts, timeouts and the goroutines behind them
  * are not modelled; writes to the peer are recorded in `sent` and never
  * fail.
  */
module WsRead {
  import opened Wrappers
  import opened WsMask
  import opened WsFrame

  const MaxInt64: int := 0x7FFF_FFFF_FFFF_FFFF
  const MinInt64: int := -0x8000_0000_0000_0000

  predicate IsInt64(n: int) {
    MinInt64 <= n <= MaxInt64
  }

  /** What `limitReader.r` reads from: the raw frames or the decompressor. */
  datatype Source = Raw | Inflate

  /** `limitReader`: the stored limit and the budget left for the current message. */
  datatype LimitState = LimitState(limit: int, n: int, r: Source)

  /**
    * `msgReader`: the frame being read (`fin`, `payloadLength`, `maskKey`),
    * whether the message is compressed, the unread part of the deflate
    * tail, the bytes written to the decompression window, the limit, and
    * the state of the decompressor: the bytes it decompressed and has not
    * handed out yet, and the error it reports after them.
    */
  datatype MsgState = MsgState(
    fin: bool,
    payloadLength: nat,
    maskKey: bv32,
    flate: bool,
    flateTail: seq<byte>,
    window: seq<byte>,
    limiter: LimitState,
    inflated: seq<byte>,
    inflateErr: Option<Error>)

  /**
    * The reason text of a close frame: the one a received close frame
    * carried, echoed back, or the message of the error `writeError` was
    * given (`err.Error()`), which the model keeps as the error itself.
    */
  datatype CloseReason = Echo(text: seq<byte>) | ErrorText(err: Error)

  /** A frame the reader wrote to the peer. */
  datatype Outgoing = Pong(payload: seq<byte>) | CloseFrame(code: nat, reason: CloseReason)

  /**
    * The connection: its role and negotiated compression, the transport,
    * the first error it was closed with (it is closed exactly when there is
    * one), whether a close frame was sent, the frames written, the pings
    * waiting for their pong (true once a pong was signalled), the error of
    * the last close frame read, and the message reader.
    */
  datatype ConnState = ConnState(
    client: bool,
    copts: Option<CompressionOptions>,
    incoming: seq<Frame>,
    body: seq<byte>,
    closeErr: Option<Error>,
    wroteClose: bool,
    sent: seq<Outgoing>,
    activePings: map<seq<byte>, bool>,
    readCloseFrameErr: Option<Error>,
    msg: MsgState)

  /** The outcome of a step that yields a value or an error. */
  datatype Step<T> = Step(c: ConnState, result: Result<T, Error>)

  /** The outcome of a step that can only fail. */
  datatype Done = Done(c: ConnState, err: Option<Error>)

  /** The outcome of a read: the bytes delivered and the error, which may come with bytes. */
  datatype Chunk = Chunk(c: ConnState, data: seq<byte>, err: Option<Error>)

  /** What the decompressor makes of its input: the bytes it decompressed and the error it ends with. */
  datatype Inflated = Inflated(data: seq<byte>, err: Option<Error>)

  /**
    * The deflate decompressor (RFC 1951, RFC 7692 section 7.2.2), which is
    * not part of this model, as a function of the dictionary it starts
    * with and the compressed bytes it was fed up to their end of file.
    */
  type Decompressor = (seq<byte>, seq<byte>) -> Inflated

  /** `newMsgReader`: between messages, with the default limit plus one. */
  function NewMsgState(): (m: MsgState)
    ensures m.fin && m.payloadLength == 0
    ensures m.limiter.limit == DefaultReadLimit + 1 && m.limiter.n == m.limiter.limit
  {
    MsgState(true, 0, 0, false, [], [], LimitState(DefaultReadLimit + 1, DefaultReadLimit + 1, Raw), [], None)
  }

  /** A fresh connection reading `incoming`. */
  function NewConn(client: bool, copts: Option<CompressionOptions>, incoming: seq<Frame>): ConnState {
    ConnState(client, copts, incoming, [], None, false, [], map[], None, NewMsgState())
  }

  /** `int64(n) + 1`, wrapping around at the top of the range. */
  function Int64Succ(n: int): (r: int)
    requires IsInt64(n)
    ensures IsInt64(r)
    ensures n < MaxInt64 ==> r == n + 1
    ensures n == MaxInt64 ==> r == MinInt64
  {
    if n == MaxInt64 then MinInt64 else n + 1
  }

  /** `SetReadLimit`: one byte more than asked, so that a final frame can still be read. */
  function SetReadLimit(c: ConnState, n: int): (r: ConnState)
    requires IsInt64(n)
    ensures r.msg.limiter.limit == Int64Succ(n)
    ensures r.msg.limiter.n == c.msg.limiter.n
    ensures r.(msg := c.msg) == c && r.msg.(limiter := c.msg.limiter) == c.msg
  {
    c.(msg := c.msg.(limiter := c.msg.limiter.(limit := Int64Succ(n))))
  }

  predicate Closed(c: ConnState) {
    c.closeErr.Some?
  }

  /** `setCloseErr`/`close`: the first error wins, and the connection is then closed. */
  function SetCloseErr(c: ConnState, e: Error): (r: ConnState)
    ensures Closed(r) && r.closeErr == (if Closed(c) then c.closeErr else Some(e))
    ensures r.(closeErr := c.closeErr) == c
  {
    if c.closeErr.None? then c.(closeErr := Some(e)) else c
  }

  /** `writeClose`: a close frame is sent at most once. */
  function WriteClose(c: ConnState, code: nat, reason: CloseReason): (r: ConnState)
    ensures r.wroteClose
    ensures r.sent == c.sent + (if c.wroteClose then [] else [CloseFrame(code, reason)])
    ensures r.(wroteClose := c.wroteClose, sent := c.sent) == c
  {
    if c.wroteClose then c else c.(wroteClose := true, sent := c.sent + [CloseFrame(code, reason)])
  }

  /** `writeError`: record the error, send a close frame with `code` and the error's text, close. */
  function WriteError(c: ConnState, code: nat, e: Error): (r: ConnState)
    ensures Closed(r) && r.closeErr == (if Closed(c) then c.closeErr else Some(e))
    ensures r.sent == c.sent + (if c.wroteClose then [] else [CloseFrame(code, ErrorText(e))])
    ensures r.(closeErr := c.closeErr, wroteClose := c.wroteClose, sent := c.sent) == c
  {
    WriteClose(SetCloseErr(c, e), code, ErrorText(e))
  }

  /** `readFrameHeader`: the next header, or the close error, or the end of the transport. */
  function ReadFrameHeader(c: ConnState): (r: Step<Header>)
    ensures r.result.Ok? ==> |r.c.incoming| == |c.incoming| - 1
    ensures r.c.msg == c.msg && r.c.client == c.client && r.c.copts == c.copts
  {
    if Closed(c) then Step(c, Err(c.closeErr.value))
    else if c.incoming == [] then
      var e := HeaderReadFailed(EOF);
      Step(SetCloseErr(c, e), Err(e))
    else
      Step(c.(incoming := c.incoming[1..], body := c.incoming[0].payload), Ok(c.incoming[0].header))
  }

  /**
    * `readFramePayload`: exactly `want` bytes of the current payload, or
    * what is left of it with an end-of-file error that closes the
    * connection.
    */
  function ReadFramePayload(c: ConnState, want: nat): (r: Chunk)
    ensures r.c.msg == c.msg && r.c.incoming == c.incoming
    ensures r.c.client == c.client && r.c.copts == c.copts
    ensures |r.data| <= want
    ensures r.err.None? ==> |r.data| == want && r.data + r.c.body == c.body
  {
    if Closed(c) then Chunk(c, [], Some(c.closeErr.value))
    else if want <= |c.body| then
      assert c.body[..want] + c.body[want..] == c.body;
      Chunk(c.(body := c.body[want..]), c.body[..want], None)
    else
      var e := PayloadReadFailed(if c.body == [] then EOF else UnexpectedEOF);
      Chunk(SetCloseErr(c.(body := []), e), c.body, Some(e))
  }

  /** The payload of a control frame as the application sees it. */
  function Unmasked(h: Header, b: seq<byte>): seq<byte> {
    if h.masked then Mask(h.maskKey, b) else b
  }

  /**
    * `handleControl`: a control frame that is too long or fragmented is a
    * protocol error before its payload is read; a ping is answered with a
    * pong carrying its payload; a pong signals the ping waiting for that
    * payload, if any; a close frame is echoed and closes the connection.
    */
  function HandleControl(c: ConnState, h: Header): (d: Done)
    ensures d.c.incoming == c.incoming && d.c.msg == c.msg
    ensures d.c.client == c.client && d.c.copts == c.copts
  {
    if h.payloadLength > MaxControlPayload then
      var e := InvalidControlLength(h.payloadLength);
      Done(WriteError(c, StatusProtocolError, e), Some(e))
    else if !h.fin then
      var e := FragmentedControl;
      Done(WriteError(c, StatusProtocolError, e), Some(e))
    else
      var r := ReadFramePayload(c, h.payloadLength);
      if r.err.Some? then Done(r.c, r.err)
      else
        var b := Unmasked(h, r.data);
        if h.opcode == OpPing then Done(r.c.(sent := r.c.sent + [Pong(b)]), None)
        else if h.opcode == OpPong then
          Done(if b in r.c.activePings then r.c.(activePings := r.c.activePings[b := true]) else r.c, None)
        else
          match ParseClosePayload(b)
          case None =>
            var e := InvalidClosePayload;
            Done(WriteError(r.c, StatusProtocolError, e).(readCloseFrameErr := Some(e)), Some(e))
          case Some((code, reason)) =>
            var e := CloseReceived(code, reason);
            Done(WriteClose(SetCloseErr(r.c, e), code, Echo(reason)).(readCloseFrameErr := Some(e)), Some(e))
  }

  /**
    * `readLoop`: reads frames until a data frame arrives, handling control
    * frames on the way; it never hands a control frame to its caller and
    * never touches the message reader.
    */
  function ReadLoop(c: ConnState): (r: Step<Header>)
    ensures r.result.Ok? ==> IsData(r.result.value.opcode) && !RsvRejected(c.copts, r.result.value)
    ensures r.result.Ok? ==> |r.c.incoming| < |c.incoming|
    ensures r.c.client == c.client && r.c.copts == c.copts
    decreases |c.incoming|
  {
    var s := ReadFrameHeader(c);
    if s.result.Err? then s
    else
      var h := s.result.value;
      if RsvRejected(c.copts, h) then
        var e := UnexpectedRsv(h.rsv1, h.rsv2, h.rsv3);
        Step(WriteError(s.c, StatusProtocolError, e), Err(e))
      else if !c.client && !h.masked then Step(s.c, Err(UnmaskedClientFrame))
      else if IsControl(h.opcode) then
        var d := HandleControl(s.c, h);
        if d.err.Some? then
          var e := d.err.value;
          Step(d.c, Err(if h.opcode == OpClose && IsCloseError(e) then e else ControlFailed(h.opcode, e)))
        else ReadLoop(d.c)
      else if IsData(h.opcode) then Step(s.c, Ok(h))
      else
        var e := UnknownOpcode(h.opcode);
        Step(WriteError(s.c, StatusProtocolError, e), Err(e))
  }

  /** `readLoop` never touches the message reader. */
  lemma {:induction false} ReadLoopKeepsMsg(c: ConnState)
    ensures ReadLoop(c).c.msg == c.msg
    decreases |c.incoming|
  {
    var s := ReadFrameHeader(c);
    if s.result.Ok? {
      var h := s.result.value;
      if !RsvRejected(c.copts, h) && (c.client || h.masked) && IsControl(h.opcode) {
        var d := HandleControl(s.c, h);
        if d.err.None? {
          ReadLoopKeepsMsg(d.c);
        }
      }
    }
  }

  /** `setFrame`: the reader follows the frame whose header was just read. */
  function SetFrame(m: MsgState, h: Header): MsgState {
    m.(fin := h.fin, payloadLength := h.payloadLength, maskKey := h.maskKey)
  }

  /**
    * `reset` (with `resetFlate`): a new message gets the full budget, reads
    * raw frames or, when compressed, a new decompressor fed by the frames
    * and then by the deflate tail.
    */
  function Reset(m: MsgState, h: Header): MsgState {
    var m1 := m.(flate := h.rsv1, limiter := m.limiter.(n := m.limiter.limit, r := Raw));
    var m2 :=
      if h.rsv1 then m1.(limiter := m1.limiter.(r := Inflate), flateTail := DeflateMessageTail, inflated := [], inflateErr := None)
      else m1;
    SetFrame(m2, h)
  }

  /**
    * `reader`: refuses to start while the previous message is unfinished,
    * then reads up to the first frame of a data message, which must not be
    * a continuation, and starts the message there.
    */
  function Reader(c: ConnState): (r: Step<MessageType>)
    ensures r.result.Ok? ==>
      && r.c.msg.limiter.n == c.msg.limiter.limit
      && r.c.msg.limiter.limit == c.msg.limiter.limit
      && (r.c.msg.limiter.r == Inflate <==> r.c.msg.flate)
      && (r.c.msg.flate ==> r.c.msg.flateTail == DeflateMessageTail)
      && (r.c.msg.flate ==> c.copts.Some?)
      && r.c.msg.window == c.msg.window
    ensures r.c.client == c.client && r.c.copts == c.copts
  {
    if !c.msg.fin then
      var e := ReaderFailed(PreviousNotRead);
      Step(SetCloseErr(c, e), Err(e))
    else
      var s := ReadLoop(c);
      ReadLoopKeepsMsg(c);
      if s.result.Err? then Step(s.c, Err(ReaderFailed(s.result.error)))
      else
        var h := s.result.value;
        if h.opcode == OpContinuation then
          var e := ContinuationWithoutStart;
          Step(WriteError(s.c, StatusProtocolError, e), Err(ReaderFailed(e)))
        else
          Step(s.c.(msg := Reset(s.c.msg, h)), Ok(MessageTypeOf(h.opcode)))
  }

  /** `flateTail.Read`: the rest of the deflate tail, then end of file. */
  function TailRead(c: ConnState, want: nat): Chunk {
    var tail := c.msg.flateTail;
    if tail == [] then Chunk(c, [], Some(EOF))
    else
      var k := if want < |tail| then want else |tail|;
      Chunk(c.(msg := c.msg.(flateTail := tail[k..])), tail[..k], None)
  }

  /**
    * `msgReader.read`: the raw bytes of the message. At the end of a frame
    * it ends the message, delivers the deflate tail, or moves to the next
    * frame, which must be a continuation; inside a frame it delivers at
    * most what is left of the frame, and the server unmasks with the
    * rolling key.
    */
  function ReadRaw(c: ConnState, want: nat): (r: Chunk)
    ensures |r.data| <= want
    ensures r.c.msg.limiter == c.msg.limiter && r.c.msg.flate == c.msg.flate && r.c.msg.window == c.msg.window
    ensures r.c.msg.inflated == c.msg.inflated && r.c.msg.inflateErr == c.msg.inflateErr
    ensures r.c.client == c.client && r.c.copts == c.copts
    decreases |c.incoming|
  {
    if c.msg.payloadLength == 0 then
      if c.msg.fin then
        if c.msg.flate then TailRead(c, want) else Chunk(c, [], Some(EOF))
      else
        var s := ReadLoop(c);
        ReadLoopKeepsMsg(c);
        if s.result.Err? then Chunk(s.c, [], Some(s.result.error))
        else if s.result.value.opcode != OpContinuation then
          var e := UnfinishedMessage;
          Chunk(WriteError(s.c, StatusProtocolError, e), [], Some(e))
        else ReadRaw(s.c.(msg := SetFrame(s.c.msg, s.result.value)), want)
    else
      var k := if want > c.msg.payloadLength then c.msg.payloadLength else want;
      var p := ReadFramePayload(c, k);
      if p.err.Some? then p
      else
        var n := |p.data|;
        var m := c.msg.(payloadLength := c.msg.payloadLength - n);
        if c.client then Chunk(p.c.(msg := m), p.data, None)
        else Chunk(p.c.(msg := m.(maskKey := KeyAfter(c.msg.maskKey, n))), Mask(c.msg.maskKey, p.data), None)
  }

  /**
    * A successful raw read of at least one byte makes progress: it moves
    * past a frame, or into the current frame's payload, or into the
    * deflate tail.
    */
  lemma {:induction false} ReadRawProgress(c: ConnState, want: nat)
    requires want > 0
    ensures var r := ReadRaw(c, want);
      r.err.None? ==>
        || |r.c.incoming| < |c.incoming|
        || (|r.c.incoming| == |c.incoming| && r.c.msg.payloadLength < c.msg.payloadLength)
        || (|r.c.incoming| == |c.incoming| && r.c.msg.payloadLength == c.msg.payloadLength
            && |r.c.msg.flateTail| < |c.msg.flateTail|)
    decreases |c.incoming|
  {
    if c.msg.payloadLength == 0 && !c.msg.fin {
      var s := ReadLoop(c);
      if s.result.Ok? && s.result.value.opcode == OpContinuation {
        ReadLoopKeepsMsg(c);
        ReadRawProgress(s.c.(msg := SetFrame(s.c.msg, s.result.value)), want);
      }
    }
  }

  /**
    * The size of the reads the decompressor's input buffer makes (bufio's
    * default); what the decompressor is fed does not depend on it.
    */
  const FlateBufferSize: nat := 4096

  /**
    * The decompressor's input: raw reads of the message, the deflate tail
    * included, until the first error. All bytes read are delivered, with
    * that error; io.EOF itself means the whole message was read.
    */
  function DrainRaw(c: ConnState): (r: Chunk)
    ensures r.err.Some?
    ensures r.c.msg.limiter == c.msg.limiter && r.c.msg.flate == c.msg.flate && r.c.msg.window == c.msg.window
    ensures r.c.msg.inflated == c.msg.inflated && r.c.msg.inflateErr == c.msg.inflateErr
    ensures r.c.client == c.client && r.c.copts == c.copts
    decreases |c.incoming|, c.msg.payloadLength, |c.msg.flateTail|
  {
    var r := ReadRaw(c, FlateBufferSize);
    ReadRawProgress(c, FlateBufferSize);
    if r.err.Some? then r
    else
      var d := DrainRaw(r.c);
      Chunk(d.c, r.data + d.data, d.err)
  }

  /** One step of `DrainRaw`: the first raw read, then the drain of what follows it. */
  lemma DrainStep(c: ConnState)
    ensures var r := ReadRaw(c, FlateBufferSize);
      DrainRaw(c) == if r.err.Some? then r else var d := DrainRaw(r.c); Chunk(d.c, r.data + d.data, d.err)
  {
  }

  /** The message's raw bytes, the deflate tail included, have all been read. */
  predicate Drained(m: MsgState) {
    m.fin && m.payloadLength == 0 && m.flateTail == []
  }

  /**
    * `flate.Reader.Read` once its input is used up: it hands out what it
    * decompressed, at most `want` bytes, and its final error with the last
    * of them.
    */
  function InflateDeliver(c: ConnState, want: nat): (r: Chunk)
    ensures |r.data| <= want && r.data + r.c.msg.inflated == c.msg.inflated
    ensures r.err == (if |r.data| == |c.msg.inflated| then c.msg.inflateErr else None)
    ensures r.c == c.(msg := c.msg.(inflated := r.c.msg.inflated))
  {
    var out := c.msg.inflated;
    var k := if want < |out| then want else |out|;
    assert out[..k] + out[k..] == out;
    Chunk(c.(msg := c.msg.(inflated := out[k..])), out[..k], if k == |out| then c.msg.inflateErr else None)
  }

  /**
    * A read from the decompressor of a compressed message. Its input is
    * the message's raw bytes, read through `msgReader.read` until the end
    * of the deflate tail; the first read pulls all of them (following
    * continuation frames and servicing control frames on the way). An
    * error on the way is passed on as it is (a wrapped io.EOF is not
    * io.EOF itself, so the decompressor does not turn it into
    * io.ErrUnexpectedEOF). Otherwise `inflate` decompresses the bytes with
    * the dictionary, and the reads hand out the result.
    */
  function InflateRead(c: ConnState, want: nat, inflate: Decompressor): (r: Chunk)
    ensures |r.data| <= want
    ensures r.c.msg.limiter == c.msg.limiter && r.c.msg.flate == c.msg.flate && r.c.msg.window == c.msg.window
    ensures r.c.client == c.client && r.c.copts == c.copts
  {
    if Drained(c.msg) then InflateDeliver(c, want)
    else
      var d := DrainRaw(c);
      if d.err != Some(EOF) then Chunk(d.c, [], d.err)
      else
        var out := inflate(c.msg.window, d.data);
        InflateDeliver(d.c.(msg := d.c.msg.(inflated := out.data, inflateErr := out.err)), want)
  }

  /**
    * `limitReader.Read`: with no budget left the message is too big and
    * nothing is read; otherwise at most the budget is read and the budget
    * is charged with what was delivered.
    */
  function LimitRead(c: ConnState, want: nat, inflate: Decompressor): (r: Chunk)
    ensures |r.data| <= want
    ensures r.c.msg.flate == c.msg.flate && r.c.msg.window == c.msg.window
    ensures r.c.msg.limiter.limit == c.msg.limiter.limit && r.c.msg.limiter.r == c.msg.limiter.r
    ensures r.c.client == c.client && r.c.copts == c.copts
  {
    var lim := c.msg.limiter;
    if lim.n <= 0 then
      var e := ReadLimited(lim.limit);
      Chunk(WriteError(c, StatusMessageTooBig, e), [], Some(e))
    else
      var k := if want > lim.n then lim.n else want;
      var r := if lim.r == Raw then ReadRaw(c, k) else InflateRead(c, k, inflate);
      Chunk(r.c.(msg := r.c.msg.(limiter := lim.(n := lim.n - |r.data|))), r.data, r.err)
  }

  /**
    * The test of `msgReader.Read` (read.go:381) for "the message ended", as
    * written: any error wrapping io.EOF, or wrapping io.ErrUnexpectedEOF in
    * the last frame of a compressed message.
    */
  predicate EndsMessageAsWritten(err: Error, fin: bool, flate: bool) {
    IsEOF(err) || (IsUnexpectedEOF(err) && fin && flate)
  }

  /**
    * The test the message reader uses: only io.EOF itself (the end of an
    * uncompressed message, or of the decompressed stream), or
    * io.ErrUnexpectedEOF itself in the last frame of a compressed message
    * (the decompressor's answer once the deflate tail is used up). An
    * end-of-file error the transport produced arrives wrapped and is a
    * failure.
    */
  predicate EndsMessage(err: Error, fin: bool, flate: bool) {
    err == EOF || (err == UnexpectedEOF && fin && flate)
  }

  /** The end test of `msgReader.Read`: as written, or the one the message reader uses. */
  predicate EndTest(asWritten: bool, err: Error, fin: bool, flate: bool) {
    if asWritten then EndsMessageAsWritten(err, fin, flate) else EndsMessage(err, fin, flate)
  }

  /**
    * `msgReader.Read` with the end test chosen by `asWritten`: reads
    * through the limit, keeps decompressed bytes as the dictionary when the
    * peer keeps its context, reports the end of the message as io.EOF, and
    * closes the connection on any other error.
    */
  function ReadMessage(c: ConnState, want: nat, inflate: Decompressor, asWritten: bool): (r: Chunk)
    requires c.msg.flate ==> c.copts.Some?
    ensures |r.data| <= want
    ensures r.c.msg.flate == c.msg.flate && r.c.msg.limiter.limit == c.msg.limiter.limit
    ensures r.c.client == c.client && r.c.copts == c.copts
    ensures r.err.Some? && r.err != Some(EOF) ==> Closed(r.c) && r.err.value.ReadFailed?
  {
    var r := LimitRead(c, want, inflate);
    var c1 :=
      if c.msg.flate && FlateContextTakeover(c.client, c.copts.value)
      then r.c.(msg := r.c.msg.(window := r.c.msg.window + r.data))
      else r.c;
    if r.err.Some? && EndTest(asWritten, r.err.value, c1.msg.fin, c1.msg.flate) then Chunk(c1, r.data, Some(EOF))
    else if r.err.Some? then
      var e := ReadFailed(r.err.value);
      Chunk(SetCloseErr(c1, e), r.data, Some(e))
    else Chunk(c1, r.data, None)
  }

  /**
    * `msgReader.Read` as the message reader performs it: with the end test
    * that takes only io.EOF itself (or io.ErrUnexpectedEOF itself at the
    * end of a compressed message) for the end of the message.
    */
  function MsgRead(c: ConnState, want: nat, inflate: Decompressor): (r: Chunk)
    requires c.msg.flate ==> c.copts.Some?
    ensures |r.data| <= want
    ensures r.c.msg.flate == c.msg.flate && r.c.msg.limiter.limit == c.msg.limiter.limit
    ensures r.c.client == c.client && r.c.copts == c.copts
    ensures r.err.Some? && r.err != Some(EOF) ==> Closed(r.c) && r.err.value.ReadFailed?
  {
    ReadMessage(c, want, inflate, false)
  }

  /** `msgReader.Read` as written in read.go:381: any error wrapping io.EOF ends the message. */
  function MsgReadAsWritten(c: ConnState, want: nat, inflate: Decompressor): (r: Chunk)
    requires c.msg.flate ==> c.copts.Some?
    ensures |r.data| <= want
    ensures r.err.Some? && r.err != Some(EOF) ==> Closed(r.c) && r.err.value.ReadFailed?
  {
    ReadMessage(c, want, inflate, true)
  }
}
