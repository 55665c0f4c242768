/**
  * What the message reader of nhooyr.io/websocket promises over a whole
  * message, stated on the functions of module WsRead: successive reads of
  * a message split into fragments (RFC 6455 section 5.4), with pings and
  * pongs between the fragments, deliver the concatenated (and, on a
  * server, unmasked) payloads and then io.EOF; pings met on the way are
  * answered; the per-message limit lets a message of exactly the limit
  * through and fails the next byte; and a compressed message is read
  * whole, its frames and the deflate tail, before it is decompressed.
  */
module WsMessageProps {
  import opened Wrappers
  import opened WsMask
  import opened WsFrame
  import opened WsRead
  import opened WsReadProps

  // ----- well-formed messages on the transport -----

  /** What a data frame delivers: the server unmasks its payload, the client takes it as it came. */
  function Delivered(client: bool, h: Header, payload: seq<byte>): seq<byte> {
    if client then payload else Mask(h.maskKey, payload)
  }

  /** A frame that arrived whole and passes the reserved-bit and masking checks of `readLoop`. */
  predicate Clean(client: bool, copts: Option<CompressionOptions>, f: Frame) {
    && |f.payload| == f.header.payloadLength
    && !RsvRejected(copts, f.header)
    && (client || f.header.masked)
  }

  /** A ping or pong that `readLoop` services between fragments. */
  predicate Serviced(f: Frame) {
    && (f.header.opcode == OpPing || f.header.opcode == OpPong)
    && f.header.fin && f.header.payloadLength <= MaxControlPayload
  }

  /**
    * `fs` starts with the rest of a message: pings and pongs may come
    * between its data frames, the first data frame is a text or binary
    * frame when `first` holds and a continuation otherwise, every later
    * one is a continuation, and the last one has fin set.
    */
  predicate MessageFrames(client: bool, copts: Option<CompressionOptions>, fs: seq<Frame>, first: bool)
    decreases |fs|
  {
    && fs != []
    && Clean(client, copts, fs[0])
    && if Serviced(fs[0]) then MessageFrames(client, copts, fs[1..], first)
       else
         && (if first then fs[0].header.opcode == OpText || fs[0].header.opcode == OpBinary
             else fs[0].header.opcode == OpContinuation)
         && (fs[0].header.fin || MessageFrames(client, copts, fs[1..], false))
  }

  /** The bytes the data frames of the message at the front of `fs` deliver, control frames skipped. */
  function MessageData(client: bool, fs: seq<Frame>): seq<byte>
    decreases |fs|
  {
    if fs == [] then []
    else if IsControl(fs[0].header.opcode) then MessageData(client, fs[1..])
    else Delivered(client, fs[0].header, fs[0].payload) + (if fs[0].header.fin then [] else MessageData(client, fs[1..]))
  }

  /** The pongs that answer the pings met before the end of the message at the front of `fs`. */
  function Pongs(fs: seq<Frame>): seq<Outgoing>
    decreases |fs|
  {
    if fs == [] then []
    else if fs[0].header.opcode == OpPing then [Pong(Unmasked(fs[0].header, fs[0].payload))] + Pongs(fs[1..])
    else if IsControl(fs[0].header.opcode) || !fs[0].header.fin then Pongs(fs[1..])
    else []
  }

  /** Whether the first data frame in `fs` is marked compressed (rsv1). */
  function StartsCompressed(fs: seq<Frame>): bool
    decreases |fs|
  {
    if fs == [] then false
    else if IsControl(fs[0].header.opcode) then StartsCompressed(fs[1..])
    else fs[0].header.rsv1
  }

  // ----- the state of a reader inside a message -----

  /**
    * The connection is open, the payload of the current frame is on the
    * transport in full, and unless that frame is the last one the rest of
    * the message follows.
    */
  predicate Reading(c: ConnState) {
    && !Closed(c)
    && |c.body| == c.msg.payloadLength
    && (!c.msg.fin ==> MessageFrames(c.client, c.copts, c.incoming, false))
  }

  /** What is left of the current frame, as the reader delivers it. */
  function FrameRest(c: ConnState): seq<byte> {
    if c.client then c.body else Mask(c.msg.maskKey, c.body)
  }

  /** Everything the raw reads have still to deliver: the message's bytes, then the rest of the deflate tail. */
  function RawRest(c: ConnState): seq<byte> {
    FrameRest(c)
    + (if c.msg.fin then [] else MessageData(c.client, c.incoming))
    + (if c.msg.flate then c.msg.flateTail else [])
  }

  /** The pongs still to be sent before the message ends. */
  function PongsAhead(c: ConnState): seq<Outgoing> {
    if c.msg.fin then [] else Pongs(c.incoming)
  }

  /** The state after `readLoop` has serviced the next frame, a ping or a pong. */
  function AfterServiced(c: ConnState): ConnState
    requires !Closed(c) && c.incoming != [] && Clean(c.client, c.copts, c.incoming[0]) && Serviced(c.incoming[0])
  {
    var f := c.incoming[0];
    var b := Unmasked(f.header, f.payload);
    var next := c.(incoming := c.incoming[1..], body := []);
    if f.header.opcode == OpPing then next.(sent := c.sent + [Pong(b)])
    else next.(activePings := if b in c.activePings then c.activePings[b := true] else c.activePings)
  }

  /** `readLoop` services a ping or pong and goes on to the next frame. */
  lemma ServicedStep(c: ConnState)
    requires !Closed(c) && c.incoming != [] && Clean(c.client, c.copts, c.incoming[0]) && Serviced(c.incoming[0])
    ensures ReadLoop(c) == ReadLoop(AfterServiced(c))
  {
    var f := c.incoming[0];
    var h := f.header;
    assert CompleteControl(c, h);
    assert f.payload[..h.payloadLength] == f.payload;
    assert f.payload[h.payloadLength..] == [];
    if h.opcode == OpPing {
      PingAnswered(c, h);
    } else {
      PongSignalsWaiter(c, h);
    }
  }

  /**
    * `readLoop` over the rest of a message answers the pings before the
    * next data frame and returns that frame, leaving the message reader
    * alone.
    */
  lemma {:induction false} LoopToData(c: ConnState, first: bool)
    requires !Closed(c) && MessageFrames(c.client, c.copts, c.incoming, first)
    ensures var s := ReadLoop(c);
      && s.result.Ok? && !Closed(s.c) && s.c.msg == c.msg
      && var h := s.result.value;
      && |s.c.body| == h.payloadLength
      && (if first then h.opcode == OpText || h.opcode == OpBinary else h.opcode == OpContinuation)
      && h.rsv1 == StartsCompressed(c.incoming)
      && (!h.fin ==> MessageFrames(c.client, c.copts, s.c.incoming, false))
    decreases |c.incoming|
  {
    ReadLoopKeepsMsg(c);
    if Serviced(c.incoming[0]) {
      ServicedStep(c);
      LoopToData(AfterServiced(c), first);
    } else {
      DataFrameEndsLoop(c, c.incoming[0].header);
    }
  }

  /**
    * What the message still delivers is the same before and after
    * `readLoop` moves to its next data frame.
    */
  lemma {:induction false} LoopKeepsData(c: ConnState, first: bool)
    requires !Closed(c) && MessageFrames(c.client, c.copts, c.incoming, first)
    ensures var s := ReadLoop(c);
      && s.result.Ok?
      && var h := s.result.value;
      && MessageData(c.client, c.incoming)
        == Delivered(c.client, h, s.c.body) + (if h.fin then [] else MessageData(c.client, s.c.incoming))
    decreases |c.incoming|
  {
    LoopToData(c, first);
    var f := c.incoming[0];
    if Serviced(f) {
      var next := AfterServiced(c);
      ServicedStep(c);
      assert MessageData(c.client, c.incoming) == MessageData(c.client, next.incoming);
      LoopKeepsData(next, first);
    } else {
      DataFrameEndsLoop(c, f.header);
    }
  }

  /** Servicing a ping sends the first pong owed; servicing a pong owes nothing. */
  lemma ServicedPongs(c: ConnState)
    requires !Closed(c) && c.incoming != [] && Clean(c.client, c.copts, c.incoming[0]) && Serviced(c.incoming[0])
    ensures var next := AfterServiced(c); c.sent + Pongs(c.incoming) == next.sent + Pongs(next.incoming)
  {
    var f := c.incoming[0];
    assert IsControl(f.header.opcode);
    if f.header.opcode == OpPing {
      assert Pongs(c.incoming) == [Pong(Unmasked(f.header, f.payload))] + Pongs(c.incoming[1..]);
    } else {
      assert Pongs(c.incoming) == Pongs(c.incoming[1..]);
    }
  }

  /**
    * The pongs owed before the message ends are the same before and after
    * `readLoop` moves to its next data frame, counting those it sent.
    */
  lemma {:induction false} LoopKeepsPongs(c: ConnState, first: bool)
    requires !Closed(c) && MessageFrames(c.client, c.copts, c.incoming, first)
    ensures var s := ReadLoop(c);
      && s.result.Ok?
      && var h := s.result.value;
      && c.sent + Pongs(c.incoming) == s.c.sent + (if h.fin then [] else Pongs(s.c.incoming))
    decreases |c.incoming|
  {
    LoopToData(c, first);
    var f := c.incoming[0];
    if Serviced(f) {
      var next := AfterServiced(c);
      ServicedStep(c);
      ServicedPongs(c);
      LoopKeepsPongs(next, first);
    } else {
      DataFrameEndsLoop(c, f.header);
      assert Pongs(c.incoming) == if f.header.fin then [] else Pongs(c.incoming[1..]);
    }
  }

  /**
    * What one raw read `r` from a reader inside a message does: the reader
    * stays inside the message, `r` delivers the next bytes of what is
    * left, the pings passed on the way are answered, and it reports io.EOF
    * exactly when nothing is left.
    */
  predicate RawStep(c: ConnState, r: Chunk) {
    && Reading(r.c)
    && r.data + RawRest(r.c) == RawRest(c)
    && r.c.sent + PongsAhead(r.c) == c.sent + PongsAhead(c)
    && (RawRest(c) == [] ==>
      && r.data == [] && r.err == Some(EOF)
      && r.c.msg.fin && r.c.msg.payloadLength == 0 && (r.c.msg.flate ==> r.c.msg.flateTail == []))
    && (RawRest(c) != [] ==> r.err.None? && r.data != [])
  }

  /** The reader after `n` more bytes of the current frame were read. */
  function Advanced(c: ConnState, n: nat): ConnState
    requires n <= |c.body| && n <= c.msg.payloadLength
  {
    c.(body := c.body[n..], msg := c.msg.(payloadLength := c.msg.payloadLength - n,
       maskKey := if c.client then c.msg.maskKey else KeyAfter(c.msg.maskKey, n)))
  }

  /** Inside a frame whose payload is all there, a read takes the next bytes of the frame and nothing else changes. */
  lemma InFrameState(c: ConnState, want: nat)
    requires Reading(c) && want > 0 && c.msg.payloadLength > 0
    ensures var n := Min(want, c.msg.payloadLength);
      ReadRaw(c, want) == Chunk(Advanced(c, n), FrameRest(c)[..n], None)
  {
    var n := Min(want, c.msg.payloadLength);
    var p := ReadFramePayload(c, n);
    assert p == Chunk(c.(body := c.body[n..]), c.body[..n], None);
    var m := c.msg.(payloadLength := c.msg.payloadLength - n);
    assert ReadRaw(c, want) == if c.client then Chunk(p.c.(msg := m), p.data, None)
      else Chunk(p.c.(msg := m.(maskKey := KeyAfter(c.msg.maskKey, n))), Mask(c.msg.maskKey, p.data), None);
    if !c.client {
      assert Mask(c.msg.maskKey, p.data) == FrameRest(c)[..n] by {
        assert c.body == c.body[..n] + c.body[n..];
        MaskAppend(c.msg.maskKey, c.body[..n], c.body[n..]);
      }
    }
  }

  /** Taking the next `n` bytes of the current frame is a step through what the message has left. */
  lemma AdvanceStep(c: ConnState, n: nat)
    requires Reading(c) && 0 < n <= c.msg.payloadLength
    ensures RawStep(c, Chunk(Advanced(c, n), FrameRest(c)[..n], None))
  {
    var c1 := Advanced(c, n);
    assert FrameRest(c) == FrameRest(c)[..n] + FrameRest(c1) by {
      assert c.body == c.body[..n] + c.body[n..];
      if !c.client {
        MaskAppend(c.msg.maskKey, c.body[..n], c.body[n..]);
      }
    }
    var later := if c.msg.fin then [] else MessageData(c.client, c.incoming);
    var tail := if c.msg.flate then c.msg.flateTail else [];
    assert Reading(c1);
    assert RawRest(c1) == FrameRest(c1) + later + tail;
    assert RawRest(c) == FrameRest(c)[..n] + (FrameRest(c1) + later + tail);
  }

  /** Inside a frame whose payload is all there, a read of at least one byte delivers its next bytes. */
  lemma ReadRawInFrame(c: ConnState, want: nat)
    requires Reading(c) && want > 0 && c.msg.payloadLength > 0
    ensures RawStep(c, ReadRaw(c, want))
  {
    InFrameState(c, want);
    AdvanceStep(c, Min(want, c.msg.payloadLength));
  }

  /** At the end of the last frame a read delivers the rest of the deflate tail, then io.EOF. */
  lemma ReadRawAtEnd(c: ConnState, want: nat)
    requires Reading(c) && want > 0 && c.msg.payloadLength == 0 && c.msg.fin
    ensures RawStep(c, ReadRaw(c, want))
  {
    assert c.body == [];
    assert FrameRest(c) == [];
  }

  /** The reader after `readLoop` has brought it to the next frame of the message. */
  function NextFrame(c: ConnState): ConnState
    requires Reading(c) && c.msg.payloadLength == 0 && !c.msg.fin
  {
    LoopToData(c, false);
    var s := ReadLoop(c);
    s.c.(msg := SetFrame(s.c.msg, s.result.value))
  }

  /**
    * At the end of a frame that is not the last, a read is the read from
    * the next frame of the message, which leaves what is to be delivered
    * and the pongs owed as they were.
    */
  lemma ReadRawMoves(c: ConnState, want: nat)
    requires Reading(c) && c.msg.payloadLength == 0 && !c.msg.fin
    ensures var next := NextFrame(c);
      && ReadRaw(c, want) == ReadRaw(next, want)
      && Reading(next) && |next.incoming| < |c.incoming|
      && RawRest(c) == RawRest(next)
      && c.sent + PongsAhead(c) == next.sent + PongsAhead(next)
  {
    assert c.body == [];
    LoopToData(c, false);
    LoopKeepsData(c, false);
    LoopKeepsPongs(c, false);
    var s := ReadLoop(c);
    var h := s.result.value;
    var next := NextFrame(c);
    var tail := if c.msg.flate then c.msg.flateTail else [];
    assert next.msg.flate == c.msg.flate && next.msg.flateTail == c.msg.flateTail;
    assert ReadRaw(c, want) == ReadRaw(next, want);
    assert Reading(next);
    assert FrameRest(next) == Delivered(c.client, h, s.c.body);
    assert RawRest(c) == MessageData(c.client, c.incoming) + tail;
    assert RawRest(next) == Delivered(c.client, h, s.c.body) + (if h.fin then [] else MessageData(c.client, s.c.incoming)) + tail;
  }

  /**
    * One raw read of at least one byte inside a message: it delivers the
    * next bytes of what the message still has (following continuation
    * frames and answering pings on the way), and nothing but io.EOF once
    * nothing is left.
    */
  lemma {:induction false} ReadRawStep(c: ConnState, want: nat)
    requires Reading(c) && want > 0
    ensures RawStep(c, ReadRaw(c, want))
    decreases |c.incoming|
  {
    if c.msg.payloadLength > 0 {
      ReadRawInFrame(c, want);
    } else if c.msg.fin {
      ReadRawAtEnd(c, want);
    } else {
      ReadRawMoves(c, want);
      ReadRawStep(NextFrame(c), want);
    }
  }

  // ----- successive reads of an uncompressed message -----

  /**
    * One `msgReader.Read` of an uncompressed message: with no budget left
    * it fails as too big; once nothing is left it reports io.EOF;
    * otherwise it delivers the next bytes of the message, at most the
    * budget, and charges the budget with them.
    */
  lemma MsgReadStep(c: ConnState, want: nat, inflate: Decompressor)
    requires Reading(c) && !c.msg.flate && c.msg.limiter.r == Raw && want > 0
    ensures var r := MsgRead(c, want, inflate); var n := c.msg.limiter.n;
      && r.c.msg.limiter.limit == c.msg.limiter.limit && r.c.msg.limiter.r == Raw && !r.c.msg.flate
      && (n <= 0 ==> r.data == [] && r.err == Some(ReadFailed(ReadLimited(c.msg.limiter.limit))) && Closed(r.c))
      && (n > 0 && RawRest(c) == [] ==>
        r.data == [] && r.err == Some(EOF) && Reading(r.c) && r.c.sent == c.sent + PongsAhead(c))
      && (n > 0 && RawRest(c) != [] ==>
        && r.err.None? && 0 < |r.data| <= n && r.c.msg.limiter.n == n - |r.data|
        && Reading(r.c) && r.data + RawRest(r.c) == RawRest(c)
        && r.c.sent + PongsAhead(r.c) == c.sent + PongsAhead(c))
  {
    var n := c.msg.limiter.n;
    if n > 0 {
      var k := if want > n then n else want;
      ReadRawStep(c, k);
    }
  }

  /**
    * `steps` successive calls of `msgReader.Read`, each asking for `want`
    * bytes, stopping at the first error: the bytes they delivered, in
    * order, and that error.
    */
  function ReadAll(c: ConnState, want: nat, inflate: Decompressor, steps: nat): Chunk
    requires c.msg.flate ==> c.copts.Some?
    decreases steps
  {
    if steps == 0 then Chunk(c, [], None)
    else
      var r := MsgRead(c, want, inflate);
      if r.err.Some? then r
      else
        var rest := ReadAll(r.c, want, inflate, steps - 1);
        Chunk(rest.c, r.data + rest.data, rest.err)
  }

  /** The first of `steps` reads, then the rest when it did not fail. */
  lemma ReadAllUnfold(c: ConnState, want: nat, inflate: Decompressor, steps: nat)
    requires (c.msg.flate ==> c.copts.Some?) && steps > 0
    ensures var r := MsgRead(c, want, inflate);
      && (r.err.Some? ==> ReadAll(c, want, inflate, steps) == r)
      && (r.err.None? ==>
        var rest := ReadAll(r.c, want, inflate, steps - 1);
        ReadAll(c, want, inflate, steps) == Chunk(rest.c, r.data + rest.data, rest.err))
  {
  }

  /** A prefix reaching past `d` of `d + x` is `d` and a prefix of `x`. */
  lemma PrefixOfAppend(d: seq<byte>, x: seq<byte>, n: nat)
    requires |d| <= n <= |d| + |x|
    ensures (d + x)[..n] == d + x[..n - |d|]
  {
    assert forall i :: 0 <= i < n ==> (d + x)[..n][i] == (d + x[..n - |d|])[i];
  }

  /** The budget as a count of bytes: nothing once it is used up. */
  function Budget(n: int): nat {
    if n < 0 then 0 else n
  }

  /**
    * Reading an uncompressed message to its end: when what is left fits
    * in the budget (with a byte to spare for the read that meets the end),
    * the reads deliver all of it and then io.EOF, and every ping on the
    * way has been answered.
    */
  lemma {:induction false} ReadAllDelivers(c: ConnState, want: nat, inflate: Decompressor, steps: nat)
    requires Reading(c) && !c.msg.flate && c.msg.limiter.r == Raw && want > 0
    requires steps > |RawRest(c)| && |RawRest(c)| < c.msg.limiter.n
    ensures var r := ReadAll(c, want, inflate, steps);
      r.data == RawRest(c) && r.err == Some(EOF) && !Closed(r.c) && r.c.sent == c.sent + PongsAhead(c)
    decreases steps
  {
    MsgReadStep(c, want, inflate);
    var r := MsgRead(c, want, inflate);
    if RawRest(c) != [] {
      ReadAllDelivers(r.c, want, inflate, steps - 1);
      var rest := ReadAll(r.c, want, inflate, steps - 1);
      ReadAllUnfold(c, want, inflate, steps);
    } else {
      ReadAllUnfold(c, want, inflate, steps);
    }
  }

  /**
    * Reading an uncompressed message that does not fit in the budget: the
    * reads deliver exactly the budget and then fail as too big, closing
    * the connection.
    */
  lemma {:induction false} ReadAllLimited(c: ConnState, want: nat, inflate: Decompressor, steps: nat)
    requires Reading(c) && !c.msg.flate && c.msg.limiter.r == Raw && want > 0
    requires steps > |RawRest(c)| && |RawRest(c)| >= c.msg.limiter.n
    ensures var r := ReadAll(c, want, inflate, steps);
      && r.data == RawRest(c)[..Budget(c.msg.limiter.n)]
      && r.err == Some(ReadFailed(ReadLimited(c.msg.limiter.limit))) && Closed(r.c)
    decreases steps
  {
    MsgReadStep(c, want, inflate);
    var r := MsgRead(c, want, inflate);
    var n := c.msg.limiter.n;
    if n > 0 {
      var d := r.data;
      var all := RawRest(c);
      ReadAllLimited(r.c, want, inflate, steps - 1);
      var rest := ReadAll(r.c, want, inflate, steps - 1);
      ReadAllUnfold(c, want, inflate, steps);
      PrefixOfAppend(d, RawRest(r.c), n);
    } else {
      ReadAllUnfold(c, want, inflate, steps);
    }
  }

  /**
    * `reader` at a message on the transport: after the pings and pongs
    * before it, it starts the message at its first frame with the full
    * budget; what the raw reads have to deliver is then the message's
    * bytes (and the deflate tail when the message is compressed).
    */
  lemma ReaderStartsReading(c: ConnState)
    requires !Closed(c) && c.msg.fin && MessageFrames(c.client, c.copts, c.incoming, true)
    ensures var s := Reader(c);
      && s.result.Ok? && Reading(s.c)
      && s.c.msg.flate == StartsCompressed(c.incoming)
      && s.c.msg.limiter.n == c.msg.limiter.limit && s.c.msg.limiter.limit == c.msg.limiter.limit
      && s.c.msg.limiter.r == (if s.c.msg.flate then Inflate else Raw)
      && RawRest(s.c) == MessageData(c.client, c.incoming) + (if s.c.msg.flate then DeflateMessageTail else [])
      && s.c.sent + PongsAhead(s.c) == c.sent + Pongs(c.incoming)
      && s.c.msg.window == c.msg.window
      && (s.c.msg.flate ==> s.c.msg.inflated == [] && s.c.msg.inflateErr == None && !Drained(s.c.msg))
  {
    LoopToData(c, true);
    LoopKeepsData(c, true);
    LoopKeepsPongs(c, true);
  }

  /**
    * RFC 6455 section 5.4: a message sent as a text or binary frame and
    * continuation frames, with pings and pongs between them, is read by
    * `reader` and successive reads as the concatenation of its fragments'
    * payloads (unmasked on a server), followed by io.EOF; every ping on
    * the way has been answered with a pong, in order, and the connection
    * stays open.
    */
  lemma MessageReassembled(c: ConnState, want: nat, inflate: Decompressor, steps: nat)
    requires !Closed(c) && c.msg.fin && want > 0
    requires MessageFrames(c.client, c.copts, c.incoming, true) && !StartsCompressed(c.incoming)
    requires |MessageData(c.client, c.incoming)| < c.msg.limiter.limit
    requires steps > |MessageData(c.client, c.incoming)|
    ensures var s := Reader(c);
      && s.result.Ok?
      && var r := ReadAll(s.c, want, inflate, steps);
      && r.data == MessageData(c.client, c.incoming) && r.err == Some(EOF)
      && !Closed(r.c) && r.c.sent == c.sent + Pongs(c.incoming)
  {
    ReaderStartsReading(c);
    ReadAllDelivers(Reader(c).c, want, inflate, steps);
  }

  /**
    * `SetReadLimit(limit)`: a message of at most `limit` bytes is read in
    * full, and one of more fails as too big once `limit + 1` bytes were
    * delivered, closing the connection.
    */
  lemma ReadLimitEnforced(c: ConnState, limit: nat, want: nat, inflate: Decompressor, steps: nat)
    requires limit < MaxInt64
    requires !Closed(c) && c.msg.fin && want > 0
    requires MessageFrames(c.client, c.copts, c.incoming, true) && !StartsCompressed(c.incoming)
    requires steps > |MessageData(c.client, c.incoming)|
    ensures var s := Reader(SetReadLimit(c, limit));
      && s.result.Ok?
      && var r := ReadAll(s.c, want, inflate, steps); var m := MessageData(c.client, c.incoming);
      && (|m| <= limit ==> r.data == m && r.err == Some(EOF) && !Closed(r.c))
      && (|m| > limit ==> r.data == m[..limit + 1] && r.err == Some(ReadFailed(ReadLimited(limit + 1))) && Closed(r.c))
  {
    var c1 := SetReadLimit(c, limit);
    ReaderStartsReading(c1);
    var s := Reader(c1).c;
    if |MessageData(c.client, c.incoming)| <= limit {
      ReadAllDelivers(s, want, inflate, steps);
    } else {
      ReadAllLimited(s, want, inflate, steps);
    }
  }

  /**
    * RFC 6455 section 5.5: a ping between the two fragments of a message
    * is answered with a pong carrying its payload, and its payload never
    * reaches the message's reader.
    */
  lemma PingBetweenFragments(c: ConnState, first: Frame, ping: Frame, last: Frame,
                             want: nat, inflate: Decompressor, steps: nat)
    requires !Closed(c) && c.msg.fin && want > 0
    requires |c.incoming| >= 3 && c.incoming[0] == first && c.incoming[1] == ping && c.incoming[2] == last
    requires Clean(c.client, c.copts, first) && Clean(c.client, c.copts, ping) && Clean(c.client, c.copts, last)
    requires (first.header.opcode == OpText || first.header.opcode == OpBinary) && !first.header.fin && !first.header.rsv1
    requires ping.header.opcode == OpPing && ping.header.fin && ping.header.payloadLength <= MaxControlPayload
    requires last.header.opcode == OpContinuation && last.header.fin
    requires |first.payload| + |last.payload| < c.msg.limiter.limit
    requires steps > |first.payload| + |last.payload|
    ensures var s := Reader(c);
      && s.result.Ok?
      && var r := ReadAll(s.c, want, inflate, steps);
      && r.data == Delivered(c.client, first.header, first.payload) + Delivered(c.client, last.header, last.payload)
      && r.err == Some(EOF)
      && r.c.sent == c.sent + [Pong(Unmasked(ping.header, ping.payload))]
  {
    var fs := c.incoming;
    assert fs[1..][0] == ping && fs[2..][0] == last && fs[1..][1..] == fs[2..];
    assert MessageFrames(c.client, c.copts, fs[2..], false);
    assert MessageFrames(c.client, c.copts, fs[1..], false);
    assert MessageFrames(c.client, c.copts, fs, true);
    assert !StartsCompressed(fs);
    var d0 := Delivered(c.client, first.header, first.payload);
    var d1 := Delivered(c.client, last.header, last.payload);
    assert MessageData(c.client, fs[2..]) == d1;
    assert MessageData(c.client, fs[1..]) == d1;
    assert MessageData(c.client, fs) == d0 + d1;
    assert |d0| == |first.payload| && |d1| == |last.payload|;
    assert Pongs(fs[2..]) == [];
    assert Pongs(fs[1..]) == [Pong(Unmasked(ping.header, ping.payload))];
    assert Pongs(fs) == Pongs(fs[1..]);
    MessageReassembled(c, want, inflate, steps);
  }

  // ----- a compressed message -----

  /**
    * The decompressor's input: draining the raw reads of a message yields
    * all its bytes and the whole deflate tail, ending with io.EOF itself,
    * and answers every ping on the way.
    */
  lemma {:induction false} DrainReadsMessage(c: ConnState)
    requires Reading(c)
    ensures var d := DrainRaw(c);
      && d.data == RawRest(c) && d.err == Some(EOF) && Reading(d.c)
      && d.c.msg.fin && d.c.msg.payloadLength == 0 && (d.c.msg.flate ==> d.c.msg.flateTail == [])
      && d.c.sent == c.sent + PongsAhead(c)
    decreases |c.incoming|, c.msg.payloadLength, |c.msg.flateTail|
  {
    ReadRawStep(c, FlateBufferSize);
    ReadRawProgress(c, FlateBufferSize);
    var r := ReadRaw(c, FlateBufferSize);
    if r.err.None? {
      DrainReadsMessage(r.c);
    }
  }

  /**
    * One read once the decompressor has its input: it hands out the next
    * bytes it decompressed, at most the request and the budget, charges
    * the budget and (when the peer keeps its context) the dictionary with
    * them, and ends the message with the last of them.
    */
  lemma DeliverStep(c: ConnState, want: nat, inflate: Decompressor)
    requires c.msg.flate && c.copts.Some? && c.msg.limiter.r == Inflate && Drained(c.msg) && want > 0
    requires c.msg.inflateErr == Some(EOF) || c.msg.inflateErr == Some(UnexpectedEOF)
    requires |c.msg.inflated| < c.msg.limiter.n
    ensures var r := MsgRead(c, want, inflate); var out := c.msg.inflated;
      var j := Min(want, |out|);
      && r.data == out[..j]
      && r.err == (if j == |out| then Some(EOF) else None)
      && r.c.msg.inflated == out[j..] && r.c.msg.limiter == c.msg.limiter.(n := c.msg.limiter.n - j)
      && r.c.msg.window == c.msg.window + (if FlateContextTakeover(c.client, c.copts.value) then out[..j] else [])
      && r.c.msg.flate && Drained(r.c.msg) && r.c.msg.inflateErr == c.msg.inflateErr
      && r.c.client == c.client && r.c.copts == c.copts && r.c.sent == c.sent && r.c.closeErr == c.closeErr
  {
    var out := c.msg.inflated;
    var n := c.msg.limiter.n;
    var k := if want > n then n else want;
    assert Min(k, |out|) == Min(want, |out|);
    var d := InflateDeliver(c, k);
    assert InflateRead(c, k, inflate) == d;
    assert d.data + d.c.msg.inflated == out;
    assert d.data == out[..|d.data|] && d.c.msg.inflated == out[|d.data|..];
  }

  /**
    * Once the decompressor has its input, successive reads hand out what
    * it decompressed, within the budget, and then io.EOF when it ends with
    * io.EOF or io.ErrUnexpectedEOF (the end of a sync-flushed message);
    * the dictionary grows by the bytes handed out when the peer keeps its
    * context.
    */
  lemma {:induction false} DeliverAll(c: ConnState, want: nat, inflate: Decompressor, steps: nat)
    requires c.msg.flate && c.copts.Some? && c.msg.limiter.r == Inflate && Drained(c.msg) && want > 0
    requires c.msg.inflateErr == Some(EOF) || c.msg.inflateErr == Some(UnexpectedEOF)
    requires |c.msg.inflated| < c.msg.limiter.n && steps > |c.msg.inflated|
    ensures var r := ReadAll(c, want, inflate, steps);
      && r.data == c.msg.inflated && r.err == Some(EOF)
      && r.c.sent == c.sent && r.c.closeErr == c.closeErr
    decreases steps
  {
    DeliverStep(c, want, inflate);
    var out := c.msg.inflated;
    var j := Min(want, |out|);
    var r := MsgRead(c, want, inflate);
    if j < |out| {
      DeliverAll(r.c, want, inflate, steps - 1);
      assert out == out[..j] + out[j..];
    }
  }

  /** The dictionary after a compressed message grows by what was handed out, when the peer keeps its context. */
  lemma {:induction false} DeliverAllWindow(c: ConnState, want: nat, inflate: Decompressor, steps: nat)
    requires c.msg.flate && c.copts.Some? && c.msg.limiter.r == Inflate && Drained(c.msg) && want > 0
    requires c.msg.inflateErr == Some(EOF) || c.msg.inflateErr == Some(UnexpectedEOF)
    requires |c.msg.inflated| < c.msg.limiter.n && steps > |c.msg.inflated|
    ensures ReadAll(c, want, inflate, steps).c.msg.window
      == c.msg.window + (if FlateContextTakeover(c.client, c.copts.value) then c.msg.inflated else [])
    decreases steps
  {
    DeliverStep(c, want, inflate);
    var out := c.msg.inflated;
    var j := Min(want, |out|);
    var t := FlateContextTakeover(c.client, c.copts.value);
    var r := MsgRead(c, want, inflate);
    if j < |out| {
      var c1 := r.c;
      DeliverAllWindow(c1, want, inflate, steps - 1);
      var rest := ReadAll(c1, want, inflate, steps - 1);
      assert ReadAll(c, want, inflate, steps).c == rest.c;
      assert rest.c.msg.window == c1.msg.window + (if t then out[j..] else []);
      WindowGrows(c.msg.window, out, j, t);
    } else {
      assert ReadAll(c, want, inflate, steps).c == r.c;
      assert out[..j] == out;
    }
  }

  /** Keeping the bytes handed out piece by piece keeps them all. */
  lemma WindowGrows(w: seq<byte>, out: seq<byte>, j: nat, t: bool)
    requires j <= |out|
    ensures (w + (if t then out[..j] else [])) + (if t then out[j..] else []) == w + (if t then out else [])
  {
    assert out[..j] + out[j..] == out;
  }

  /** The state in which the first read of a compressed message hands the drained bytes to the decompressor. */
  function Inflating(c: ConnState, inflate: Decompressor): ConnState
    requires Reading(c)
  {
    var d := DrainRaw(c);
    var out := inflate(c.msg.window, d.data);
    d.c.(msg := d.c.msg.(inflated := out.data, inflateErr := out.err))
  }

  /** With the same budget, the limit reader of a compressed message depends only on the decompressor's answer. */
  lemma SameInflateSameLimitRead(c: ConnState, c2: ConnState, want: nat, inflate: Decompressor)
    requires c.msg.limiter == c2.msg.limiter && c.msg.limiter.r == Inflate && c.msg.limiter.n > 0
    requires var n := c.msg.limiter.n; var k := if want > n then n else want;
      InflateRead(c, k, inflate) == InflateRead(c2, k, inflate)
    ensures LimitRead(c, want, inflate) == LimitRead(c2, want, inflate)
  {
  }

  /** `msgReader.Read` depends on the connection only through the limit reader's answer and the message's settings. */
  lemma SameLimitReadSameRead(c: ConnState, c2: ConnState, want: nat, inflate: Decompressor)
    requires c.msg.flate ==> c.copts.Some?
    requires LimitRead(c, want, inflate) == LimitRead(c2, want, inflate)
    requires c.msg.flate == c2.msg.flate && c.client == c2.client && c.copts == c2.copts
    ensures MsgRead(c, want, inflate) == MsgRead(c2, want, inflate)
  {
  }

  /** The first read of a compressed message drains it and then reads as if the decompressor had its input already. */
  lemma FirstReadDrains(c: ConnState, want: nat, inflate: Decompressor, steps: nat)
    requires Reading(c) && c.msg.flate && c.copts.Some? && c.msg.limiter.r == Inflate && !Drained(c.msg)
    requires c.msg.limiter.n > 0 && steps > 0
    ensures ReadAll(c, want, inflate, steps) == ReadAll(Inflating(c, inflate), want, inflate, steps)
  {
    DrainReadsMessage(c);
    var c2 := Inflating(c, inflate);
    assert Drained(c2.msg) && c2.msg.limiter == c.msg.limiter && c2.msg.flate && c2.copts == c.copts;
    var n := c.msg.limiter.n;
    var k := if want > n then n else want;
    assert InflateRead(c, k, inflate) == InflateDeliver(c2, k);
    SameInflateSameLimitRead(c, c2, want, inflate);
    SameLimitReadSameRead(c, c2, want, inflate);
  }

  /**
    * RFC 7692 section 7.2.2: a compressed message, fragmented and with
    * pings between its frames, is decompressed from the concatenation of
    * its frames' payloads followed by the deflate tail, with the
    * dictionary kept from earlier messages; the reads deliver the
    * decompressed bytes and then io.EOF, and every ping is answered.
    */
  lemma CompressedMessageInflated(c: ConnState, want: nat, inflate: Decompressor, steps: nat)
    requires !Closed(c) && c.msg.fin && want > 0
    requires MessageFrames(c.client, c.copts, c.incoming, true) && StartsCompressed(c.incoming)
    requires var out := inflate(c.msg.window, MessageData(c.client, c.incoming) + DeflateMessageTail);
      && (out.err == Some(EOF) || out.err == Some(UnexpectedEOF))
      && |out.data| < c.msg.limiter.limit && steps > |out.data|
    ensures var s := Reader(c);
      && s.result.Ok? && s.c.msg.flate
      && var out := inflate(c.msg.window, MessageData(c.client, c.incoming) + DeflateMessageTail);
      && var r := ReadAll(s.c, want, inflate, steps);
      && r.data == out.data && r.err == Some(EOF)
      && !Closed(r.c) && r.c.sent == c.sent + Pongs(c.incoming)
  {
    ReaderStartsReading(c);
    var s := Reader(c).c;
    DrainReadsMessage(s);
    FirstReadDrains(s, want, inflate, steps);
    DeliverAll(Inflating(s, inflate), want, inflate, steps);
  }
}
