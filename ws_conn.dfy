/**
  * The read path of nhooyr.io/websocket (read.go) as the objects it
  * updates in place: the connection, its message reader and the message
  * reader's limit reader. Each method performs the steps of its Go
  * counterpart on the fields and is proved to leave the objects in the
  * state, and to deliver the bytes and the error, that the function of the
  * same name in module WsRead computes from the state before the call.
  *
  * A read fills the caller's buffer `p`, an array. Go's back pointers
  * `mr.c` and `lr.c` are the parameter `c`, which must be the connection
  * the reader belongs to.
  */
module WsConn {
  import opened Wrappers
  import opened WsMask
  import opened WsFrame
  import opened WsRead

  /** Copies `src` into the front of `p` (the builtin `copy`); the rest of `p` is untouched. */
  method CopyInto(p: array<byte>, src: seq<byte>)
    requires |src| <= p.Length
    modifies p
    ensures p[..|src|] == src
    ensures p[|src|..] == old(p[|src|..])
  {
    var i := 0;
    while i < |src|
      invariant i <= |src|
      invariant forall j :: 0 <= j < i ==> p[j] == src[j]
      invariant forall j :: i <= j < p.Length ==> p[j] == old(p[j])
    {
      p[i] := src[i];
      i := i + 1;
    }
    assert p[..|src|] == src;
  }

  /**
    * `mask`: unmasks the first `n` bytes of `p` in place with the rolling
    * key and returns the key for the byte after them.
    */
  method MaskInPlace(key: bv32, p: array<byte>, n: nat) returns (next: bv32)
    requires n <= p.Length
    modifies p
    ensures p[..n] == Mask(key, old(p[..n]))
    ensures p[n..] == old(p[n..])
    ensures next == KeyAfter(key, n)
  {
    ghost var orig := p[..];
    var i := 0;
    next := key;
    while i < n
      invariant i <= n
      invariant next == KeyAfter(key, i)
      invariant forall j :: 0 <= j < i ==> p[j] == orig[j] ^ KeyByte(KeyAfter(key, j))
      invariant forall j :: i <= j < p.Length ==> p[j] == orig[j]
    {
      KeyAfterAdd(key, i, 1);
      p[i] := p[i] ^ KeyByte(next);
      next := Roll(next);
      i := i + 1;
    }
    forall j | 0 <= j < n
      ensures p[..n][j] == Mask(key, orig[..n])[j]
    {
      MaskAtRolled(key, orig[..n], j);
    }
    assert orig[..n] == old(p[..n]);
    assert p[n..] == old(p[n..]);
  }

  /** `limitReader`: the limit and the budget of the current message. */
  class LimitReader {
    var limit: int
    var n: int
    var r: Source

    /** `newLimitReader`: stores the limit and resets, reading raw frames. */
    constructor (limit: int)
      ensures State() == LimitState(limit, limit, Raw)
    {
      this.limit := limit;
      n := limit;
      r := Raw;
    }

    function State(): LimitState
      reads this
    {
      LimitState(limit, n, r)
    }

    /** `limitReader.reset`: the full budget, reading from `src`. */
    method Reset(src: Source)
      modifies this
      ensures State() == old(State()).(n := old(limit), r := src)
    {
      n := limit;
      r := src;
    }

    /**
      * `limitReader.Read`: refuses to read once the budget is spent,
      * otherwise reads at most the budget from the raw frames or from the
      * decompressor and charges the budget.
      */
    method Read(c: Conn, p: array<byte>, k: nat, inflate: Decompressor) returns (count: nat, err: Option<Error>)
      requires c.msgReader.limitReader == this && k <= p.Length
      modifies c, c.msgReader, this, p
      ensures var s := LimitRead(old(c.State()), k, inflate);
        c.State() == s.c && err == s.err && count == |s.data| && p[..count] == s.data
    {
      if n <= 0 {
        var e := ReadLimited(limit);
        c.WriteError(StatusMessageTooBig, e);
        return 0, Some(e);
      }
      var want: nat := if k > n then n else k;
      ghost var before := c.State();
      ghost var s := if r == Raw then WsRead.ReadRaw(before, want) else InflateRead(before, want, inflate);
      if r == Raw {
        count, err := c.msgReader.ReadRaw(c, p, want);
      } else {
        count, err := c.msgReader.Decompress(c, p, want, inflate);
      }
      assert c.State() == s.c && s.c.msg.limiter == before.msg.limiter;
      n := n - count;
    }
  }

  /** `msgReader`: the frame being read and the state of the current message. */
  class MsgReader {
    var fin: bool
    var payloadLength: nat
    var maskKey: bv32
    var flate: bool
    var flateTail: seq<byte>
    var window: seq<byte>
    const limitReader: LimitReader
    var inflated: seq<byte>
    var inflateErr: Option<Error>

    /** `newMsgReader`: between messages, with the default limit plus one. */
    constructor ()
      ensures State() == NewMsgState()
      ensures fresh(limitReader)
    {
      fin := true;
      payloadLength := 0;
      maskKey := 0;
      flate := false;
      flateTail := [];
      window := [];
      limitReader := new LimitReader(DefaultReadLimit + 1);
      inflated := [];
      inflateErr := None;
    }

    function State(): MsgState
      reads this, limitReader
    {
      MsgState(fin, payloadLength, maskKey, flate, flateTail, window, limitReader.State(), inflated, inflateErr)
    }

    /** `setFrame`. */
    method SetFrame(h: Header)
      modifies this
      ensures State() == WsRead.SetFrame(old(State()), h)
    {
      fin := h.fin;
      payloadLength := h.payloadLength;
      maskKey := h.maskKey;
    }

    /**
      * `resetFlate`: the limit reader reads from a new decompressor, fed at
      * the end by the deflate tail.
      */
    method ResetFlate()
      modifies this, limitReader
      ensures State() == old(State()).(limiter := old(State()).limiter.(r := Inflate), flateTail := DeflateMessageTail,
        inflated := [], inflateErr := None)
    {
      limitReader.r := Inflate;
      flateTail := DeflateMessageTail;
      inflated := [];
      inflateErr := None;
    }

    /** `reset`: starts the message whose first frame has header `h`. */
    method Reset(h: Header)
      modifies this, limitReader
      ensures State() == WsRead.Reset(old(State()), h)
    {
      flate := h.rsv1;
      limitReader.Reset(Raw);
      if flate {
        ResetFlate();
      }
      SetFrame(h);
    }

    /** `flateTail.Read`: the rest of the deflate tail, then end of file. */
    method TailRead(c: Conn, p: array<byte>, k: nat) returns (count: nat, err: Option<Error>)
      requires c.msgReader == this && k <= p.Length
      modifies this, p
      ensures var s := WsRead.TailRead(old(c.State()), k);
        c.State() == s.c && err == s.err && count == |s.data| && p[..count] == s.data
    {
      if flateTail == [] {
        return 0, Some(EOF);
      }
      count := if k < |flateTail| then k else |flateTail|;
      CopyInto(p, flateTail[..count]);
      flateTail := flateTail[count..];
      err := None;
    }

    /**
      * `msgReader.read`: at the end of a frame ends the message, delivers
      * the deflate tail or moves to the next frame, which must be a
      * continuation; inside a frame reads at most what is left of it, and
      * the server unmasks what it read.
      */
    method ReadRaw(c: Conn, p: array<byte>, k: nat) returns (count: nat, err: Option<Error>)
      requires c.msgReader == this && k <= p.Length
      modifies c, this, p
      ensures var s := WsRead.ReadRaw(old(c.State()), k);
        c.State() == s.c && err == s.err && count == |s.data| && p[..count] == s.data
    {
      while true
        invariant WsRead.ReadRaw(c.State(), k) == WsRead.ReadRaw(old(c.State()), k)
        decreases |c.incoming|
      {
        if payloadLength == 0 {
          if fin {
            if flate {
              count, err := TailRead(c, p, k);
              return;
            }
            return 0, Some(EOF);
          }
          var hr := c.ReadLoop();
          if hr.Err? {
            return 0, Some(hr.error);
          }
          var h := hr.value;
          if h.opcode != OpContinuation {
            var e := UnfinishedMessage;
            c.WriteError(StatusProtocolError, e);
            return 0, Some(e);
          }
          SetFrame(h);
          continue;
        }
        count, err := ReadInFrame(c, p, k);
        return;
      }
    }

    /** The part of `msgReader.read` inside a frame: at most what is left of the frame, unmasked by the server. */
    method ReadInFrame(c: Conn, p: array<byte>, k: nat) returns (count: nat, err: Option<Error>)
      requires c.msgReader == this && k <= p.Length && payloadLength > 0
      modifies c, this, p
      ensures var s := WsRead.ReadRaw(old(c.State()), k);
        c.State() == s.c && err == s.err && count == |s.data| && p[..count] == s.data
    {
      var want: nat := if k > payloadLength then payloadLength else k;
      count, err := c.ReadFramePayload(p, want);
      if err.Some? {
        return;
      }
      payloadLength := payloadLength - count;
      if !c.client {
        maskKey := MaskInPlace(maskKey, p, count);
      }
    }

    /**
      * The decompressor's input: raw reads of `FlateBufferSize` bytes
      * through `read`, the deflate tail included, until the first error.
      */
    method Drain(c: Conn) returns (raw: seq<byte>, e: Error)
      requires c.msgReader == this
      modifies c, this
      ensures var d := DrainRaw(old(c.State()));
        c.State() == d.c && d.err == Some(e) && raw == d.data
    {
      var buf := new byte[FlateBufferSize];
      raw := [];
      while true
        invariant fresh(buf) && buf.Length == FlateBufferSize
        invariant var d := DrainRaw(c.State()); DrainRaw(old(c.State())) == Chunk(d.c, raw + d.data, d.err)
        decreases |c.State().incoming|, c.State().msg.payloadLength, |c.State().msg.flateTail|
      {
        ghost var before := c.State();
        var count, err := ReadRaw(c, buf, FlateBufferSize);
        DrainStep(before);
        ReadRawProgress(before, FlateBufferSize);
        var got := buf[..count];
        assert got == WsRead.ReadRaw(before, FlateBufferSize).data;
        if err.Some? {
          return raw + got, err.value;
        }
        ghost var d := DrainRaw(c.State());
        assert raw + (got + d.data) == (raw + got) + d.data;
        raw := raw + got;
      }
    }

    /**
      * The first read of a compressed message: drains the message's raw
      * bytes and, when that ends with io.EOF itself, decompresses them
      * with the dictionary.
      */
    method Fill(c: Conn, inflate: Decompressor) returns (err: Option<Error>)
      requires c.msgReader == this
      modifies c, this
      ensures var d := DrainRaw(old(c.State())); var out := inflate(old(window), d.data);
        && (d.err != Some(EOF) ==> c.State() == d.c && err == d.err)
        && (d.err == Some(EOF) ==>
            err.None? && c.State() == d.c.(msg := d.c.msg.(inflated := out.data, inflateErr := out.err)))
    {
      var w := window;
      var raw, e := Drain(c);
      if e != EOF {
        return Some(e);
      }
      var out := inflate(w, raw);
      inflated := out.data;
      inflateErr := out.err;
      err := None;
    }

    /** The decompressor's output once it has its input: at most `k` bytes, its final error after the last of them. */
    method Deliver(c: Conn, p: array<byte>, k: nat) returns (count: nat, err: Option<Error>)
      requires c.msgReader == this && k <= p.Length
      modifies this, p
      ensures var s := InflateDeliver(old(c.State()), k);
        c.State() == s.c && err == s.err && count == |s.data| && p[..count] == s.data
    {
      count := if k < |inflated| then k else |inflated|;
      CopyInto(p, inflated[..count]);
      err := if count == |inflated| then inflateErr else None;
      inflated := inflated[count..];
    }

    /**
      * The decompressor's answer to a request for `k` bytes: on the first
      * read of the message it drains the message's raw bytes and
      * decompresses them with the dictionary; then it hands out what it
      * decompressed, with its final error after the last of it.
      */
    method Decompress(c: Conn, p: array<byte>, k: nat, inflate: Decompressor) returns (count: nat, err: Option<Error>)
      requires c.msgReader == this && k <= p.Length
      modifies c, this, p
      ensures var s := InflateRead(old(c.State()), k, inflate);
        c.State() == s.c && err == s.err && count == |s.data| && p[..count] == s.data
    {
      if !(fin && payloadLength == 0 && flateTail == []) {
        err := Fill(c, inflate);
        if err.Some? {
          return 0, err;
        }
      }
      count, err := Deliver(c, p, k);
    }

    /**
      * `msgReader.Read`: reads through the limit reader, keeps decompressed
      * bytes as the dictionary when the peer keeps its context, reports the
      * end of the message as io.EOF and closes the connection on any other
      * error.
      */
    method Read(c: Conn, p: array<byte>, inflate: Decompressor) returns (count: nat, err: Option<Error>)
      requires c.msgReader == this && (flate ==> c.copts.Some?)
      modifies c, this, limitReader, p
      ensures var s := MsgRead(old(c.State()), p.Length, inflate);
        c.State() == s.c && err == s.err && count == |s.data| && p[..count] == s.data
    {
      count, err := limitReader.Read(c, p, p.Length, inflate);
      if flate && FlateContextTakeover(c.client, c.copts.value) {
        window := window + p[..count];
      }
      if err.Some? && EndsMessage(err.value, fin, flate) {
        return count, Some(EOF);
      }
      if err.Some? {
        var e := ReadFailed(err.value);
        c.SetCloseErr(e);
        err := Some(e);
      }
    }
  }

  /** The connection as far as reading goes. */
  class Conn {
    const client: bool
    const copts: Option<CompressionOptions>
    var incoming: seq<Frame>
    var body: seq<byte>
    var closeErr: Option<Error>
    var wroteClose: bool
    var sent: seq<Outgoing>
    var activePings: map<seq<byte>, bool>
    var readCloseFrameErr: Option<Error>
    const msgReader: MsgReader

    /** A new connection reading `incoming`, with a new message reader. */
    constructor (client: bool, copts: Option<CompressionOptions>, incoming: seq<Frame>)
      ensures State() == NewConn(client, copts, incoming)
      ensures fresh(msgReader) && fresh(msgReader.limitReader)
    {
      this.client := client;
      this.copts := copts;
      this.incoming := incoming;
      body := [];
      closeErr := None;
      wroteClose := false;
      sent := [];
      activePings := map[];
      readCloseFrameErr := None;
      msgReader := new MsgReader();
    }

    function State(): ConnState
      reads this, msgReader, msgReader.limitReader
    {
      ConnState(client, copts, incoming, body, closeErr, wroteClose, sent, activePings, readCloseFrameErr, msgReader.State())
    }

    /** `SetReadLimit`. */
    method SetReadLimit(n: int)
      requires IsInt64(n)
      modifies msgReader.limitReader
      ensures State() == WsRead.SetReadLimit(old(State()), n)
    {
      msgReader.limitReader.limit := Int64Succ(n);
    }

    /** `setCloseErr` and `close`: the first error wins. */
    method SetCloseErr(e: Error)
      modifies this
      ensures State() == WsRead.SetCloseErr(old(State()), e)
    {
      if closeErr.None? {
        closeErr := Some(e);
      }
    }

    /** `writeClose`: a close frame is sent at most once. */
    method WriteClose(code: nat, reason: CloseReason)
      modifies this
      ensures State() == WsRead.WriteClose(old(State()), code, reason)
    {
      if !wroteClose {
        wroteClose := true;
        sent := sent + [CloseFrame(code, reason)];
      }
    }

    /** `writeError`: the close frame carries the error's text. */
    method WriteError(code: nat, e: Error)
      modifies this
      ensures State() == WsRead.WriteError(old(State()), code, e)
    {
      SetCloseErr(e);
      WriteClose(code, ErrorText(e));
    }

    /** `readFrameHeader`. */
    method ReadFrameHeader() returns (r: Result<Header, Error>)
      modifies this
      ensures Step(State(), r) == WsRead.ReadFrameHeader(old(State()))
    {
      if closeErr.Some? {
        return Err(closeErr.value);
      }
      if incoming == [] {
        var e := HeaderReadFailed(EOF);
        SetCloseErr(e);
        return Err(e);
      }
      var f := incoming[0];
      incoming := incoming[1..];
      body := f.payload;
      return Ok(f.header);
    }

    /** `readFramePayload`: fills the first `k` bytes of `p` from the current payload. */
    method ReadFramePayload(p: array<byte>, k: nat) returns (count: nat, err: Option<Error>)
      requires k <= p.Length
      modifies this, p
      ensures var s := WsRead.ReadFramePayload(old(State()), k);
        State() == s.c && err == s.err && count == |s.data| && p[..count] == s.data
    {
      if closeErr.Some? {
        return 0, closeErr;
      }
      if k <= |body| {
        CopyInto(p, body[..k]);
        body := body[k..];
        return k, None;
      }
      var e := PayloadReadFailed(if body == [] then EOF else UnexpectedEOF);
      count := |body|;
      CopyInto(p, body);
      body := [];
      SetCloseErr(e);
      err := Some(e);
    }

    /** `handleControl`. */
    method HandleControl(h: Header) returns (err: Option<Error>)
      modifies this
      ensures Done(State(), err) == WsRead.HandleControl(old(State()), h)
    {
      if h.payloadLength > MaxControlPayload {
        var e := InvalidControlLength(h.payloadLength);
        WriteError(StatusProtocolError, e);
        return Some(e);
      }
      if !h.fin {
        var e := FragmentedControl;
        WriteError(StatusProtocolError, e);
        return Some(e);
      }
      var buf := new byte[h.payloadLength];
      var count;
      count, err := ReadFramePayload(buf, h.payloadLength);
      if err.Some? {
        return;
      }
      ghost var raw := buf[..count];
      if h.masked {
        var _ := MaskInPlace(h.maskKey, buf, count);
      }
      var b := buf[..];
      assert b == buf[..count];
      assert b == Unmasked(h, raw);
      if h.opcode == OpPing {
        sent := sent + [Pong(b)];
        return None;
      } else if h.opcode == OpPong {
        if b in activePings {
          activePings := activePings[b := true];
        }
        return None;
      }
      match ParseClosePayload(b)
      case None =>
        var e := InvalidClosePayload;
        WriteError(StatusProtocolError, e);
        readCloseFrameErr := Some(e);
        err := Some(e);
      case Some((code, reason)) =>
        var e := CloseReceived(code, reason);
        SetCloseErr(e);
        WriteClose(code, Echo(reason));
        readCloseFrameErr := Some(e);
        err := Some(e);
    }

    /** `readLoop`: reads frames, handling control frames, until a data frame arrives. */
    method ReadLoop() returns (r: Result<Header, Error>)
      modifies this
      ensures Step(State(), r) == WsRead.ReadLoop(old(State()))
    {
      while true
        invariant WsRead.ReadLoop(State()) == WsRead.ReadLoop(old(State()))
        decreases |incoming|
      {
        var hr := ReadFrameHeader();
        if hr.Err? {
          return hr;
        }
        var h := hr.value;
        if RsvRejected(copts, h) {
          var e := UnexpectedRsv(h.rsv1, h.rsv2, h.rsv3);
          WriteError(StatusProtocolError, e);
          return Err(e);
        }
        if !client && !h.masked {
          return Err(UnmaskedClientFrame);
        }
        if IsControl(h.opcode) {
          var err := HandleControl(h);
          if err.Some? {
            var e := err.value;
            return Err(if h.opcode == OpClose && IsCloseError(e) then e else ControlFailed(h.opcode, e));
          }
        } else if IsData(h.opcode) {
          return Ok(h);
        } else {
          var e := UnknownOpcode(h.opcode);
          WriteError(StatusProtocolError, e);
          return Err(e);
        }
      }
    }

    /** `reader`: starts the next message. */
    method Reader() returns (r: Result<MessageType, Error>)
      modifies this, msgReader, msgReader.limitReader
      ensures Step(State(), r) == WsRead.Reader(old(State()))
    {
      if !msgReader.fin {
        var e := ReaderFailed(PreviousNotRead);
        SetCloseErr(e);
        return Err(e);
      }
      var hr := ReadLoop();
      if hr.Err? {
        return Err(ReaderFailed(hr.error));
      }
      var h := hr.value;
      if h.opcode == OpContinuation {
        var e := ContinuationWithoutStart;
        WriteError(StatusProtocolError, e);
        return Err(ReaderFailed(e));
      }
      msgReader.Reset(h);
      return Ok(MessageTypeOf(h.opcode));
    }
  }
}
