/**
  * The vocabulary of the WebSocket message reader of nhooyr.io/websocket
  * (read.go): frame headers as the (unseen) header decoder hands them over,
  * the opcodes and status codes of RFC 6455, the errors the read path
  * returns, and the per-frame checks of RFC 6455 section 5.2.
  */
module WsFrame {
  import opened Wrappers
  import opened WsMask

  /** Opcodes of RFC 6455 section 5.2. */
  const OpContinuation: nat := 0
  const OpText: nat := 1
  const OpBinary: nat := 2
  const OpClose: nat := 8
  const OpPing: nat := 9
  const OpPong: nat := 10

  /** The largest payload of a control frame (RFC 6455 section 5.5). */
  const MaxControlPayload: nat := 125

  /** Status codes of RFC 6455 section 7.4.1. */
  const StatusNormalClosure: nat := 1000
  const StatusProtocolError: nat := 1002
  const StatusNoStatusRcvd: nat := 1005
  const StatusMessageTooBig: nat := 1009

  /** `defaultReadLimit`: the message limit of a new connection, in bytes. */
  const DefaultReadLimit: int := 32768

  /** The four bytes that end every compressed message (RFC 7692 section 7.2.2). */
  const DeflateMessageTail: seq<byte> := [0x00, 0x00, 0xFF, 0xFF]

  /** A decoded frame header; the decoder never yields a negative length. */
  datatype Header = Header(
    fin: bool,
    rsv1: bool,
    rsv2: bool,
    rsv3: bool,
    opcode: nat,
    payloadLength: nat,
    masked: bool,
    maskKey: bv32)

  /**
    * A frame as the transport delivers it. A payload shorter than the
    * header announces means the transport ended inside this frame.
    */
  datatype Frame = Frame(header: Header, payload: seq<byte>)

  predicate IsControl(opcode: nat) {
    opcode == OpClose || opcode == OpPing || opcode == OpPong
  }

  predicate IsData(opcode: nat) {
    opcode == OpContinuation || opcode == OpText || opcode == OpBinary
  }

  /** The type of a data message: the opcode of its first frame. */
  datatype MessageType = Text | Binary

  function MessageTypeOf(opcode: nat): MessageType
    requires opcode == OpText || opcode == OpBinary
  {
    if opcode == OpText then Text else Binary
  }

  /** Errors of the read path; the wrapping ones keep their cause visible to `errors.Is`. */
  datatype Error =
    | EOF                                  // io.EOF itself
    | UnexpectedEOF                        // io.ErrUnexpectedEOF itself
    | HeaderReadFailed(cause: Error)       // the header decoder's error, wrapping the transport's
    | PayloadReadFailed(cause: Error)      // "failed to read frame payload: %w"
    | UnexpectedRsv(rsv1: bool, rsv2: bool, rsv3: bool)
    | UnmaskedClientFrame
    | UnknownOpcode(opcode: nat)
    | InvalidControlLength(length: nat)
    | FragmentedControl
    | InvalidClosePayload
    | CloseReceived(code: nat, reason: seq<byte>)   // "received close frame: %w" around a CloseError
    | ControlFailed(opcode: nat, cause: Error)      // "failed to handle control frame %v: %w"
    | PreviousNotRead
    | ContinuationWithoutStart
    | UnfinishedMessage
    | ReadLimited(limit: int)
    | ReaderFailed(cause: Error)           // "failed to get reader: %w"
    | ReadFailed(cause: Error)             // "failed to read: %w"

  /** `errors.Is(err, io.EOF)`. */
  predicate IsEOF(err: Error) {
    match err
    case EOF => true
    case HeaderReadFailed(c) => IsEOF(c)
    case PayloadReadFailed(c) => IsEOF(c)
    case ControlFailed(_, c) => IsEOF(c)
    case ReaderFailed(c) => IsEOF(c)
    case ReadFailed(c) => IsEOF(c)
    case _ => false
  }

  /** `errors.Is(err, io.ErrUnexpectedEOF)`. */
  predicate IsUnexpectedEOF(err: Error) {
    match err
    case UnexpectedEOF => true
    case HeaderReadFailed(c) => IsUnexpectedEOF(c)
    case PayloadReadFailed(c) => IsUnexpectedEOF(c)
    case ControlFailed(_, c) => IsUnexpectedEOF(c)
    case ReaderFailed(c) => IsUnexpectedEOF(c)
    case ReadFailed(c) => IsUnexpectedEOF(c)
    case _ => false
  }

  /** `CloseStatus(err) != -1`: a received close frame is somewhere in the chain. */
  predicate IsCloseError(err: Error) {
    match err
    case CloseReceived(_, _) => true
    case HeaderReadFailed(c) => IsCloseError(c)
    case PayloadReadFailed(c) => IsCloseError(c)
    case ControlFailed(_, c) => IsCloseError(c)
    case ReaderFailed(c) => IsCloseError(c)
    case ReadFailed(c) => IsCloseError(c)
    case _ => false
  }

  /** Compression options negotiated for the connection (RFC 7692 section 7.1.1). */
  datatype CompressionOptions = CompressionOptions(clientNoContextTakeover: bool, serverNoContextTakeover: bool)

  /**
    * `readRSV1Illegal`: rsv1 is the per-message-compressed bit, legal only
    * when compression was negotiated and only on the first frame of a data
    * message.
    */
  function RSV1Illegal(copts: Option<CompressionOptions>, h: Header): (r: bool)
    ensures !r <==> copts.Some? && (h.opcode == OpText || h.opcode == OpBinary)
  {
    if copts.None? then true
    else if h.opcode != OpText && h.opcode != OpBinary then true
    else false
  }

  /** The reserved-bit test of `readLoop`: a header it rejects. */
  predicate RsvRejected(copts: Option<CompressionOptions>, h: Header) {
    (h.rsv1 && RSV1Illegal(copts, h)) || h.rsv2 || h.rsv3
  }

  /**
    * `flateContextTakeover`: whether the peer keeps its compression
    * context between messages, so that decompressed bytes must be kept as
    * the dictionary of the next message. A client reads what the server
    * compressed, and the other way round.
    */
  function FlateContextTakeover(client: bool, copts: CompressionOptions): (r: bool)
    ensures client ==> (r <==> !copts.serverNoContextTakeover)
    ensures !client ==> (r <==> !copts.clientNoContextTakeover)
  {
    if client then !copts.serverNoContextTakeover else !copts.clientNoContextTakeover
  }

  /**
    * The close codes that may appear in a close frame (RFC 6455 section
    * 7.4): the defined codes except those reserved for local use, and the
    * codes registered for libraries and applications.
    */
  predicate ValidWireCloseCode(code: nat) {
    || (StatusNormalClosure <= code <= 1014 && code != 1004 && code != 1005 && code != 1006)
    || (3000 <= code <= 4999)
  }

  /**
    * The payload of a close frame (RFC 6455 section 5.5.1): empty, meaning
    * no status, or a big-endian two-byte status code followed by a reason.
    */
  function ParseClosePayload(b: seq<byte>): (r: Option<(nat, seq<byte>)>)
    ensures b == [] ==> r == Some((StatusNoStatusRcvd, []))
    ensures |b| == 1 ==> r.None?
    ensures r.Some? && b != [] ==> |b| >= 2 && r.value.1 == b[2..] && ValidWireCloseCode(r.value.0)
  {
    if b == [] then Some((StatusNoStatusRcvd, []))
    else if |b| < 2 then None
    else
      var code := (b[0] as nat) * 256 + b[1] as nat;
      if ValidWireCloseCode(code) then Some((code, b[2..])) else None
  }
}
