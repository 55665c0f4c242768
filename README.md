# jmacneill66: three verified cores

The repository bundles three unrelated programs. This project models the
part of each that is logic rather than glue, and proves what that logic
promises.

1. **The WebSocket message reader of nhooyr.io/websocket** (vendored by
   goose in `vendor/nhooyr.io/websocket/read.go`). It turns a stream of
   frames into messages. Along the way it:
   - checks every frame (RFC 6455 sections 5.2, 5.3 and 5.5);
   - answers pings, signals pongs and echoes close frames;
   - joins the fragments of a message (section 5.4) and unmasks what a
     client sent;
   - enforces a per-message byte limit.

   The model has two layers:
   - `WsRead` holds functions on a value of the connection state.
   - `WsConn` holds classes `Conn`, `MsgReader` and `LimitReader`. Their
     fields and methods update state in place, and each method is proved
     to compute exactly the function of the same name in `WsRead`.

   The message reader ends a message with a corrected test (see
   "## Findings"). `WsRead.MsgReadAsWritten` keeps the test as read.go
   writes it.

   `WsReadProps` states the protocol rules as lemmas about those functions.
   `WsMessageProps` follows whole messages: successive reads until the end
   of a message, under the read limit, with control frames between the
   fragments, and for compressed messages.
   `WsMask` is the masking transform of RFC 6455 section 5.3. `WsFrame`
   holds headers, opcodes, status codes, errors and the reserved-bit test.
2. **The markdown front end of the SSG static site generator** (`SSG/src`):
   - the inline passes of `textnode.py`, which cut text into bold, italic,
     code, image and link nodes and map a node to an HTML leaf (`TextNodes`);
   - the regular expressions those passes use (`MarkdownRegex`);
   - `markdown_to_blocks` (`BlockMarkdown`);
   - `block_to_block_type` (`BlockTypes`);
   - `extract_title` of `main.py` (`Title`).

   `PyStr` defines the Python string operations they rely on (`strip`,
   `split`, `startswith`, `str(n)`). It ties each one to an independent
   description.
3. **The command registry of the gator CLI**
   (`go_projects/gator/internal/cli/command.go`), the class
   `GatorCommands.Commands`.

The transport is a sequence of frames, already split into a header and the
bytes that arrived for its payload. A payload shorter than its header
announces means the transport ended inside that frame. Frames written to
the peer are appended to `sent`. The deflate decompressor is a parameter:
a function from the dictionary and the raw bytes of a message (its deflate
tail included) to the bytes it inflates and the error it ends with.

## Model

| member | source | states |
|---|---|---|
| WsMask.MaskInvolution | github.com/jmacneill66/goose/vendor/nhooyr.io/websocket/read.go:263-265 | Masking twice with the same key gives back the payload. |
| WsMask.MaskAppend | github.com/jmacneill66/goose/vendor/nhooyr.io/websocket/read.go:427-429 | Masking a payload in two pieces, the second with the key rolled past the first, equals masking it whole. |
| WsMask.KeyPeriod | github.com/jmacneill66/goose/vendor/nhooyr.io/websocket/read.go:427-429 | The rolling key comes back after four bytes. |
| WsMask.MaskAt | github.com/jmacneill66/goose/vendor/nhooyr.io/websocket/read.go:427-429 | Byte i of the result is byte i XOR octet i mod 4 of the masking key, as in RFC 6455 section 5.3. |
| WsConn.MaskInPlace | github.com/jmacneill66/goose/vendor/nhooyr.io/websocket/read.go:427-429 | Unmasking the first n bytes of the buffer in place gives the masked sequence, leaves the rest alone and returns the key for the next byte. |
| WsFrame.RSV1Illegal | github.com/jmacneill66/goose/vendor/nhooyr.io/websocket/read.go:133-143 | rsv1 is legal exactly when compression was negotiated and the frame is text or binary. |
| WsFrame.FlateContextTakeover | github.com/jmacneill66/goose/vendor/nhooyr.io/websocket/read.go:126-131 | A client keeps the dictionary unless the server resets its context; a server does so unless the client resets its context. |
| WsRead.NewMsgState | github.com/jmacneill66/goose/vendor/nhooyr.io/websocket/read.go:79-90 | A new message reader sits between messages (fin set, nothing left of a frame), and its limit and budget are 32768 + 1. |
| WsRead.Int64Succ | github.com/jmacneill66/goose/vendor/nhooyr.io/websocket/read.go:76 | int64 n + 1 stays in range: n + 1 below the top, the smallest int64 at the top. |
| WsRead.ReadFrameHeader | github.com/jmacneill66/goose/vendor/nhooyr.io/websocket/read.go:182-209 | A header read consumes exactly one frame and never touches the message reader. |
| WsRead.ReadFramePayload | github.com/jmacneill66/goose/vendor/nhooyr.io/websocket/read.go:211-239 | A payload read returns at most what was asked. When it succeeds it returns exactly that much, and those bytes followed by the rest make up the frame's unread payload. |
| WsRead.HandleControl | github.com/jmacneill66/goose/vendor/nhooyr.io/websocket/read.go:241-299 | A control frame never consumes another frame and never touches the message reader. |
| WsRead.ReadLoop | github.com/jmacneill66/goose/vendor/nhooyr.io/websocket/read.go:145-180 | What the loop returns is always a data frame that passed the reserved-bit check, and it consumed at least that frame. |
| WsRead.ReadLoopKeepsMsg | github.com/jmacneill66/goose/vendor/nhooyr.io/websocket/read.go:145-180 | The loop leaves the message reader's state unchanged. |
| WsRead.Reader | github.com/jmacneill66/goose/vendor/nhooyr.io/websocket/read.go:301-330 | A started message has the full budget, reads through the decompressor exactly when it is compressed (then with the 4-byte tail), and keeps the dictionary. |
| WsRead.ReadRaw | github.com/jmacneill66/goose/vendor/nhooyr.io/websocket/read.go:392-433 | A raw read never delivers more than asked, and it keeps the budget, the compression flag and the dictionary. |
| WsRead.InflateRead | github.com/jmacneill66/goose/vendor/nhooyr.io/websocket/read.go:92-102 | The first read of a compressed message drains the message's raw bytes through the raw reader and inflates them with the dictionary; every read then hands out the next inflated bytes. A read never delivers more than asked and keeps the budget, the compression flag and the dictionary. |
| WsRead.LimitRead | github.com/jmacneill66/goose/vendor/nhooyr.io/websocket/read.go:456-469 | A limited read keeps the stored limit, the source, the compression flag and the dictionary. |
| WsRead.SetReadLimit | github.com/jmacneill66/goose/vendor/nhooyr.io/websocket/read.go:73-77 | The limit becomes n + 1, wrapping like int64, and the budget of the current message is left alone. |
| WsRead.SetCloseErr | github.com/jmacneill66/goose/vendor/nhooyr.io/websocket/read.go:386-387 | The connection is closed afterwards, and the first close error is kept. |
| WsRead.WriteClose | github.com/jmacneill66/goose/vendor/nhooyr.io/websocket/read.go:295-296 | A close frame with the code and reason is sent unless one was already sent. |
| WsRead.WriteError | github.com/jmacneill66/goose/vendor/nhooyr.io/websocket/read.go:154 | The error is recorded unless one already was, the connection is closed, and a close frame with the code and the error's text is sent at most once. |
| WsRead.ReadRawProgress | github.com/jmacneill66/goose/vendor/nhooyr.io/websocket/read.go:392-433 | A successful raw read consumes a frame, part of the current payload or part of the deflate tail. |
| WsRead.DrainRaw | github.com/jmacneill66/goose/vendor/nhooyr.io/websocket/read.go:92-102 | Reading raw until the first error ends with an error and changes neither the budget, the compression flag nor the dictionary. |
| WsRead.InflateDeliver | github.com/jmacneill66/goose/vendor/nhooyr.io/websocket/read.go:466 | The decompressor hands out a prefix of what it inflated, at most what was asked, and its final error only with the last bytes. |
| WsRead.ReadMessage | github.com/jmacneill66/goose/vendor/nhooyr.io/websocket/read.go:369-390 | A read delivers at most what was asked, and any error other than the end of the message closes the connection and is wrapped. |
| WsRead.MsgRead | github.com/jmacneill66/goose/vendor/nhooyr.io/websocket/read.go:369-390 | The message reader's read, with the corrected end test: at most what was asked; any error other than the end of the message closes the connection and is wrapped. |
| WsRead.MsgReadAsWritten | github.com/jmacneill66/goose/vendor/nhooyr.io/websocket/read.go:369-390 | The read with read.go:381's test as written: same bounds, and an error it does not take for the end closes the connection. |
| WsReadProps.WriteErrorEffect | github.com/jmacneill66/goose/vendor/nhooyr.io/websocket/read.go:154 | writeError records only the first close error and sends at most one close frame. |
| WsReadProps.RsvBitsRejected | github.com/jmacneill66/goose/vendor/nhooyr.io/websocket/read.go:152-156 | Any of the following fails the connection with a protocol-error close: rsv2 or rsv3 set; rsv1 set without compression; rsv1 set on a frame that is not text or binary. |
| WsReadProps.UnknownOpcodeRejected | github.com/jmacneill66/goose/vendor/nhooyr.io/websocket/read.go:174-178 | An undefined opcode fails the connection with a protocol-error close. |
| WsReadProps.UnmaskedFrameToServerRejected | github.com/jmacneill66/goose/vendor/nhooyr.io/websocket/read.go:158-160 | A server refuses an unmasked frame. It sends no close frame and does not close the connection. |
| WsReadProps.DataFrameEndsLoop | github.com/jmacneill66/goose/vendor/nhooyr.io/websocket/read.go:172-173 | An accepted data frame ends the loop with its header; a client accepts it masked or not. |
| WsReadProps.LongControlRejected | github.com/jmacneill66/goose/vendor/nhooyr.io/websocket/read.go:242-246 | A control frame longer than 125 bytes fails with a protocol-error close before its payload is read. |
| WsReadProps.FragmentedControlRejected | github.com/jmacneill66/goose/vendor/nhooyr.io/websocket/read.go:248-252 | A control frame without fin fails with a protocol-error close before its payload is read. |
| WsReadProps.PingAnswered | github.com/jmacneill66/goose/vendor/nhooyr.io/websocket/read.go:263-269 | A ping is answered with a pong that carries its unmasked payload, and the loop goes on. |
| WsReadProps.PongSignalsWaiter | github.com/jmacneill66/goose/vendor/nhooyr.io/websocket/read.go:270-280 | A pong whose payload a ping is waiting for marks that ping signalled. Any other pong changes nothing. The loop goes on either way. |
| WsReadProps.CloseFrameEchoed | github.com/jmacneill66/goose/vendor/nhooyr.io/websocket/read.go:283-298 | A valid close frame is echoed with its code and reason (once) and closes the connection. Its error reaches the caller unwrapped and is recorded as the close frame's error. |
| WsReadProps.InvalidCloseRejected | github.com/jmacneill66/goose/vendor/nhooyr.io/websocket/read.go:287-292 | A close payload that does not parse fails the connection with a protocol-error close. |
| WsReadProps.ReaderRefusesUnfinished | github.com/jmacneill66/goose/vendor/nhooyr.io/websocket/read.go:310-314 | A new message cannot start before the previous message's final frame has arrived: the reader fails, closes the connection and reads nothing. |
| WsReadProps.ReaderRejectsContinuation | github.com/jmacneill66/goose/vendor/nhooyr.io/websocket/read.go:321-325 | A message starting with a continuation frame is a protocol error. |
| WsReadProps.ReaderStartsMessage | github.com/jmacneill66/goose/vendor/nhooyr.io/websocket/read.go:327-329 | A message starts at a text or binary frame, has that type and follows that frame. Its budget is the full limit and it is compressed exactly when rsv1 is set. |
| WsReadProps.ReadInsideFrame | github.com/jmacneill66/goose/vendor/nhooyr.io/websocket/read.go:416-431 | Inside a frame a read delivers at most min(request, remaining payload), and exactly that much when the bytes are there. The remaining length drops by what was delivered. A client delivers the bytes as they came; a server unmasks them and rolls its key past them. |
| WsReadProps.ReadAtMessageEnd | github.com/jmacneill66/goose/vendor/nhooyr.io/websocket/read.go:394-400 | At the end of the last frame, an uncompressed message ends with io.EOF and a compressed one first delivers what is left of its deflate tail. |
| WsReadProps.ContinuationRequired | github.com/jmacneill66/goose/vendor/nhooyr.io/websocket/read.go:402-410 | After a non-final frame, a data frame other than a continuation fails the connection with a protocol error and delivers nothing. |
| WsReadProps.ContinuationFollowed | github.com/jmacneill66/goose/vendor/nhooyr.io/websocket/read.go:411-413 | After a non-final frame, a continuation frame becomes the frame being read and the read goes on from it. |
| WsReadProps.ServerPiecesUnmaskWhole | github.com/jmacneill66/goose/vendor/nhooyr.io/websocket/read.go:425-429 | Two successive server reads of one frame deliver the unmasked prefix of its payload, as if it had been unmasked at once. |
| WsReadProps.LimitReadBudget | github.com/jmacneill66/goose/vendor/nhooyr.io/websocket/read.go:456-469 | With no budget left, a read fails with a message-too-big close and reads nothing. Otherwise it delivers at most the budget and the budget drops by exactly what was delivered, so it never goes negative. |
| WsReadProps.CompressedBudgetCountsInflated | github.com/jmacneill66/goose/vendor/nhooyr.io/websocket/read.go:463-467 | Once a compressed message's raw bytes are read, a limited read hands out the next inflated bytes, at most the budget, and the budget is charged with exactly those bytes. |
| WsReadProps.ReadLimitAppliesToNextMessage | github.com/jmacneill66/goose/vendor/nhooyr.io/websocket/read.go:73-77 | After SetReadLimit(n), the next message's budget is n + 1. |
| WsReadProps.LargestReadLimitWraps | github.com/jmacneill66/goose/vendor/nhooyr.io/websocket/read.go:76 | SetReadLimit(max int64) wraps the stored limit to the smallest int64, so every read of the next message fails as too big. |
| WsReadProps.WindowKeepsInflatedBytes | github.com/jmacneill66/goose/vendor/nhooyr.io/websocket/read.go:377-380 | Delivered bytes are added to the dictionary exactly when the message is compressed and the peer keeps its context (RFC 7692 section 7.1.1). |
| WsReadProps.ReadFailureCloses | github.com/jmacneill66/goose/vendor/nhooyr.io/websocket/read.go:385-388 | Every read error other than the end of the message is wrapped and closes the connection. |
| WsReadProps.ReadLoopNotBare | github.com/jmacneill66/goose/vendor/nhooyr.io/websocket/read.go:145-180 | Everything the loop fails with is wrapped, never io.EOF or io.ErrUnexpectedEOF itself, and so is every close error it records. |
| WsReadProps.ReadRawEndsOnlyAtEnd | github.com/jmacneill66/goose/vendor/nhooyr.io/websocket/read.go:394-400 | An uncompressed raw read returns io.EOF itself only at the end of the last frame. |
| WsReadProps.CleanEndOnlyAtMessageEnd | github.com/jmacneill66/goose/vendor/nhooyr.io/websocket/read.go:381-384 | With the corrected end test, a read reports the end of an uncompressed message only once its last frame is read in full. |
| WsReadProps.TruncatedPayloadLooksComplete | github.com/jmacneill66/goose/vendor/nhooyr.io/websocket/read.go:381-384 | If the transport ends where a payload should start, the read fails with a wrapped io.EOF. The test as written takes that for the end of the message, so `MsgReadAsWritten` reports io.EOF with the payload still unread; the corrected test fails the read. |
| WsMessageProps.LoopToData | github.com/jmacneill66/goose/vendor/nhooyr.io/websocket/read.go:145-180 | Over the frames of a well-formed message, the frame loop reaches the next data frame of the message: text or binary first, continuations after, its compression flag from the first frame. |
| WsMessageProps.LoopKeepsData | github.com/jmacneill66/goose/vendor/nhooyr.io/websocket/read.go:145-180 | The control frames the loop services take nothing from the message's data. |
| WsMessageProps.LoopKeepsPongs | github.com/jmacneill66/goose/vendor/nhooyr.io/websocket/read.go:263-269 | Each ping the loop services is answered with its pong, in order. |
| WsMessageProps.ReadRawStep | github.com/jmacneill66/goose/vendor/nhooyr.io/websocket/read.go:392-433 | A raw read inside a message delivers the next bytes of what the message has left, or io.EOF exactly when nothing is left; pongs are sent for the pings passed. |
| WsMessageProps.MsgReadStep | github.com/jmacneill66/goose/vendor/nhooyr.io/websocket/read.go:369-390 | A read of an uncompressed message fails with ReadLimited when the budget is spent; otherwise it delivers the next bytes of the message and charges the budget, or ends the message with io.EOF. |
| WsMessageProps.ReadAllDelivers | github.com/jmacneill66/goose/vendor/nhooyr.io/websocket/read.go:369-390 | Reading until the end of a message smaller than the budget delivers exactly the message's remaining data, then io.EOF. |
| WsMessageProps.ReadAllLimited | github.com/jmacneill66/goose/vendor/nhooyr.io/websocket/read.go:456-461 | Reading a message at least as large as the budget delivers exactly as many bytes as the budget allows, then fails with ReadLimited and closes the connection. |
| WsMessageProps.ReaderStartsReading | github.com/jmacneill66/goose/vendor/nhooyr.io/websocket/read.go:301-330 | After `reader`, the raw bytes left to read are the message's data (with the deflate tail when compressed), with the full budget. |
| WsMessageProps.MessageReassembled | github.com/jmacneill66/goose/vendor/nhooyr.io/websocket/read.go:301-390 | A message of an initial frame and continuations, within the limit, is delivered by successive reads as the concatenation of its payloads (unmasked on a server), followed by io.EOF, with every ping between the fragments answered. |
| WsMessageProps.ReadLimitEnforced | github.com/jmacneill66/goose/vendor/nhooyr.io/websocket/read.go:73-77 | With SetReadLimit(L), a message of at most L bytes is delivered in full with io.EOF; a longer one yields its first L + 1 bytes, then ReadLimited and a closed connection. |
| WsMessageProps.PingBetweenFragments | github.com/jmacneill66/goose/vendor/nhooyr.io/websocket/read.go:263-269 | A ping between two fragments is answered with its pong and its payload never appears in the message. |
| WsMessageProps.DrainReadsMessage | github.com/jmacneill66/goose/vendor/nhooyr.io/websocket/read.go:92-102 | The decompressor's input is exactly the message's remaining raw bytes and the deflate tail, ending with io.EOF. |
| WsMessageProps.DeliverAll | github.com/jmacneill66/goose/vendor/nhooyr.io/websocket/read.go:369-384 | Once inflated, successive reads hand out exactly the inflated bytes and end the message with io.EOF. |
| WsMessageProps.DeliverAllWindow | github.com/jmacneill66/goose/vendor/nhooyr.io/websocket/read.go:377-380 | Those reads add the inflated bytes to the dictionary exactly when the peer keeps its context. |
| WsMessageProps.FirstReadDrains | github.com/jmacneill66/goose/vendor/nhooyr.io/websocket/read.go:92-102 | The first read of a compressed message drains and inflates the message before handing out bytes. |
| WsMessageProps.CompressedMessageInflated | github.com/jmacneill66/goose/vendor/nhooyr.io/websocket/read.go:301-390 | A compressed message is delivered as the decompressor's output for its data followed by the deflate tail (RFC 7692 section 7.2.2), then io.EOF, with the pings between fragments answered. |
| WsConn.CopyInto | github.com/jmacneill66/goose/vendor/nhooyr.io/websocket/read.go:218 | The source bytes fill the front of the buffer, and the rest is unchanged. |
| WsConn.MsgReader.Decompress | github.com/jmacneill66/goose/vendor/nhooyr.io/websocket/read.go:92-102 | The first read drains and inflates the message; the state, the buffer and the error are those `WsRead.InflateRead` computes. |
| WsConn.LimitReader.constructor | github.com/jmacneill66/goose/vendor/nhooyr.io/websocket/read.go:442-449 | A new limit reader stores the limit, has the full budget and reads raw frames. |
| WsConn.LimitReader.Reset | github.com/jmacneill66/goose/vendor/nhooyr.io/websocket/read.go:451-454 | The budget is reset to the stored limit and the source is replaced. |
| WsConn.LimitReader.Read | github.com/jmacneill66/goose/vendor/nhooyr.io/websocket/read.go:456-469 | The objects end in the state `WsRead.LimitRead` computes, and the buffer and the error are the ones it delivers. |
| WsConn.MsgReader.constructor | github.com/jmacneill66/goose/vendor/nhooyr.io/websocket/read.go:81-90 | A new message reader is in the state `WsRead.NewMsgState`. |
| WsConn.MsgReader.SetFrame | github.com/jmacneill66/goose/vendor/nhooyr.io/websocket/read.go:363-367 | The reader follows the frame with the given header. |
| WsConn.MsgReader.ResetFlate | github.com/jmacneill66/goose/vendor/nhooyr.io/websocket/read.go:92-103 | The limit reader reads from the decompressor, and the deflate tail is restored. |
| WsConn.MsgReader.Reset | github.com/jmacneill66/goose/vendor/nhooyr.io/websocket/read.go:351-361 | The new state is `WsRead.Reset` of the old one. |
| WsConn.MsgReader.TailRead | github.com/jmacneill66/goose/vendor/nhooyr.io/websocket/read.go:397 | It delivers the next bytes of the deflate tail, then io.EOF, as `WsRead.TailRead` computes. |
| WsConn.MsgReader.Drain | github.com/jmacneill66/goose/vendor/nhooyr.io/websocket/read.go:92-102 | Reading raw in 4096-byte reads until the first error leaves the state, the bytes and the error `WsRead.DrainRaw` computes. |
| WsConn.MsgReader.Fill | github.com/jmacneill66/goose/vendor/nhooyr.io/websocket/read.go:92-102 | The drained bytes are inflated with the dictionary when draining ends with io.EOF itself; otherwise the drain's error is returned. |
| WsConn.MsgReader.Deliver | github.com/jmacneill66/goose/vendor/nhooyr.io/websocket/read.go:466 | The buffer receives the next inflated bytes and the state is the one `WsRead.InflateDeliver` computes. |
| WsConn.MsgReader.ReadRaw | github.com/jmacneill66/goose/vendor/nhooyr.io/websocket/read.go:392-433 | The loop ends in the state, with the buffer and the error, that `WsRead.ReadRaw` computes. |
| WsConn.MsgReader.ReadInFrame | github.com/jmacneill66/goose/vendor/nhooyr.io/websocket/read.go:416-431 | A read inside a frame does what `WsRead.ReadRaw` computes. |
| WsConn.MsgReader.Read | github.com/jmacneill66/goose/vendor/nhooyr.io/websocket/read.go:369-390 | A read ends in the state, with the buffer and the error, that `WsRead.MsgRead` computes, with the corrected end test. |
| WsConn.Conn.constructor | github.com/jmacneill66/goose/vendor/nhooyr.io/websocket/read.go:81-90 | A new connection is in the state `WsRead.NewConn`, with a new message reader. |
| WsConn.Conn.SetReadLimit | github.com/jmacneill66/goose/vendor/nhooyr.io/websocket/read.go:73-77 | It stores the asked limit plus one, with int64 wrap-around. |
| WsConn.Conn.SetCloseErr | github.com/jmacneill66/goose/vendor/nhooyr.io/websocket/read.go:295 | The first close error wins. |
| WsConn.Conn.WriteClose | github.com/jmacneill66/goose/vendor/nhooyr.io/websocket/read.go:296 | A close frame is sent at most once. |
| WsConn.Conn.WriteError | github.com/jmacneill66/goose/vendor/nhooyr.io/websocket/read.go:154 | It records the error and sends a close frame, as `WsRead.WriteError` computes. |
| WsConn.Conn.ReadFrameHeader | github.com/jmacneill66/goose/vendor/nhooyr.io/websocket/read.go:182-209 | It reads the next header, or fails as `WsRead.ReadFrameHeader` computes. |
| WsConn.Conn.ReadFramePayload | github.com/jmacneill66/goose/vendor/nhooyr.io/websocket/read.go:211-239 | It fills the buffer from the current payload, as `WsRead.ReadFramePayload` computes. |
| WsConn.Conn.HandleControl | github.com/jmacneill66/goose/vendor/nhooyr.io/websocket/read.go:241-299 | It handles one control frame in place, as `WsRead.HandleControl` computes. |
| WsConn.Conn.ReadLoop | github.com/jmacneill66/goose/vendor/nhooyr.io/websocket/read.go:145-180 | The loop ends in the state, with the result, that `WsRead.ReadLoop` computes. |
| WsConn.Conn.Reader | github.com/jmacneill66/goose/vendor/nhooyr.io/websocket/read.go:301-330 | It starts the next message, as `WsRead.Reader` computes. |
| TextNodes.TextToHtml | github.com/jmacneill66/SSG/src/textnode.py:28-41 | Only plain text is untagged. The leaf can be read back into the node whenever the node's type has a place for its url (links and images always do). Every type but image keeps the text as the value. |
| TextNodes.ErrorPersists | github.com/jmacneill66/SSG/src/textnode.py:46-53 | Once a node fails, the whole pass fails with that node's error, whatever follows it. |
| TextNodes.LabelEach | github.com/jmacneill66/SSG/src/textnode.py:54-59 | The inner loop appends, in order, one node per non-empty part: plain text at even places, the target type at odd places. |
| TextNodes.SplitNodesDelimiter | github.com/jmacneill66/SSG/src/textnode.py:44-60 | The loop returns the pass's result: non-text nodes pass through, and each text node is split in order; the first unclosed delimiter is the error. |
| TextNodes.UnclosedIffOddCount | github.com/jmacneill66/SSG/src/textnode.py:50-53 | A text node fails exactly when its delimiter occurs an odd number of times, and the error names the delimiter and the text. |
| TextNodes.Texts | github.com/jmacneill66/SSG/src/textnode.py:54-59 | The texts of the nodes, one per node, in order. |
| TextNodes.LabelPartsTexts | github.com/jmacneill66/SSG/src/textnode.py:54-59 | Dropping empty parts loses no text: the node texts concatenate to the parts' concatenation. |
| TextNodes.LabelPartsFrom | github.com/jmacneill66/SSG/src/textnode.py:54-59 | Every node made is a non-empty part labelled by the parity of its place. |
| TextNodes.SplitNodeDelimiterOk | github.com/jmacneill66/SSG/src/textnode.py:50-59 | A split text node yields non-empty, delimiter-free nodes, each plain or of the target type, whose texts concatenate to the input with every delimiter removed. |
| TextNodes.SplitAllDelimiterAppend | github.com/jmacneill66/SSG/src/textnode.py:46-60 | The pass works node by node and keeps order: the output for a concatenation is the concatenation of the outputs. |
| TextNodes.KeepsFormattedNode | github.com/jmacneill66/SSG/src/textnode.py:47-49 | A non-text node passes through unchanged. |
| TextNodes.DelimiterPassCleans | github.com/jmacneill66/SSG/src/textnode.py:44-60 | After a pass no plain or newly formatted node contains its delimiter, or any delimiter its input was free of; other nodes are input nodes. |
| TextNodes.BoldPass | github.com/jmacneill66/SSG/src/test_inline_markdown.py:62-64 | "**a**" followed by text without "**" splits into a bold node and the text. |
| TextNodes.ItalicPass | github.com/jmacneill66/SSG/src/test_inline_markdown.py:65-73 | The "*" pass leaves the bold node alone and splits "m*b*" into text and italic. |
| TextNodes.BoldThenItalic | github.com/jmacneill66/SSG/src/test_inline_markdown.py:62-73 | Applying "**" and then "*" to "**a**m*b*" yields bold, text, italic, because "**" is consumed first. |
| TextNodes.Groups | github.com/jmacneill66/SSG/src/textnode.py:63-70 | findall's result is one (alt, url) pair per match, in order. |
| TextNodes.SingleImage | github.com/jmacneill66/SSG/src/test_inline_markdown.py:107-110 | One image in the text is found as its (alt, url), and the link pattern does not report it. |
| TextNodes.ExtractMarkdownImages | github.com/jmacneill66/SSG/src/textnode.py:63-65 | One (alt, url) pair per image findall reports, each the groups of a real match, in order; none exactly when no image occurs. |
| TextNodes.ExtractMarkdownLinks | github.com/jmacneill66/SSG/src/textnode.py:68-70 | One (alt, url) pair per link findall reports, each a real match not preceded by '!', in order; none exactly when no link occurs. |
| TextNodes.SplitAllDelimiter | github.com/jmacneill66/SSG/src/textnode.py:44-60 | The delimiter pass over a node list; its properties are stated by SplitAllDelimiterAppend, DelimiterPassCleans and UnclosedIffOddCount. |
| TextNodes.SplitAllReferences | github.com/jmacneill66/SSG/src/textnode.py:73-104 | The image or link pass over a node list; its properties are stated by SplitAllReferencesAppend, ReferencesRoundTrip and ReferencePassCleans. |
| TextNodes.InlineNodes | github.com/jmacneill66/SSG/src/textnode.py:107-114 | The five passes in order; its properties are stated by InlineNodesPasses and InlineNodesClean. |
| TextNodes.ClassifyPartsByIndex | github.com/jmacneill66/SSG/src/textnode.py:80-86 | One node per part, in order, each classified by whether the pattern matches it. |
| TextNodes.ClassifyEach | github.com/jmacneill66/SSG/src/textnode.py:80-86 | The inner loop appends one node per part, empty parts included. |
| TextNodes.SplitNodesReferences | github.com/jmacneill66/SSG/src/textnode.py:73-104 | The loop shared by the image and link passes returns the pass's result: non-text nodes pass through, and text nodes are split in order. |
| TextNodes.SplitNodesImage | github.com/jmacneill66/SSG/src/textnode.py:73-87 | split_nodes_image is the image pass. |
| TextNodes.SplitNodesLink | github.com/jmacneill66/SSG/src/textnode.py:90-104 | split_nodes_link is the link pass. |
| TextNodes.ReferencesAlternate | github.com/jmacneill66/SSG/src/textnode.py:79-86 | A text node becomes an odd number of nodes that alternate: plain text (possibly empty) at even places, and an image or link with its url at odd places. |
| TextNodes.Markdowns | github.com/jmacneill66/SSG/src/textnode.py:79-86 | The markdown of each node, one per node, in order. |
| TextNodes.ReferencesRoundTrip | github.com/jmacneill66/SSG/src/textnode.py:79-86 | Writing the nodes of a split text back as markdown gives the text again. |
| TextNodes.ReferencesKeepFormattedNode | github.com/jmacneill66/SSG/src/textnode.py:76-78 | A non-text node passes through the image and link passes unchanged. |
| TextNodes.SplitAllReferencesAppend | github.com/jmacneill66/SSG/src/textnode.py:73-104 | The image and link passes work node by node and keep order. |
| TextNodes.ReferencePassCleans | github.com/jmacneill66/SSG/src/textnode.py:73-104 | Every node the pass makes is free of the delimiters its input text was free of. |
| TextNodes.TextToTextNodes | github.com/jmacneill66/SSG/src/textnode.py:107-114 | text_to_textnodes runs the five passes in their fixed order: bold, italic, code, images, links. |
| TextNodes.InlineNodesPasses | github.com/jmacneill66/SSG/src/textnode.py:107-114 | A successful run is the three delimiter passes, each succeeding, followed by the image and link passes. |
| TextNodes.DelimiterStep | github.com/jmacneill66/SSG/src/textnode.py:109-111 | Each delimiter pass removes its delimiter from plain text and from the nodes it creates. |
| TextNodes.ReferenceStep | github.com/jmacneill66/SSG/src/textnode.py:112-113 | The image and link passes keep every node free of the three delimiters. |
| TextNodes.InlineNodesCleanAfter | github.com/jmacneill66/SSG/src/textnode.py:107-114 | After all five passes every node is as clean as the passes promise. |
| TextNodes.InlineNodesClean | github.com/jmacneill66/SSG/src/textnode.py:107-114 | Bold text contains no "**". Italic text contains neither "**" nor "_". Every other node contains none of "**", "_" and "`". |
| MarkdownRegex.SliceIsRefText | github.com/jmacneill66/SSG/src/textnode.py:64 | A text with the pattern's brackets and parentheses in place begins with the reference they delimit. |
| MarkdownRegex.RunEnd | github.com/jmacneill66/SSG/src/textnode.py:64 | The greedy run of a negated character class stops at the first excluded character or at the end. |
| MarkdownRegex.RunEndAt | github.com/jmacneill66/SSG/src/textnode.py:64 | The run ends at the first excluded character. |
| MarkdownRegex.MatchGreedy | github.com/jmacneill66/SSG/src/textnode.py:64-70 | A match of the extract pattern has bracket- and parenthesis-free groups, and the text starts with the reference they form. |
| MarkdownRegex.MatchGreedyComplete | github.com/jmacneill66/SSG/src/textnode.py:64-70 | Every text starting with such a reference is matched with exactly those groups. |
| MarkdownRegex.RefTextPieces | github.com/jmacneill66/SSG/src/textnode.py:64 | The pieces of a reference sit at the positions its parts dictate. |
| MarkdownRegex.FindAltEnd | github.com/jmacneill66/SSG/src/textnode.py:79 | The lazy alt text ends at a "](". |
| MarkdownRegex.FindParen | github.com/jmacneill66/SSG/src/textnode.py:79 | The lazy url ends at a ")". |
| MarkdownRegex.LazyBounds | github.com/jmacneill66/SSG/src/textnode.py:79 | The lazy match's boundaries lie inside the text in the order of the pattern. |
| MarkdownRegex.FindAltEndScanned | github.com/jmacneill66/SSG/src/textnode.py:79 | Before the alt text ends there is no newline and no "](". |
| MarkdownRegex.FindParenScanned | github.com/jmacneill66/SSG/src/textnode.py:79 | Before the url ends there is no newline and no ")". |
| MarkdownRegex.LazyBoundsShape | github.com/jmacneill66/SSG/src/textnode.py:79 | The lazy match has the shape lead[alt](url), with the shortest alt text and url. |
| MarkdownRegex.MatchLazy | github.com/jmacneill66/SSG/src/textnode.py:81 | A lazy match's groups contain no newline, the alt text no "](" and the url no ")", and the text starts with the reference they form. |
| MarkdownRegex.FindAltEndAt | github.com/jmacneill66/SSG/src/textnode.py:79 | The alt text ends at the first "](" on the line. |
| MarkdownRegex.FindParenAt | github.com/jmacneill66/SSG/src/textnode.py:79 | The url ends at the first ")" on the line. |
| MarkdownRegex.MatchLazyComplete | github.com/jmacneill66/SSG/src/textnode.py:81 | Every text starting with a reference whose alt text and url the lazy groups allow is matched with exactly those groups. |
| MarkdownRegex.FindAltEndPrefix | github.com/jmacneill66/SSG/src/textnode.py:79 | Cutting the text after the alt text's end does not move it. |
| MarkdownRegex.FindParenPrefix | github.com/jmacneill66/SSG/src/textnode.py:79 | Cutting the text after the url's end does not move it. |
| MarkdownRegex.LazyBoundsOfPrefix | github.com/jmacneill66/SSG/src/textnode.py:79 | A match found in a prefix is the match of the whole text. |
| MarkdownRegex.LazyBoundsInPrefix | github.com/jmacneill66/SSG/src/textnode.py:79 | A match that fits in a prefix is found there. |
| MarkdownRegex.MatchLazyOfPrefix | github.com/jmacneill66/SSG/src/textnode.py:79-81 | A part of the split that matches gives the same match in the whole text. |
| MarkdownRegex.MatchLazyInPrefix | github.com/jmacneill66/SSG/src/textnode.py:79-81 | A match fits in any prefix at least as long as it. |
| MarkdownRegex.MatchLen | github.com/jmacneill66/SSG/src/textnode.py:79 | A match is at least as long as "[](" + ")" with the lead. |
| MarkdownRegex.MatchLenOfMatch | github.com/jmacneill66/SSG/src/textnode.py:79-81 | The split's search and the re.match of a part agree on whether there is a match and how long it is. |
| MarkdownRegex.ReSplitFromConcat | github.com/jmacneill66/SSG/src/textnode.py:79 | re.split with a capture group loses nothing: its parts concatenate to the text. |
| MarkdownRegex.AlternatesByIndex | github.com/jmacneill66/SSG/src/textnode.py:79 | Parts that alternate are odd in number, with non-matching text at even places and whole matches at odd places. |
| MarkdownRegex.ReSplitFromAlternates | github.com/jmacneill66/SSG/src/textnode.py:79 | From any point the split's parts alternate between text and whole matches. |
| MarkdownRegex.ReSplitShape | github.com/jmacneill66/SSG/src/textnode.py:79 | re.split yields an odd number of parts that concatenate to the text and alternate between text and matches. |
| MarkdownRegex.ReSplitFromSlices | github.com/jmacneill66/SSG/src/textnode.py:79 | Every part of the split is a slice of the text. |
| MarkdownRegex.FindAllSound | github.com/jmacneill66/SSG/src/textnode.py:63-70 | findall's hits are real matches, in order and without overlap. |
| MarkdownRegex.FindAllEmpty | github.com/jmacneill66/SSG/src/textnode.py:63-70 | findall is empty exactly when the pattern matches nowhere. |
| MarkdownRegex.Attempts | github.com/jmacneill66/SSG/src/textnode.py:63-70 | findall tries the pattern at every index; a match found there is non-empty and ends inside the text. |
| MarkdownRegex.ScanSound | github.com/jmacneill66/SSG/src/textnode.py:63-70 | Each hit of the scan is an attempt that matched at its position, in order and without overlap. |
| MarkdownRegex.ScanEmpty | github.com/jmacneill66/SSG/src/textnode.py:63-70 | The scan finds nothing exactly when no attempt matched. |
| MarkdownRegex.ScanNoneBefore | github.com/jmacneill66/SSG/src/textnode.py:63-70 | No attempt matched before the first hit. |
| MarkdownRegex.ScanNoneBetween | github.com/jmacneill66/SSG/src/textnode.py:63-70 | No attempt matched between the end of one hit and the start of the next. |
| MarkdownRegex.ScanNoneAfter | github.com/jmacneill66/SSG/src/textnode.py:63-70 | No attempt matched after the end of the last hit. |
| MarkdownRegex.FindAllAtMatch | github.com/jmacneill66/SSG/src/textnode.py:63-70 | Where the pattern matches, findall reports that match and resumes where it ends. |
| MarkdownRegex.FindAllNoneBefore | github.com/jmacneill66/SSG/src/textnode.py:63-70 | The pattern matches nowhere before findall's first hit. |
| MarkdownRegex.FindAllNoneBetween | github.com/jmacneill66/SSG/src/textnode.py:63-70 | The pattern matches nowhere between the end of one hit and the start of the next. |
| MarkdownRegex.FindAllNoneAfter | github.com/jmacneill66/SSG/src/textnode.py:63-70 | The pattern matches nowhere after the end of the last hit. |
| MarkdownRegex.LinksAreNotImages | github.com/jmacneill66/SSG/src/textnode.py:69 | The lookbehind keeps the link pattern from reporting the "[...](...)" of an image. |
| PyStr.LeadingSpaceSpan | github.com/jmacneill66/SSG/src/block_markdown.py:12 | The leading run is all whitespace and is followed by a non-space character or the end. |
| PyStr.TrailingSpaceSpan | github.com/jmacneill66/SSG/src/block_markdown.py:12 | The trailing run is all whitespace and is preceded by a non-space character or the start. |
| PyStr.StripTrimmed | github.com/jmacneill66/SSG/src/block_markdown.py:12 | strip() is no longer than its input and neither starts nor ends with whitespace; it is empty exactly when the input is all whitespace. |
| PyStr.StripIsSlice | github.com/jmacneill66/SSG/src/block_markdown.py:12 | strip() cuts only whitespace, and only from the two ends. |
| PyStr.StripIdempotent | github.com/jmacneill66/SSG/src/block_markdown.py:12 | Stripping twice is stripping once. |
| PyStr.StripDropsLeadingSpace | github.com/jmacneill66/SSG/src/block_markdown.py:12 | A leading whitespace character does not change the result of strip(). |
| PyStr.JoinSplit | github.com/jmacneill66/SSG/src/block_markdown.py:7 | Joining the parts of split(sep) with sep gives back the string. |
| PyStr.SplitCount | github.com/jmacneill66/SSG/src/textnode.py:50-51 | split(sep) has one more part than sep has non-overlapping occurrences. |
| PyStr.ConcatSplit | github.com/jmacneill66/SSG/src/textnode.py:50 | The parts of split(sep) concatenate to the string with every sep removed. |
| PyStr.SplitPartsFree | github.com/jmacneill66/SSG/src/textnode.py:50 | No part of split(sep) contains sep. |
| PyStr.SplitFromSkip | github.com/jmacneill66/SSG/src/block_markdown.py:7 | A stretch where sep does not start belongs to the current part. |
| PyStr.SplitFromSep | github.com/jmacneill66/SSG/src/block_markdown.py:7 | A separator at the front closes the current part. |
| PyStr.SplitNoSep | github.com/jmacneill66/SSG/src/block_markdown.py:7 | A string without sep splits into itself. |
| PyStr.SplitAround | github.com/jmacneill66/SSG/src/block_markdown.py:7 | A string with its first sep after a prefix splits into that prefix and the split of the rest. |
| PyStr.SplitPartsInherit | github.com/jmacneill66/SSG/src/textnode.py:50 | The parts of a split contain no substring that the string does not contain. |
| PyStr.NatToString | github.com/jmacneill66/SSG/src/block_type.py:34 | str(n) is a non-empty string of decimal digits. |
| PyStr.NatToStringInjective | github.com/jmacneill66/SSG/src/block_type.py:34 | Different numbers have different decimal strings. |
| BlockTypes.HashRun | github.com/jmacneill66/SSG/src/block_type.py:18 | The run of '#' at the start of the block is all '#' and is not followed by another '#'. |
| BlockTypes.BlockToBlockType | github.com/jmacneill66/SSG/src/block_type.py:14-38 | A block is a heading exactly when its run of '#' has length 1 to 6 and is followed by a space and a non-space character; the other types are stated by CodeBlocks, QuoteBlocks, UnorderedListBlocks and OrderedListBlocks. |
| BlockTypes.HeadingByHashRun | github.com/jmacneill66/SSG/src/block_type.py:18-19 | A block is a heading exactly when its run of '#' has length 1 to 6 and is followed by a space and a non-space character. |
| BlockTypes.SevenHashesNotHeading | github.com/jmacneill66/SSG/src/block_type.py:18-19 | Seven or more '#' never make a heading. |
| BlockTypes.CodeBlocks | github.com/jmacneill66/SSG/src/block_type.py:22-23 | A block is code exactly when it starts and ends with "```"; the heading check cannot take it first. |
| BlockTypes.QuoteByRawText | github.com/jmacneill66/SSG/src/block_type.py:15-26 | Every line starts with '>' exactly when the block starts with '>' and every newline is followed by '>'. |
| BlockTypes.QuoteBlocks | github.com/jmacneill66/SSG/src/block_type.py:26-27 | Once the heading and code checks fail, a block is a quote exactly when every line starts with '>'. |
| BlockTypes.UnorderedListBlocks | github.com/jmacneill66/SSG/src/block_type.py:30-31 | A block is an unordered list exactly when every line is "- " and a non-space character. |
| BlockTypes.OrderedListBlocks | github.com/jmacneill66/SSG/src/block_type.py:34-35 | A block is an ordered list exactly when line i is "{i+1}. " and a non-space character, for every i. |
| BlockTypes.MarkersAgree | github.com/jmacneill66/SSG/src/block_type.py:34 | A line can start with the item marker of only one number. |
| BlockTypes.OrderedListStartsAtOne | github.com/jmacneill66/SSG/src/block_type.py:34-35 | An ordered list starts with "1. ". |
| BlockTypes.NumberedStartsAtOne | github.com/jmacneill66/SSG/src/block_type.py:34 | Lines numbered from one start with "1. ". |
| BlockTypes.MisnumberedIsNotOrdered | github.com/jmacneill66/SSG/src/block_type.py:34-35 | A line that carries any number but its place plus one makes the block something other than an ordered list. |
| BlockTypes.StartingAtTwoIsNotOrdered | github.com/jmacneill66/SSG/src/block_type.py:34-35 | A block starting "2. " is never an ordered list. |
| BlockMarkdown.MarkdownToBlocks | github.com/jmacneill66/SSG/src/block_markdown.py:6-14 | The loop keeps the non-empty chunks of the split on "\n\n", in order, and strips each. Every block it returns is free of surrounding whitespace. |
| BlockMarkdown.Blocks | github.com/jmacneill66/SSG/src/block_markdown.py:6-14 | The blocks are the non-empty chunks of the split on "\n\n", each stripped: filtering first and stripping after gives the same list. |
| BlockMarkdown.FilterThenStrip | github.com/jmacneill66/SSG/src/block_markdown.py:9-13 | Dropping empty chunks and stripping, done together, is the filter followed by the map. |
| BlockMarkdown.BlockCount | github.com/jmacneill66/SSG/src/block_markdown.py:10-11 | There are as many blocks as non-empty chunks, and no more blocks than chunks. |
| BlockMarkdown.BlocksAreStripped | github.com/jmacneill66/SSG/src/block_markdown.py:12 | Every block is free of surrounding whitespace. |
| BlockMarkdown.NonEmptyHasNoEmpty | github.com/jmacneill66/SSG/src/block_markdown.py:10-11 | The filtered chunks are all non-empty. |
| BlockMarkdown.KeepBlocksAppend | github.com/jmacneill66/SSG/src/block_markdown.py:9-13 | Chunks are handled one at a time, in order. |
| BlockMarkdown.ThreeNewlinesAsTwo | github.com/jmacneill66/SSG/src/test_block_markdown.py:29-48 | Three newlines between two blocks give the same blocks as two. |
| Title.FirstTitle | github.com/jmacneill66/SSG/src/main.py:31-34 | There is no title exactly when no line starts with "# ". Otherwise the title is the stripped rest of the first such line, with no surrounding whitespace. |
| Title.ExtractTitle | github.com/jmacneill66/SSG/src/main.py:29-34 | The error is returned exactly when no line of the markdown starts with "# ". Otherwise the title is the stripped rest of the first line that does, and it has no surrounding whitespace. |
| Title.SkipsNonTitleLine | github.com/jmacneill66/SSG/src/main.py:31-32 | A first line that does not start with "# " (such as "## x" or "#x") is skipped. |
| Title.FirstLineTitle | github.com/jmacneill66/SSG/src/main.py:31-33 | A first line starting with "# " is the title, stripped, whatever follows it. |
| GatorCommands.Commands.constructor | github.com/jmacneill66/go_projects/gator/main.go:46 | The zero registry has no table. |
| GatorCommands.Commands.Register | github.com/jmacneill66/go_projects/gator/internal/cli/command.go:17-22 | The table is created when nil. The name is then bound to the handler, and every other name keeps its handler. |
| GatorCommands.Commands.Run | github.com/jmacneill66/go_projects/gator/internal/cli/command.go:25-31 | An unknown name gives the "unknown command" error and leaves the state untouched. A known name returns exactly its handler's result. |
| GatorCommands.LastRegistration | github.com/jmacneill66/go_projects/gator/main.go:47-58 | The index of the last registration of a name, or none exactly when the name was never registered. |
| GatorCommands.LastRegistrationWins | github.com/jmacneill66/go_projects/gator/main.go:47-58 | After a run of Register calls, a name is registered exactly when some call used it, and its handler is the one from the last such call ("agg" is registered twice). |

## Left out

- Locks, contexts, the 5-second control-frame timeout, the `select` races on `c.closed`, and the goroutine behind `CloseRead` are not modelled. Each read is one sequential step.
- `Conn.Reader`, `Conn.Read` and `CloseRead` are not modelled. They are thin wrappers around `reader` and `msgReader.Read`.
- The header decoder, `parseClosePayload`, `writeClose`, `writeControl`, `close` and `setCloseErr` live in files that are not part of this model. They are written from their observable effect:
  - the first close error wins;
  - a close frame is sent at most once;
  - a close payload is empty or a valid two-byte code followed by a reason;
  - writes to the peer never fail, so a failed pong or close write is not modelled.
- The close frame's reason text is kept as bytes: its UTF-8 validity and length are not checked.
- The deflate decompressor, the bufio pools, `putFlateReader`, and the capacity of the sliding window are not modelled. The decompressor is a parameter (a function of the dictionary and the message's raw bytes), and the window is an unbounded sequence of the bytes written to it.
- WsRead.InflateRead: the first read of a compressed message drains all of the message's raw bytes, then inflates them in one go. Go's flate reader interleaves reading and inflating, so it can hand out inflated bytes before a later frame fails; the model hands out nothing when the drain fails, and the error then reaches the caller at the first read.
- WsRead.ReadFrameHeader and WsConn.Conn.ReadFrameHeader: the frames arrive already split into header and payload, so a header read always starts at the next frame. After a final frame that was only partly read, read.go:310 lets `reader` start a new message and `readFrameHeader` then parses the unread payload bytes as a header; the model drops those bytes and reads the next frame's header.
- WsConn.Conn.ReadFrameHeader computes WsRead.ReadFrameHeader and drops the unread rest of a frame in the same way.
- WsRead.MsgRead: follows the corrected end test, where only io.EOF itself ends the message, not read.go:381 as written; WsRead.MsgReadAsWritten keeps the test as written (see "## Findings").
- `handleControl` reads into the shared `readControlBuf`. The model reads into a fresh array of the payload's length, so reuse of that buffer is not captured.
- Go's back pointers `mr.c` and `lr.c` are the method parameter `c`, which must be the connection the reader belongs to.
- WsFrame.Header: the payload length is a natural number. The `payloadLength < 0` half of the control-frame test can therefore not arise, since the header decoder never yields a negative length.
- TextNodes.TextToHtml: the `ValueError` for an unknown text type cannot arise, since the six text types are a closed datatype. `LeafNode` is a plain (tag, value, props) value, because `htmlnode.py` and `LeafNode.to_html` are not part of this model.
- PyStr.Split: `str.split` with an empty separator is not modelled; every caller passes a non-empty one. In the delimiter pass, where the separator is a parameter, an empty one is the `EmptySeparator` error that Python raises as `ValueError`.
- MarkdownRegex: only the four regular expressions the inline passes use are modelled, each as a scanner proved to match its pattern's meaning. There is no general regular-expression engine.
- TextNodes.ReferencesAlternate: the empty text nodes the image and link passes make around a reference are modelled as the code makes them, and not treated as an error.
- The test `test_text_to_textnodes` in `test_inline_markdown.py` (line 141) takes `self` at module level and expects `*` for italics while the code uses `_`. It is not taken as a statement of behaviour.
- `markdown_to_html_node`, `copy_directory`, `generate_page` and `generate_pages_recursive` in the site generator are file I/O and HTML assembly, and are not modelled.
- The gator handlers, middleware, RSS scraper, configuration file and database are not modelled. A handler is a function from the state and the command to the new state and an optional error message.

## Findings

| source | as written | input that shows it | evidently intended | confidence | as-written member | corrected member |
|---|---|---|---|---|---|---|
| github.com/jmacneill66/goose/vendor/nhooyr.io/websocket/read.go:381-384 | `msgReader.Read` reports the end of the message (io.EOF) for any error that wraps io.EOF. That includes "failed to read frame payload", which `readFramePayload` returns when the transport ends before a frame's payload. So a message cut short mid-frame reads as complete. | Open connection; current frame with payloadLength > 0 and no payload bytes left on the transport; positive budget; a read of at least one byte. | Only io.EOF itself ends the message: the end of the last frame, or of the decompressed stream. A transport that ends mid-frame is a read failure that closes the connection. | not executed | WsRead.EndsMessageAsWritten, WsRead.MsgReadAsWritten, WsReadProps.TruncatedPayloadLooksComplete | WsRead.EndsMessage, WsReadProps.CleanEndOnlyAtMessageEnd |
