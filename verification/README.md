# Verified models of the xmidt-agent core

Dafny models, with proofs, of the parts of xmidt-agent where a mistake costs most:

- **The WebSocket engine** (`internal/nhooyr.io/websocket`). The header codec and the unrolled masking routine
  (`FrameHeader`, `Masking`; `WireFormat` states the frames and close payloads octet by octet), the buffered writer
  that masks inside its own buffer (`BufferedIO`, `FrameIO`), the message writer (`MessageWriter`), the reader with
  its limit (`MessageReader`), close payloads (`CloseFrame`) and the two helpers of permessage-deflate
  (`Compression`). The classes and loops are proved to do what functions on sequences say (`Frames`, `MessageFrames`,
  `ReadModel`). About those functions, `RoundTrip`, `Sessions` and `EndToEnd` prove that what one endpoint sends, the
  other reads; `CutStreams` and `PrefixReads` what comes out of a stream that ends anywhere; `ReadSafety`,
  `InflatedReads` and `CompressedEnds` what happens with every input and every inflater, and `CompressedCuts` which
  cuts of a compressed message go unseen. `Exchange` runs the writing and the reading code against each other.
- **The write and close paths under concurrency.** `WriteProtocol` is a step system: any number of threads run Write,
  Writer, msgWriter.Write, msgWriter.Close, Ping and Close, one access to shared state at a time, with a context that
  may expire at any wait and the clean-up goroutine that close starts. `WriteInvariant` states what every step keeps,
  `WriteSteps` proves it, and `WriteSafety` draws the conclusions for every state of every run. `WriteContent` adds
  that the frames carry what the calls were asked to send, `WriteCalls` that every call is answered, `WriteHeard` that
  what was answered is what the frames carry, by the arguments of the calls, and `WritePeer` what the peer reads of
  them. The step system tells apart what was put into the buffered writer and what has been flushed to the connection.
- **The QoS queue** (`internal/wrphandlers/qos`). `QosQueue` is the heap in a slice, with container/heap written out;
  `QosSpec` says what its operations do, `QosPolicy` what trim guarantees, and `QosRuns` what holds over any sequence
  of calls, and `QosExpiry` what expiry does to an overfull queue. `QosService` is the loop of serviceQOS around it.
- **TXT records and the mock TR-181 table** (`TxtRecords`, `MockTr181`, `MockAnswers`).

`dafny verify dfyconfig.toml` checks the project.

## Where the code and its promises differ

The models follow the code. Each of these has a theorem:

- `msgReader.Read` turns every error that wraps io.EOF into the end of the message (read.go:442), so a message that
  was cut off may look whole. `CutStreams.CutStreamDelivers` says exactly when, for a cut anywhere: between two fields
  of a header, between header and payload of a control frame, or where a read of a data frame ends.
  `CutStreams.CutPayloadLooksWhole` and `EndToEnd.CutMessageLooksWhole` give failing inputs. `ReadSafety.WholeIfOpen`
  is what a caller can go by: a message that ended without an error was whole if and only if the connection is still
  open.
- For a compressed message the verdict of the inflater decides, in the call in which the raw reader meets the cut
  (`CompressedCuts.CompressedCut`, over any sequence of calls). If the inflater reports the error, a cut anywhere
  behind the header of the final frame goes unseen as well (`CompressedCuts.CompressedCutLooksWhole`). If it ends its
  stream with a final block in the octets that came before the error, the message ends without an error even in a
  frame that is not final, on a closed connection (`CompressedCuts.EarlyEndLooksWhole`). If it still has octets to
  give, the next call gets the error of a closed connection, and the cut is seen. Whole if and only if open holds for
  every inflater (`CompressedEnds.RunWholeIfOpen`), unless the inflater ends its own stream: then a closed connection
  says that the message was not whole, and an open one says nothing. What is left of the message is read as frames
  (`CompressedEnds.AfterFinish`, `CompressedCuts.FinishLeavesTheRest`).
- `SetReadLimit` with the largest int64 wraps around to "no limit" (read.go:113-121): `EndToEnd.ReadLimitIsExact`.
- A reason of 124 or 125 octets is within what the comment on Close allows (close.go:98-99), yet the peer sees 1011
  and no reason: `CloseFrame.RequestReachesPeer` gives the exact condition.
- `serviceQOS` promises to put the highest quality of service first (qos.go:116-117, 131-132). Its loop takes a
  message off the queue after every message it puts in (qos.go:149-177), so the queue never holds two: messages leave
  in the order in which they arrive, whatever their quality of service (`QosService.LeavesInTurn`,
  `QosService.ArrivalOrder`), and nothing but the two limits has an effect (`QosService.OnlyLimitsMatter`). A failed
  delivery is to be tried again later (qos.go:163, 188), but only the last delivery is watched:
  `QosService.RetriedWhileLast` says exactly what is delivered again, `QosService.FailureIsForgotten` gives runs in
  which a message is not. With a limit for messages the limit for the queue has no effect either
  (`QosService.QueueLimitIsIdle`).
- The queue itself trims "messages with the lowest QualityOfService" (priority_queue.go:114), but expired messages
  first: a message of higher rank may be lost while one of lower rank is kept. `QosExpiry.RankRespectedIff` gives the
  exact condition, `QosExpiry.LowerIsKept` a run whatever the expiries. Among unexpired messages,
  `QosItems.TrimReversesDelivery` says exactly which settings of priority and tie breaker trim in reverse delivery
  order.
- An unmasked frame met by a server's Reader returns an error and leaves the connection open (read.go:212-214), though
  any error is to close it (conn.go:44). `ReadSafety.OpenEnds` describes exactly the inputs for which a failed Reader
  call leaves the connection open. The frame's payload is then read as frames: `EndToEnd.RejectedFrameIsRead`.
- A successful Write on a writer handle may leave its frame in the buffer; only final frames are flushed
  (write.go:318-323): `WriteContent.SuccessMeansSent`, with a run in `WriteBuffered.SuccessMayBeBuffered`.
- A Ping, a whole message or the Close of a handle may come back without its frame although the connection is not
  closed: when another thread has asked for a close (write.go:253-266). `WriteCalls.EveryCallIsAnswered` says that
  this is the only way, and `WriteExcused.PingGivesUp` is such a run.
- A SET that names a parameter twice gets every reply twice over (handler.go:288-305): `MockAnswers.RepliesCount`.

## Model

| member | source | states |
|---|---|---|
| `Masking.Mask` | internal/nhooyr.io/websocket/frame.go:190-299 | for every length, masking b[lo..hi] in place by 64-bit words, the unrolled blocks and the octet loop gives the octet formula of section 5.3 of RFC 6455 on that range and leaves the rest of the array alone; the key returned is the key rotated once per octet |
| `Masking.XorWords` | internal/nhooyr.io/websocket/frame.go:190-283 | the five block sizes (128, 64, 32, 16 and 8 octets) leave less than one 64-bit word, end on a word boundary of the key, and what they did is the octet formula |
| `Masking.XorOctets` | internal/nhooyr.io/websocket/frame.go:293-298 | the last octets are masked with the low octet of a key that is rotated at each step |
| `Masking.KeyAfterOctets` | internal/nhooyr.io/websocket/frame.go:293-296 | the key after n octets is the key whose octets are rotated by n mod 4 |
| `Masking.MaskedAppend` | internal/nhooyr.io/websocket/frame.go:186-190 | masking a and then b with the key returned for a is masking a + b |
| `Masking.MaskedTwice` | internal/nhooyr.io/websocket/frame.go:180-190 | masking twice with one key is the identity |
| `FrameHeader.HeaderRoundTrip` | internal/nhooyr.io/websocket/frame.go:56-177 | for every header with a 4-bit opcode, a length below 2^63 and a zero key when unmasked, decoding the encoding followed by any suffix gives the header and exactly the suffix |
| `FrameHeader.ShortestForm` | internal/nhooyr.io/websocket/frame.go:134-166 | no header octets that decode to h are shorter than the ones written for h, and any others of that size are the same octets (section 5.2 of RFC 6455) |
| `FrameHeader.TruncatedHeader` | internal/nhooyr.io/websocket/frame.go:56-106 | every proper prefix of an encoded header is an end-of-input error: io.EOF exactly between two fields of the header, io.ErrUnexpectedEOF inside one |
| `FrameHeader.DecodedParts` | internal/nhooyr.io/websocket/frame.go:56-106 | every accepted header is representable, and its octets are two first octets, the extended length, the key and the rest |
| `WireFormat.FrameOnWire` | internal/nhooyr.io/websocket/frame.go:114-177 | every frame octet by octet, by arithmetic on the octets: the bits of the first, the mask bit and length in the second, the length in the two or eight octets behind it with the most significant first, the key in four with the least significant first, and octet i of the payload XORed with the key octet i mod 4 that stands in front of it (sections 5.2 and 5.3 of RFC 6455) |
| `WireFormat.FirstOctets` | internal/nhooyr.io/websocket/frame.go:22-37 | the first octet of the frames sent: 0x81 for a final text frame, 0x82 binary, 0x88 close, 0x89 ping, 0x8A pong, 0x80 a final continuation, and with the FIN bit clear and RSV1 set as the frame says |
| `WireFormat.HeaderIsRead` | internal/nhooyr.io/websocket/frame.go:56-106 | for all octets: the parser accepts exactly those that hold a header whose length is not negative, and each field is what the same arithmetic gives |
| `WireFormat.PayloadIsRead` | internal/nhooyr.io/websocket/read.go:477-491 | the octets that a read inside a frame gives: a server XORs each with the key octet of its place, a client takes them as they are |
| `FrameIO.WriteFrameHeader` | internal/nhooyr.io/websocket/frame.go:114-177 | the method with its scratch buffer appends exactly EncodeHeader(h) to what was written, on a writer that may fail at any point |
| `FrameIO.ReadFrameHeader` | internal/nhooyr.io/websocket/frame.go:56-106 | the method with its scratch buffer returns what DecodeHeader says of the input, error by error |
| `FrameIO.WriteFramePayload` | internal/nhooyr.io/websocket/write.go:337-374 | for any buffer size above 0 and any fill, exactly the masked payload follows the octets already written; terminates |
| `FrameIO.WriteMasked` | internal/nhooyr.io/websocket/write.go:345-373 | the loop over the free part of the buffer: the key carries over from one filling to the next |
| `FrameIO.MaskBuffered` | internal/nhooyr.io/websocket/write.go:353-367 | masking inside the bufio buffer leaves every octet buffered before unchanged |
| `MessageWriter.FrameWriter.WriteFrame` | internal/nhooyr.io/websocket/write.go:245-335 | what reached the connection is a prefix of the encodings of the frames in order; a final frame is flushed; an error closes the connection; nothing is sent on a closed one |
| `MessageWriter.MsgWriter.Reset` | internal/nhooyr.io/websocket/write.go:98-140 | opens a message with its type as the next opcode, uncompressed, unless the connection is closed |
| `MessageWriter.MsgWriter.Write` | internal/nhooyr.io/websocket/write.go:150-190 | the frames of the open message stay its fragments and carry what was given; frames written before stay; compression starts only with a first Write at or over the threshold; a closed message takes nothing |
| `MessageWriter.MsgWriter.WriteDeflated` | internal/nhooyr.io/websocket/write.go:173-190 | what the deflater hands down reaches the frames less the octets that the trimmer holds, for any chunks; frames written before stay |
| `MessageWriter.MsgWriter.Close` | internal/nhooyr.io/websocket/write.go:193-234 | ends a complete message behind the frames written before, which stay: type first, then continuations, one final frame, RSV1 exactly on the first frame of a compressed message (section 6.1 of RFC 7692), carrying all that was given, or all but the last four octets the deflater made |
| `MessageWriter.MsgWriter.WriteWhole` | internal/nhooyr.io/websocket/write.go:106-124 | without compression a message goes out as one final frame, complete and flushed |
| `Compression.TrimWriter.Write` | internal/nhooyr.io/websocket/compress.go:97-137 | after any sequence of writes the octets passed on and the octets held are everything written, and min(4, total) octets are held |
| `Compression.TrimWriter.Holds` | internal/nhooyr.io/websocket/compress.go:84-137 | everything but the last min(4, total) octets was passed on, and exactly those are held |
| `Compression.TailRestores` | internal/nhooyr.io/websocket/read.go:453-461 | appending the tail to what the trimmer passed restores a stream that ends in it |
| `Compression.SlidingWindow.Write` | internal/nhooyr.io/websocket/compress.go:219-236 | the buffer holds the last min(capacity, total) octets of everything written, in the replacing, shifting and appending cases; it becomes the last octets of what it held and what is written |
| `CloseFrame.ParseUndoesBytes` | internal/nhooyr.io/websocket/close.go:216-284 | parsing undoes encoding for every code and reason that can be encoded |
| `CloseFrame.SentPayloadParses` | internal/nhooyr.io/websocket/close.go:140-158 | for every code and reason requested, the payload sent is at most 125 octets and the peer parses it, as the request, as no status, or as 1011 when the request cannot be encoded |
| `CloseFrame.RequestReachesPeer` | internal/nhooyr.io/websocket/close.go:257-284 | the peer sees exactly what was requested if and only if the code may be sent and the reason has at most 123 octets, or there is neither |
| `CloseFrame.EchoIsIdentical` | internal/nhooyr.io/websocket/read.go:342-359 | the echo of an accepted payload is byte-identical if and only if it has at most 125 octets, which every control frame has |
| `WireFormat.CloseOnWire` | internal/nhooyr.io/websocket/close.go:239-284 | the close payload octet by octet for any code and reason: none for 1005; two octets of code and the reason for 1000-1003, 1007-1014 and 3000-4999 with at most 123 octets of reason; 1011 alone otherwise |
| `WireFormat.CloseIsRead` | internal/nhooyr.io/websocket/close.go:216-255 | what is read of a close payload, for all octets: 1005 for none, the code and reason for the same codes, an error otherwise |
| `MessageReader.MsgReader.SetReadLimit` | internal/nhooyr.io/websocket/read.go:113-121 | from the next message on, exactly the messages of more than limit octets are too big; none is if the limit is negative or the largest int64, for which the stored limit wraps around |
| `MessageReader.MsgReader.HandleControl` | internal/nhooyr.io/websocket/read.go:295-360 | ping, pong and close handling over the shared control buffer does what the reading model says, error by error |
| `MessageReader.MsgReader.ReadLoop` | internal/nhooyr.io/websocket/read.go:199-263 | the loop over control frames does what the recursive reading model says: header found, replies sent, error, and whether the connection stays open |
| `MessageReader.MsgReader.Open` | internal/nhooyr.io/websocket/read.go:362-428 | opening a message: unfinished previous message, continuation without a start, and the reset of the reader's fields |
| `MessageReader.MsgReader.ReadPayload` | internal/nhooyr.io/websocket/read.go:477-492 | a read inside a frame unmasks in place in the caller's slice with the running key |
| `MessageReader.MsgReader.RawRead` | internal/nhooyr.io/websocket/read.go:453-494 | the loop from frame to frame, with the tail of a compressed message, does what the model says |
| `MessageReader.MsgReader.LimitedRead` | internal/nhooyr.io/websocket/read.go:496-537 | the limit cuts the slice, counts down, and closes with 1009 at zero |
| `MessageReader.MsgReader.Read` | internal/nhooyr.io/websocket/read.go:430-451 | the read of an uncompressed message as the caller sees it, with the mapping of errors to end of message as the code has it |
| `MessageReader.MsgReader.ReadAll` | internal/nhooyr.io/websocket/read.go:45-53 | reading an uncompressed message to its end with any buffer sizes gives what the model gives |
| `ReadSafety.LoopEnds` | internal/nhooyr.io/websocket/read.go:187-234 | for every input, a header that the loop lets through is legal for this endpoint, and when the loop stops it has sent nothing but pongs and then exactly the close frame that its error calls for |
| `ReadSafety.OpenEnds` | internal/nhooyr.io/websocket/read.go:362-391 | for every state, a message that is opened has a legal type, and a failed Reader call sends only the close frame its error calls for; it leaves the connection open if and only if the input is answered control frames and then, to a server, an unmasked header with legal reserved bits |
| `ReadSafety.StaysOpen` | internal/nhooyr.io/websocket/read.go:199-234 | the same condition for readLoop, by a description of the input that does not run it |
| `ReadSafety.WholeIfOpen` | internal/nhooyr.io/websocket/read.go:430-494 | for every state, input and buffer sizes: an uncompressed message that is read to its end without an error was whole if and only if the connection is still open |
| `ReadSafety.MessageReadEnds` | internal/nhooyr.io/websocket/read.go:430-537 | for every state, a read of an uncompressed message that gives octets or the end sends no close frame, and one that fails sends the one its error calls for and leaves the connection closed |
| `InflatedReads.RunEnds` | internal/nhooyr.io/websocket/read.go:295-537 | for every input, every sequence of Reader and Read calls and every inflater between the raw reader and the limit, also one that ends its stream or finds it corrupt behind a raw error: no close frame before an error, and at most one with it, as the last act: 1009 for a message over the limit, the peer's payload for a close frame, 1002 for a violation |
| `InflatedReads.RunWithinLimit` | internal/nhooyr.io/websocket/read.go:496-537 | for every input and every inflater, a message gives its reader at most one octet more than its limit, and exactly so many when the error is too-big: the limit counts inflated octets |
| `InflatedReads.LimitIsFinal` | internal/nhooyr.io/websocket/read.go:517-526 | in every run, a reader that was given all that the limit allows gets the too-big error next, and no more octets |
| `CompressedEnds.RunWholeIfOpen` | internal/nhooyr.io/websocket/read.go:430-494 | for every input, every sequence of calls and every inflater: a message of either kind that ended without an error, and not by a final block of the inflater, was whole if and only if the connection is still open; one that ended by a final block was not whole if the connection is closed |
| `CompressedEnds.AfterFinish` | internal/nhooyr.io/websocket/read.go:371-388 | what an inflater's early end leaves of a message is not skipped: on an open connection the next Reader call reads it as frames, or fails if the last header is not read; on a closed one it fails |
| `CompressedEnds.WindowIsLast` | internal/nhooyr.io/websocket/read.go:437-441 | in every run, across messages and errors, the dictionary is the last 32768 octets given of all compressed messages so far |
| `CompressedEnds.RunWithWindow` | internal/nhooyr.io/websocket/read.go:437-441 | the calls of a run with a SlidingWindow of 32768 octets behind the reader leave in it the last octets given of all compressed messages so far |
| `CompressedCuts.CompressedCut` | internal/nhooyr.io/websocket/read.go:430-494 | a compressed message cut off anywhere, at any place of a connection, with any sequence of Read calls, any buffers, any raw reads and any inflater: the cut is met by a raw read whose number is given, and the verdict of the call that makes it decides. A report ends the message without an error if and only if the cut would go unseen in an uncompressed message or is behind the header of the message's final frame, and is the error of the cut otherwise; a final block ends it without an error; a corrupt stream is an error; and with more octets to give the next call gets the error of a closed connection. An earlier error, and a limit that is used up, come first |
| `CompressedCuts.CutFrameEnds` | internal/nhooyr.io/websocket/read.go:430-494 | the same for octets from the start of a connection: a compressed frame of which a octets of the payload arrive, read in one call with raw reads of one size; a report goes unseen if and only if the frame is final or the size divides a |
| `CompressedCuts.CompressedCutLooksWhole` | internal/nhooyr.io/websocket/read.go:442-445 | a failing input for every length: of a compressed message in one final frame a octets of the payload arrive, and the caller gets the end of the message without an error |
| `CompressedCuts.EarlyEndLooksWhole` | internal/nhooyr.io/websocket/read.go:442-445 | a failing input for every length: of a frame that need not be final a octets of the payload arrive, the inflater ends its stream in them, and the caller gets the end of the message without an error on a closed connection |
| `CompressedCuts.FinishLeavesTheRest` | internal/nhooyr.io/websocket/read.go:430-451 | an input on which an early end leaves an open connection inside the message |
| `RoundTrip.LoopOnFrames` | internal/nhooyr.io/websocket/read.go:199-234 | on the encoding of any well-formed frames followed by any octets the loop stops behind the header of the first data frame, having answered every ping before it; without a data frame it goes on with those octets |
| `RoundTrip.RawReadDelivers` | internal/nhooyr.io/websocket/read.go:453-494 | a read with any buffer of at least one octet returns a non-empty prefix of what is due of the message, over any fragmentation and control frames, or its end, or goes on with the octets behind the frames |
| `RoundTrip.ReadAllDelivers` | internal/nhooyr.io/websocket/read.go:45-53 | a message under the limit is read whole and leaves the reader at the next frame; of a message that the frames do not finish, what arrived is read, with a known number of reads, and reading goes on with the octets behind the frames |
| `RoundTrip.ReadAllTooBig` | internal/nhooyr.io/websocket/read.go:517-537 | a message at or over the stored limit is read up to it and ends in the too-big error, on a closed connection |
| `RoundTrip.ReadAllStopped` | internal/nhooyr.io/websocket/read.go:430-472 | inside a message, when the loop stops on what follows: an error that wraps io.EOF is the end of the message without an error, any other is returned |
| `RoundTrip.ReadAllCut` | internal/nhooyr.io/websocket/read.go:265-293 | in a frame whose payload is cut off, the message ends without an error if and only if some read ends exactly at the cut; otherwise with io.ErrUnexpectedEOF |
| `Sessions.SessionDelivers` | internal/nhooyr.io/websocket/read.go:362-494 | from any state between messages, for any well-formed frames and what follows them (nothing, a cut frame, a close frame, a violation of any kind): all finished messages up to the limit come out, every ping is answered, and the session ends with the message, the error and the close frame that a reference definition gives |
| `CutStreams.LoopOnCut` | internal/nhooyr.io/websocket/read.go:236-293 | what the loop makes of the first c octets of a frame, for every c |
| `CutStreams.CutStreamDelivers` | internal/nhooyr.io/websocket/read.go:430-494 | k whole frames and c octets of the next: the finished messages come out, and the open one, as far as it arrived, if and only if the cut is between two fields of a header, between header and payload of a control frame, or where a read of a data frame ends |
| `CutStreams.PrefixDelivers` | internal/nhooyr.io/websocket/read.go:430-494 | the same for every prefix of the octets of any well-formed frames, and all read sizes |
| `CutStreams.CutPayloadLooksWhole` | internal/nhooyr.io/websocket/read.go:442-445 | a failing input for every length: of a message in one final frame a octets arrive, and with buffers of a octets they come out as a whole message without an error |
| `CutStreams.CloseArrives` | internal/nhooyr.io/websocket/read.go:342-359 | of a stream that ends with a close frame the peer reads all finished messages, stops with the code and reason requested, and sends back the same payload octets |
| `CutStreams.ViolationEnds` | internal/nhooyr.io/websocket/read.go:376-385 | behind a continuation between messages, or a new message inside one: the finished messages come out, the open one does not, and the last thing sent is a close frame with code 1002 |
| `MessageFrames.MessagesAppend` | internal/nhooyr.io/websocket/write.go:126-234 | the messages of frames that end between messages, followed by more frames, are the messages of both in order |
| `MessageFrames.MessagesSnoc` | internal/nhooyr.io/websocket/write.go:183-224 | what one more frame does to the messages carried: a control frame nothing, a continuation extends the last, any other starts a new one |
| `PrefixReads.PrefixIsRead` | internal/nhooyr.io/websocket/read.go:362-494 | of any prefix of frames and one frame more, what comes out are the messages from the first on, the last perhaps cut; all finished ones if the final frames arrived; exactly all at the end of a frame |
| `EndToEnd.CompleteMessageCarries` | internal/nhooyr.io/websocket/write.go:126-234 | the frames that Close leaves behind are well-formed and carry exactly one message, the one given |
| `EndToEnd.MessagesArrive` | internal/nhooyr.io/websocket/read.go:362-494 | round trip: any list of messages, any split into frames, any keys, any pings and pongs in between, any read buffer sizes, both directions: the reader returns exactly the messages sent, up to the first over the limit, and answers every ping |
| `EndToEnd.ReadLimitIsExact` | internal/nhooyr.io/websocket/read.go:103-121 | with limit n, over any fragmentation and buffer sizes, a message of length L reaches its end if and only if n is negative or the int64 maximum or L <= n; otherwise exactly n + 1 octets precede the error |
| `EndToEnd.CutMessageLooksWhole` | internal/nhooyr.io/websocket/read.go:442-445 | a connection that ends between two frames of a message gives the same messages as one that sent a final frame; only the error of the next read differs |
| `EndToEnd.RejectedFrameStays` | internal/nhooyr.io/websocket/read.go:212-214 | a server that meets an unmasked frame returns an error with the connection open, the header taken and the payload not: its state is that of a connection whose input is the payload |
| `EndToEnd.RejectedFrameIsRead` | internal/nhooyr.io/websocket/read.go:212-214 | so when the payload is the encoding of frames, the next calls return the messages that those carry |
| `EndToEnd.InflaterReadsDeflaterOutput` | internal/nhooyr.io/websocket/read.go:453-461 | at any place of a connection, for any fragmentation, control frames between fragments and read sizes, the octets that reach the inflater are exactly those the deflater made, whenever these end in 00 00 FF FF (sections 7.2.1 and 7.2.2 of RFC 7692); the reader is then at the frames behind the message |
| `EndToEnd.CompressedMessageOnWire` | internal/nhooyr.io/websocket/write.go:193-234 | the frames that Close leaves of a compressed message, among control frames and before other messages, carry all but the last four octets that the deflater made |
| `Exchange.SendMessage` | internal/nhooyr.io/websocket/write.go:32-52 | Writer, any Writes and Close leave, behind the frames that were there, the frames of exactly the message given, all of them on the connection |
| `Exchange.SendAll` | internal/nhooyr.io/websocket/write.go:32-52 | the same for a list of messages, which is the premise of the round trip |
| `Exchange.ReceiveAll` | internal/nhooyr.io/websocket/read.go:39-53 | Read until it fails returns the messages and the error of the reading model |
| `Exchange.SendAndReceive` | internal/nhooyr.io/websocket/conn.go:102-153 | through the writing and the reading code, for either role, any buffer size, keys, pieces, read sizes and limit: every message within the limit is received as it was given, unless the connection ran out of room |
| `WriteSteps.InitInv` | internal/nhooyr.io/websocket/conn.go:102-153 | the invariant holds at the start, for any number of threads |
| `WriteSteps.StepKeepsInv` | internal/nhooyr.io/websocket/write.go:98-335 | every step of every thread, and of the clean-up goroutine, keeps the invariant: mutex tokens, handle, jobs, octets, close frame, message position |
| `WriteSafety.RunKeepsInv` | internal/nhooyr.io/websocket/conn.go:159-185 | the invariant holds in every state of every run |
| `WriteSafety.Safety` | internal/nhooyr.io/websocket/write.go:245-335 | under every interleaving: the octets given to the connection are whole frames and at most the beginning of one more, with every final frame that was written among them; the data frames are a prefix of a well-formed sequence with RSV1 exactly on the first frame of a compressed message; at most one close frame, which is the last |
| `WriteSafety.StepSends` | internal/nhooyr.io/websocket/write.go:290-334 | every step keeps: all octets up to the end of a final frame have been flushed, and nothing is torn behind a close frame |
| `WriteSafety.MutualExclusion` | internal/nhooyr.io/websocket/conn.go:264-317 | at most one thread is between lock and unlock of writeFrameMu, and none after the buffer went back to its pool |
| `WriteSafety.NothingAfterClose` | internal/nhooyr.io/websocket/close.go:140-176 | what was given to the connection is never taken back; once a close frame is written, everything has been given to the connection and not one more octet is (section 5.5.1 of RFC 6455) |
| `WriteCalls.CloseIsSent` | internal/nhooyr.io/websocket/close.go:133-214 | in every state of every run: a Close that waits for the peer finds wroteClose set; and on a connection that is not closed, the thread that set it is sending the close frame or has written it, as the last frame, with the payload for the code and reason of its own call |
| `WriteContent.SuccessMeansSent` | internal/nhooyr.io/websocket/write.go:245-335 | when writeFrame reports success to a call, the call has written exactly one frame, its own, with the type and octets it was given; if the frame is final, it and everything before it are on the connection |
| `WriteBuffered.SuccessMayBeBuffered` | internal/nhooyr.io/websocket/write.go:318-323 | a run in which a Write on a handle reports success and not one octet of its frame has been given to the connection |
| `WriteContent.FramesCarryTheCalls` | internal/nhooyr.io/websocket/write.go:98-234 | in every reachable state the frames written carry the messages of the calls whose frames went out, in the order in which their last frames did, then the message under way: nothing is invented or mixed |
| `WriteCalls.EveryCallIsAnswered` | internal/nhooyr.io/websocket/write.go:98-335 | in every state of every run: a call that is back with its caller has been answered (its frame written, its message opened, or its octets taken by the deflater) unless the connection is closed or, for any call but a Write on a handle, a close was asked for; while neither is the case, what was answered to a thread is exactly what it called for, in order and each once, but for the call it is in |
| `WriteExcused.PingGivesUp` | internal/nhooyr.io/websocket/write.go:253-266 | a run in which a Ping comes back without its frame on a connection that is not closed, because a Close has set wroteClose |
| `WriteHeard.FramesCarryEveryCall` | internal/nhooyr.io/websocket/write.go:98-234 | in every state of every run without compression: the frames written carry what the calls asked for, taken in the order of their answers, by the arguments alone: every message is the octets of all Writes between its Writer call and its Close, the one under way those of all Writes so far, and the control frames are those asked for |
| `WritePeer.PeerReadsTheCalls` | internal/nhooyr.io/websocket/write.go:98-335 | for every state of every run without compression: a peer without a limit that reads what was given to the connection gets every message that answered calls completed, whole and in order, and at most one more, a beginning of what calls were asked to send of the message under way; exactly all when nothing is buffered; and after a close frame the code and reason requested; what was answered is by the arguments of the calls |
| `WritePeer.PeerReadsEveryCall` | internal/nhooyr.io/websocket/write.go:98-335 | when every call is back and no close was asked for, on an endpoint without compression: a peer without a limit reads all the messages that were called for, whole, in an order that keeps every thread's own; of a message not closed yet a beginning of its Writes, all of them when nothing is buffered; and no call of any thread is missing |
| `QosItems.TrimReversesDelivery` | internal/wrphandlers/qos/priority_queue.go:143-159 | trim ranks items in reverse delivery order if and only if priority and tie breaker agree |
| `QosItems.TotalPermuted` | internal/wrphandlers/qos/priority_queue.go:191-193 | a sum over the items does not depend on their order in the heap |
| `QosHeap.RootFirst` | internal/wrphandlers/qos/priority_queue.go:177-189 | no item of a heap precedes its root |
| `QosQueue.PriorityQueue.Up` | internal/wrphandlers/qos/priority_queue.go:195-215 | sifting up restores the heap and permutes the items |
| `QosQueue.PriorityQueue.Down` | internal/wrphandlers/qos/priority_queue.go:217-230 | sifting down restores the heap over the first n items, permutes, and leaves the last item alone |
| `QosQueue.PriorityQueue.Push` | internal/wrphandlers/qos/priority_queue.go:195-215 | adds one item with the expiry of its level, keeps heap and size |
| `QosQueue.PriorityQueue.Dequeue` | internal/wrphandlers/qos/priority_queue.go:80-92 | removes the root, keeps the others, their heap order and the size; false on an empty queue |
| `QosQueue.PriorityQueue.Dispose` | internal/wrphandlers/qos/priority_queue.go:65-77 | empties the payload of one item in place and takes its length off the size |
| `QosQueue.PriorityQueue.Trim` | internal/wrphandlers/qos/priority_queue.go:115-173 | does nothing within the limit; otherwise disposes of all expired items and then of the shortest prefix of the unexpired ones in ascending rank that restores the limit |
| `QosQueue.PriorityQueue.Enqueue` | internal/wrphandlers/qos/priority_queue.go:95-112 | an oversized message is enqueued without payload and reported; then push and trim; QosRuns.RunKeepsInv says with which code |
| `QosQueue.SortByRank` | internal/wrphandlers/qos/priority_queue.go:143-159 | the unexpired items, each once, in ascending rank |
| `QosSpec.PushKeepsValid` | internal/wrphandlers/qos/priority_queue.go:195-215 | heap, size and empty discarded payloads are kept by Push, which adds exactly the new item |
| `QosSpec.DequeueKeepsValid` | internal/wrphandlers/qos/priority_queue.go:80-92 | the same for Dequeue, which returns an item that no other precedes |
| `QosPolicy.TrimKeepsValid` | internal/wrphandlers/qos/priority_queue.go:115-173 | the in-place trim keeps the heap, the size and the empty discarded payloads |
| `QosPolicy.TrimRestoresLimit` | internal/wrphandlers/qos/priority_queue.go:115-173 | after trim the size is within any limit that is not negative |
| `QosPolicy.TrimPolicy` | internal/wrphandlers/qos/priority_queue.go:118-171 | every expired item is disposed, items already discarded stay, no unexpired survivor ranks below a victim, and nothing else changes |
| `QosPolicy.TrimSparesTheFirst` | internal/wrphandlers/qos/options.go:58-83 | when priority and tie breaker agree, no victim would have been delivered before a survivor |
| `QosPolicy.TrimIsMinimal` | internal/wrphandlers/qos/priority_queue.go:163-171 | sparing the highest-ranked victim would have left the queue over its limit |
| `QosRuns.RunKeepsInv` | internal/wrphandlers/qos/priority_queue.go:80-215 | over any sequence of Enqueue and Dequeue: heap order, size equal to the sum of payload lengths, the limit, and conservation: every message given is in exactly one place, queued or dequeued, with code 102 and no payload if a trim discarded it, with code 4 and no payload if it alone is over a non-zero maxMessageBytes, and unchanged otherwise; its expiry is the time it was given plus the setting of its own level |
| `QosRuns.DrainInOrder` | internal/wrphandlers/qos/priority_queue.go:80-92 | successive Dequeues take only items that were queued, and none that precedes an earlier one |
| `QosRuns.DrainByPriority` | internal/wrphandlers/qos/priority_queue.go:177-238 | draining yields non-increasing quality of service and, among equals, newest or oldest arrival first under a clock that never goes back |
| `QosExpiry.SurvivesIfFits` | internal/wrphandlers/qos/priority_queue.go:163-171 | an unexpired item survives the trim of an overfull queue if and only if the payloads from its place in the rank order on are within the limit |
| `QosExpiry.RankRespectedIff` | internal/wrphandlers/qos/priority_queue.go:118-171 | an overfull queue loses no message that ranks above one it keeps if and only if no expired message with a payload ranks above an unexpired one that fits, which can be told before the trim |
| `QosExpiry.ExpiresAfterItsTime` | internal/wrphandlers/qos/priority_queue.go:195-215 | in every run, an item is expired exactly when the time its message was given plus the expiry of its level is past |
| `QosExpiry.WithinTimesRespectsRank` | internal/wrphandlers/qos/priority_queue.go:118-171 | in every run, while all messages are within their times no lost message ranks above a kept one |
| `QosExpiry.LowerIsKept` | internal/wrphandlers/qos/priority_queue.go:126-136 | for every choice of expiries, that of the lowest level not negative, a run in which a message of the highest quality of service that has expired is lost and one of the lowest is kept |
| `QosService.Service` | internal/wrphandlers/qos/qos.go:135-178 | the loop of serviceQOS, event by event, delivers exactly what the reference definition gives, and its queue is empty after every round |
| `QosService.LeavesInTurn` | internal/wrphandlers/qos/qos.go:149-177 | in every run with a Dequeue after every Enqueue the queue is empty before every Enqueue and never holds two items, and messages leave in the order in which they were given, each as it is when it has the queue to itself |
| `QosService.ArrivalOrder` | internal/wrphandlers/qos/qos.go:149-177 | without failed deliveries the loop delivers the messages in the order of arrival, whatever their quality of service |
| `QosService.RetriedWhileLast` | internal/wrphandlers/qos/qos.go:149-195 | with any failures the loop delivers the messages in the order of arrival, each once and then once more for every failure that is received before any other event |
| `QosService.FailureIsForgotten` | internal/wrphandlers/qos/qos.go:159-173 | runs in which a failed delivery is never made up for: when a second message arrives before the end of the first one's delivery is received, the first is delivered once whatever comes of it |
| `QosService.OnlyLimitsMatter` | internal/wrphandlers/qos/qos.go:143-148 | what the loop delivers depends on the two limits alone: not on the tie breaker, the priority, the expiries, the levels or the clock |
| `QosService.LosesPayload` | internal/wrphandlers/qos/priority_queue.go:95-118 | a message in that loop loses its payload if and only if it alone exceeds maxMessageBytes, when that is not 0, or maxQueueBytes; it is delivered with code 4 in the first case and 102 in the second |
| `QosService.QueueLimitIsIdle` | internal/wrphandlers/qos/internal_options.go:11-20 | with a positive message limit, which validation keeps within the queue limit, the queue limit never has an effect in that loop |
| `TxtRecords.Reassemble` | internal/jwtxt/token.go:214-245 | the loops over lines and indices, with their bound len(parts), give the parts 00, 01, ... joined up to the first missing index |
| `TxtRecords.BoundIsEnough` | internal/jwtxt/token.go:236-242 | the bound len(parts) never cuts the text short (pigeonhole on injective index names) |
| `TxtRecords.IndexInjective` | internal/jwtxt/token.go:230-237 | distinct indices have distinct names |
| `TxtRecords.NamesOnlyIndex` | internal/jwtxt/token.go:230-237 | the name of index i is the one string of decimal digits with value i that has exactly two digits below 100 and no leading zero from 10 on |
| `TxtRecords.FirstMissingUnique` | internal/jwtxt/token.go:236-242 | there is only one first missing index, so the result is determined by the parts |
| `TxtRecords.TokenRecovered` | internal/jwtxt/token.go:214-245 | for any colon-free chunking, numbered from 0 or 1 by strings with those properties, in any line order, repeated, and mixed with malformed lines, a text is the result if and only if it is the chunks joined |
| `MockTr181.Handler.Set` | internal/wrphandlers/mocktr181/handler.go:234-313 | all or nothing: with any failure the table is unchanged, the status is 520 and the failures are returned; otherwise all of the request is applied and the status is 202, with the replies that RepliesCount counts |
| `MockTr181.FailuresMean` | internal/wrphandlers/mocktr181/handler.go:245-278 | a request fails exactly when one of its names has no entry or has an entry without the letter w in its access |
| `MockTr181.AppliedMeans` | internal/wrphandlers/mocktr181/handler.go:288-305 | an entry that is named holds the last value given for it, and every other entry is as it was |
| `MockTr181.Handler.Get` | internal/wrphandlers/mocktr181/handler.go:164-232 | the report and status 200, or the list of names that failed, no report and status 520 |
| `MockTr181.GetSucceeds` | internal/wrphandlers/mocktr181/handler.go:175-214 | GET succeeds exactly when each name is not empty and begins the name of an entry with the letter r in its access and, unless it ends in a dot, of no entry without it |
| `MockTr181.ReportMeans` | internal/wrphandlers/mocktr181/handler.go:175-205 | the report holds exactly the readable entries that some requested name stands for |
| `MockAnswers.ReportInOrder` | internal/wrphandlers/mocktr181/handler.go:175-205 | the report for a name lists its entries in the order of the table, and that for several names one name after the other |
| `MockAnswers.UnavailableInOrder` | internal/wrphandlers/mocktr181/handler.go:192-214 | the names reported as failed, one name asked for after the other: the entries that cannot be read in the order of the table, unless the name ends in a dot, and then the name itself if nothing was readable |
| `MockAnswers.FailuresInOrder` | internal/wrphandlers/mocktr181/handler.go:245-278 | the failures of a SET with their messages: for each parameter one per entry that cannot be written, and one more if no entry can |
| `MockAnswers.RepliesCount` | internal/wrphandlers/mocktr181/handler.go:288-305 | the replies of an accepted SET to a parameter: its own value with the message Success, once for every entry of its name and every time that the request has the name |
| `MockTr181.SetThenGet` | internal/wrphandlers/mocktr181/handler.go:164-313 | after an accepted SET, a successful GET of a name set reports the last value given for it and no other; it is missing exactly when the name ends in a dot and no entry of that name can be read |

## Left out

- DEFLATE itself, sync.Pool reuse, finalizers and the timing of timeoutLoop. The chunks a deflater hands down are
  parameters; a context that expires is a step that may be taken at any wait.
- What an inflater makes of its octets: `InflatedReads` allows any inflater, `EndToEnd` says what octets it gets.
- MessageReader.MsgReader.Read: the class has no inflater; of a compressed message it reads the octets that one would
  get.
- MessageReader.MsgReader.ReadAll: for the same reason, of a compressed message it reads the octets that an inflater
  would get.
- ReadSafety.MessageReadEnds: is about uncompressed messages; InflatedReads.RunEnds covers both kinds.
- ReadSafety.WholeIfOpen: is about uncompressed messages; CompressedEnds.RunWholeIfOpen covers both kinds.
- What flateBufio holds from one compressed message to the next, after an inflater's early end.
- MessageWriter.FrameWriter.WriteFrame: the test of wroteClose and the polls of the closed channel are in the step
  system.
- Compression.TrimWriter.Write: gives the pieces to pass on; that a failed write ends the passing on is in WriteChunk.
- The HTTP handshake, dialing, Wasm, netconn and wsjson.
- WriteContent.FramesCarryTheCalls: for a compressed message it speaks of the octets that the trimmer lets through,
  not of what was given to the deflater.
- WritePeer.PeerReadsTheCalls: is about endpoints without compression and peers without a read limit.
- WritePeer.PeerReadsEveryCall: for the same endpoints and peers.
- WriteHeard.FramesCarryEveryCall: is about endpoints without compression; with it, WriteCalls.EveryCallIsAnswered
  says that the deflater took the octets.
- The error values that calls return: the step system says whether a call was answered.
- The text of errors and of the close reasons sent with them; the model keeps the kind of error and the close code.
- Pings and pongs in flight: the activePings map, the listeners, and a pong that the reader fails to write.
- Masking keys, which the code draws at random, are parameters of the writing methods.
- The mutexes of a single reader or writer appear in the step system only; `MessageWriter` and `MessageReader` are the
  sequential code.
- The step system assumes what the code assumes of its callers: a handle is used only between its Writer call and its
  Close, and Close starts when no Write on it is in progress. A reader is read to its end before the next Reader call.
- Compression.TailRestores: it is about octets only; that a deflater's flush ends in 00 00 FF FF is a premise.
- `QualityOfService.Level` is an uninterpreted function, and sizeBytes is an unbounded integer.
- QosQueue.SortByRank: slices.SortFunc is an insertion sort here; nothing but the order of its result is used, and
  items of equal rank may come out either way.
- QosQueue.PriorityQueue.Enqueue: the two readings of the clock are parameters; `QosRuns` requires that they never go
  back.
- QosService.Service: deliveries are started, not carried out; that a delivery ended, and whether it failed, are
  events.
- The JSON encoding of TR-181 requests and replies, and the loading of the table.
- The pubsub, libparodus, credentials, JWT, configuration, metadata, logging, auth, missing, crud and fs packages:
  easy members, or input and output.
