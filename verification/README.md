# WeTube and its WebSocket library, verified

WeTube lets a group of people watch videos together. Its clients form a peer-to-peer
session: they elect a leader by voting in numbered rounds, and the leader tells the others
who is in the session. They talk over WebSockets, with a copy of the Gorilla WebSocket
package in the repository. This project models the parts of both that are hard to get
right and proves what they are for:

- **WebSocket messages** (`conn.go`). A writer fills a buffer, puts a header of one of three
  lengths in front of it, masks it in place and sends it as one fragment of a message, while
  other goroutines send control messages in between. A reader undoes all that from bytes
  that arrive in any pieces. `ConnWriter` and `ConnReader` are the two ends, each a class
  with the fields that the program updates. `Frames` says what a legal stream of frames is,
  `FrameParser` and `Receiver` what a stream means to a reader, `Replies` what it makes
  the reader send, and `WireFormat` where each bit stands. `Exchange` puts the two ends
  together, and `Application` states the outcome for whole lists of calls.
- **Leader election and rosters** (`client.go`, driven by `run.go`). `WeTubeClient` is the
  client object, its map loops and its vote counting. `Election` and `Roster` say what each
  operation does to a client's state. `Agreement` runs any number of clients, with their
  requests in any order and their votes late, repeated or lost; `ActorInvariant`,
  `LostLeader` and `Convergence` follow from the same rules, and `ElectionRuns` puts the last
  two into the runs of `Agreement`.
- **The UTF-8 decoder** of the Autobahn test server. `Utf8` holds its table,
  `Utf8Language` compares what it accepts with RFC 3629, and `Utf8Validator` is the reader
  that checks text as it passes.
- **The chat hub.** `Hub` follows every connection's messages through a whole run.

`dafny verify dfyconfig.toml` checks everything.

## What the proofs found

- `Read` returns a plain `io.EOF` when the stream ends inside the payload of a frame
  (conn.go:735-741), so a cut-off message looks complete. `Truncation` says exactly when, for
  every beginning of a stream, and `Exchange.ReceiveTorn` for a write that failed part-way.
- `NextReader` sets the count for the read limit to zero before it skips what is left of an
  abandoned message (conn.go:702-705), so the payload of the frames it skips is charged to the
  next message. `ReadLimits` says exactly when a message is refused, for all legal frames.
- A 64-bit length with its top bit set is read as an empty frame, and lowers the count for the
  read limit (conn.go:614 and 634). See `Oversized`.
- A control message that just fills the write buffer is sent by `Write` and `WriteMessage`,
  but `ReadFrom` refuses it, since it flushes before it looks for the end of its input
  (conn.go:480-485). `ConnWriter` has the exact condition of each refusal.
- README.md:80-83 of the repository says that the leader is the Director with the lowest
  ID. A client that is not a Director passes Director peers over (client.go:567-586), and
  `Election` says for which states the rule holds all the same.
- `acceptLeaderVote` calls itself without end for a client without leader and peers that
  would have to start a round for the vote (client.go:505-512).
- When a leader times out, the requests to clear it and to elect a new one go through two
  channels (run.go:245-250). Served in the wrong order, the client votes for the lost leader.
  A round that the lost leader wins concludes nothing; each client then asks its actor for
  another election (client.go:536-539). `LostLeader` shows both orders, exactly when the first
  election is in vain, and that the second one makes one of the remaining clients leader.
- A leader panics when a round concludes with another member as the choice
  (client.go:489). `ActorInvariant` says which votes do that.

## Model

| member | source | states |
|---|---|---|
| Bytes.BigEndianRoundTrip | lib/src/github.com/gorilla/websocket/conn.go:356-366 | Reading a big-endian integer gives back the number that was written |
| Masking.MaskBytes | lib/src/github.com/gorilla/websocket/conn.go:124-130 | In place, octet i of the slice is XORed with octet (pos + i) mod 4 of the key, nothing else changes, and the position for the next part is returned |
| Masking.MaskedByOctet | lib/src/github.com/gorilla/websocket/conn.go:124-130 | From position 0, octet i of the payload meets octet i mod 4 of the key (section 5.3 of RFC 6455) |
| Masking.ZerosGiveKey | lib/src/github.com/gorilla/websocket/conn.go:124-130 | Four zero octets are masked to the key itself |
| Masking.MaskedTwice | lib/src/github.com/gorilla/websocket/conn.go:124-130 | Masking is its own inverse |
| Masking.MaskingIgnoresChunking | lib/src/github.com/gorilla/websocket/conn.go:731-741 | Masking a payload in any pieces, with the position handed on, equals masking it at once |
| Frames.AssemblyIsTheGrammar | lib/src/github.com/gorilla/websocket/conn.go:576-600 | The automaton with readFinal as its state accepts exactly the frame sequences of section 5.4 of RFC 6455, stated by positions, and leaves a message open exactly when they do |
| FrameParser.HeaderRoundTrip | lib/src/github.com/gorilla/websocket/conn.go:563-628 | Parsing the header of any frame, in minimal length form or not, gives its final bit, opcode, key and length, or names the rule that it breaks |
| FrameParser.MinimalHeader | lib/src/github.com/gorilla/websocket/conn.go:345-368 | The header that the writer puts in front of a payload is the shortest that can carry the length, and fits the reserved bytes |
| FrameParser.RulesKept | lib/src/github.com/gorilla/websocket/conn.go:574-624 | A frame breaks no rule if and only if its reserved bits are zero, its mask flag fits the role, and it is a final control frame of at most 125 bytes, the start of a message between messages, or a continuation inside one |
| WireFormat.HeaderBits | lib/src/github.com/gorilla/websocket/conn.go:335-368 | In the first two octets of any frame, FIN, RSV, opcode, MASK and the 7-bit length stand where section 5.2 of RFC 6455 draws them |
| WireFormat.LengthFollows | lib/src/github.com/gorilla/websocket/conn.go:356-364 | Then come the octets of an extended length, none, two or eight, the most significant first |
| WireFormat.PayloadFollows | lib/src/github.com/gorilla/websocket/conn.go:370-377 | Then the key, and the payload, octet i of it XORed with octet i mod 4 of the key |
| WireFormat.HelloUnmasked | lib/src/github.com/gorilla/websocket/conn.go:345-368 | The unmasked, fragmented and Ping examples of section 5.7 of RFC 6455 |
| WireFormat.HelloMasked | lib/src/github.com/gorilla/websocket/conn.go:370-377 | The masked examples of that section |
| WireFormat.LongExamples | lib/src/github.com/gorilla/websocket/conn.go:356-364 | And those with a 16-bit and a 64-bit length, for any payloads |
| FrameParser.AdvanceProgress | lib/src/github.com/gorilla/websocket/conn.go:553-685 | Each step of the reader takes at least a header off the stream, reports data only where a message may start or go on, and leaves an open message alone when it meets a control frame |
| Receiver.ViewAfterBytes | lib/src/github.com/gorilla/websocket/conn.go:731-741 | Taking any number of bytes of the current frame does not change what the stream will deliver |
| Receiver.ViewOfFrames | lib/src/github.com/gorilla/websocket/conn.go:553-763 | What an application gets from the bytes of any frames, legal or not, is what the frames say one by one: messages, then the error of the first bad frame, Close or the end |
| Receiver.AbandonDropsOneMessage | lib/src/github.com/gorilla/websocket/conn.go:700-716 | On a connection without a read limit, NextReader in the middle of a message loses that message and nothing else, on any bytes; the next one comes from its first byte |
| Receiver.WholeMessageIsReported | lib/src/github.com/gorilla/websocket/conn.go:723-763 | Reading a message to its end reports no error if and only if the outlook has the message, and then reports just that |
| Replies.AnswersInOrder | lib/src/github.com/gorilla/websocket/conn.go:794-802 | Each Ping is answered in its place by a Pong with its payload, and no other message is answered |
| Replies.AnswersExactly | lib/src/github.com/gorilla/websocket/conn.go:553-685 | On any bytes, from anywhere in a message, this side sends a Pong for each Ping delivered and then the one Close that belongs to the error, or none at the end of the transport |
| Replies.RepliesToFrames | lib/src/github.com/gorilla/websocket/conn.go:651-677 | For the bytes of any frames, legal or not, what this side sends is read off the frames: a Pong per Ping before the stop, then a Close for the Close, the broken rule or the limit |
| Replies.CloseStatus | lib/src/github.com/gorilla/websocket/conn.go:667-677 | A Close without status counts as 1005, statuses 1000 and 1001 are a plain EOF, and any other is the first two octets of the payload |
| Replies.FarewellIsUnderstood | lib/src/github.com/gorilla/websocket/conn.go:687-690 | The peer reads from that Close the status that belongs to the error, 1002 or 1009, whatever text follows, and an empty Close from the answer to its own |
| RoundTrip.MessageRoundTrip | lib/src/github.com/gorilla/websocket/conn.go:700-763 | From the bytes of the frames that one role may send, the reader of the other role delivers exactly the messages they complete; from a transport that reports its end with its last bytes, exactly what Told says |
| RoundTrip.MessageRoundTripToClose | lib/src/github.com/gorilla/websocket/conn.go:661-677 | The same up to a Close frame, where the reader stops with the peer's status, whatever follows |
| RoundTrip.TruncationOnlyLosesTheEnd | lib/src/github.com/gorilla/websocket/conn.go:553-763 | From a truncated stream of any bytes the application gets what it would get from the whole one as far as that goes; only the last message may be the beginning of one |
| RoundTrip.ProtocolErrorsExactly | lib/src/github.com/gorilla/websocket/conn.go:574-628 | The reader reports a protocol error if and only if the frames up to the first Close, or the first one that makes its message longer than the read limit, break the grammar, the shape of control frames, the reserved bits or the mask rule |
| ReadLimits.LimitExactly | lib/src/github.com/gorilla/websocket/conn.go:634-638 | Reading message by message stops with ErrReadLimit if and only if some message before a Close, in any fragments, is longer than the limit |
| ReadLimits.AbandonedBytesCount | lib/src/github.com/gorilla/websocket/conn.go:700-716 | After NextReader gave a message up, anywhere in a frame: on all legal frames that follow, the reader is stopped if and only if the skipped frames, or they and the next message together, or a later message before a Close is longer than the limit; otherwise the application gets everything but the abandoned message, and the Close or the end as either kind of transport reports it |
| ReadLimits.ChargedExactly | lib/src/github.com/gorilla/websocket/conn.go:634-638 | With bytes charged to the next message, reading on from anywhere in a message is stopped if and only if some message before a Close, the first with the charge, is too long, and otherwise tells what the frames tell, up to the Close or the end |
| ReadLimits.LimitIsFinal | lib/src/github.com/gorilla/websocket/conn.go:634-638 | Once the limit has stopped the reader, no bytes that follow change anything |
| ReadLimits.OneFrameExactly | lib/src/github.com/gorilla/websocket/conn.go:634-638 | Under a read limit, a message of one frame, whose end is not the reported end of the transport, is refused with 1009 if and only if its payload is longer than the limit, and otherwise delivered |
| ReadLimits.MessageWithinLimitRefused | lib/src/github.com/gorilla/websocket/conn.go:702-705 | An input on which a message within the limit is refused, whatever follows |
| Truncation.CutMessageLooksWhole | lib/src/github.com/gorilla/websocket/conn.go:731-741 | The end of the stream in any frame, first, middle, last or only: once the whole header of a text, binary or continuation frame has arrived, a clean end passes for the end of the message, with the payload so far; before, and in control frames, it is an error |
| Truncation.CutIsNoticedExactly | lib/src/github.com/gorilla/websocket/conn.go:723-763 | The end of the stream in a continuation frame is reported if and only if it falls inside the header, or right after a frame that is not final and not together with its payload; an error is reported also where the header passes the read limit |
| Truncation.CutStreamExactly | lib/src/github.com/gorilla/websocket/conn.go:723-763 | For every beginning of a stream of legal frames, with or without a Close, the application gets the complete messages, and one more if and only if the beginning ends inside the payload of a data or continuation frame (or, from a transport that reports its end with its last bytes, with the payload of a frame that is not the last of its message) |
| Oversized.TopBitIsNegative | lib/src/github.com/gorilla/websocket/conn.go:614 | The 64-bit length becomes negative exactly when its top bit is set |
| Oversized.NegativeLengthReadsAsEmpty | lib/src/github.com/gorilla/websocket/conn.go:614 | A frame of any message with such a length is read as empty, the bytes after its header are parsed as the next header, and its negative length is added to the count for the read limit |
| Oversized.NegativeFragmentHidesBytes | lib/src/github.com/gorilla/websocket/conn.go:634-638 | A message in any number of fragments, any of them with such a length, is stopped if and only if the sum of the lengths up to some fragment passes the limit, and is otherwise delivered, however many bytes it has |
| StreamPosition.PositionIsKept | lib/src/github.com/gorilla/websocket/conn.go:553-561 | In any reading, skipping and giving up of messages, the bytes taken and those left in the current frame are together the bytes of the first frames of the stream |
| StreamPosition.AdvanceKeepsPosition | lib/src/github.com/gorilla/websocket/conn.go:553-561 | Going on from anywhere in a frame lands at the end of the next frame |
| ByteSource.Source.Read | lib/src/github.com/gorilla/websocket/conn.go:735 | The transport: any part of the bytes that are next, and the end only when there are none left, either in a Read of its own or with the last bytes |
| ConnReader.ReadConn.constructor | lib/src/github.com/gorilla/websocket/conn.go:169-193 | A new connection expects the start of a message and has nothing open |
| ConnReader.ReadConn.ReadFull | lib/src/github.com/gorilla/websocket/conn.go:538-551 | The buffer is filled whatever the pieces, or the stream was shorter; io.EOF is never returned |
| ConnReader.ReadConn.AdvanceFrame | lib/src/github.com/gorilla/websocket/conn.go:553-685 | Read fields, rest of the stream, replies and result are those of the reader's step on the bytes still to come |
| ConnReader.ReadConn.ReadBytes | lib/src/github.com/gorilla/websocket/conn.go:731-741 | Some of the frame's bytes, unmasked in place, with position and remaining count moved by as many, and the end of the stream, alone or with them |
| ConnReader.ReadConn.TakeBytes | lib/src/github.com/gorilla/websocket/conn.go:731-741 | The open message grows by these bytes, a clean end counts as its end, and neither the forecast nor the place in the stream changes |
| ConnReader.ReadConn.NextReader | lib/src/github.com/gorilla/websocket/conn.go:700-716 | Opens a message, or fails for good; the forecast of the whole stream loses just the message that was open, and the place in the stream is kept |
| ConnReader.ReadConn.Read | lib/src/github.com/gorilla/websocket/conn.go:723-763 | Delivers the next unmasked bytes, never changes what the stream will give in all, keeps the place in the stream, and returns io.EOF once for each message that the application is told is complete |
| ConnReader.ReadConn.ReadAll | lib/src/github.com/gorilla/websocket/conn.go:767-775 | Collects the open message, with buffers of any size |
| ConnReader.ReadConn.ReceiveAll | lib/src/github.com/gorilla/websocket/conn.go:700-775 | A whole session gives exactly the data messages that were forecast for the stream, in order, and then the error, and sends exactly the forecast replies |
| ConnWriter.WriteConn.constructor | lib/src/github.com/gorilla/websocket/conn.go:169-193 | A new connection has sent nothing, and room for a header and the buffer size |
| ConnWriter.WriteConn.LockedWrite | lib/src/github.com/gorilla/websocket/conn.go:217-241 | Under the mutex, after any control messages of others, one frame goes out whole, or the write fails after a Close or closes the connection; the stream stays legal |
| ConnWriter.WriteConn.WriteControl | lib/src/github.com/gorilla/websocket/conn.go:245-300 | From any goroutine: exactly the given control message goes out, between frames, and the message being written is untouched; each refusal has its condition |
| ConnWriter.WriteConn.OtherCallers | lib/src/github.com/gorilla/websocket/conn.go:280-299 | Any number of other control writers leave the stream legal and add only control frames |
| ConnWriter.WriteConn.BuildFrame | lib/src/github.com/gorilla/websocket/conn.go:345-379 | Header, key and masked payload stand in a row in the buffer, ending where the payload ends |
| ConnWriter.WriteConn.FlushFrame | lib/src/github.com/gorilla/websocket/conn.go:329-394 | Sends the buffered bytes and the extra ones as one frame of the message's type, in legal order, or refuses a control message that needs more than one |
| ConnWriter.WriteConn.NextWriter | lib/src/github.com/gorilla/websocket/conn.go:310-327 | Closes the message that is open and starts one of the given type, with the error of each failing branch |
| ConnWriter.WriteConn.Ncopy | lib/src/github.com/gorilla/websocket/conn.go:412-424 | Finds room for at least one byte without changing what has been accepted for the message |
| ConnWriter.WriteConn.CopyIn | lib/src/github.com/gorilla/websocket/conn.go:440-449 | The copy loop ends, the payload sent and the bytes buffered are together the message so far and the new bytes, in order, and a control message is refused if and only if the buffer has no room for it |
| ConnWriter.WriteConn.WriteBytes | lib/src/github.com/gorilla/websocket/conn.go:426-451 | Appends to the message, buffered or, for large messages of a server, straight to the network; a control message is refused if and only if it has no room |
| ConnWriter.WriteConn.Write | lib/src/github.com/gorilla/websocket/conn.go:453-455 | Appends the bytes to the message; a control message is refused if and only if the buffer has no room for it |
| ConnWriter.WriteConn.WriteString | lib/src/github.com/gorilla/websocket/conn.go:457-473 | Appends the bytes of the string to the message; a control message is refused if and only if the buffer has no room for it |
| ConnWriter.WriteConn.ReadFrom | lib/src/github.com/gorilla/websocket/conn.go:475-498 | Appends everything the reader has, in whatever pieces it comes; a control message is refused if and only if it is more than the buffer has room for, or just fills it and the reader does not report its end with its last byte |
| ConnWriter.ControlThatFillsBuffer | lib/src/github.com/gorilla/websocket/conn.go:453-455 | Write takes every control message that just fills the buffer of a new connection |
| ConnWriter.ControlReadFromFillsBuffer | lib/src/github.com/gorilla/websocket/conn.go:479-485 | ReadFrom refuses every such message |
| ConnWriter.WriteConn.Close | lib/src/github.com/gorilla/websocket/conn.go:500-505 | Completes the message, and makes this writer fail from then on |
| ConnWriter.WriteConn.WriteMessage | lib/src/github.com/gorilla/websocket/conn.go:509-524 | Completes the message that may be open and sends one that holds exactly the data; on a connection with no open message a control message is refused if and only if it is over 125 bytes or, unless it goes past the buffer, more than the buffer holds |
| ConnWriter.StreamGrows | lib/src/github.com/gorilla/websocket/conn.go:217-241 | A frame that may follow a legal stream makes a longer legal stream |
| ConnWriter.WireAfterFailure | lib/src/github.com/gorilla/websocket/conn.go:229-239 | A write that takes part of a frame leaves whole frames and the beginning of one that may come there, on a closed connection |
| Exchange.Receive | lib/src/github.com/gorilla/websocket/conn.go:700-763 | End to end: after any calls, buffer size, keys and concurrent control messages, an application at the other end gets exactly the messages the writer completed, whatever the pieces and however the transport ends, as long as the wire has whole frames and no Close; and its side answers each Ping on the wire, in order, and sends nothing else |
| Exchange.ReceiveToClose | lib/src/github.com/gorilla/websocket/conn.go:661-677 | The same on a connection that has sent its Close, whose status the reader reports and answers with one empty Close, after the Pongs |
| Exchange.ReceiveTorn | lib/src/github.com/gorilla/websocket/conn.go:229-239 | After a failed write the application gets all completed messages, and one more if and only if the torn frame is a data or continuation frame whose header has gone out, within the read limit, and the end is clean: the beginning of its message |
| Exchange.ReceiveAny | lib/src/github.com/gorilla/websocket/conn.go:700-775 | Whatever has become of the connection, the application gets all completed messages and then exactly what LooksWhole says of the frame that is torn, whichever frame its bytes begin; and nothing more unless a write of this side's messages failed in the transport |
| Exchange.FailedWriteLosesOnlyTheEnd | lib/src/github.com/gorilla/websocket/conn.go:229-239 | What a wire with a torn frame tells is the completed messages and then exactly what the beginning of the torn frame tells, for every frame that it may be the beginning of |
| Application.Perform | lib/src/github.com/gorilla/websocket/conn.go:310-524 | A list of NextWriter, Write, WriteString, ReadFrom, Close, WriteMessage and WriteControl calls has sent what the calls say, or what they say up to the one that failed; what that one left torn is a control frame or part of the message it was sending |
| Application.MessageIsItsWrites | lib/src/github.com/gorilla/websocket/conn.go:310-524 | A message is what was written to it: NextWriter, any writes and Close send their bytes in order, and WriteMessage its data |
| Application.Converse | lib/src/github.com/gorilla/websocket/conn.go:310-775 | Any list of calls on a new connection, while others send control messages, and a session at the other end: if no call failed it receives exactly the messages the calls sent; if one failed, exactly those complete by then, and one more only after a failure in the transport: a proper beginning of the message that the call was sending |
| Utf8.ClassTable | lib/src/github.com/gorilla/websocket/examples/autobahn/server.go:215-224 | The first 256 entries of the table classify bytes by the ranges of RFC 3629 |
| Utf8.NextTable | lib/src/github.com/gorilla/websocket/examples/autobahn/server.go:225-229 | The other entries are the transitions between states by what a state still waits for |
| Utf8.Continue | lib/src/github.com/gorilla/websocket/examples/autobahn/server.go:237-246 | In a waiting state an octet is taken and its bits appended, or the input is rejected |
| Utf8.RejectStays | lib/src/github.com/gorilla/websocket/examples/autobahn/server.go:237-246 | Rejection is for good |
| Utf8Language.LanguageEquality | lib/src/github.com/gorilla/websocket/examples/autobahn/server.go:215-246 | A fold of decode from state 0 ends in utf8Accept if and only if the bytes are UTF8-octets of section 4 of RFC 3629 |
| Utf8Language.RejectsAsSoonAsHopeless | lib/src/github.com/gorilla/websocket/examples/autobahn/server.go:215-246 | The decoder is in utf8Reject if and only if no continuation makes the input well-formed |
| Utf8Language.CharIsDecoded | lib/src/github.com/gorilla/websocket/examples/autobahn/server.go:237-246 | Each time the decoder returns to utf8Accept, x is the number that the octets of the character stand for, and nothing comes out in between |
| Utf8Language.ScalarOfEncode | lib/src/github.com/gorilla/websocket/examples/autobahn/server.go:237-246 | The octets of a scalar value (section 3 of RFC 3629) are a character that reads as the value |
| Utf8Language.EncodeOfScalar | lib/src/github.com/gorilla/websocket/examples/autobahn/server.go:237-246 | A character reads as a scalar value and is that value's octets: no overlong forms, surrogates or numbers beyond U+10FFFF |
| Utf8Language.TextIsDecoded | lib/src/github.com/gorilla/websocket/examples/autobahn/server.go:237-246 | The encoding of any scalar values is accepted and decoded to them |
| Utf8Language.AcceptedIsText | lib/src/github.com/gorilla/websocket/examples/autobahn/server.go:237-246 | Every accepted input is the encoding of the values decoded |
| Utf8Validator.Validator.Read | lib/src/github.com/gorilla/websocket/examples/autobahn/server.go:176-192 | The error is that of one decoder run over all bytes so far: invalid when they cannot become UTF-8, or end in the middle of a character |
| Utf8Validator.Validate | lib/src/github.com/gorilla/websocket/examples/autobahn/server.go:55-68 | Copying a text through the validator gives the verdict on the whole text, for any pieces and any buffer size |
| Election.ChoiceMeetsDocumentation | src/wetube/client.go:561-585 | Without a leader, the vote follows the documented rule if and only if the client is a Director, there is no Director, or the lowest ID of all is a Director's |
| Election.DirectorIsPassedOver | src/wetube/client.go:567-582 | A state in which a viewer does not vote for the only Director |
| Election.TallyCountsEveryVote | src/wetube/client.go:521-529 | The counts add up to one more than the votes received |
| Election.OneEntryIsUnanimous | src/wetube/client.go:530 | The tally has one entry exactly when everybody voted alike |
| Election.StuckForever | src/wetube/client.go:505-513 | A client without leader and peers that has to start a round for a vote never returns from acceptLeaderVote |
| Election.AcceptReturns | src/wetube/client.go:505-513 | Any other client returns after as many nested calls as its round and the vote's number tell, at most two |
| Election.AcceptTerminatesExactly | src/wetube/client.go:505-513 | acceptLeaderVote returns if and only if the client is not stuck |
| Election.StaleVoteIsIgnored | src/wetube/client.go:505-559 | A vote of an older round changes nothing at all |
| Election.CurrentVoteIsRecorded | src/wetube/client.go:514-520 | A vote of the current round, before the last, is recorded in place of an earlier one of its sender, and changes nothing else |
| Election.NextRound | src/wetube/client.go:587-608 | Starting a round, before the counter wraps, takes the number nextVoteRoundN, raises it by one and casts that vote; a client that is alone leads instead |
| Election.ConclusionExactly | src/wetube/client.go:530-543 | For a client that does not lead, a unanimous round makes it the leader, a Director without leader, if it is the choice; has it follow the peer that is; leaves a leader that is the choice in place; and otherwise asks for an election |
| Election.ChoiceExactly | src/wetube/client.go:561-585 | The vote goes to the leader; without one, a Director takes the lowest ID among itself and its Director peers, anybody else the lowest of all |
| Election.LeaderIsDirector | src/wetube/client.go:455-473 | Whoever becomes leader is a Director without leader, otherwise as before |
| Election.FollowsNewLeader | src/wetube/client.go:475-503 | A client that does not lead follows the new leader, as its peer entry has it if there is one, which leaves the peers; it knows everybody whom it knew as a peer, and the leader |
| Agreement.ServeKeeps | src/wetube/client.go:88-214 | Every request leaves the client's votes below its counter, its recorded votes true, and no two votes in a round |
| Agreement.RunKeeps | src/wetube/client.go:88-214 | So does every run of any number of clients |
| Agreement.OneVotePerRound | src/wetube/client.go:596-607 | In every run without counter wrap a client never casts two different votes in a round, its counter is above its rounds, and each recorded vote was cast in that round by that sender |
| Agreement.VotesOncePerRound | src/wetube/client.go:596-607 | In the list of all votes cast in a run, no client has two in one round, not even the same one twice, and the votes sent are just those |
| Agreement.ConclusionsOfRun | src/wetube/client.go:530-543 | In every run a round is concluded exactly where some step reached its conclusion |
| Agreement.CounterNeverFalls | src/wetube/client.go:509-512 | nextVoteRoundN never decreases |
| Agreement.Agree | src/wetube/client.go:515-543 | Two conclusions of one round choose the same ID, if everybody who voted in the second was a member that its client still knew, and that client knew the first one's or is the same; a vote of a client that has since departed would count too |
| Agreement.LeaderByVote | src/wetube/client.go:530-533 | A vote makes a client leader only by concluding a round with itself, or when it is alone |
| Agreement.OneLeaderPerRound | src/wetube/client.go:515-543 | Within one electorate at most one client becomes leader in a round |
| ActorInvariant.ServeKeepsShape | src/wetube/client.go:88-214 | Every request keeps a leader without leader, peers under their IDs, and everybody listed once |
| ActorInvariant.RunKeepsShape | src/wetube/client.go:88-214 | So does every run whose requests are those of the event loop |
| ActorInvariant.CheckedIsSound | src/wetube/run.go:353-404 | A handler that saw the client lead at any earlier moment may add a peer now, whatever was served in between |
| ActorInvariant.EventLoopKeepsShape | src/wetube/run.go:353-404 | So the invariant holds in every run of the event loops |
| ActorInvariant.LeaderForever | src/wetube/client.go:455-472 | In every run isLeader never becomes false again |
| ActorInvariant.RostersAreDistinct | src/wetube/client.go:143-160 | In every run a client's rosters list nobody twice |
| ActorInvariant.LeaderPanicsExactly | src/wetube/client.go:485-544 | For every vote: it brings a client down if and only if the client leads and the vote concludes a round, its own or one it starts for the vote, in which everybody chose a peer |
| ActorInvariant.RequestPanicsExactly | src/wetube/client.go:88-214 | Of all requests, only such a vote and an order to a leader to follow somebody else bring a client down |
| Convergence.SameTally | src/wetube/client.go:521-530 | Whoever counts, the tally of a round is that of the whole electorate |
| Convergence.WinnerHasMostVotes | src/wetube/client.go:545-554 | The winner has the most votes, and the lowest ID of those that have as many |
| Convergence.Closing | src/wetube/client.go:514-520 | The votes still missing, once each and in any order, close the round with the last one, whether the client had voted and heard some already or enters the round because of the first of them |
| Convergence.FirstBallot | src/wetube/client.go:505-513 | A client in no round or a lower one that is reached by a vote casts its own, after that of its own next round if that comes before, and takes the vote as if it had voted already |
| Convergence.PartWay | src/wetube/client.go:514-520 | A client that has voted and heard some votes is where it would be had it just voted and then served those |
| Convergence.StaleChangesNothing | src/wetube/client.go:505-559 | Serving votes of rounds that the client has left behind, wherever among the others, changes nothing |
| Convergence.ElectionStarts | src/wetube/client.go:587-607 | Clients that start an election without leader are voting in a round, for members of their electorate |
| Convergence.ElectionConverges | src/wetube/client.go:514-557 | With all votes of a round before any of the next, any number of stale votes among them, and a winner in the electorate, a client that has voted or will when a vote reaches it settles on the winner at once, or votes for it and settles on it in the next round; one that led already is elected again if it wins, and panics if another does |
| Convergence.ExactlyOneLeads | src/wetube/client.go:514-557 | At the end the winner leads and every other client follows it, but for one that led before and did not win, which has panicked |
| LostLeader.ClearedThenElects | src/wetube/run.go:245-250 | When the lost leader is cleared before the election, the client votes for a member that is still there |
| LostLeader.ElectsThenClears | src/wetube/run.go:245-250 | When the election is served first, the client votes for the lost leader in the same round |
| LostLeader.LostLeaderConcludesNothing | src/wetube/client.go:530-557 | Clients without a leader whose votes are won by one that is not there: all vote for it in the next round, that round concludes nothing, and each asks for one more election and is otherwise as it was |
| LostLeader.AsksAgainExactly | src/wetube/client.go:530-543 | Without a leader, these rounds end the election if and only if the winner is in the electorate, and otherwise conclude nothing and request one election |
| LostLeader.StartsAgain | src/wetube/client.go:561-585 | Served, that request has the client vote in the round after for a member that is still there |
| LostLeader.OneRemainingLeads | src/wetube/client.go:505-608 | Of any two or more clients without a leader, that have voted or will when a vote reaches them, whatever each votes for, exactly one ends up leader and all others follow it, after two rounds at most, or four if the lost leader wins the first election; only one that led all along and did not win panics |
| ElectionRuns.RunProjects | src/wetube/client.go:88-214 | In any run a client is where the requests that it served have brought it, whatever the others do in between |
| ElectionRuns.WinnerLeadsInEveryRun | src/wetube/client.go:505-608 | In every run in which each client of an electorate, from a start of its own, having voted or reached by a first vote, serves the votes round by round, in any order within a round, with any stale votes of earlier rounds in between and any interleaving, the winner, if a member, leads in the end and all others follow it; a member that led before and did not win has panicked |
| ElectionRuns.OneLeadsInEveryRun | src/wetube/client.go:505-608 | And in every such run of clients without a leader, with the election that they ask for if somebody wins who is not there, one of them leads in the end and all others follow it |
| Roster.RosterIsMirrored | src/wetube/client.go:161-194 | A follower that applies its leader's roster lists the leader's members, names and ranks, less exactly those it did not know and could not dial |
| Roster.RosterIsMirroredWhole | src/wetube/client.go:161-194 | With successful dials the two listings are equal |
| Roster.RosterEntryByEntry | src/wetube/client.go:161-194 | What becomes of each entry of a roster that lists nobody twice: the client takes its own name and rank from it, the leader and known peers theirs with the address kept, an unknown one is a new peer if it could be dialled; and no other peers stay |
| Roster.SecondUpdateIsIdle | src/wetube/client.go:161-194 | Applying the roster again dials nobody and changes nothing |
| Roster.RosterIsDistinct | src/wetube/client.go:143-160 | A roster lists nobody twice |
| WeTubeClient.Client.BecomeLeader | src/wetube/client.go:455-473 | The client is a Director that leads and has no leader, and the leader that was gets one close signal; nothing changes for one that leads already but its rank |
| WeTubeClient.Client.SetLeader | src/wetube/client.go:475-503 | A client that does not lead follows the new leader, the object among its peers with that ID or the given one, which leaves the peers; one that leads refuses, and panics if it is not itself; the leader that was gets one close signal |
| WeTubeClient.Client.ElectSpecificLeader | src/wetube/client.go:587-608 | Starts the next round and casts the vote, or takes the lead when alone |
| WeTubeClient.Client.ElectNewLeader | src/wetube/client.go:561-585 | Votes for the leader or for the choice among the candidates |
| WeTubeClient.Client.LowestCandidate | src/wetube/client.go:566-584 | The two loops find the choice, for every order of the map |
| WeTubeClient.Client.AcceptLeaderVote | src/wetube/client.go:505-559 | For a client that is not stuck, state, votes cast, rounds concluded, elections asked for and panic are those of the election rules; a vote of an older round changes no field, and one before the last of the current round just the recorded votes |
| WeTubeClient.CountVotes | src/wetube/client.go:521-529 | The loop computes the tally, for every order of the map |
| WeTubeClient.PickMajority | src/wetube/client.go:545-554 | The loop finds the highest count, lowest ID on ties, for every order of the map |
| WeTubeClient.Client.AddPeer | src/wetube/client.go:104-110 | Adds a peer unless its ID is taken, and keeps the object that was there |
| WeTubeClient.Client.DeletePeer | src/wetube/client.go:101-103 | Removes the peer and nothing else |
| WeTubeClient.Client.UpdatePeer | src/wetube/client.go:111-123 | Changes that peer alone, and leaves its name or address where the entry's is blank |
| WeTubeClient.Client.GetRoster | src/wetube/client.go:143-160 | The client, its leader and its peers, one in each slot, in some order of the map |
| WeTubeClient.Client.UpdateRoster | src/wetube/client.go:161-194 | The new state; peers that stay keep their objects, each one that goes gets one close signal, new ones are new objects |
| WeTubeClient.Client.Serve | src/wetube/client.go:88-214 | One turn of the client's actor, for every request: state, votes cast, rounds concluded, elections asked for and panic are those of a step of Agreement's runs |
| Hub.Hub.DoRegister | lib/src/github.com/gorilla/websocket/examples/chat/hub.go:33-34 | The connection is served from the next broadcast on |
| Hub.Hub.DoUnregister | lib/src/github.com/gorilla/websocket/examples/chat/hub.go:35-39 | A registered connection is closed, and any other left alone |
| Hub.Hub.DoBroadcast | lib/src/github.com/gorilla/websocket/examples/chat/hub.go:40-48 | Every connection gets the message, or is closed if its send would block, in any order |
| Hub.Hub.Run | lib/src/github.com/gorilla/websocket/examples/chat/hub.go:30-51 | In any run each connection is sent exactly the broadcasts from its registration to its end, which is its first later unregistering or blocked send, and is closed then; one without such an event is still served |
| Hub.StandingExactly | lib/src/github.com/gorilla/websocket/examples/chat/hub.go:35-48 | If no event up to some point ends a connection and the next one unregisters it or finds its send blocked, it ends there, after the broadcasts so far; if none ever does, it is served to the end |

## Left out

- TLS, dialling, the HTTP upgrade, SHA-1 accept keys, URL and token parsing, RSA signatures, gob and JSON encoding: library calls. A vote carries its true sender, as handleLeaderVote makes it (src/wetube/run.go:603-615), and whether a dial succeeds is an input.
- Goroutines, timers and wall-clock time: an election retry, a lost heartbeat, a new leader or a request from the browser may happen in any step. Channels never block, and a write deadline is a flag that says whether it passed before the mutex was free.
- The two halves of a connection are two classes. Control messages that reading makes this side send are recorded by the reader and not written by the writer; towards the writer they are among the arbitrary control messages of other goroutines. An error of a ping or pong handler that the application installs is not modelled: the handlers are those of newConn.
- Text in Close frames, subprotocols, and the text of error messages: each error is a value of its own.
- ByteSource.Source.Read: a transport either always reports its end together with its last bytes, or always in a Read of its own.
- Receiver.AbandonDropsOneMessage: without a read limit; with one, ReadLimits.AbandonedBytesCount has the exact condition, for legal frames.
- Replies.FarewellIsUnderstood: a text in a Close frame is any bytes, and not the reason that the code gives.
- ConnWriter.WriteConn.Write: payload and buffer are together shorter than 2^63 bytes, which Go's int needs too, and a writer is one that NextWriter gave out.
- Exchange.Receive: the messages keep the read limit; when they do not, LimitExactly says where reading stops.
- Application.Converse: without a read limit, and from a transport that reports its end in a Read of its own; Exchange has the other cases.
- Agreement.Agree: round counters have not reached the greatest uint, after which they start again at zero; on a 64-bit platform. Counts are unbounded where the code has int32.
- Agreement.OneLeaderPerRound: about one round; the code allows different leaders from different rounds.
- ElectionRuns.WinnerLeadsInEveryRun: the delivery order is a hypothesis that the code does not guarantee: from its start on, a client serves just the missing votes of these rounds, each once and those of a round before those of the next, and any votes of rounds that it has left behind, and no counter wraps.
- ElectionRuns.OneLeadsInEveryRun: the same, and a client serves the election that it asked for once, before the votes of that election's first round.
- WeTubeClient.Client.AddPeer: not the object that is the client's leader; run.go adds the object of a member that just accepted its invitation (src/wetube/run.go:353-404).
- WeTubeClient.Client.AcceptLeaderVote: not for a client that StuckForever shows never to return.
- WeTubeClient.Client.UpdatePeer: ports, public keys and the video state are carried along unchanged by the code and are not in the model, nor are the timers that becomeLeader starts and the invitations it clears.
- Hub.Hub.Run: each connection is registered once, with a new channel; registered again after it was closed, it would make the next broadcast panic.
- The browser interface, rank and authorization branches of run.go, the filewatch example and the pumps of the chat example: each is settled by reading one branch.
