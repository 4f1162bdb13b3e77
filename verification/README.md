# A model of the data path of libnekit

This project models, in Dafny, the parts of the proxy library that move and change bytes and that decide where a
session goes, and proves what they promise.

* `Buffers` (with `Bytes`, `Layouts`): the rope of byte chunks. A buffer is the source's linked list of nodes; its value is
  the byte string of its chunks. Each operation is the walk over nodes that the source makes, proved against that string.
  The layout of a buffer says how its bytes lie in the stores of its chunks, slack included; the operations that the rewriter
  uses state the new layout exactly.
* `HttpStream`, `HttpRuns`, `HttpComing`: the grammar of a message stream (sections 3.1 and 3.2 of RFC 7230), what a delegate
  may do to it, the stream with exactly those edits as an independent definition, and the HTTP parser as an oracle.
* `HttpEdits`: the same byte by byte: what the grammar writes, and what each answer of a delegate makes of the stream.
  `HttpProxy`: the delegate with which the library's HTTP server rewrites its clients' requests.
* `RewriterFacts`, `RewriterCarry`, `HeaderLines`, `RewriterRoom`, `RewriterRopes`, `Rewriters`, `RewriterRuns`: the in-place
  stream rewriter, callback by callback, over a `Buffer`, and its whole runs. `HeaderLines` and `RewriterRoom` say when an
  added header line comes out right, `RewriterRopes` what a call makes of any buffer, bytes and layout, as a function.
  `RewriterExamples` holds runs with a surprising end.
* `Flows`, `Tunnels`: the half-closable flow and a tunnel's two forwarding loops as a system of steps, with the handlers as
  methods that make those steps.
* `Rules`: first-match rules with lazy name resolution. `Subnets` and `Tries`: two indexes against their plain definitions.
* `StreamReaders`, `Socks5`: reading up to a length or a pattern, and the SOCKS5 negotiation (RFC 1928) of both sides.

## What the parser oracle gives

The HTTP parser is third-party code and is not part of this model. The oracle knows where the tokens of the coming stream
lie. It takes the bytes of a chunk one region after another, reports a token in one or more pieces, the last one when it
sees the byte behind it, and stops after a callback that pauses it; the end of a header block is reported before its last
line feed is taken, and the end of a message with its last byte. A callback that fails puts it into an error state, so a
delegate that refuses inside a callback makes `RewriteBuffer` return a parser error and not a user error.

## Where the code does not do what one would expect

* `Buffer::operator[]` leaves out the chunk's offset. `Buffers.Buffer.At` and `SetAt` say exactly which byte is read or
  written then. Writing does what it should if and only if the chunk has no offset, or the byte has the value already and
  the write lands in the slack or on a byte of that value. `Buffers.IndexAstray` and `Buffers.IndexHarms` are buffers, made
  by two calls, on which it does not.
* `Rewriter.AddHeader` writes its line end this way. `HeaderLines.LineExact` says for every text, layout and line when the
  text comes out right: where the two bytes land, and what lay in their places. Nothing behind the added line is ever harmed.
  `RewriterExamples.CarriedHeader` is a run where it goes wrong: a header cut by the end of a piece is deleted when it is
  complete, a line is added behind it, and that line comes out without its last byte and with two line feeds. The ghost field
  `misplaced` says that an added line has not come out right. It stays false in each of three cases, all of them known before
  the call: the delegate adds no line; it never shortens anything and no chunk of the buffer has an offset; or the
  buffer has one chunk and the parser does not stand between the end of a start line and the end of its header block.
* After a call that has kept nothing, the rewriter's token offset is stale. An empty buffer then makes the pending length wrap
  around, and `RewriteBuffer` returns `BlockTooLong` (`RewriterExamples.EmptyBuffer`).
* A delegate that deletes a header and asks for it again reads what follows the line. `Rewriter.DeleteAndAsk` says when that
  lies inside the buffer: at least as many bytes follow as the line has, and one more if its value is empty. If fewer follow,
  `GetData` is called against its assertions; if just that one is missing, it is called for no bytes at the end of the
  buffer, which its assertions allow, and walks off the list.
  The library's own delegate does so for the header with the proxy's credentials; what it then takes for the name has 19
  bytes, so that its second comparison, with a name of 16, fails (`HttpProxy.HeaderAnswer`).
* A SOCKS5 name shorter than 3 bytes leaves the server waiting, and one longer than 121 does not fit its buffer. Some split
  of the request makes the server take another target, the name's first bytes, if and only if the name has 256 bytes or more
  and the remainder of its length by 256 is from 3 to 121 (`Socks5.MistakenExactly`).
* The SOCKS5 server answers a greeting with the first bytes of its last read. A last read of one or two bytes breaks the
  precondition of `Shrink`; `Socks5.MethodReply` is then `None`.
* A local flow may be read while it is being established, but the end of its stream is then not legal
  (`Flows.EndOfStreamLegal`).

## Model

| member | source | states |
|---|---|---|
| RewriterRuns.RewriteStream | src/utils/http_message_stream_rewriter.cc:93-255 | for every policy and every sequence of buffers of any layout whose bytes make up the stream: if no call fails, the delegate has been told exactly the true tokens in order, and the buffers hold exactly what `Calls` makes of their bytes and layouts; that is the stream with exactly the delegate's edits, for a delegate that adds header lines if each call starts out safe. `BlockTooLong` means that some buffer leaves over 8192 bytes of a token unfinished, or is empty with no token unfinished once something has been taken, and no run with such a buffer succeeds; with a delegate that never refuses, the run succeeds if and only if there is no such buffer. Any other failure means that the delegate refused |
| RewriterRuns.SecureWhen | src/utils/http_message_stream_rewriter.cc:93-255 | each call starts out safe if the delegate adds no header line; if it never shortens anything and no chunk has an offset; or if each buffer has one chunk and none ends between a start line's end and its header block's end |
| HttpStream.ShortensExactly | src/utils/http_message_stream_rewriter.cc:274-325 | which answers shorten the text: a replacement with fewer bytes, or a deletion |
| Rewriters.Rewriter.RewriteBuffer | src/utils/http_message_stream_rewriter.cc:93-255 | one call, on a buffer of any chunk layout: the parser has taken exactly the buffer's bytes; what is handed over and what is kept is, exactly and for every delegate, what `RopeRun` makes of the kept bytes and the buffer; with all that was handed over before it is the edited stream so far unless an added line has not come out right, which does not happen in a call that starts out safe; `BlockTooLong` comes exactly when the unfinished token is over 8192 bytes, or for an empty buffer with no token unfinished once something has been handed over |
| Rewriters.Rewriter.constructor | src/utils/http_message_stream_rewriter.cc:77-89 | a new rewriter is ready at the start of its stream |
| RewriterRuns.WholeStream | src/utils/http_message_stream_rewriter.cc:93-255 | when all bytes have been taken, the final text is that of the edited stream and nothing is left to come |
| RewriterRuns.NextPiece | src/utils/http_message_stream_rewriter.cc:93-119 | each piece of the stream is what the parser expects next, and advancing by pieces is advancing by their sum |
| RewriterRuns.KeptStream | src/utils/http_message_stream_rewriter.cc:298-325 | a delegate that keeps everything gets the stream back byte for byte |
| HttpEdits.RequestEdited | src/utils/http_message_stream_rewriter.cc:298-630 | a whole request with the answers written out: whatever mix of keeping and replacing for method, URL and version, of keeping, replacing and deleting for each header line, and of added lines, the output is those bytes in order with the separators between them, and the delegate has been told exactly these events |
| HttpEdits.ResponseEdited | src/utils/http_message_stream_rewriter.cc:298-630 | the same for a response: version, then status code and reason as one token |
| HttpEdits.RequestLineEdited | src/utils/http_message_stream_rewriter.cc:441-532 | method, URL and version: each stays if its token is kept and becomes the replacement if it is replaced |
| HttpEdits.StatusLineEdited | src/utils/http_message_stream_rewriter.cc:474-549 | version and status likewise |
| HttpEdits.HeadersEdited | src/utils/http_message_stream_rewriter.cc:257-279 | over a whole header block: a kept line as it was, a replaced one with a line end behind it, nothing for a deleted one |
| HttpEdits.AddedBytes | src/utils/http_message_stream_rewriter.cc:285-296 | the added lines come in the order given, each with its line end |
| HttpEdits.NextEdited | src/utils/http_message_stream_rewriter.cc:93-255 | a stream is edited message after message |
| HttpEdits.MessageBytes | src/utils/http_message_stream_rewriter.cc:257-268 | the bytes of a message: start line, header lines, empty line and body |
| HttpEdits.StreamBytes | src/utils/http_message_stream_rewriter.cc:93-119 | a stream is its messages end to end |
| HttpProxy.ProxyRequests | src/data_flow/http_server_data_flow.cc:335-433 | what the library's own delegate makes of a client's requests, in buffers of any layout: if no call fails, the buffers hold each request with the path for its URL, without the header that carries the proxy's credentials, with the proxy's connection header renamed, and otherwise byte for byte as it was |
| HttpProxy.RequestPasses | src/data_flow/http_server_data_flow.cc:346-433 | the same for one request behind any others |
| HttpProxy.RequestsPass | src/data_flow/http_server_data_flow.cc:335-433 | the same for all requests of a connection whose first method is not `CONNECT` |
| HttpProxy.LineOutCases | src/data_flow/http_server_data_flow.cc:419-433 | the two header names, and that a name of any other length leaves its line alone |
| HttpRuns.RunAll | src/utils/http_message_stream_rewriter.cc:340-630 | feeding the parser a whole stream byte by byte leaves it behind the last message with exactly the edits of the independent definition |
| HttpRuns.AdvanceTwice | src/utils/http_message_stream_rewriter.cc:111-118 | the parser position depends on the number of bytes taken, not on how they were grouped |
| HttpRuns.AdvanceEat | src/utils/http_message_stream_rewriter.cc:111-118 | taking several bytes of a region at once is taking them one by one |
| HttpComing.AdvanceComing | src/utils/http_message_stream_rewriter.cc:111-118 | the bytes still to come are the stream without those taken |
| RewriterFacts.OffsetsOrdered | src/utils/http_message_stream_rewriter.cc:441-617 | in every reachable state the live offsets are ordered, the token and field starts coincide, and none lies behind what has been parsed |
| RewriterFacts.HeaderText | src/utils/http_message_stream_rewriter.cc:257-268 | the offsets of a complete header line delimit the true name, separator and value, and its line end follows |
| RewriterFacts.QuietStep | src/utils/http_message_stream_rewriter.cc:111-118 | bytes that no callback reports keep the offsets tied to the parser |
| RewriterFacts.FirstStep | src/utils/http_message_stream_rewriter.cc:447-461 | after the first start-line token has been edited, parsing goes on at the byte it would have read without the edit and the offsets delimit the second token |
| RewriterFacts.RequestLineStep | src/utils/http_message_stream_rewriter.cc:511-532 | editing URL and version leaves the text before them and everything behind the line unchanged |
| RewriterFacts.StatusLineStep | src/utils/http_message_stream_rewriter.cc:533-549 | the same for the status code and reason |
| RewriterFacts.NextFieldStep | src/utils/http_message_stream_rewriter.cc:555-574 | a header line that was kept, replaced or deleted is final and the next token starts where its header starts |
| RewriterFacts.LastHeaderStep | src/utils/http_message_stream_rewriter.cc:359-371 | the last header line is final, and the added lines are unless one of them has not come out right; the token starts at the empty line |
| RewriterFacts.BareStep | src/utils/http_message_stream_rewriter.cc:161-214 | the same for a message without header lines: the edited start line is final, and the added lines are unless one of them has not come out right |
| RewriterFacts.PassStep | src/utils/http_message_stream_rewriter.cc:625-630 | body bytes pass through unchanged, and the last one ends the message |
| RewriterCarry.RebaseStep | src/utils/http_message_stream_rewriter.cc:233-252 | counting the offsets from the kept token keeps them delimiting the same bytes |
| RewriterCarry.RefillStep | src/utils/http_message_stream_rewriter.cc:94-103 | putting the kept bytes in front of the next buffer restores the state |
| RewriterCarry.HandoverStep | src/utils/http_message_stream_rewriter.cc:233-254 | with no token in progress everything is handed over |
| Rewriters.Rewriter.RewriteCurrentToken | src/utils/http_message_stream_rewriter.cc:308-325 | exactly the token's bytes are replaced, and the token end, the next token and the buffer offset move by the size change |
| Rewriters.Rewriter.DeleteCurrentHeader | src/utils/http_message_stream_rewriter.cc:274-279 | exactly the line and its line end are removed, and the next token and the buffer offset move by their length |
| Rewriters.Rewriter.DeleteAndAsk | src/data_flow/http_server_data_flow.cc:424-429 | a header that is asked for after its deletion shows what followed the line, and is read inside the buffer if and only if enough follows |
| Rewriters.Rewriter.AddHeader | src/utils/http_message_stream_rewriter.cc:285-296 | the text and the layout afterwards, exactly; the line stands in front of the token, with everything else unchanged, if and only if its line end ends well, and `misplaced` is set exactly if it does not; everything from the token on is unchanged in any case and the offsets move by the line's length |
| HeaderLines.LineExact | src/utils/http_message_stream_rewriter.cc:285-296 | for every text, layout, place and line: the text is right if and only if each of the two bytes of the line end lands in its place or finds its like there, and one that lands on a byte in front of it is that byte |
| HeaderLines.RoomForLine | src/utils/http_message_stream_rewriter.cc:285-296 | where no chunk has an offset, or the last chunk begins in front of the place, or just there with no slack around it, an added line ends well, and so will the next one |
| RewriterRoom.ResizedKeeps | src/utils/http_message_stream_rewriter.cc:308-325 | replacing or resizing a token in front of a place keeps lines that may be added there ending well |
| RewriterRoom.DeletedKeeps | src/utils/http_message_stream_rewriter.cc:274-279 | so does deleting a header |
| RewriterRoom.SafeFirm | src/utils/http_message_stream_rewriter.cc:94-103 | so does putting the kept bytes in front of a safe buffer |
| RewriterRopes.RunEat | src/utils/http_message_stream_rewriter.cc:111-118 | what a call makes of a buffer does not depend on how many bytes of a region the parser takes at once |
| RewriterRopes.PassRun | src/utils/http_message_stream_rewriter.cc:111-118 | bytes with which no token is completed change nothing |
| RewriterRopes.LineRope | src/utils/http_message_stream_rewriter.cc:511-532 | the version is edited where the edit of the URL has moved it |
| RewriterRopes.ThirdStep | src/utils/http_message_stream_rewriter.cc:511-549 | the start line is edited when the first header name begins; the parser and the offsets go on from there |
| RewriterRopes.LastRope | src/utils/http_message_stream_rewriter.cc:357-371 | the last header is edited and then the lines are added, with the last line feed yet to be parsed |
| RewriterRopes.BareRope | src/utils/http_message_stream_rewriter.cc:161-214 | the same for a message without header lines |
| RewriterRopes.RestKeeps | src/utils/http_message_stream_rewriter.cc:511-549 | editing the start line keeps what is firm behind it |
| RewriterExamples.CarriedHeader | src/utils/http_message_stream_rewriter.cc:285-296 | a run of two calls whose output is not the stream with the delegate's edits: the header is cut, then deleted, then a line is added |
| RewriterExamples.EmptyBuffer | src/utils/http_message_stream_rewriter.cc:233-239 | whole messages and then an empty buffer: the second call returns `BlockTooLong` |
| Rewriters.Rewriter.CurrentToken | src/utils/http_message_stream_rewriter.cc:298-306 | the text of the token |
| Rewriters.Rewriter.CurrentHeader | src/utils/http_message_stream_rewriter.cc:257-268 | the name and the value the offsets delimit |
| Rewriters.Rewriter.AskToken | src/utils/http_message_stream_rewriter.cc:308-325 | the delegate is told the bytes between the offsets; a kept token leaves the buffer as it was, a replaced one is exactly replaced, and the call fails exactly if it is turned down |
| Rewriters.Rewriter.AskHeader | src/utils/http_message_stream_rewriter.cc:257-283 | the delegate is told the line, its name and its value; the line is kept, replaced in front of its line end, or cut out with it, and the call fails exactly if it is turned down |
| Rewriters.Rewriter.OnUrl | src/utils/http_message_stream_rewriter.cc:441-466 | a first piece reports and edits the method, a further one extends the URL |
| Rewriters.Rewriter.OnStatus | src/utils/http_message_stream_rewriter.cc:474-501 | a first piece reports and edits the version; the status token includes the four bytes of the code |
| Rewriters.Rewriter.OnHeaderFieldAfterUrl | src/utils/http_message_stream_rewriter.cc:511-532 | the URL and then the version are reported and edited, and the first header field begins |
| Rewriters.Rewriter.OnHeaderFieldAfterStatus | src/utils/http_message_stream_rewriter.cc:533-549 | the status is reported and edited, and the first header field begins |
| Rewriters.Rewriter.OnHeaderFieldAfterValue | src/utils/http_message_stream_rewriter.cc:555-574 | the header line is reported and edited, and the next field begins |
| Rewriters.Rewriter.OnHeaderFieldGoesOn | src/utils/http_message_stream_rewriter.cc:550-554 | a further piece extends the field and the token |
| Rewriters.Rewriter.OnHeaderValue | src/utils/http_message_stream_rewriter.cc:587-617 | a first piece starts the value, an empty one at the line end before it, a further one extends it |
| Rewriters.Rewriter.OnHeadersComplete | src/utils/http_message_stream_rewriter.cc:357-371 | the last header is reported and edited, then the lines are added in front of the empty line one after another: the text and the layout afterwards, exactly |
| Rewriters.Rewriter.OnMessageBegin | src/utils/http_message_stream_rewriter.cc:340-349 | the token is to be set one byte back |
| Rewriters.Rewriter.OnMessageComplete | src/utils/http_message_stream_rewriter.cc:403-415 | the state returns to the start and the token is to be set |
| Rewriters.Rewriter.Execute | src/utils/http_message_stream_rewriter.cc:111-118 | over a chunk: the parser takes bytes up to the chunk's end or a pause, with the offsets tied to it throughout; without progress only the end of a header block is reported |
| Rewriters.Rewriter.Settle | src/utils/http_message_stream_rewriter.cc:118-216 | the work that waits for the parser's return leaves nothing pending and the offsets tied |
| Rewriters.Rewriter.SettleBareHead | src/utils/http_message_stream_rewriter.cc:161-214 | the start line of a message without header lines is edited after the parser has returned |
| Rewriters.Rewriter.Rounds | src/utils/http_message_stream_rewriter.cc:107-219 | the loop ends with the whole buffer parsed, or with a refusal |
| Rewriters.Rewriter.Retain | src/utils/http_message_stream_rewriter.cc:233-254 | an unfinished token is kept exactly if it is at most 8192 bytes long |
| Buffers.Buf.Break | src/utils/buffer.cc:65-82 | a chunk is cut in two that hold its bytes |
| Buffers.Buffer.constructor | src/utils/buffer.cc:85-97 | a new buffer holds zeros |
| Buffers.Buffer.Assign | src/utils/buffer.cc:101-112 | move assignment takes the bytes and the chunks and leaves the other buffer empty |
| Buffers.Buffer.SpliceBack | src/utils/buffer.cc:237-251 | appends the other buffer and consumes it |
| Buffers.Buffer.SpliceFront | src/utils/buffer.cc:210-224 | puts the other buffer in front and consumes it |
| Buffers.Buffer.SpliceAt | src/utils/buffer.cc:144-166 | s becomes s[..p] + t + s[p..] for every position and layout |
| Buffers.Buffer.InsertBufAt | src/utils/buffer.cc:527-541 | the chunk is cut at the position, or not at its end, and the list put between |
| Buffers.Buffer.InsertFront | src/utils/buffer.cc:226-235 | a gap in front, from slack or as a new chunk |
| Buffers.Buffer.InsertBack | src/utils/buffer.cc:253-261 | a gap at the back, from slack or as a new chunk |
| Buffers.Buffer.Insert | src/utils/buffer.cc:168-208 | a gap of exactly that length with both sides unchanged, on all four paths; the bytes found in the gap and the layout afterwards, exactly |
| Buffers.Buffer.Shrink | src/utils/buffer.cc:263-317 | s becomes s[..skip] + s[skip+len..] for every layout; emptied chunks go, head, tail and size are repaired; the layout afterwards, exactly |
| Buffers.Buffer.ShrinkFront | src/utils/buffer.cc:319-320 | drops a prefix |
| Buffers.Buffer.ShrinkBack | src/utils/buffer.cc:322-324 | drops a suffix |
| Buffers.Buffer.Break | src/utils/buffer.cc:424-449 | splits into two well-formed buffers with the two parts |
| Buffers.Buffer.ResetTail | src/utils/buffer.cc:543-549 | the tail is the last reachable node |
| Buffers.Buffer.GetData | src/utils/buffer.cc:326-349 | the bytes asked for, across chunks |
| Buffers.Buffer.GetDataInto | src/utils/buffer.cc:351-392 | copies between two independently chunked buffers exactly that window, and nothing else |
| Buffers.Buffer.SetData | src/utils/buffer.cc:394-417 | overwrites exactly that window |
| Buffers.Buffer.WalkInternalChunk | src/utils/buffer.cc:451-475 | the chunks visited are non-empty and concatenate to a prefix of s[from..], to all of it unless the walker stops |
| Buffers.Buffer.FindLocation | src/utils/buffer.cc:503-523 | a byte of a chunk is found at its place in the contents |
| Buffers.Buffer.At | src/utils/buffer.cc:130-142 | the byte read: the one as many bytes in front as the chunk's offset, or one of the slack |
| Buffers.Buffer.SetAt | src/utils/buffer.cc:117-128 | the write lands in the slack exactly if the place inside the chunk is less than the chunk's offset, and otherwise that much earlier; it does what it should if and only if the chunk has no offset, or the byte has the value already and so has the one written, if any |
| Buffers.IndexAstray | src/utils/buffer.cc:117-128 | a buffer shrunk at its front, on which writing the second byte changes the first and writing the first changes nothing |
| Buffers.IndexHarms | src/utils/buffer.cc:117-128 | writing the value that a byte has already overwrites the byte in front of it |
| Layouts.OpenedCat | src/utils/buffer.cc:168-208 | the slack a gap uses and the chunk it makes do not depend on what precedes the chunk at the place |
| Layouts.ShrunkCat | src/utils/buffer.cc:263-317 | nor does what a deletion leaves in the stores |
| Buffers.BreakAndRejoin | src/utils/buffer.cc:424-449 | splitting and appending the second part restores the contents |
| Buffers.WriteAndRead | src/utils/buffer.cc:394-417 | what has been written is read back |
| Buffers.InsertAndShrink | src/utils/buffer.cc:168-208 | a gap that is cut out again leaves the contents as they were |
| Bytes.CutByIndex | src/utils/buffer.cc:263-317 | what a cut means: bytes in front of it stay where they were, those behind it move down by its length |
| Bytes.SpliceByIndex | src/utils/buffer.cc:144-166 | what putting text in means: bytes behind it move up by its length |
| Bytes.OverwriteByIndex | src/utils/buffer.cc:394-417 | what writing means: the window holds the new bytes, all others stay |
| Bytes.WindowByIndex | src/utils/buffer.cc:326-349 | what reading means |
| Bytes.ReplaceByIndex | src/utils/http_message_stream_rewriter.cc:308-325 | what replacing means, with the size change |
| Flows.ReachableFacts | include/nekit/data_flow/flow_state_machine.h:66-144 | after any legal calls: closed means both sides closed, closing means one side closing or closed and not both closed, closed sides are idle |
| Flows.RunHistory | include/nekit/data_flow/flow_state_machine.h:66-144 | after any legal calls each field is told by the calls: a side is closed if and only if a call that closes it has been made, reading or writing if and only if a begin is outstanding, and the state follows from which calls have been made |
| Flows.RunFacts | include/nekit/data_flow/flow_state_machine.h:66-144 | over every legal run the state only moves forward and a closed side is never active again |
| Flows.CallFacts | include/nekit/data_flow/flow_state_machine.h:66-144 | one legal call keeps the invariant |
| Flows.ClosedIsFinal | include/nekit/data_flow/flow_state_machine.h:66-144 | after Closed only another close is legal, and it changes nothing |
| Flows.GuardFacts | include/nekit/data_flow/flow_state_machine.h:37-52 | once established, the guards say exactly that the side is open and idle; before, exactly that a local flow is being established and idle |
| Flows.EndOfStreamLegal | include/nekit/data_flow/flow_state_machine.h:87-103 | the end of the stream keeps to the assertions if and only if the flow is no longer establishing |
| Flows.FlowStateMachine.ReadClosed | include/nekit/data_flow/flow_state_machine.h:87-103 | the transition: the read side is closed and idle, and the flow is closed if and only if the write side is, too |
| Flows.FlowStateMachine.WriteCloseBegin | include/nekit/data_flow/flow_state_machine.h:115-123 | the transition: the flow is closing, with the close outstanding |
| Flows.FlowStateMachine.WriteCloseEnd | include/nekit/data_flow/flow_state_machine.h:125-133 | the transition: the write side is closed, and the flow if and only if the read side is, too |
| Flows.FlowStateMachine.Errored | include/nekit/data_flow/flow_state_machine.h:135-144 | the flow is closed, on both sides, with nothing outstanding |
| Tunnels.StepKeeps | src/transport/tunnel.cc:61-222 | every completion, in every state, keeps the coupling between loops and flows |
| Tunnels.EveryRun | src/transport/tunnel.cc:61-240 | in every interleaving what has been read for a side is the data of the completed reads, what it has been sent is all that had been read when its last write was completed, so a prefix; the rest is what is being written; the tunnel is released at most once; and the phase is told by the events |
| Tunnels.SmoothRun | src/transport/tunnel.cc:137-240 | without errors and timeout, from any coupled state, the tunnel has been released, once, if and only if both directions are finished, and then all that was read has been written and both flows are closed |
| Tunnels.SmoothEnd | src/transport/tunnel.cc:61-240 | in terms of the events alone: without errors and timeout the tunnel has been released if and only if both closes have been completed; then all data that was read has been delivered both ways, and both flows are closed |
| Tunnels.Turns | src/transport/tunnel.cc:145-222 | what each completion makes of the two directions: data read is what is written next, a completed write has delivered all that was read, the end of a stream is passed on as a close; the other direction is not touched |
| Tunnels.FailureCloses | src/transport/tunnel.cc:61-222 | a failing completion releases the tunnel, leaves both loops alone, and leaves the flow that failed closed on both sides |
| Tunnels.ReleasedWhen | src/transport/tunnel.cc:137-240 | a step releases exactly if it fails, times out or finishes the second direction, and in the last case it is the completion of a close |
| Tunnels.RoundFacts | src/transport/tunnel.cc:137-141 | the status check that opens a round never releases, and the readable and writable assertions behind it hold |
| Tunnels.EofIsPassedOn | src/transport/tunnel.cc:149-163 | at the end of a stream the other side can always be closed |
| Tunnels.OneOutstanding | src/transport/tunnel.cc:145-180 | each side has at most one outstanding operation, that of the loop that owns it |
| Tunnels.NeverStuck | src/transport/tunnel.cc:61-222 | an open tunnel always waits for the timer and for another completion |
| Tunnels.Tunnel.OnOpened | src/transport/tunnel.cc:66-77 | the handler, as a step |
| Tunnels.Tunnel.OnMatched | src/transport/tunnel.cc:85-101 | the handler, as a step |
| Tunnels.Tunnel.OnConnected | src/transport/tunnel.cc:107-115 | the handler, as a step |
| Tunnels.Tunnel.OnContinued | src/transport/tunnel.cc:121-135 | the handler, as a step; both loops start |
| Tunnels.Tunnel.StartUp | src/transport/tunnel.cc:137-146 | the check, the assertions and the read |
| Tunnels.Tunnel.StartDown | src/transport/tunnel.cc:182-191 | the check, the assertions and the read |
| Tunnels.Tunnel.OnLocalRead | src/transport/tunnel.cc:145-170 | the bytes read are the bytes given to the remote flow to write; the end of the stream closes the other side, an error releases |
| Tunnels.Tunnel.OnRemoteWritten | src/transport/tunnel.cc:169-178 | the next round, or the release |
| Tunnels.Tunnel.OnRemoteWriteClosed | src/transport/tunnel.cc:153-157 | the close completes and the status is checked |
| Tunnels.Tunnel.OnRemoteRead | src/transport/tunnel.cc:190-212 | as upward: the bytes read are the bytes given to the local flow |
| Tunnels.Tunnel.OnLocalWritten | src/transport/tunnel.cc:211-220 | as upward |
| Tunnels.Tunnel.OnLocalWriteClosed | src/transport/tunnel.cc:197-201 | as upward |
| Tunnels.Tunnel.CheckTunnelStatus | src/transport/tunnel.cc:226-233 | releases exactly if the local flow is closed and the remote one is, too, or does not exist |
| Tunnels.Tunnel.ReleaseTunnel | src/transport/tunnel.cc:235-238 | the manager drops the tunnel and no other |
| Tunnels.TunnelManager.Build | src/transport/tunnel.cc:242-255 | the manager holds the new tunnel |
| Rules.RuleManager.Match | src/rule/rule_manager.cc:47-101 | whatever the resolver will say, the rule chosen is the first that hits after resolving first; at most one resolution is made, exactly when a rule needs the address of an unresolved name before any rule hits |
| Rules.RuleManager.ChoiceMeans | src/rule/geo_rule.cc:37-62 | what a result means for every rule up to the chosen one, in terms of the resolver's answer: a country rule is the chosen one if and only if the country of the first address (or of the literal address) compares as it should, a subnet rule if and only if that address has the leading bits of some subnet, a failure rule if and only if the resolution fails, a host rule if and only if the target is a name that it hits |
| Rules.RuleManager.MatchIterator | src/rule/rule_manager.cc:61-101 | a definite result is right for every outcome still possible; otherwise it waits at a rule with everything before it excluded |
| Rules.RuleManager.AppendRule | src/rule/rule_manager.cc:43-45 | the rule comes last |
| Rules.FirstHit | src/rule/rule_manager.cc:69-100 | the eager reference: the first rule that hits once the address is known |
| Rules.MatchGeo | src/rule/geo_rule.cc:37-78 | the answer is right for every outcome still possible; it hits if and only if there is an address and its country compares as it should; the cache is filled exactly if there is an address, with its country |
| Rules.Session.LookupAndCache | src/rule/geo_rule.cc:71-78 | the cache then holds the country of the address |
| Rules.MatchSubnets | src/rule/subnet_rule.cc:36-48 | the answer is right for every outcome still possible; it hits if and only if there is an address and it lies in some subnet |
| Rules.LookUp | src/rule/subnet_rule.cc:56-63 | some subnet has the address's family and leading bits |
| Rules.MatchRule | src/rule/dns_fail_rule.cc:31-43 | any rule's answer is right for every outcome still possible, and it asks exactly if the name is unresolved and the rule needs the address |
| Rules.Endpoint.Resolve | src/utils/endpoint.cc:55-60 | the assertions hold where it is called |
| Rules.Endpoint.OnResolved | src/utils/endpoint.cc:72-95 | the outcome is recorded: a failure leaves no address, an answer its addresses, of which the first is the endpoint's |
| Rules.AnsweredAddress | include/nekit/utils/endpoint.h:52-72 | once there is an answer, an endpoint has an address exactly if it was given one or the answer has some, namely that one or the first of the answer; it is resolvable exactly then |
| StreamReaders.PatternOver | src/utils/stream_reader.cc:85-151 | over reads of any size: the shortest prefix of the stream that ends in the pattern, if there is one |
| StreamReaders.StreamReader.DoReadPattern | src/utils/stream_reader.cc:103-151 | hands out the shortest prefix of what is held that ends in the pattern, or sets where the search goes on |
| StreamReaders.StreamReader.OnPatternData | src/utils/stream_reader.cc:119-130 | the same after more has been read; handed out plus kept is what was received |
| StreamReaders.StreamReader.ReadToPattern | src/utils/stream_reader.cc:85-101 | starts a search from the beginning |
| StreamReaders.StreamReader.DoReadLength | src/utils/stream_reader.cc:50-83 | hands out the first bytes as soon as there are enough |
| StreamReaders.StreamReader.OnLengthData | src/utils/stream_reader.cc:69-81 | the same after more has been read |
| StreamReaders.StreamReader.ReadToLength | src/utils/stream_reader.cc:37-48 | starts a request for a length |
| StreamReaders.StreamReader.ConsumeRemainData | src/utils/stream_reader.cc:153-153 | everything received has then been handed out |
| StreamReaders.NoneStraddles | src/utils/stream_reader.cc:117-117 | restarting at size - min(size, pattern size) skips no occurrence |
| StreamReaders.FirstIsShortest | src/utils/stream_reader.cc:131-138 | the end of the first occurrence is the end of the shortest prefix |
| StreamReaders.ShortestIsUnique | src/utils/stream_reader.cc:103-151 | the stream alone decides what is read |
| Socks5.RoundTrip | src/data_flow/socks5_server_data_flow.cc:346-461 | for every split, the server decodes the request to the target sent if and only if that is an address or a name of 3 to 121 bytes |
| Socks5.V4Taken | src/data_flow/socks5_server_data_flow.cc:378-396 | the ten bytes of a request for an address of the fourth version, written out: the target has these four bytes and this port, high byte first |
| Socks5.HostTaken | src/data_flow/socks5_server_data_flow.cc:397-419 | the same for a name behind its length byte |
| Socks5.V6Taken | src/data_flow/socks5_server_data_flow.cc:420-442 | the same for an address of the sixth version |
| Socks5.TakenOnly | src/data_flow/socks5_server_data_flow.cc:347-456 | nothing else is accepted: what is accepted is, byte for byte, the request for the target it is taken for |
| Socks5.ServeRequest | src/data_flow/socks5_server_data_flow.cc:239-265 | the server object over the pieces: the verdict above, and the session's target set |
| Socks5.ServeWhole | src/data_flow/socks5_server_data_flow.cc:346-461 | it never decides before the request is whole |
| Socks5.ServeFits | src/data_flow/socks5_server_data_flow.cc:255-263 | nothing it accepts has a name outside 3 to 121 bytes |
| Socks5.ShortName | src/data_flow/socks5_server_data_flow.cc:346-350 | a shorter name leaves it waiting |
| Socks5.LongNameMistaken | src/data_flow/socks5_data_flow.cc:151-157 | a name of 256 bytes or more, with the remainder of its length by 256 from 3 to 121, is taken for its first bytes if the request is split there |
| Socks5.ServeStart | src/data_flow/socks5_server_data_flow.cc:397-419 | whatever of a request for a name is accepted, for any split, has as many bytes of the name as the length byte says, and those are 3 to 121 |
| Socks5.MistakenExactly | src/data_flow/socks5_data_flow.cc:151-157 | some split of the request for a target makes the server take another target if and only if it is a name of 256 bytes or more, with the remainder of its length by 256 from 3 to 121 |
| Socks5.Socks5Server.OnRead | src/data_flow/socks5_server_data_flow.cc:239-461 | the verdict is that on all bytes collected, for greetings and requests; what it sets, and how a greeting is answered |
| Socks5.Socks5Server.AppendToAuthBuffer | src/data_flow/socks5_server_data_flow.cc:224-237 | the chunks go behind what is pending |
| Socks5.Socks5Server.ReadGreeting | src/data_flow/socks5_server_data_flow.cc:269-323 | the verdict on a greeting |
| Socks5.GreetingVerdict | src/data_flow/socks5_server_data_flow.cc:269-323 | what a greeting that lists some methods gets: for each version, count and number of methods, and whether one of them is 0 |
| Socks5.Socks5Server.ReadRequest | src/data_flow/socks5_server_data_flow.cc:347-456 | the verdict on a request, for every error in its order and for every length; the port is read from the last two bytes, high byte first |
| Socks5.BuildRequest | src/data_flow/socks5_data_flow.cc:134-179 | the bytes sent are the request, whatever the grown buffer held: each field in its place, the port in the last two bytes, high byte first |
| Socks5.MethodReplyRight | src/data_flow/socks5_server_data_flow.cc:325-326 | the answer to a greeting is the first byte of the last read and a 0 if that has three bytes or more; it is right if and only if that byte is a 5 |
| Socks5.WholeGreeting | src/data_flow/socks5_server_data_flow.cc:325-331 | a greeting that arrives in one read is answered rightly |
| Socks5.ClientGreetingAnswered | src/data_flow/socks5_server_data_flow.cc:325-331 | this client's greeting is accepted with its last byte and not before, and is answered rightly if and only if it arrives in one read |
| Socks5.Reply | src/data_flow/socks5_server_data_flow.cc:165-191 | the reply built: version, success, kind, and zeros to the kind's length |
| Socks5.ReplyConsumed | src/data_flow/socks5_data_flow.cc:229-248 | the server's reply is a success of exactly its length, and the client's two reads take it exactly |
| Socks5.AnyReplyConsumed | src/data_flow/socks5_data_flow.cc:229-248 | so do they any well-formed reply that reports success |
| Socks5.ReadReply | src/data_flow/socks5_data_flow.cc:194-272 | over reads of any size, in terms of the reply's bytes: which error a wrong version, a failure code, a reserved byte or a kind gets; otherwise the client waits for exactly the reply's length, and connects if and only if some read ends there, so that nothing is left over |
| Tries.Trie.AddPrefix | include/nekit/utils/trie.h:36-65 | accepts exactly the non-empty strings over the alphabet, and adds exactly them; the nodes stay a tree |
| Tries.Trie.MatchPrefixWith | include/nekit/utils/trie.h:67-106 | true if and only if some accepted string begins the literal, or ends it in reverse mode, for any literal |
| Tries.Trie.MatchPath | include/nekit/utils/trie.h:72-105 | the walk finds a marked path exactly if one begins the literal |
| Tries.Trie.Descend | include/nekit/utils/trie.h:47-62 | the path is in the tree afterwards |
| Tries.ReversedPrefix | include/nekit/utils/trie.h:73-87 | a prefix of the reversed literal is a suffix of it |
| Tries.ExtendTree | include/nekit/utils/trie.h:50-53 | a new leaf keeps the tree |
| Subnets.Subnet.Contains | src/utils/subnet.cc:78-105 | true if and only if the families agree and the leading bits equal those of the base address |
| Subnets.Subnet.constructor | src/utils/subnet.cc:31-76 | the mask and network words are those of the prefix |
| Subnets.Subnet.FillMask | src/utils/subnet.cc:54-70 | the words that the prefix reaches |
| Subnets.Subnet.ClearRest | src/utils/subnet.cc:72-74 | the words behind it |
| Subnets.MaskBit | src/utils/subnet.cc:38-42 | in network order a shifted mask covers exactly the leading bits |
| Subnets.MaskedEqual | src/utils/subnet.cc:84-85 | comparing masked words compares leading bits |
| Subnets.WordByWord | src/utils/subnet.cc:98-103 | comparing word by word compares all leading bits |
| Subnets.LongerPrefix | src/utils/subnet.cc:31-76 | a longer prefix of the same address is a smaller subnet |
| Subnets.SameSubnet | src/utils/subnet.cc:78-105 | any member stands for its subnet |

## Left out

- RewriterRuns.RewriteStream: for a delegate that adds header lines, starting out safe is sufficient for a right output, not necessary; what comes out otherwise is given by `Calls`, and for one added line `HeaderLines.LineExact` is exact.
- Rewriters.Rewriter.RewriteBuffer: takes the buffer to hold the next bytes of a well-formed stream, and says nothing of calls after one that failed.
- Rewriters.Rewriter.Settle: an upgrade, on which the source stops and leaves the rest of the buffer alone, is not modelled.
- Rewriters.Rewriter.OnHeaderValue: a continuation piece of no bytes and folded header lines are not modelled.
- HttpProxy.ProxyRequests: the URL parser is an arbitrary function from a URL to the path sent on, which may fail; the endpoint that the delegate sets for the session, and a connection that starts with `CONNECT`, are not modelled.
- Buffers.Buffer.FindLocation: a pointer into a chunk is modelled as the chunk and an index into its store.
- Socks5.Reply: the reply, the request and the method reply are byte strings updated step by step, not chunked buffers; the buffers they are built in start at offset 0, where indexing is right.
- Tunnels.Tunnel.OnLocalRead: the branch for a write end that cannot be closed is not there; `Tunnels.EofIsPassedOn` shows that it is dead.
- Tunnels.Tunnel.Snapshot: both flows behave like `TcpSocket`; a flow that turns a failed close into an error (as the SOCKS5 server does) is not modelled.
- Chunked transfer coding, upgrades, a skipped response body, and stray line ends between messages.
- A header block that ends right behind a header name without any value callback (the source's branch for it never runs with this parser).
- Cached copies of the current token and header in the rewriter: the model computes them when asked.
- A delegate that adds header lines while a header is reported, or edits a header again that it has deleted.
- Sockets, timers, threads and the run loop: a completion is a method call, the timeout a step.
- A successful resolution with an empty address list, on which `address()` is undefined, and a second, forced resolution after a lookup has been cached.
- The country database: an arbitrary function of the address. Domain, affix and regular expression rules: an arbitrary predicate on the host name.
- `Endpoint::Dup`, parsing of address literals, and the choice of the remote data flow by a rule.
- The Knuth-Morris-Pratt matcher: a search for the first occurrence.
- The flow-state calls of the SOCKS5 classes; TLS, the ciphers, HKDF, Base64, the country codes, the connectors and the error categories.
- Allocation failure and sizes beyond the range of `size_t`.
