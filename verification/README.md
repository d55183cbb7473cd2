# A verified model of the uvnet TCP wrapper

uvnet moves bytes from `TCPClient::Send` through a ring buffer and a loop thread onto a socket, and on
the other side from the socket through an in-place frame parser to a callback. The server adds a pool of
connection contexts, a registry of clients and a broadcast. This project models that code in Dafny and
proves what it does over all inputs, all interleavings and all runs, including where it goes wrong.

| file | part of the program |
|---|---|
| `Bytes.dfy`, `Wire.dfy` | bytes, integer narrowing, the message header and its layout (`net_msg.h`, `PackData`) |
| `CircularBuffer.dfy` (module `Ring`), `RingHistory.dfy` | the ring buffer as a class over an array, refining an abstract queue, and whole histories of it |
| `MessageParse.dfy` (modules `ParserLoops`, `MessageParse`) | the two parser loops as functions, and the class that performs them on a real buffer |
| `LengthMode.dfy` | reference parser for length-prefixed frames, and exactly when the code agrees with it |
| `HeaderMode.dfy`, `HeaderExact.dfy`, `HeaderRuns.dfy` | the same for header framing, and whole connections |
| `RequestPool.dfy`, `SendPipeline.dfy`, `SendRuns.dfy`, `SendLiveness.dfy`, `TCPClient.dfy` | the client's send path: step relation with its wake-ups, runs, which Sends return, and the class whose methods are the steps |
| `EndToEnd.dfy` | callers, ring, loop thread, stream and receiver put together |
| `ServerContexts.dfy`, `TCPServer.dfy` | context ownership, client ids, write requests, broadcast |
| `Reconnect.dfy` | the reconnect timer and its period |

Parameters: the capacity (`MAX_BUFFER_SIZE`) is any number above the header length, the host may be
little- or big-endian, and what libuv returns is an argument of each step. The header is the eight-byte
one (datalen, type).

## What the proofs say about the code

* The ring never overruns, refines a byte queue through every wrap-around branch, and takes all or
  nothing, except that an empty ring takes what fits. Positions are 32-bit in the class, so no sum overflows.
* Under any interleaving of `Send` calls, loop thread, receives, failing `uv_write`s and a close, what the
  loop thread has read plus what the ring holds is what was accepted, in order. A message no longer than
  the ring is one contiguous run of the stream. A refused `uv_write` loses its whole chunk.
* `Send` signals the loop thread before its loop and after it, but not while it waits for room. A Send with
  no other caller, close or receive about returns in every fair run if and only if its message fits the ring,
  and in some fair run if and only if its length fits an `int`. A longer message than the ring hangs if the
  ring is full, no signal is outstanding and no write is in flight; the completion of an earlier write
  rescues it, as does something received.
* Once every Send on an open client has returned, no byte is stranded in the ring. A close can strand the
  bytes of a Send that returned true, and only a close can.
* The length reaches the ring as an `int`. A Send of more than INT32_MAX bytes never completes, whatever
  the run: it gets at most its length modulo 2^32 in, 5 bytes for a length of 2^32 + 5.
* `length_parse` never moves its read cursor back to the buffer's start, so a second length word may be
  read from bytes already overwritten. For a first frame of length L at the head of T buffered bytes it
  is right for every content if and only if T <= 2L. Four frames of one length received together come out
  as 1, 2, 4, 4. A zero length word can make it spin; the model returns a verdict `Spinning` exactly where
  an iteration reproduces its own state, and `SpinningRepeats` justifies the verdict.
* `header_parse` has the same cursor, and also takes a header out of fewer than eight bytes, which leaves
  the buffered length negative. It is right for every content if and only if a receive that completes a
  frame ends with it, or exactly one header later (and then not behind a pending body of 1 to 7 bytes).
  An empty body is delivered only together with the next byte. A stream of messages, each cut into receives
  of its own, comes out right if and only if no receive behind an empty message is shorter than a header.
  With a negative buffered length the next receive is copied to a place in front of the buffer; the model answers `Overrun`.
  A negative `datalen` is refused, because the comparison at line 133 is unsigned.
* The comments in `net_msg.h` announce network byte order. The code swaps twice and puts host order on
  the wire, which is what the receiver's raw struct copy expects; both ends must have the same endianness.
* Client ids repeat after 0x7ffffffe allocations, and a registration collides exactly if a client has outstayed
  a multiple of that. The newcomer then stays unregistered, and its close takes the context away from the
  client registered under the id. Every context is in exactly one place at the end of a run if and only if
  that has not happened, and then the pool holds at most 21 entries.

## Model

| member | source | states |
|---|---|---|
| Wire.Int32RoundTrip | tcp_uv/uvnet/msg_parse.h:262-263 | the encoder that PackData uses for each header field (lines 7 to 16 of `net_msg.h`) is inverted by the explicit decoder and by reading memory, on a host of either endianness |
| Wire.CharToInt32IsMemoryRead | tcp_uv/uvnet/msg_parse.h:132 | the explicit decoder (lines 18 to 23 of `net_msg.h`) agrees with the plain memory read used here on every four bytes: its two swaps cancel |
| Wire.HeaderRoundTrip | tcp_uv/uvnet/msg_parse.h:132-138 | the receiver's struct copy of the header inverts the sender's encoder |
| Wire.HostOrder | tcp_uv/uvnet/msg_parse.h:262-266 | what is on the wire: datalen and then the type, each in the byte order of the sending host |
| Wire.MemHeaderInjective | tcp_uv/uvnet/msg_parse.h:132 | different header bytes are different headers |
| Wire.PackData | tcp_uv/uvnet/msg_parse.h:249-269 | in the packed message the receiver's struct copy finds exactly the given header, and exactly datalen bytes of the data follow |
| Bytes.NarrowToInt32 | tcp_uv/uvnet/tcpclient.cpp:364 | the size_t-to-int narrowing is the identity up to INT32_MAX and never exceeds its argument |
| Ring.AcceptanceLaw | tcp_uv/uvnet/circularbuffer.h:64-149 | a write takes 0 or min(count, capacity); 0 exactly when nothing is offered, the ring is full, or it is non-empty and too small, or an exact fit around the end |
| Ring.CircularBuffer.Write | tcp_uv/uvnet/circularbuffer.h:64-149 | returns what the acceptance law allows, appends exactly that many input bytes and leaves the read position alone, through all branches, without int overflow |
| Ring.CircularBuffer.Read | tcp_uv/uvnet/circularbuffer.h:153-219 | returns and removes the oldest min(count, size) bytes, moves the read position on by as many around the end, and leaves the rest of the destination alone |
| Ring.CircularBuffer.Clear | tcp_uv/uvnet/circularbuffer.h:28-33 | empties the queue and puts the read position back to 0 |
| Ring.CircularBuffer.Size | tcp_uv/uvnet/circularbuffer.h:38-48 | the size is the length of the abstract queue |
| Ring.SpanAppendAround | tcp_uv/uvnet/circularbuffer.h:105-117 | two copies around the end of the array append to the queue |
| Ring.SpanTakeAround | tcp_uv/uvnet/circularbuffer.h:209-217 | two copies around the end of the array remove from the queue's front |
| RingHistory.HistoryLaw | tcp_uv/uvnet/circularbuffer.h:28-219 | over every sequence of writes, reads and clears: the ring holds what it took since the last clear less what was read, with its read position at the total read since then modulo the capacity |
| RingHistory.ExactFitRefused | tcp_uv/uvnet/circularbuffer.h:105-137 | in a ring of 10: after 6 bytes written, read, and 6 written again, the 4 bytes of room do not take 4 bytes |
| ParserLoops.MoveSettles | tcp_uv/uvnet/msg_parse.h:99-107 | a repeated overlapping move from one place changes fewer and fewer bytes, so zero-length turns end or reach a fixed state |
| ParserLoops.HeaderReceiveIs | tcp_uv/uvnet/msg_parse.h:116-128 | one call refuses an empty receive or one that does not fit, with a close call and nothing changed, and otherwise parses the buffered bytes followed by the received ones |
| ParserLoops.HeaderReceiveCloses | tcp_uv/uvnet/msg_parse.h:118-136 | a call calls close exactly if it refuses the receive or its loop stops at a header announcing too much |
| ParserLoops.LengthReceiveIs | tcp_uv/uvnet/msg_parse.h:65-75 | the same for length_parse |
| ParserLoops.LengthReceiveCloses | tcp_uv/uvnet/msg_parse.h:68-90 | a call calls close exactly if it refuses the receive or its loop stops at a length word below 0 or above the capacity |
| ParserLoops.RawReceive | tcp_uv/uvnet/msg_parse.h:75-110 | without parsing, each accepted receive and what was buffered is one frame |
| MessageParse.MessageParse.ResetData | tcp_uv/uvnet/msg_parse.h:48-52 | the overlapping move puts the source bytes at the base and changes nothing else |
| MessageParse.MessageParse.LengthParse | tcp_uv/uvnet/msg_parse.h:65-114 | one call's frames, close call, memory and buffered length are those of the loop function on the received bytes, from every state; a refused receive calls close once and changes nothing else |
| MessageParse.MessageParse.HeaderParse | tcp_uv/uvnet/msg_parse.h:116-203 | the same for header framing, with the pending header; a negative buffered length is the verdict Overrun |
| MessageParse.MessageParse.RecvData | tcp_uv/uvnet/msg_parse.h:54-63 | dispatches on the mode, in every state, with the verdict of the loop function, leaves the other mode's deliveries alone, and passes a refusal on |
| LengthMode.CutConserves | tcp_uv/uvnet/msg_parse.h:75-110 | the reference frames and the rest make up the input |
| LengthMode.CutAppend | tcp_uv/uvnet/msg_parse.h:65-114 | parsing is incremental: more input continues from the rest |
| LengthMode.ClearMatches | tcp_uv/uvnet/msg_parse.h:72-110 | if the first frame is at least as long as all behind it, the loop delivers the reference frames and leaves the exact unconsumed suffix at the base |
| LengthMode.ExactlyWhenClear | tcp_uv/uvnet/msg_parse.h:72-110 | for frame length L in 4..N and T buffered bytes, the loop is right for every content if and only if T <= 2L |
| LengthMode.BurstOfFour | tcp_uv/uvnet/msg_parse.h:84-107 | four frames of one length in one receive come out as the first, second, fourth, fourth |
| LengthMode.BurstExactly | tcp_uv/uvnet/msg_parse.h:84-107 | such a burst is right exactly if its third and fourth frames are equal |
| LengthMode.SpinningRepeats | tcp_uv/uvnet/msg_parse.h:84-107 | with the verdict Spinning the loop's cursor stands before a zero length word, in a state that an iteration maps to itself |
| LengthMode.SessionMatches | tcp_uv/uvnet/msg_parse.h:65-114 | over a run of accepted, clear receives the deliveries are the reference's on the concatenated input |
| LengthMode.ClearRunsConserve | tcp_uv/uvnet/msg_parse.h:65-114 | such runs lose nothing, and two chunkings of one input deliver the same frames and leave the same bytes |
| LengthMode.RefusedReceive | tcp_uv/uvnet/msg_parse.h:68-71 | a receive that does not fit ends such a run: close is called, deliveries and buffered bytes stay |
| HeaderMode.NegativeLengthRejected | tcp_uv/uvnet/msg_parse.h:133-136 | the unsigned check refuses exactly the negative and the too long datalen |
| HeaderMode.ParseAppend | tcp_uv/uvnet/msg_parse.h:116-203 | header parsing is incremental |
| HeaderMode.ParseCloses | tcp_uv/uvnet/msg_parse.h:132-136 | the reference refuses a stream exactly at a header announcing too much |
| HeaderMode.AlignedMatches | tcp_uv/uvnet/msg_parse.h:129-199 | on an aligned buffer the loop delivers the reference frames, verdict, pending header and suffix |
| HeaderExact.ExactlyAlignedFrame | tcp_uv/uvnet/msg_parse.h:129-199 | behind a complete first frame the loop is right for every content if and only if 0 or 8 bytes follow |
| HeaderExact.ExactlyAlignedBody | tcp_uv/uvnet/msg_parse.h:149-197 | the same with a header pending: 0 bytes follow, or 8 behind a body of no or at least 8 bytes |
| HeaderExact.PartialHeader | tcp_uv/uvnet/msg_parse.h:129-141 | 1 to 7 bytes at a header position end in a close or in a negative buffered length |
| HeaderExact.OneShortMisread | tcp_uv/uvnet/msg_parse.h:129-199 | a header announcing one byte less than what follows goes wrong at every cursor and for all memory |
| HeaderRuns.SessionMatches | tcp_uv/uvnet/msg_parse.h:116-203 | over runs of safe receives the deliveries are the reference's and the buffered length stays in 0..N |
| HeaderRuns.FramesDelivered | tcp_uv/uvnet/msg_parse.h:116-203 | whole messages, each cut into receives of its own: every one delivered once, in order, no close, nothing buffered (an empty last one pending), if and only if no receive behind an empty message is shorter than a header |
| HeaderRuns.UnspacedLost | tcp_uv/uvnet/msg_parse.h:129-141 | otherwise the parser closes, or ends with a negative buffered length or an overrun |
| HeaderRuns.OneMessage | tcp_uv/uvnet/msg_parse.h:116-203 | one message in any pieces is delivered exactly once if its body is non-empty, and otherwise stays pending |
| HeaderRuns.RefusedReceive | tcp_uv/uvnet/msg_parse.h:118-121 | a receive that does not fit ends a run of safe receives: close is called, deliveries, pending header and buffered bytes stay |
| HeaderRuns.NextReceiveCloses | tcp_uv/uvnet/msg_parse.h:116-203 | the next receive of such a run closes exactly if it does not fit or the stream has come to a header announcing too much |
| RequestPool.TakeKeeps | tcp_uv/uvnet/tcpclient.cpp:557-563 | taking the first request of the list or allocating one keeps every request in exactly one place |
| RequestPool.PutBackKeeps | tcp_uv/uvnet/tcpclient.cpp:567-569 | the unguarded push after a failed uv_write keeps that too, and the list at most 21 long |
| RequestPool.LandKeeps | tcp_uv/uvnet/tcpclient.cpp:544-550 | so does the recycling of a completed request: to the end of a list of at most 20, and freed beyond |
| SendPipeline.StepKeeps | tcp_uv/uvnet/tcpclient.cpp:351-375 | every step of every thread keeps conservation, each caller's prefix, the piece law and request accounting |
| SendPipeline.DrainEmpties | tcp_uv/uvnet/tcpclient.cpp:551-565 | one locked read empties the ring and moves exactly its contents to the request |
| SendPipeline.TakenAmount | tcp_uv/uvnet/tcpclient.cpp:364 | an attempt gets nothing or min(capacity, what can still get in) bytes in, never nothing on an empty ring while something can |
| SendRuns.Conservation | tcp_uv/uvnet/tcpclient.cpp:361-374 | in every reachable state drained bytes plus ring equal the accepted stream, and each caller's accepted bytes are a prefix of its data |
| SendRuns.RequestsAccounted | tcp_uv/uvnet/tcpclient.cpp:541-575 | in every reachable state each request is in exactly one place and what uv_write is given fits its buffer |
| SendRuns.RefusedWrites | tcp_uv/uvnet/tcpclient.cpp:566-569 | over every run: uv_write's refusals take their chunks with them, so with the ring empty the bytes it was given and accepted are everything the ring accepted if and only if it never refused |
| SendRuns.HistoryOfRun | tcp_uv/uvnet/tcpclient.cpp:551-574 | the history is read off the steps: the answers of uv_write, the chunks read at each drain, and the bytes that reached the wire |
| SendRuns.LoopLaw | tcp_uv/uvnet/tcpclient.cpp:530-539 | over every run: closing, signal and drain are what the steps say |
| SendRuns.CloseIsSeen | tcp_uv/uvnet/tcpclient.cpp:577-584 | a close signals: after it the signal is outstanding, or AsyncCB has run and found the client closing |
| SendRuns.MessageAtomicity | tcp_uv/uvnet/tcpclient.cpp:362-372 | a message no longer than the ring is accepted not at all or as one contiguous run of the stream |
| SendRuns.PieceLaw | tcp_uv/uvnet/tcpclient.cpp:362-372 | after k accepted writes a Send of any length has min(k*N, reach) bytes in, reach being its length as an int; a completed one took exactly ceil(len/N) pieces |
| SendRuns.ReturnValue | tcp_uv/uvnet/tcpclient.cpp:361-374 | a returned Send is short only if the client is closing; up to N bytes, true means all was accepted |
| SendRuns.NarrowedLength | tcp_uv/uvnet/tcpclient.cpp:364 | a Send of more than INT32_MAX bytes gets at most its length modulo 2^32 in and leaves its loop only on a close |
| SendRuns.FourGiBAndFive | tcp_uv/uvnet/tcpclient.cpp:364 | the input of 2^32 + 5 bytes: at most 5 get in, and then the ring takes nothing more |
| SendLiveness.CompletesExactly | tcp_uv/uvnet/tcpclient.cpp:362-372 | some run gets all of a message accepted if and only if it has at most INT32_MAX bytes |
| SendRuns.NoLostWakeUp | tcp_uv/uvnet/tcpclient.cpp:373 | once every Send has returned, bytes in the ring of a client that is not closing are being drained or a signal for them is outstanding |
| SendRuns.StrandedByClose | tcp_uv/uvnet/tcpclient.cpp:530-539 | a close can leave the whole message of a Send that returned true in the ring, with no drain and no signal outstanding |
| SendLiveness.ReturnsExactly | tcp_uv/uvnet/tcpclient.cpp:351-375 | from every state of an open client, a Send with no other caller, close or receive returns in every fair run (signals served, requests completing, the caller running) if and only if its message fits the ring |
| SendLiveness.MayReturn | tcp_uv/uvnet/tcpclient.cpp:351-375 | from every state of an open client, such a Send returns in some fair run, without any receive, if and only if it has at most INT32_MAX bytes |
| SendLiveness.SomeFairRun | tcp_uv/uvnet/tcpclient.cpp:351-375 | such fair runs exist: one that returns if the message fits, one that never returns if it does not |
| SendLiveness.HangingSchedule | tcp_uv/uvnet/tcpclient.cpp:360-372 | on an idle client: first signal served, then one write, and any longer message hangs |
| SendLiveness.HungForEver | tcp_uv/uvnet/tcpclient.cpp:362-372 | a hung Send stays hung, without another byte getting in, over every run without another caller, a close or a receive |
| SendLiveness.ReceivesRescue | tcp_uv/uvnet/tcpclient.cpp:444 | with a receive in each sleep, n turns bring a Send to min(iret + n*N, reach), whether or not uv_write accepts what is drained |
| TCPClient.TCPClient.BeginSend | tcp_uv/uvnet/tcpclient.cpp:351-361 | performs the Start step and stays reachable, so every run theorem above keeps holding of the object: an empty message is refused at once, any other signals |
| TCPClient.TCPClient.TestClosing | tcp_uv/uvnet/tcpclient.cpp:362 | performs the Check step and stays reachable |
| TCPClient.TCPClient.TryWrite | tcp_uv/uvnet/tcpclient.cpp:363-371 | offers the ring all that is left as a 32-bit int, on the real ring; what is taken, who goes on and what is left in the ring, field by field |
| TCPClient.TCPClient.FinishSend | tcp_uv/uvnet/tcpclient.cpp:373-374 | performs the Finish step, the second signal; the return value says whether anything was accepted |
| TCPClient.TCPClient.Close | tcp_uv/uvnet/tcpclient.cpp:577-584 | performs the Close step and stays reachable |
| TCPClient.TCPClient.AsyncCB | tcp_uv/uvnet/tcpclient.cpp:530-539 | performs the AsyncCB step: consumes the signal and enters send_inl, or on a close does not |
| TCPClient.TCPClient.AfterRecv | tcp_uv/uvnet/tcpclient.cpp:412-448 | performs the Receive step: enters send_inl |
| TCPClient.TCPClient.AfterSend | tcp_uv/uvnet/tcpclient.cpp:450-466 | the request leaves the flight whatever its status, to a list of at most 20 or freed, and send_inl is entered only without an error |
| TCPClient.TCPClient.ReadRing | tcp_uv/uvnet/tcpclient.cpp:552-565 | takes the first request of the list or a new one, and moves all the ring holds into its buffer |
| TCPClient.TCPClient.Submitted | tcp_uv/uvnet/tcpclient.cpp:566-573 | an answer other than 0 puts the request back on the list and nothing in flight, 0 puts it in flight; the answer is recorded |
| TCPClient.TCPClient.LeaveSendInl | tcp_uv/uvnet/tcpclient.cpp:552-556 | performs the DrainEnd step, possible only with the ring empty |
| TCPClient.TCPClient.SendInl | tcp_uv/uvnet/tcpclient.cpp:551-575 | uninterrupted, the loop drains at most one chunk with uv_write's answer, leaves the ring empty and loses or reorders nothing |
| TCPClient.TCPClient.Sleeping | tcp_uv/uvnet/tcpclient.cpp:367 | while a lone caller sleeps the ring is emptied if a signal is served, something is received or a write in flight completes without an error, and otherwise not looked at |
| TCPClient.TCPClient.ServeCallbacks | tcp_uv/uvnet/tcpclient.cpp:412-466 | the callbacks of a sleep, in order: exactly a receive or an error-free completion of a request then in flight empties the ring |
| TCPClient.TCPClient.Send | tcp_uv/uvnet/tcpclient.cpp:351-375 | for any number of sleeps of a lone caller: its accepted prefix is added to what flows through the ring; it is back after one sleep if the message fits the ring or the client is closing; with no receive and no error-free completion at most two rings' worth gets in |
| TCPClient.LoopedLaw | tcp_uv/uvnet/tcpclient.cpp:362-372 | what comes of a lone caller's loop, for any number of sleeps: what it adds to the flow, when it is left, and how far it gets if nothing drains but its own signal |
| EndToEnd.Delivery | tcp_uv/uvnet/tcpclient.cpp:351-375 | any number of callers each sending one packed message, any run in which uv_write never refuses: the bytes it was given are the messages in acceptance order, none twice, and the receiver delivers exactly them if and only if no receive behind an empty message is shorter than a header |
| EndToEnd.EveryMessageAccepted | tcp_uv/uvnet/tcpclient.cpp:374 | the accepted messages are those of the callers that got anything in, and everybody's once all Sends of an open client have returned |
| EndToEnd.PiecesAreMessages | tcp_uv/uvnet/tcpclient.cpp:362-372 | every accepted piece is one whole message and no message is accepted twice |
| ServerContexts.StepKeeps | tcp_uv/uvnet/tcpserver.cpp:318-363 | accepting (each exit), closing, close completion, and the close of an orphan whose id is not registered keep every context in exactly one place |
| ServerContexts.RegisteredExactly | tcp_uv/uvnet/tcpserver.cpp:337-363 | over every run: the registered ids are those of the accepts that succeeded, less those a close callback has come for since |
| ServerContexts.AcceptIs | tcp_uv/uvnet/tcpserver.cpp:318-363 | field by field, where each exit of an accept leaves the context: back in the pool, in a closing handle, registered under the next id, or lost sight of |
| ServerContexts.CloseIs | tcp_uv/uvnet/tcpserver.cpp:417-483 | field by field, what a close and the three close callbacks change, and that a context given back is pooled up to 21 and freed beyond |
| ServerContexts.ContextsConserved | tcp_uv/uvnet/tcpserver.cpp:417-428 | while ownership lasts: no duplicates, at most 21 pooled, allocated = pooled + registered + dropping + freed + orphaned + leaked; inside the id window it lasts, with no orphan and no leak |
| ServerContexts.OwnedExactly | tcp_uv/uvnet/tcpserver.cpp:460-483 | over every run: each context is in exactly one place at its end if and only if no close of an orphan found its id registered |
| ServerContexts.OrphanBreaks | tcp_uv/uvnet/tcpserver.cpp:464-480 | such a close gives back the registered client's context while that client's connection is open |
| ServerContexts.SomeRunBreaks | tcp_uv/uvnet/tcpserver.cpp:430-437 | a run in which that happens exists: one client outstays 0x7ffffffe allocations |
| ServerContexts.NthId | tcp_uv/uvnet/tcpserver.cpp:430-437 | the n-th call returns 1 + n mod 0x7ffffffe |
| ServerContexts.SameId | tcp_uv/uvnet/tcpserver.cpp:430-437 | two calls return the same id exactly if they are a multiple of 0x7ffffffe apart |
| ServerContexts.CollisionExactly | tcp_uv/uvnet/tcpserver.cpp:361-363 | a new client's id is taken exactly if a registered client got its own a multiple of 0x7ffffffe calls ago |
| TCPServer.TCPServer.AcceptConnection | tcp_uv/uvnet/tcpserver.cpp:306-372 | for each point at which libuv can refuse, the whole new state, and ownership kept: a success under a free id registers exactly the new client |
| TCPServer.TCPServer.Close | tcp_uv/uvnet/tcpserver.cpp:605-616 | marks exactly that client as closing; a second call before the close callback is reported as the misuse of uv_close it is |
| TCPServer.TCPServer.SubClientClosed | tcp_uv/uvnet/tcpserver.cpp:460-483 | unregisters the id, whoever's callback it is, and gives its context back; an id that is not registered is ignored; ownership is kept if and only if it is not an orphan's callback with a registered id |
| TCPServer.TCPServer.RecycleTcpHandle | tcp_uv/uvnet/tcpserver.cpp:417-428 | performs the HandleRecycled step |
| TCPServer.TCPServer.GetAvailaClientID | tcp_uv/uvnet/tcpserver.cpp:430-437 | the n-th call, from 0, returns 1 + n mod 0x7ffffffe, and the counter is right for the next one |
| TCPServer.Writer.SendInl | tcp_uv/uvnet/tcpserver.cpp:534-568 | one uv_write per non-empty message, with the first request of the list or a new one, whose buffer is grown to hold it; a refused one goes back to the end of the list |
| TCPServer.Writer.AfterSend | tcp_uv/uvnet/tcpserver.cpp:694-709 | recycles the request whatever the status, keeping requests accounted for |
| TCPServer.TCPServer.Broadcast | tcp_uv/uvnet/tcpserver.cpp:503-532 | one message to exactly the registered ids not excluded, each once, in ascending order, although the exclusion list shrinks and may hold duplicates |
| TCPServer.TargetsExact | tcp_uv/uvnet/tcpserver.cpp:514-529 | the filtered list is ascending and holds exactly the ids registered and not excluded |
| Reconnect.BackoffLaw | tcp_uv/uvnet/tcpclient.cpp:309-349 | over every run, read off the callbacks: reconnecting from a read error until a success or a close; the period is 1000*2^k after k failures, an armed timer carries it, armed exactly as the callbacks say; it fits 64 bits exactly for k <= 53 |
| Reconnect.FirstFailure | tcp_uv/uvnet/tcpclient.cpp:320-324 | a failed connect while the timer waits at 1000 ms leaves it armed with 2000 |
| Reconnect.ReconnectControl.AfterConnect | tcp_uv/uvnet/tcpclient.cpp:309-349 | while reconnecting a failure doubles the period and re-arms the timer; a success stops the timer and resets the period |
| Reconnect.ReconnectControl.AfterRecvError | tcp_uv/uvnet/tcpclient.cpp:412-443 | a read error leaves the client reconnecting with the first period |
| Reconnect.ReconnectControl.CloseInl | tcp_uv/uvnet/tcpclient.cpp:138-148 | a close ends the reconnecting and stops the timer |
| Reconnect.ReconnectControl.ReconnectTimer | tcp_uv/uvnet/tcpclient.cpp:602-659 | a failed attempt doubles and re-arms, a started one leaves the timer alone |
| Reconnect.ReconnectControl.AfterClientClose | tcp_uv/uvnet/tcpclient.cpp:477-493 | arms the timer with the current period if reconnecting |

## Left out

- libuv: sockets, handles and the loop are steps with nondeterministic answers; each callback is a later step.
- MESSAGE_CHECK: the conditionally compiled MD5 path refers to undeclared names and is not part of this model.
- Server shutdown: `TCPServer::closeinl` takes the client mutex and does not release it, so no close protocol is claimed.
- Recycled contexts: the parser of a reused context keeps its old state; parser theorems start from an empty parser or an explicit state.
- Stray connections: what a connection does after an orphan's close has given its context back is not modelled; the C++ code then uses a deleted object.
- Callbacks: they are given a frame by value and do not re-enter the parser, which also stands for the buffer of real data the code copies through.
- MessageParse.MessageParse.HeaderParse: the verdict Overrun ends the model of a parser, because what the C++ code does after writing in front of its buffer is undefined.
- MessageParse.MessageParse.LengthParse: the sum of buffered and received length is an unbounded integer; the callers pass at most one receive buffer, so the C++ code's int sum does not overflow.
- HeaderMode.Parse: the reference cuts an empty body out only with the byte that follows, as the code does, rather than at once.
- TCPClient.TCPClient.Send: the method runs for a given number of sleeps, in each of which a lone caller's signal is served before the callbacks; arbitrary interleavings and unbounded runs are covered by the step relation, SendRuns and SendLiveness.
- TCPClient.TCPClient.Close: the flag and the signal behind it are one step. Closing the handles is not modelled: callbacks that can no longer come after it stay possible in the step relation.
- Send from a callback: Send is not called on the loop thread, where its wait for room would keep the loop from draining.
- Reconnect: the outcomes of uv_tcp_init, address parsing and uv_tcp_connect in the timer callback are one outcome, and handle re-initialisation is not modelled.
- Reconnect.BackoffLaw: a read error is only delivered on a connection that is being read, which libuv guarantees after uv_close.
- Address parsing, logging, sleeping, keep-alive options, the protocol callback of the server, the Redis code and the demo programs.
