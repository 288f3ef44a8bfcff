# Verification of IrStd

Dafny models of eight parts of the IrStd library, with proofs about whole runs, whole streams and whole
texts. `dafny verify dfyconfig.toml` checks the project.

| files | part of the library |
|---|---|
| `RingBuffer.dfy`, `RingBufferSorted.dfy`, `RingBufferReaders.dfy`, `RingBufferAlone.dfy` | the lock-free ring buffer, its sorted index, one producer with any readers, and calls that are not disturbed |
| `WebSocketFrames.dfy`, `WebSocket.dfy`, `WebSocketOverflow.dfy`, `WebSocketRuns.dfy`, `WebSocketBytes.dfy`, `WebSocketClient.dfy` | the WebSocket client: frames, dispatch, the dispatch loop on 64-bit sums, whole runs, messages as bytes, and the class over its buffers |
| `RestRoutes.dfy`, `RestMatches.dfy`, `RestServer.dfy` | the REST router: patterns, tree and matcher on values, which URIs reach a pattern, and the nodes in memory |
| `ConnectionSlots.dfy`, `ConnectionManager.dfy`, `ServerRuns.dfy`, `ServerServes.dfy` | the connection table of the server, its class, the protocol of accept loop, workers and descriptors, and what becomes of a connection |
| `FileCsv.dfy` | the CSV file that is read backwards |
| `RWLock.dfy`, `RWLockCalls.dfy` | the reader/writer lock, and what its calls return |
| `HttpData.dfy`, `HttpMarks.dfy`, `HttpMessages.dfy` | the HTTP request parser, what it accepts, and requests as RFC 2616 writes them |
| `Base64.dfy`, `Decimal.dfy`, `Gson.dfy` | base64, integers to decimal, and the deep merge of trees |
| `Basics.dfy`, `Modular.dfy` | shared definitions, and facts about division |

How the models are built:

- A class of the library whose methods update fields is a class here, with the same fields and loops. Each
  method is proved equal to a function of the old state, and the properties are lemmas about that function
  or ghost history.
- Concurrent parts (ring buffer readers, connection slots, reader/writer lock) are state machines with a step for
  every access that another thread can observe; the theorems hold in every state of every run.
- An assertion of the library is an outcome (`Crash`, `None`, `AssertionFailed`), a predicate `Asserted`
  that is proved for every reachable step, or a `requires` where the library demands it of its callers.
- Counters are unbounded naturals. Where a width matters it is written out: the subtraction of the two ring
  counters, the sum of a header size and a 64-bit frame length, the 32-bit accumulator of base64, `-n` of a 64-bit integer.
- What a function computes is also said without it: bits of an exclusive or, frames byte by byte, a merge along every
  path of keys, the first position where a match is found. A step machine that is safe is also shown to get on.
- Every lemma carries `{:induction false}`, so that Dafny adds no induction of its own: a proof is the one
  that is written down.

Where the code does something else than its documentation says, the model follows the code:

- `readInterval` is documented to return false when "some data requested where not processed". The flag
  compares the number of callbacks with `indexBegin - indexEnd`, although both bounds are included
  (Type/RingBuffer.hpp:120-186). `IntervalFlagHonest` says for all inputs when the promise holds;
  `IntervalFlagCounterexample` is a live interval of two entries that is delivered and reported as failed.
- `read(n)`, documented to get the last n entries, delivers one more when so many are live
  (Type/RingBuffer.hpp:109-118). `ReadExactly` says that it delivers the last n exactly when n is 0 or at
  least the number of live entries; `ReadExample` asks for one of three entries and gets two.
- The WebSocket client adds the size of a header and a 64-bit length in 64 bits, so a frame with a length near
  2^64 passes for whole (Websocket/pushcpp/easywsclient.cpp:312, 338). `WholeExactly` says when the test is
  right, and `DispatchInCode` and `ChunkingInCode` say that the code reads a stream, in any chunks, as its frames
  exactly when no such header stands behind the last whole frame. On the ten bytes 8A 7F FF FF FF FF FF FF FF F6
  the loop never ends, and with FF as the last byte nine of the ten bytes are erased (`OverflowExample`,
  `LoopsForEver`).
- A route that starts with `{STRING}` can trip the assertion on an empty capture at offset 0
  (Server/ServerREST.cpp:84-88). `DispatchCrashesExactly` gives the condition for every tree and URI.
- An empty header value, which RFC 2616 allows, fails an assertion of the header constructor, and a header that
  is folded over several lines is visited once for each line (Server/ServerHTTP.cpp:518-551, 602-607).
  `ParseRecovers` says for every request with such headers when all of them are given back;
  `EmptyValueExample` and `FoldedValueExample` are two requests where they are not.
- A literal route that contains a null character ends there (Server/ServerREST.cpp:280-288). `LiteralRouteWins`
  says for every literal route when a URI equal to its text reaches it.
- Moving a scope of the lock makes the new scope an owner even if the old one was none (RWLock.hpp:26-30).
  `CountedExactly` says for every run that the counter is right throughout exactly when only owners are moved;
  `MoveExample` is a run of one thread that releases a scope and then moves it.
- `seekEnd` does not drop the read buffer (FileSystem/FileCsv.cpp:8-12). With text left in it, the next reads go
  on in that text (`StaleRead`, `SeekEndGoesOn`, `SeekEndExample`), and sooner or later one finds the end of
  the stream or fails an assertion; `SeekEndFailsExactly` says that for any file of at least one line, and any
  buffer size but 0, this happens exactly when text was left.
- The CSV reader throws at an empty first line, and treats a buffer of size 0 as the end of the file
  (FileSystem/FileCsv.cpp:14-93). `FileCsv.Read` is stated for every text and every buffer size, and
  `ReadsBackwardsExactly` says which files are read completely.

## Model

| member | source | states |
|---|---|---|
| `RingBuffers.RingBuffer.constructor` | Type/RingBuffer.hpp:23-27 | an empty buffer of N slots |
| `RingBuffers.RingBuffer.Push` | Type/RingBuffer.hpp:79-107 | one thread: appends to the unbounded history, returns its new length, and keeps every live entry in the slot of its index |
| `RingBuffers.StoreNext` | Type/RingBuffer.hpp:91-96 | storing entry count + 1 only loses the entry that leaves the window of the last N |
| `RingBuffers.RingBuffer.Clear` | Type/RingBuffer.hpp:68-72 | the history is empty again |
| `RingBuffers.RingBuffer.Size` | Type/RingBuffer.hpp:60-63 | the smaller of N and the number of entries pushed since the last clear |
| `RingBuffers.RingBuffer.Head` | Type/RingBuffer.hpp:34-37 | the entry so many places before the last one of the history; beyond the live entries the offset counts modulo N, and above the counter the subtraction wraps at 64 bits |
| `RingBuffers.RingBuffer.SlotIsNewest` | Type/RingBuffer.hpp:188-191 | the slot of any index that was pushed holds the newest entry that shares it |
| `RingBuffers.RingBuffer.Tail` | Type/RingBuffer.hpp:43-55 | for a live offset, the entry so many places after the oldest live one; beyond the live entries of a full buffer the offset counts modulo N |
| `RingBuffers.RingBuffer.LoadIsHistory` | Type/RingBuffer.hpp:188-191 | the slot of a live index holds the entry pushed under that index |
| `RingBuffers.RingBuffer.ReadInterval` | Type/RingBuffer.hpp:133-186 | delivers exactly the live entries with an index between the bounds, both included, in the direction asked for; the flag compares with the difference of the bounds |
| `RingBuffers.RingBuffer.ReadDescending` | Type/RingBuffer.hpp:138-157 | newest to oldest, stopping at the first entry that is too old, without going below index 0 |
| `RingBuffers.RingBuffer.ReadAscending` | Type/RingBuffer.hpp:158-183 | oldest to newest, from the oldest live entry on |
| `RingBuffers.RingBuffer.Read` | Type/RingBuffer.hpp:112-118 | the last n + 1 entries of the history, newest first, as far as they are live, and nothing for n = 0; the flag is that of the interval that is read |
| `RingBuffers.ReadExactly` | Type/RingBuffer.hpp:109-118 | read(n) delivers the last n entries, or all live ones if there are fewer, exactly when n is 0 or at least the number of live entries |
| `RingBuffers.ReadExample` | Type/RingBuffer.hpp:109-118 | of three entries the last one is asked for, and the last two are delivered with a flag that says failure |
| `RingBuffers.LastEntries` | Type/RingBuffer.hpp:112-118 | an interval that ends at the newest entry is a reversed suffix of the history |
| `RingBuffers.IntervalFlagHonest` | Type/RingBuffer.hpp:120-186 | the returned flag means what the documentation says exactly when the bounds differ and at least two requested indexes are not live |
| `RingBuffers.IntervalFlagCounterexample` | Type/RingBuffer.hpp:138-157 | two live entries that are delivered and reported as failed, and an interval with a missing index that is reported as complete |
| `RingBuffers.IntervalDown` | Type/RingBuffer.hpp:138-157 | entry by entry, what a descending read delivers: the live entries from its upper bound down to its lower one, both included |
| `RingBuffers.IntervalUp` | Type/RingBuffer.hpp:158-183 | entry by entry, what an ascending read delivers |
| `SortedRingBuffers.RingBufferSorted.Push` | Type/RingBufferSorted.hpp:42-51 | a key not below its predecessor is appended, and the history stays sorted |
| `SortedRingBuffers.RingBufferSorted.Clear` | Type/RingBuffer.hpp:68-72 | the history is empty again |
| `SortedRingBuffers.RingBufferSorted.SearchOffset` | Type/RingBufferSorted.hpp:135-155 | the bisection ends between the entries above the key and those not above it |
| `SortedRingBuffers.RingBufferSorted.WalkOlder` | Type/RingBufferSorted.hpp:167-189 | the walk towards the oldest entry stops exactly where the keys leave the wanted side or the window ends |
| `SortedRingBuffers.RingBufferSorted.Find` | Type/RingBufferSorted.hpp:133-191 | 0 if empty; the head index if all live keys are smaller; the oldest live index if all are larger; the least or greatest live index with the key if present; otherwise the nearest neighbour on the side of the direction |
| `SortedRingBuffers.FoundIsUnique` | Type/RingBufferSorted.hpp:117-132 | these cases leave find no choice |
| `SortedRingBuffers.WalkFinds` | Type/RingBufferSorted.hpp:167-190 | from where the walk stops to the entry that is promised |
| `SortedRingBuffers.RingBufferSorted.ReadIntervalByKey` | Type/RingBufferSorted.hpp:57-109 | delivers, in the direction asked for, the run of live entries that starts at what find returns and goes on until the window ends or a key passes keyEnd |
| `SortedRingBuffers.KeyRunCoversInterval` | Type/RingBufferSorted.hpp:53-109 | that run holds every live entry whose key lies between the bounds, once, and at most one other: the neighbour that find returns for an absent keyBegin |
| `SortedRingBuffers.RingBufferSorted.ReadDescendingByKey` | Type/RingBufferSorted.hpp:61-77 | the descending loop |
| `SortedRingBuffers.RingBufferSorted.ReadAscendingByKey` | Type/RingBufferSorted.hpp:78-106 | the ascending loop |
| `RingBufferReaders.DeliveriesAreTrue` | Type/RingBuffer.hpp:79-186 | in every state of every run of one producer and any readers, with slots written and copied word by word in any order: every element delivered is the one pushed under its index, the indexes of one call are consecutive, and a keyed read stays within keyEnd |
| `RingBufferReaders.NoIndexUnderflow` | Type/RingBuffer.hpp:133-222 | no offset, older index or cursor goes below zero in any run |
| `RingBufferReaders.RunKeepsInv` | Type/RingBuffer.hpp:79-186 | the invariant behind both holds in every state of every run |
| `RingBufferReaders.ReserveKeeps` | Type/RingBuffer.hpp:84-89 | reserving an index keeps the invariant of the ring |
| `RingBufferReaders.StoreWordKeeps` | Type/RingBuffer.hpp:91-94 | writing one word to the reserved slot keeps the invariant of the ring: every intact slot holds its entry |
| `RingBufferReaders.PublishKeeps` | Type/RingBuffer.hpp:95-95 | publishing keeps the invariant of the ring, with the new entry among the published ones |
| `RingBufferReaders.ProducerKeepsReader` | Type/RingBuffer.hpp:79-107 | no step of the producer falsifies what a reader relies on |
| `RingBufferReaders.CopyMoveKeeps` | Type/RingBuffer.hpp:145-145 | copying one word keeps the invariant of a reader: as long as the slot is intact, every word copied is that of its entry |
| `RingBufferReaders.DeliverMoveKeeps` | Type/RingBuffer.hpp:148-153 | delivering after the too-old test keeps the invariant of a reader: what was delivered is what was pushed |
| `RingBufferReaders.FindMoveKeeps` | Type/RingBufferSorted.hpp:133-191 | every step of find keeps the invariant of a reader, whatever the comparisons of torn keys give |
| `RingBufferReaders.NextKeeps` | Type/RingBuffer.hpp:79-186 | every step of the producer or a reader keeps the invariant |
| `RingBufferAlone.DeliversInterval` | Type/RingBuffer.hpp:133-186 | a call of readInterval during which the producer rests delivers exactly the interval that one thread would read |
| `RingBufferAlone.DeliversKeyRun` | Type/RingBufferSorted.hpp:57-109 | a read by key during which the producer rests delivers all live entries from where its search has led to, and ends only at the first that is past keyEnd or not live |
| `RingBufferAlone.ReaderAdvances` | Type/RingBuffer.hpp:133-222 | a reader that has not finished can always take a move that brings it nearer to its end |
| `RingBufferAlone.CallEnds` | Type/RingBuffer.hpp:133-186 | so any call ends while the producer pauses |
| `RingBufferAlone.PushEnds` | Type/RingBuffer.hpp:79-107 | a push comes to its end by itself, and its element is the next entry |
| `WebSocketFrames.MaskTwice` | Websocket/pushcpp/easywsclient.cpp:412-414 | section 5.3 of RFC 6455: masking twice with a key gives the payload back |
| `WebSocketFrames.XorTwice` | Websocket/pushcpp/easywsclient.cpp:321-321 | exclusive or with a byte twice gives the byte back |
| `WebSocketBytes.XorIsBitwise` | Websocket/pushcpp/easywsclient.cpp:413-413 | a bit of an exclusive or is set exactly when the two bits it comes from differ |
| `WebSocketBytes.MaskShowsKey` | Websocket/pushcpp/easywsclient.cpp:412-414 | section 5.3 of RFC 6455: zeros mask to the key again and again, and no two keys mask alike |
| `WebSocketFrames.BigEndianRoundTrip` | Websocket/pushcpp/easywsclient.cpp:394-401 | a length written in network byte order reads as itself |
| `WebSocketFrames.FrameIsStable` | Websocket/pushcpp/easywsclient.cpp:267-312 | bytes behind a whole frame change neither its size nor its content |
| `WebSocketFrames.FramesOfConcatenation` | Websocket/pushcpp/easywsclient.cpp:267-340 | the frames of a stream are those of a first part followed by those of its rest and the second part |
| `WebSocketFrames.EncodeDecodes` | Websocket/pushcpp/easywsclient.cpp:360-415 | a frame that is written, masked or not, reads as one final frame with that opcode and payload, whatever follows |
| `WebSocketFrames.EncodeIsShortest` | Websocket/pushcpp/easywsclient.cpp:369-408 | section 5.2 of RFC 6455: no frame with the same payload size and mask bit is shorter |
| `WebSocketFrames.CloseFrameDecodes` | Websocket/pushcpp/easywsclient.cpp:417-423 | the close frame reads as an empty masked frame with opcode 8 |
| `WebSocketFrames.EncodeAllDecodes` | Websocket/pushcpp/easywsclient.cpp:360-423 | a stream of written frames reads as exactly those frames with nothing left over |
| `WebSocketFrames.EncodeAllConcat` | Websocket/pushcpp/easywsclient.cpp:410-411 | queueing appends to the stream |
| `WebSocketBytes.BytesRead` | Websocket/pushcpp/easywsclient.cpp:267-338 | section 5.2 of RFC 6455: whatever FIN bit, reserved bits, opcode, length form, key and payload a peer writes is read as such, whatever follows |
| `WebSocketBytes.EveryFrameIsWire` | Websocket/pushcpp/easywsclient.cpp:267-338 | every whole frame is one that a peer can write so |
| `WebSocketBytes.EncodeIsSent` | Websocket/pushcpp/easywsclient.cpp:360-415 | sendData writes a final frame with the shortest length, masked with 12 34 56 78 by a client |
| `WebSocketBytes.QueueIsBytes` | Websocket/pushcpp/easywsclient.cpp:360-423 | on an OPEN connection sendData and close append these bytes to txbuf |
| `WebSocketBytes.SendExample` | Websocket/pushcpp/easywsclient.cpp:360-415 | a client sends A as 81 81 12 34 56 78 53 |
| `WebSocketConnection.DispatchIsOneShot` | Websocket/pushcpp/easywsclient.cpp:265-340 | as long as no sum of sizes wraps (DispatchInCode says when), handling frame after frame equals a one-shot reading: data frames joined up to FIN, one PONG for each PING before the first closing frame, then one close frame |
| `WebSocketConnection.JoinedConserves` | Websocket/pushcpp/easywsclient.cpp:316-328 | no payload byte is lost, added or moved by reassembly, and there is one message for each FIN |
| `WebSocketConnection.DispatchEarly` | Websocket/pushcpp/easywsclient.cpp:265-340 | as long as no sum of sizes wraps, a dispatch in the middle of a stream changes nothing |
| `WebSocketConnection.ChunkingIsIrrelevant` | Websocket/pushcpp/easywsclient.cpp:265-340 | as long as no sum of sizes wraps (ChunkingInCode says when), however a stream is cut into chunks, messages, answers and all buffers are those of the one-shot reading |
| `WebSocketOverflow.WholeExactly` | Websocket/pushcpp/easywsclient.cpp:277-312 | the code takes a frame for whole exactly when it is whole or its length overflows; so its test is right exactly when the sum of header size and length is below 2^64 |
| `WebSocketOverflow.OverflowIsSmall` | Websocket/pushcpp/easywsclient.cpp:312-312 | a sum that overflows wraps to less than the size of the header |
| `WebSocketOverflow.RoundOfWhole` | Websocket/pushcpp/easywsclient.cpp:314-338 | on a whole frame, a round of the code handles and erases that frame |
| `WebSocketOverflow.RunTakesFrames` | Websocket/pushcpp/easywsclient.cpp:265-340 | without an overflow behind the last whole frame, every round takes one frame, and the loop returns after the last one |
| `WebSocketOverflow.RunIsDispatch` | Websocket/pushcpp/easywsclient.cpp:265-340 | and it then has delivered and left behind what the dispatch function says |
| `WebSocketOverflow.OverflowEnds` | Websocket/pushcpp/easywsclient.cpp:265-340 | with one, the loop ends, if it does, with fewer bytes than are behind the last whole frame |
| `WebSocketOverflow.DispatchInCode` | Websocket/pushcpp/easywsclient.cpp:265-340 | a call returns with the one-shot reading exactly when no length overflows behind the last whole frame |
| `WebSocketOverflow.ChunkingInCode` | Websocket/pushcpp/easywsclient.cpp:265-340 | however a stream is cut into chunks, the calls return with the one-shot reading exactly when no length overflows behind its last whole frame |
| `WebSocketOverflow.LoopsForEver` | Websocket/pushcpp/easywsclient.cpp:312-338 | when the sum wraps to 0 and the payload is not used, every round is followed by another and nothing is erased |
| `WebSocketOverflow.OverflowWaits` | Websocket/pushcpp/easywsclient.cpp:312-312 | the one-shot reading waits at such a header |
| `WebSocketOverflow.PongIsSkipped` | Websocket/pushcpp/easywsclient.cpp:333-338 | a PONG with such a length is skipped by the wrapped sum |
| `WebSocketOverflow.OverflowExample` | Websocket/pushcpp/easywsclient.cpp:312-338 | ten bytes on which a round erases nothing, and ten on which it erases nine |
| `WebSocketBytes.WireIsHandled` | Websocket/pushcpp/easywsclient.cpp:314-338 | one round on any frame: opcodes 0 to 2 carry a part of a message that is delivered at FIN, 9 is answered, 10 is skipped, any other closes |
| `WebSocketBytes.MessagesAreJoined` | Websocket/pushcpp/easywsclient.cpp:265-340 | section 5.4 of RFC 6455, on the bytes: any messages, each cut into any number of frames with PINGs and PONGs anywhere, in any chunks, are delivered as exactly these messages, with one PONG for each PING and nothing left over |
| `WebSocketBytes.FragmentExample` | Websocket/pushcpp/easywsclient.cpp:265-340 | the bytes 01 01 61 and 80 01 62 give one message ab |
| `WebSocketConnection.SendThenDispatch` | Websocket/pushcpp/easywsclient.cpp:347-415 | any list of messages that one side sends is delivered by the other, in order, with nothing left over and nothing queued in return |
| `WebSocketConnection.QueueAllBytes` | Websocket/pushcpp/easywsclient.cpp:360-415 | what an OPEN connection sends is appended to txbuf as frames, in order |
| `WebSocketConnection.OfFramesCons` | Websocket/pushcpp/easywsclient.cpp:314-339 | the one-shot reading of a stream agrees with handling its first frame first |
| `WebSocketRuns.StepKeeps` | Websocket/pushcpp/easywsclient.cpp:183-423 | every send, ping, close, round of the dispatch loop and poll keeps the stream invariant, and readyState only moves forward, past CLOSING only after a failure |
| `WebSocketRuns.RunIsWellFormed` | Websocket/pushcpp/easywsclient.cpp:183-423 | after any run: bytes sent followed by txbuf are all frames ever queued, whole, with at most one close frame and nothing after it; CLOSED without a failure means that everything was sent |
| `WebSocketRuns.RunKeeps` | Websocket/pushcpp/easywsclient.cpp:183-423 | the stream invariant over any run from any state that has it |
| `WebSocketRuns.RoundKeeps` | Websocket/pushcpp/easywsclient.cpp:265-340 | every round of the dispatch loop that is defined keeps the stream invariant, with a length that overflows too |
| `WebSocketRuns.PollKeeps` | Websocket/pushcpp/easywsclient.cpp:183-243 | arbitrary partial sends and socket failures keep the stream invariant |
| `WebSocketRuns.SendLoopKeeps` | Websocket/pushcpp/easywsclient.cpp:223-238 | what a partial send takes out of txbuf it adds to the bytes sent |
| `WebSocketRuns.ReceivesAll` | Websocket/pushcpp/easywsclient.cpp:201-222 | rxbuf grows by all bytes received before the first failure, in order, and a failure gives up the connection |
| `WebSocketRuns.SendsAll` | Websocket/pushcpp/easywsclient.cpp:223-238 | as much of txbuf is sent as the sends before the first failure take, and a failure counts only if something is left |
| `WebSocketRuns.PollMeans` | Websocket/pushcpp/easywsclient.cpp:183-243 | a poll without failures: all is received, as much as fits is sent, and a CLOSING connection with nothing left is CLOSED |
| `WebSocketRuns.PollFails` | Websocket/pushcpp/easywsclient.cpp:183-243 | a failed receive, or a failed send with something left, gives up the connection |
| `WebSocketRuns.ClosedIsFinal` | Websocket/pushcpp/easywsclient.cpp:183-190 | on a CLOSED connection nothing is received, queued or sent any more |
| `WebSocketRuns.QueueAllKeeps` | Websocket/pushcpp/easywsclient.cpp:360-423 | queueing several frames keeps the stream invariant, and nothing is queued behind a close frame |
| `WebSocketClient.BuildHeader` | Websocket/pushcpp/easywsclient.cpp:368-408 | the header assigned byte by byte is the shortest header of that opcode, mask bit and size |
| `WebSocketClient.MaskInPlace` | Websocket/pushcpp/easywsclient.cpp:413-413 | the loop combines the chosen bytes with the key and leaves the others |
| `WebSocketClient.RealWebSocket.SendData` | Websocket/pushcpp/easywsclient.cpp:360-415 | queues one encoded frame if the connection is OPEN, and does nothing otherwise |
| `WebSocketClient.RealWebSocket.Close` | Websocket/pushcpp/easywsclient.cpp:417-423 | queues the close frame once |
| `WebSocketClient.RealWebSocket.PeekHeader` | Websocket/pushcpp/easywsclient.cpp:268-312 | takes a frame for whole exactly when the 64-bit sum of header size and length is at most the size of the buffer, with the right header size, length and key |
| `WebSocketClient.RealWebSocket.DispatchFrame` | Websocket/pushcpp/easywsclient.cpp:267-339 | one round of the loop: it returns, leaves its buffer, or handles the first frame and erases as many bytes as the sum says |
| `WebSocketClient.RealWebSocket.HandleFrame` | Websocket/pushcpp/easywsclient.cpp:314-336 | does to a whole frame what the function on frames says and leaves the bytes behind it; with a length that overflows it skips a PONG, closes, or leaves the buffer |
| `WebSocketClient.RealWebSocket.HandleData` | Websocket/pushcpp/easywsclient.cpp:316-328 | appends the unmasked payload, and delivers the message at FIN |
| `WebSocketClient.RealWebSocket.Unmask` | Websocket/pushcpp/easywsclient.cpp:321-321 | the payload is unmasked where it stands |
| `WebSocketClient.MaskedFrame` | Websocket/pushcpp/easywsclient.cpp:410-414 | a message masked behind its header is the encoded frame |
| `WebSocketClient.RealWebSocket.DispatchBinary` | Websocket/pushcpp/easywsclient.cpp:265-340 | any number of rounds of the loop is a run of rounds; without an overflow the loop ends after the last whole frame, with what the dispatch function delivers and leaves behind |
| `WebSocketClient.RealWebSocket.PollSocket` | Websocket/pushcpp/easywsclient.cpp:183-243 | receives, sends and finishes a close as the poll function says |
| `WebSocketClient.RealWebSocket.PollReceive` | Websocket/pushcpp/easywsclient.cpp:201-222 | the receive loop |
| `WebSocketClient.RealWebSocket.PollSend` | Websocket/pushcpp/easywsclient.cpp:223-238 | the send loop, with partial sends |
| `WebSocketClient.PayloadBytes` | Websocket/pushcpp/easywsclient.cpp:278-299 | the payload length as the shifts compute it is the one of the format |
| `WebSocketClient.ToBigEndianAt` | Websocket/pushcpp/easywsclient.cpp:394-401 | byte i of a big-endian number by shifting |
| `RestRoutes.CompileBoundsCaptures` | Server/ServerREST.cpp:110-179 | no pattern that addRoute accepts captures more than MAX_MATCHES times |
| `RestRoutes.RenderCompiles` | Server/ServerREST.cpp:110-179 | a pattern rendered as text compiles to its keys exactly when it has at most MAX_MATCHES captures |
| `RestRoutes.LiteralCompiles` | Server/ServerREST.cpp:119-136 | a text without braces compiles to its characters |
| `RestRoutes.WalkSpells` | Server/ServerREST.cpp:71-103 | the matcher consumes the URI along the path it takes, span after span, each of the right shape |
| `RestRoutes.SpellsMeans` | Server/ServerREST.cpp:45-52 | putting the captured texts back into the path gives the URI |
| `RestRoutes.DispatchIsSound` | Server/ServerREST.cpp:71-103 | a callback that runs is the one registered for the path taken; its captures are ordered spans of the right shape, at most MAX_MATCHES, and put back into the pattern they give the URI |
| `RestRoutes.CallbackIsRegistered` | Server/ServerREST.cpp:71-179 | the same from the registrations: the pattern compiles to the path taken, and the first registration of those keys wins |
| `RestRoutes.NextIsChild` | Server/ServerREST.cpp:357-461 | every match goes one node down, so the matcher terminates |
| `RestRoutes.DispatchCrashesExactly` | Server/ServerREST.cpp:84-89 | the assertions of handleResponse and addMatch fire exactly when the first capture is a STRING that is empty at offset 0 |
| `RestRoutes.DispatchDoesNotCrash` | Server/ServerREST.cpp:84-89 | they never fire when no route starts with a STRING capture |
| `RestRoutes.WalkDoesNotCrash` | Server/ServerREST.cpp:25-31 | past the first character there is always room for one more match and no match ends at 0 |
| `RestRoutes.LeadingStringCrashes` | Server/ServerREST.cpp:84-89 | a route that starts with a STRING capture followed by a character trips the assertion on that character alone |
| `RestRoutes.LeadingStringExample` | Server/ServerREST.cpp:84-89 | the pattern {STRING}/ and the URI / are such a case |
| `RestRoutes.LiteralRouteWins` | Server/ServerREST.cpp:71-103 | a URI equal to the text of a registered literal route reaches the callback registered first for it, whatever other routes exist, exactly when it holds no null character |
| `RestMatches.NextMeans` | Server/ServerREST.cpp:357-461 | getNextMatch tries the character, INT, UINT and STRING in this order; a number ends behind its last digit, a STRING at the first position where the node behind it finds something, or at the end of the URI |
| `RestMatches.ScanIsFirst` | Server/ServerREST.cpp:440-450 | that position of a STRING |
| `RestMatches.PatternIsServed` | Server/ServerREST.cpp:71-103 | for a pattern registered alone that starts with a character and has a character behind each STRING but a last one: the URI with texts filled in reaches its callback with exactly these texts if and only if no STRING holds the character behind it, a last one is not empty, and numbers are numbers with no digit behind |
| `RestMatches.SpansShowTexts` | Server/ServerREST.cpp:79-92 | the spans of that result show the texts |
| `RestMatches.StringExample` | Server/ServerREST.cpp:438-450 | the route /a/{STRING}/b serves /a/x/b with x |
| `RestRoutes.OrderDoesNotMatter` | Server/ServerREST.cpp:274-307 | the same distinct routes in any order build the same tree, so every URI is dispatched alike |
| `RestRoutes.BuildEndpoint` | Server/ServerREST.cpp:274-307 | the first callback registered for a path stays |
| `RestRoutes.BuildNodes` | Server/ServerREST.cpp:274-307 | the nodes of the tree are the prefixes of the registered paths |
| `RestRoutes.BuildIsWf` | Server/ServerREST.cpp:110-179 | every tree that accepted routes build is closed under parents and bounds the captures of every path |
| `RestServer.ServerREST.constructor` | Server/ServerREST.hpp:226 | one empty tree for each method |
| `RestServer.ServerREST.AddRoute` | Server/ServerREST.cpp:110-179 | fails exactly where an assertion of addRoute does: the server is started, the method is out of bounds, or the pattern does not compile. Otherwise the trees have the route inserted for that method and are unchanged for the others; a refused pattern adds nodes at most and no endpoint |
| `RestServer.ServerREST.AddPattern` | Server/ServerREST.cpp:116-179 | the same behind the first two assertions |
| `RestServer.ServerREST.AddKeys` | Server/ServerREST.cpp:120-177 | the loop consumes the whole pattern and walks down its compiled keys |
| `RestServer.ServerREST.AddPart` | Server/ServerREST.cpp:120-176 | one round: the text up to the next capture, and the capture |
| `RestServer.ServerREST.AddLiteral` | Server/ServerREST.cpp:280-288 | a C string adds one node for each character up to its null |
| `RestServer.ServerREST.AddKey` | Server/ServerREST.cpp:274-307 | finds or creates the child, and the nodes in memory stay a tree |
| `RestServer.ServerREST.AddNew` | Server/ServerREST.cpp:289-299 | creates the child |
| `RestServer.ServerREST.Attach` | Server/ServerREST.cpp:289-299 | creates a node and links it under its key, nothing else |
| `RestServer.ServerREST.RegisterEndPoint` | Server/ServerREST.cpp:274-307 | the callback is stored only if the node has none yet |
| `RestServer.ServerREST.GetNextMatch` | Server/ServerREST.cpp:357-461 | returns what the matcher on the tree of paths says: the character itself, INT, UINT, STRING, in that order |
| `RestServer.ServerREST.GetNumberMatch` | Server/ServerREST.cpp:374-427 | the INT and UINT captures |
| `RestServer.ServerREST.GetDigitsEnd` | Server/ServerREST.cpp:388-393 | the end of a run of digits, and whether there is one |
| `RestServer.ServerREST.ScanText` | Server/ServerREST.cpp:438-450 | a STRING ends where the next node first finds a match, or at the end |
| `RestServer.ServerREST.HandleResponse` | Server/ServerREST.cpp:71-103 | replies what the dispatch on the tree of the method says |
| `RestServer.ServerREST.Consume` | Server/ServerREST.cpp:79-92 | the loop over the URI |
| `RestServer.ServerREST.FollowMatch` | Server/ServerREST.cpp:81-91 | one round of that loop, with its assertions |
| `RestServer.ServerREST.CallEndPoint` | Server/ServerREST.cpp:94-102 | the callback of the node reached, or 404 |
| `RestServer.LinkedAdd` | Server/ServerREST.cpp:291-298 | linking a new node under a free key keeps every map leading to its own children and nowhere else |
| `ConnectionManagers.ConnectionManager.constructor` | Server/ConnectionManager.hpp:123-134 | all slots free, no active connection |
| `ConnectionManagers.ConnectionManager.GetFreeClientNoLock` | Server/ConnectionManager.hpp:136-150 | the first free slot, or the number of slots; its two assertions hold |
| `ConnectionManagers.ConnectionManager.GetIndex` | Server/ConnectionManager.hpp:152-165 | the first slot in use with that socket, or the number of slots |
| `ConnectionManagers.ConnectionManager.AllocateClient` | Server/ConnectionManager.hpp:167-198 | the first free slot takes the socket and becomes IDLE, or the table is full and unchanged; the count stays right, and the handle that is assigned over holds no thread |
| `ConnectionManagers.ConnectionManager.IsValidIndex` | Server/ConnectionManager.hpp:248-256 | whether both assertions of isValidIndex hold |
| `ConnectionManagers.ConnectionManager.SetStatus` | Server/ConnectionManager.hpp:306-312 | changes the status of that slot only |
| `ConnectionManagers.ConnectionManager.RunTask` | Server/ConnectionManager.hpp:63-68 | puts a thread behind the handle of that slot only |
| `ConnectionManagers.ConnectionManager.DeallocateClient` | Server/ConnectionManager.hpp:206-222 | joins, frees the slot and counts down |
| `ConnectionManagers.ConnectionManager.GarbageCollection` | Server/ConnectionManager.hpp:314-325 | frees exactly the terminated slots, with their sockets left behind |
| `ConnectionManagers.ConnectionManager.Stop` | Server/ConnectionManager.hpp:327-338 | frees every slot; no connection is active |
| `ConnectionSlots.FullWhenNoneIsFree` | Server/ConnectionManager.hpp:136-150 | there is no free slot exactly when the number in use is the number of slots |
| `ConnectionSlots.AllocateCounts` | Server/ConnectionManager.hpp:167-198 | allocation keeps the count equal to the number of slots in use |
| `ConnectionSlots.ReleaseCounts` | Server/ConnectionManager.hpp:206-222 | release keeps it too |
| `ServerRuns.RunIsSafe` | Server/ServerTemplate.hpp:164-375 | in every interleaving of accept loop, workers, stop() and an OS that reuses descriptors: the state is sound, no assertion fails, no accepted socket is registered already, and only open descriptors are closed |
| `ServerRuns.InvIsSound` | Server/ServerTemplate.hpp:164-375 | the count equals the slots in use; no slot is freed or reused while its worker runs; every worker has a descriptor of its own; STOPPED means all workers joined, all slots free and no descriptor left |
| `ServerRuns.StepIsSafe` | Server/ServerTemplate.hpp:164-375 | every assertion of allocateClient, isValidIndex, deallocateClient, process and closeSocket holds when it is reached, and the thread handle that allocateClient or runTask assigns over holds no thread |
| `ServerRuns.StepKeeps` | Server/ServerTemplate.hpp:164-375 | every step keeps the invariant |
| `ServerRuns.RunKeeps` | Server/ServerTemplate.hpp:164-375 | the invariant holds in every state of every run |
| `ServerRuns.ClosedIsTerminated` | Server/ServerTemplate.hpp:177-184 | a slot that names a descriptor that is not open is free or terminated |
| `ServerRuns.AcceptKeeps` | Server/ServerTemplate.hpp:299-309 | the accept keeps the invariant: every slot that names the new descriptor is terminated and still to be swept |
| `ServerRuns.RegisterKeeps` | Server/ServerTemplate.hpp:318-324 | the allocation keeps the invariant |
| `ServerRuns.JoinKeeps` | Server/ConnectionManager.hpp:206-222 | the end of a join, which a step can only be when its worker is done, keeps the invariant |
| `ServerRuns.FreeKeeps` | Server/ConnectionManager.hpp:219-221 | the locked release of a slot keeps the invariant |
| `ServerRuns.AssignKeeps` | Server/ConnectionManager.hpp:63-68 | setting the handle, at any moment of its worker, keeps the invariant |
| `ServerRuns.WorkKeeps` | Server/ServerTemplate.hpp:164-237 | every step of a worker keeps the invariant |
| `ServerRuns.WorkIsOwnStep` | Server/ServerTemplate.hpp:164-237 | every step of a worker changes the status of its own slot at most, which is TERMINATED exactly from the step before its descriptor is closed on |
| `ServerRuns.StoppedIsClean` | Server/ServerTemplate.hpp:357-365 | a stopped server has no worker, no slot in use and no descriptor |
| `ServerRuns.AcceptorIsNotStuck` | Server/ServerTemplate.hpp:294-365 | outside accept() the accept loop can take a step, or is in join() for a worker that can |
| `ServerServes.AcceptIsServed` | Server/ServerTemplate.hpp:294-350 | with a slot that is free or terminated, an accepted socket gets a new worker in the slot that names it |
| `ServerServes.AcceptIsDropped` | Server/ServerTemplate.hpp:294-324 | without one, the socket is closed again |
| `ServerServes.SweepEnds` | Server/ConnectionManager.hpp:314-338 | a sweep whose workers are done comes to its end and frees exactly the terminated slots, or at a shutdown all in use |
| `ServerServes.WorkerServes` | Server/ServerTemplate.hpp:190-230 | while packets come, a worker receives from its socket as RECEIVING, runs its task on it as RUNNING, and goes on |
| `ServerServes.WorkerEnds` | Server/ServerTemplate.hpp:164-220 | when a receive fails or the server stops, the worker terminates its slot, closes its socket and is done |
| `ServerServes.StopEnds` | Server/ServerTemplate.hpp:294-375 | after stop(), once the workers are done, the listener is closed, every slot is free and the server is stopped |
| `FileCsvs.FileCsv.SeekEnd` | FileSystem/FileCsv.cpp:8-12 | in any state: the position is the end of the file and the buffer stays; it is a window of the file exactly when it is empty, and then everything is unread |
| `FileCsvs.StaleRead` | FileSystem/FileCsv.cpp:14-93 | a read after seekEnd with text left in the buffer: it goes on in that text as long as it shows where its last line starts, and fails with a short read otherwise |
| `FileCsvs.SeekEndFailsExactly` | FileSystem/FileCsv.cpp:8-93 | after seekEnd in a file of at least one line, with any buffer size but 0, some read after reads that return lines finds the end of the stream or fails an assertion exactly when text was left in the buffer |
| `FileCsvs.StaleFails` | FileSystem/FileCsv.cpp:8-93 | in any file that is not empty, with at most as many reads as characters were left |
| `FileCsvs.LinesDoNotFail` | FileSystem/FileCsv.cpp:14-93 | reading a file of lines never does, whether they fit into the buffer or not |
| `FileCsvs.SeekEndGoesOn` | FileSystem/FileCsv.cpp:8-65 | after one read of a file that fits into the buffer, and a second seekEnd, the next read returns the line before the last |
| `FileCsvs.SeekEndExample` | FileSystem/FileCsv.cpp:8-65 | three lines where that happens |
| `FileCsvs.FileCsv.UpdateReadBuffer` | FileSystem/FileCsv.cpp:67-93 | in any state: the buffer becomes the text of its size in front of the old position, or the call throws because the stream ends before |
| `FileCsvs.FileCsv.LookAtBuffer` | FileSystem/FileCsv.cpp:41-63 | one look at the buffer: a line and what is left, an assertion, or more data is needed |
| `FileCsvs.ReadStepMeans` | FileSystem/FileCsv.cpp:14-65 | as long as the buffer is a window of the file, the outcome of a read and the text left unread depend only on the unread text and the buffer size |
| `FileCsvs.StepsAreReads` | FileSystem/FileCsv.cpp:14-93 | from such a window, any number of reads gives what the unread text and the buffer size say |
| `FileCsvs.LookMeans` | FileSystem/FileCsv.cpp:41-63 | a look at a window decides the read, unless the last line starts in front of the window |
| `FileCsvs.FileCsv.Read` | FileSystem/FileCsv.cpp:14-65 | in any state what the read function says, and for a window of the file what the unread text and the buffer size say |
| `FileCsvs.FileCsv.Write` | FileSystem/FileCsv.hpp:35-66 | in any state: appends one record and leaves the position and the buffer; what was unread of the file stays unread |
| `FileCsvs.ReadsLastLine` | FileSystem/FileCsv.cpp:14-65 | the last line is returned whole exactly when it fits with the newline before it and is not an empty line at the start; otherwise the read throws and consumes nothing |
| `FileCsvs.UnendedText` | FileSystem/FileCsv.cpp:41-55 | text behind the last newline trips the assertion as soon as a read gets to it |
| `FileCsvs.ReadsBackwards` | FileSystem/FileCsv.cpp:14-65 | any number of reads of a file whose first line is not empty gives the lines from last to first and then the end for ever, for every buffer larger than the longest line with its newline |
| `FileCsvs.ReadsBackwardsExactly` | FileSystem/FileCsv.cpp:14-65 | and with as many reads as lines exactly when the file is empty or its first line is not |
| `FileCsvs.ReadsAreBack` | FileSystem/FileCsv.cpp:14-65 | what any file of lines gives through such a buffer: the lines from last to first, and an exception for ever at an empty first line |
| `FileCsvs.ThrowsForEver` | FileSystem/FileCsv.cpp:22-39 | a read that throws throws again for ever |
| `FileCsvs.WrittenIsReadBack` | FileSystem/FileCsv.hpp:35-66 | records written to an empty file come back from last to first |
| `FileCsvs.RecordIsRead` | FileSystem/FileCsv.hpp:56-66 | a record is its fields, each ended by a semicolon, and a newline; splitting gives the fields back |
| `FileCsvs.WindowShowsLine` | FileSystem/FileCsv.cpp:41-52 | what a window says about where the last line starts |
| `ReaderWriterLock.RunIsSafe` | RWLock.hpp:91-135 | in every interleaving that moves owning scopes only: no assertion and no compare-exchange fails; whenever the mutex is free the counter says exactly who owns the lock and nobody sleeps while what it waits for holds |
| `ReaderWriterLock.CountedExactly` | RWLock.hpp:26-135 | the counter says who owns the lock in every state of a run exactly when the run only moves scopes that own |
| `ReaderWriterLock.MoveExample` | RWLock.hpp:26-57 | a run of one thread that takes and releases a scope and then moves it: the lock is free, and the new scope owns it |
| `ReaderWriterLock.InvPromises` | RWLock.hpp:162-167 | the counter is the number of reader owners and no writer, or -1 with exactly one writer and no reader |
| `ReaderWriterLock.StepIsSafe` | RWLock.hpp:91-135 | the assertions of readScope and writeScope hold, and the counter has not moved between the wait and the exchange |
| `ReaderWriterLock.StepKeeps` | RWLock.hpp:48-135 | every step keeps the invariant, a move if its scope owns |
| `ReaderWriterLock.RunKeeps` | RWLock.hpp:48-135 | the invariant holds in every state of every run that moves owning scopes only, for any number of threads |
| `ReaderWriterLock.WriterIsAlone` | RWLock.hpp:114-135 | a scope that owns for writing is the only owner, at any moment |
| `ReaderWriterLock.TestKeeps` | RWLock.hpp:102-105 | the test of the wait, and falling asleep, keep the invariant |
| `ReaderWriterLock.SwapKeeps` | RWLock.hpp:106-106 | the compare-exchange keeps the invariant |
| `ReaderWriterLock.ChangeCounts` | RWLock.hpp:52-53 | after a share of the counter is given back the counter still says who owns |
| `ReaderWriterLock.NotifyWakesAll` | RWLock.hpp:54-54 | after the notification nobody sleeps |
| `ReaderWriterLock.MoveKeeps` | RWLock.hpp:26-30 | a move of any scope keeps the count, and the whole invariant, exactly when the scope owns |
| `ReaderWriterCalls.ReturnsItsCall` | RWLock.hpp:91-135 | in every run, a call returns an owning scope of the kind that the latest call of its thread asked for |
| `ReaderWriterCalls.ScopeStays` | RWLock.hpp:26-57 | a scope never changes its kind, and never begins to own again |
| `ReaderWriterCalls.ReturnsAlone` | RWLock.hpp:91-135 | when a call returns no scope owns for writing, and when a WRITE call returns none owns at all |
| `ReaderWriterCalls.WriteCallExcludes` | RWLock.hpp:91-135 | from the return of a WRITE call until a share is given back no call of any thread returns, and that share is the one of the call |
| `ReaderWriterCalls.CallTakesLock` | RWLock.hpp:91-135 | a call that finds the mutex and the lock free for its kind gets the lock |
| `ReaderWriterCalls.ReleaseGivesBack` | RWLock.hpp:48-57 | a release gives the share back, wakes all sleepers and leaves a scope that does not own |
| `HttpMessages.ParseRecovers` | Server/ServerHTTP.cpp:418-614 | every well-formed request (sections 4.1, 4.2 and 5.1 of RFC 2616), with leading blank characters, empty values and headers folded over several lines, parses with its method, URI and body; a loop over the headers gives every header back, in order, exactly when none is folded and no value is empty; if none is folded, it stops once at each and an assertion fails at exactly the empty values |
| `HttpMessages.EmptyValueExample` | Server/ServerHTTP.cpp:518-551 | the header line X: in a well-formed request, and the assertion that fails |
| `HttpMessages.FoldedValueExample` | Server/ServerHTTP.cpp:584-607 | a folded value in a well-formed request that is not given back |
| `HttpMessages.RequestLineReads` | Server/ServerHTTP.cpp:447-463 | the request line gives back the method and the URI |
| `HttpMessages.HeaderReads` | Server/ServerHTTP.cpp:518-551 | a header of one line: an assertion fails exactly when the value is empty, and otherwise the name and the value are given back without the blanks around them |
| `HttpMessages.HeadersRead` | Server/ServerHTTP.cpp:584-607 | the loop over the headers gives every header, in order, exactly when none is folded and no value is empty |
| `HttpMessages.FoldedCounts` | Server/ServerHTTP.cpp:602-607 | with a folded header the loop stops more often than there are headers |
| `HttpMessages.StartsCount` | Server/ServerHTTP.cpp:602-607 | from anywhere in a header line the loop stops at least once for each header to come, and once more for a break that is left in the line |
| `HttpMessages.EmptyLineFound` | Server/ServerHTTP.cpp:429-437 | the first empty line is the one after the headers, folded or not |
| `HttpMessages.FindsVersion` | Server/ServerHTTP.cpp:458-460 | the last HTTP in the request line is the version, whatever the URI contains |
| `HttpMessages.SectionsFound` | Server/ServerHTTP.cpp:420-445 | the request begins behind the leading blanks, and its sections end where they were rendered |
| `HttpData.StartsReachEnd` | Server/ServerHTTP.cpp:584-607 | for any text that parses, a loop over the headers stays in the header section and ends exactly at its end |
| `HttpData.ParsedSections` | Server/ServerHTTP.cpp:418-467 | for any text that parses, the marks are in order and the header section is whole lines |
| `HttpData.ParsedRequest` | Server/ServerHTTP.cpp:447-463 | for any text that parses, method and URI are non-empty spans in order |
| `HttpMarks.ParseMeans` | Server/ServerHTTP.cpp:418-467 | for any text at all: it parses with these marks exactly when they are where the first line, the method up to the first space, the URI, the last HTTP and the first empty line are, without the blanks around them |
| `HttpMarks.HeaderMeans` | Server/ServerHTTP.cpp:518-551 | for any line: the spans of a header are the trimmed texts around its first colon, or the whole line if it has none |
| `HttpData.Data.ParseMessage` | Server/ServerHTTP.cpp:418-467 | sets the marks of the parse function, or throws exactly where it does |
| `HttpData.Data.ParseSections` | Server/ServerHTTP.cpp:420-445 | the sections |
| `HttpData.Data.ParseRequestLine` | Server/ServerHTTP.cpp:447-463 | the method and the URI |
| `HttpData.Data.LTrim` | Server/ServerHTTP.cpp:370-380 | the loop equals the trimming function |
| `HttpData.Data.RTrim` | Server/ServerHTTP.cpp:382-393 | the loop equals the trimming function |
| `HttpData.TrimLeftStops` | Server/ServerHTTP.cpp:370-380 | trimming from the left passes exactly the characters to trim |
| `HttpData.TrimRightStops` | Server/ServerHTTP.cpp:382-393 | trimming from the right does, too, and stops at 0 |
| `HttpData.Data.Compare` | Server/ServerHTTP.cpp:395-416 | equality up to the case of letters |
| `HttpData.FoldMeans` | Server/ServerHTTP.cpp:395-416 | two texts are equal then exactly when each two characters are the same, or the two cases of a letter |
| `HttpData.Data.GetMethod` | Server/ServerHTTP.cpp:480-509 | the method named by the text in front of the first space, if it is one of the eight |
| `HttpData.MethodsByName` | Server/ServerHTTP.cpp:480-505 | the eight names in capital letters, each for its method |
| `HttpData.Data.GetURI` | Server/ServerHTTP.cpp:511-514 | the text between the marks of the URI |
| `HttpData.Data.GetData` | Server/ServerHTTP.cpp:474-478 | everything behind the empty line |
| `HttpData.Data.HeaderOf` | Server/ServerHTTP.cpp:518-551 | the spans of a header, or where an assertion fails |
| `HttpData.Data.Headers` | Server/ServerHTTP.cpp:584-607 | the positions that a loop over the headers visits; it terminates |
| `Base64.DecodeEncode` | Type/Buffer.cpp:88-147 | decoding the encoding of any byte sequence gives it back |
| `Base64.EncodingIsNumber` | Type/Buffer.cpp:88-116 | three bytes and their four characters are the same number of 24 bits; one byte at the end is followed by four zero bits, two by two |
| `Base64.Vectors` | Type/Buffer.cpp:88-116 | the first vectors of section 10 of RFC 4648 |
| `Base64.DecodedStops` | Type/Buffer.cpp:131-137 | decoding stops at the first character that is not in the table, whatever follows |
| `Base64.Buffer.Base64Encode` | Type/Buffer.cpp:88-116 | the result is the grouping of section 4 of RFC 4648, of size 4 * ceil(n / 3) |
| `Base64.Buffer.Base64Decode` | Type/Buffer.cpp:118-147 | the grouping backwards, up to the first character that is not in the table |
| `Base64.EncodeFromIsEncoding` | Type/Buffer.cpp:95-113 | encoding bit by bit with up to four bits left over is the grouping of the standard |
| `Base64.DecodeFromIsDecoded` | Type/Buffer.cpp:131-145 | decoding bit by bit is the grouping backwards |
| `Base64.PushKeepsLow` | Type/Buffer.cpp:98-98 | the wrapping 32-bit accumulator agrees with an unbounded one on the low 12 bits |
| `Base64.SameBits` | Type/Buffer.cpp:102-102 | so every digit and every byte taken from it is the same |
| `Base64.EncodedStep` | Type/Buffer.cpp:95-105 | one more byte keeps what is out and what is to come equal to the encoding |
| `Base64.EncodedEnd` | Type/Buffer.cpp:106-113 | the left-over bits and the padding complete the encoding |
| `Base64.DecodesStep` | Type/Buffer.cpp:131-145 | one more character keeps what is out and what is to come equal to the decoding |
| `Base64.Alphabet` | Type/Buffer.cpp:90-90 | the string in the code is Table 1 of RFC 4648 |
| `Base64.BuildTable` | Type/Buffer.cpp:123-127 | the table maps every character to its value, or to -1 |
| `Base64.Buffer.PushSextets` | Type/Buffer.cpp:100-104 | the inner loop |
| `Base64.Buffer.DecodeChar` | Type/Buffer.cpp:138-144 | one more character in the decoder keeps what is out and what is to come equal to the decoding |
| `Decimals.Uint64ToString` | Type/Type.cpp:13-34 | the buffer starts with the text of n and a null, the size counts the null, and nothing outside of the buffer changes |
| `Decimals.Int64ToString` | Type/Type.cpp:36-50 | the same with a sign for negative numbers, the least one included |
| `Decimals.TextFits` | Type/Type.cpp:13-34 | the text is the canonical numeral exactly when it fits, and fills the buffer otherwise |
| `Decimals.TextIsModulo` | Type/Type.cpp:13-34 | in any case it is a numeral of n modulo 10^(bufferSize - 1) |
| `Decimals.NumberOfNumeral` | Type/Type.cpp:22-27 | the number of the numeral of n is n |
| `Decimals.NumeralExample` | Type/Type.cpp:13-34 | 1204 in decimal, and what fits of it into four bytes |
| `Decimals.NumeralHasNoLeadingZero` | Type/Type.cpp:22-27 | and only 0 starts with a zero |
| `Decimals.Uint64Fits` | Type/Type.cpp:13-34 | 21 bytes are enough for every unsigned 64-bit number |
| `Decimals.Int64TextFits` | Type/Type.cpp:36-50 | 21 bytes are enough for every signed 64-bit number |
| `Decimals.WriteDigits` | Type/Type.cpp:18-27 | the loop writes the digits from the right end |
| `Decimals.MoveDown` | Type/Type.cpp:31-31 | memmove to a lower position, ranges overlapping |
| `Gsons.MergeIsAssociative` | Type/Gson.cpp:82-125 | merging b and then c into a, and merging into a the result of merging c into b, are defined for the same trees of any depth and give the same tree |
| `Gsons.MapsMerge` | Type/Gson.cpp:105-119 | two maps merge to r exactly when r holds, under every key, the only child or the merge of both children |
| `Gsons.MergeAt` | Type/Gson.cpp:82-125 | along every path of keys: what only one tree has stays, a scalar becomes that of the other tree, elements are appended and keys united |
| `Gsons.MergeIsDefined` | Type/Gson.cpp:82-85 | a merge is defined exactly when the trees agree on the type along every path that both have |
| `Gsons.MergeKeepsType` | Type/Gson.cpp:82-85 | merging never changes the type |
| `Gsons.MergeNode` | Type/Gson.cpp:82-125 | the loops append the elements and merge the children as the merge function says |
| `Gsons.MergeChildren` | Type/Gson.cpp:105-119 | in whatever order the children come |

## Left out

Stated weaker than the code, or modelled in another form:

- RingBufferReaders.DeliveriesAreTrue: one producer. The read counter counts publications, so with several producers it does not say which slot was written. `clear()`, `head()` and `tail()` beside a running producer are not steps of the machine, and every interleaving is taken as sequentially consistent, as the atomics of the code are by default.
- RingBufferAlone.DeliversKeyRun: from where the search has led to; its comparisons are left open in the step machine, and `SortedRingBuffers.RingBufferSorted.Find` says what they find when one thread runs.
- WebSocketConnection.DispatchIsOneShot: sums of sizes do not wrap; what the code does when they do is in `WebSocketOverflow`.
- WebSocketConnection.DispatchEarly: the same.
- WebSocketConnection.ChunkingIsIrrelevant: the same, and streams shorter than 2^63 bytes.
- WebSocketOverflow.ChunkingInCode: streams shorter than 2^63 bytes. A payload that is used although its length overflows is out of bounds, and nothing is said of the program from there on; the iterator of the erased range is taken to wrap like the sum.
- WebSocketClient.RealWebSocket.DispatchBinary: takes a number of rounds, since the loop of the code does not always end; nothing is said of the fields once a payload is out of bounds.
- WebSocketRuns.RunIsWellFormed: a callback that itself dispatches is not modelled; one that sends or closes is the send or close behind its round, and delivered messages are only recorded. A second `closesocket` after a failed receive is a failed send here.
- RestRoutes.OrderDoesNotMatter: routes that differ as keys. Of routes that compile to the same keys the first registered wins, which `BuildEndpoint` states.
- RestMatches.PatternIsServed: one pattern in the tree; where several share a path, `NextMeans` says which key is tried first and `DispatchIsSound` what is found.
- RestServer.ServerREST.AddRoute: whether the server is started is a field that no method here changes; starting the server is not part of this class.
- RestServer.ServerREST.HandleResponse: callbacks are told apart by number and are not run; conversion of a match to a number and handing a match on as a string object are left out.
- ServerRuns.RunIsSafe: `inet_ntop` and the listening socket succeed, `processImpl` returns, and `stop()` is called while the server is started by one thread, as its assertion demands. `accept` hands out any descriptor that is not open.
- ConnectionManagers.ConnectionManager.GarbageCollection: run without interference; what workers do between its steps is in `ServerRuns`.
- ConnectionManagers.ConnectionManager.IsValidIndex: returns false where an assertion of the code stops the program.
- FileCsvs.FileCsv.Read: the fields after a short read are not specified; the stream is then in a failed state, which the model does not have.
- ReaderWriterLock.RunIsSafe: a state machine and no class, because every property is about interleavings. A scope is used by one thread at a time, and the counter is unbounded.
- HttpMessages.ParseRecovers: a version contains one H only. What a loop gives for the lines of a folded header is not described, only that it is not the list of headers.
- Decimals.Uint64ToString: buffers of at least two bytes; a smaller one is written outside of its bounds.
- Decimals.Int64ToString: the same, and at least three bytes for a negative number.
- Gsons.MergeNode: trees are values, so the update in place and a tree merged into itself are not captured. A failed assertion is None for the whole merge.

Not modelled:

- Real sockets, polling, address formatting, logging and the texts of exceptions.
- Fetch, Crypto and Json, which stand on curl, OpenSSL and RapidJSON.
- Floating point: doubleToString, doubleFormat, Decimal, almostEqual.
- StreamDB: its index bookkeeping relies on cases of readInterval that the interval does not deliver.
- Streambuf, Event, the Thread start handshake and ThreadPool: waits without a guarded condition.
- Memory statistics, Bootstrap signals, Exception chains, Logger formatting, the MIME table and the macros: no property across functions.
- FlagLockThread, Scope and the topic map: simpler cases of the lock and the maps above.
- URL parsing and the upgrade handshake of the WebSocket client, and fragmentation on the sending side, which it does not have.
- The response side of the HTTP server, and receiving a body in several parts.
