# A verified model of the epoll line server

`epoll_server.c` is a single-threaded TCP server. It accepts connections on one
listening socket and waits on one epoll instance, where the listening socket is
registered level-triggered (line 213) and each client edge-triggered (line 107).
It frames each connection's byte stream into messages terminated by CR LF
(`"\r\n"`) and writes `"ok\r\n"` back for every message. This project models
the server's core in Dafny and proves what that core does:

- `handle_client_data` (lines 120-179), with its two static tables: 1024 rows of
  2048 bytes, and 1024 lengths.
- The bookkeeping of `main`'s event loop (lines 225-249) and its cleanup
  (lines 251-253).

The model has four modules:

- **Framing** (`framing.dfy`) is the meaning of the protocol on plain byte
  sequences. `Split` cuts a stream at every CR LF into messages and an
  unterminated tail, and `Join` glues them back. The lemmas prove:
  - the two are inverse;
  - the number of messages is the number of CR LF pairs;
  - framing a stream piece by piece, carrying the tail over, gives the same
    result as framing it whole.
- **Slot** (`slot.dfy`) models one row of the buffer table and its length as
  values, with C string semantics. `Find` is `strstr` and `CLen` is `strlen`;
  both stop at the first NUL byte.
  - The three phases of a read that returned data are `Append` (lines 145-149),
    `Scan` (lines 152-166) and `Compact` (lines 168-174). `ReadRound` puts them
    together, and `Handle` is the whole read loop of one call.
  - Lemmas relate this byte-level behaviour to the framing: one reply per
    delimiter, compaction, no CR LF retained, fragmentation invariance and
    the exit paths.
  - `Deliver` is the connection-level meaning: a connection's stored tail
    followed by its chunks, where a chunk that does not fit is dropped whole.
- **ClientData** (`client_data.dfy`) is `handle_client_data` over the two tables,
  updated in place.
  - The class `ClientBuffers` holds `client_buffers` as one flat array (row `i`
    at offset `i * 2048`) and `buffer_lens` as an array of lengths.
  - Each method is proved against the value model of Slot: the slot
    `fd % 1024` ends as `Handle` says, and no byte or length of any other slot
    changes.
  - The memcpy, the memmove, the NUL stores and the length stores are
    separate small methods.
- **EventLoop** (`event_loop.dfy`) models the registry of descriptors registered
  with epoll, and the sequence of descriptors closed by client teardown
  (lines 244-245) and by cleanup (lines 252-253).
  - `Run` is the loop over the results of `epoll_wait`, given as inputs.
  - The class `Server` updates the registry in place and is proved to follow
    `Run`.

Inputs stand in for the kernel:

- A call of `handle_client_data` receives the sequence of results its `read`
  calls return: data, end of file, would-block or another error. Reads beyond
  the given results would block.
- It also receives a sequence telling which reply writes fail. Writes beyond
  the given sequence succeed.
- The event loop receives the sequence of `epoll_wait` results. For each ready
  descriptor, it also receives what the handler reported.

### Behaviour of the code worth knowing

The model follows the code in each case:

- **Overflow.** A chunk that would bring a row to 2048 bytes or more is dropped
  silently (line 145). Failing the connection with a frame-too-large error
  would be safer than losing bytes in the middle of a stream. `Append` and
  `Deliver` model the drop. Once a row holds 2047 bytes without a CR LF,
  every later chunk is dropped, and the connection gets no more replies.
- **Slot mapping.** A connection's slot is `fd % 1024` (line 127). This is not a
  keyed registry: descriptors congruent modulo 1024 share a row.
  `ClientBuffers.TwoCalls` states the consequence.
- **Stale bytes after a read error.** A read error returns -1 without
  resetting the slot's length (lines 136-137); only end of file resets it
  (line 141). At that point the row holds a compacted, NUL-terminated tail, and
  it becomes the start of the stream of the next connection that gets a
  descriptor congruent modulo 1024. `Slot.HandleExits` and
  `ClientBuffers.TwoCalls` state this.
- **A failed reply write loses the next chunk.** A failed reply write also
  returns -1 with the appended length kept (lines 160-161), but by then a NUL
  has been written over the CR of every delimiter found (line 155), below that
  length (`Slot.FailureLeavesNul`). The next chunk on that slot is appended
  behind the NUL, where `strstr` and `strlen` never look (lines 153, 169).
  The whole chunk is lost and none of its CR LFs is answered. Only the bytes
  before the first NUL are kept (`Slot.NextChunkLost`,
  `Slot.FailedRoundLosesNext`).
- **Accept.** The listening socket is registered with plain `EPOLLIN`, so it is
  level-triggered (line 213); only client sockets get `EPOLLET` (line 107).
  `handle_new_connection` makes one `accept` per readiness event, not a loop
  until would-block. While connections are pending, the next `epoll_wait`
  (line 226) reports the listener again, so pending connections are taken one
  per `epoll_wait` round rather than stalling. The model takes the accepted
  descriptor, if any, as an input of each event.
- **Shutdown.** Cleanup closes only the listening socket and the epoll instance
  (lines 252-253). Connections still registered are left open.
  `Server.Shutdown` states this.
- **Reply.** The reply is the 4 bytes `"ok\r\n"` (line 125). A reply write
  either succeeds or fails; a short write is treated as a success, as the code
  does.
- **The test client.** `test_client.c` sends `"Hello Server\n"`, which ends in LF
  alone, so the server writes no reply to it (`Slot.LineFeedOnlyIsTail`).

## Model

Rows whose third column begins with "proof step" are unfoldings or generic
sequence facts that the other proofs use as hints; the remaining rows state
what the model promises about the cited lines.

| member | source | states |
|---|---|---|
| Framing.FirstDelimiter | epoll_server.c:153 | the position found, if any, leaves room for both delimiter bytes |
| Framing.FirstDelimiterSound | epoll_server.c:153 | the position found holds CR LF and none occurs before it; "none found" means the stream holds no CR LF |
| Framing.FirstDelimiterAt | epoll_server.c:153 | conversely, a CR LF with none before it is the one found |
| Framing.SplitSound | epoll_server.c:152-166 | cutting at every CR LF yields messages and a tail, none holding CR LF, that glue back to the stream |
| Framing.SplitJoin | epoll_server.c:152-166 | cutting undelimited messages glued with CR LF gives back exactly those messages and tail |
| Framing.SplitUnique | epoll_server.c:152-166 | the cut is the only decomposition into undelimited messages and tail |
| Framing.JoinAppend | epoll_server.c:152-166 | gluing two message lists is gluing each and concatenating |
| Framing.SplitFirst | epoll_server.c:153-165 | proof step: the first message ends at the first CR LF and the rest is cut after it |
| Framing.MessageCount | epoll_server.c:152-166 | the number of messages equals the number of CR LF pairs in the stream |
| Framing.SplitConcat | epoll_server.c:152-174 | cutting a stream in two pieces, the first piece's tail carried into the second, gives the messages and tail of the whole |
| Framing.OccurrencesConcat | epoll_server.c:152-174 | the CR LF pairs of a stream cut in two are the messages of the first piece plus those of its tail followed by the second piece |
| Slot.SlotInv | epoll_server.c:121-122 | the state between calls: a row of 2048 bytes, a length below 2048, and a NUL at the length unless end of file has just reset it to 0 |
| Slot.ValidReads | epoll_server.c:130 | a read that returns data delivers between 1 and 1023 bytes |
| Slot.CLen | epoll_server.c:169 | strlen stops inside the row, at a NUL or at the row's end |
| Slot.CStr | epoll_server.c:169 | the C string has strlen bytes |
| Slot.Find | epoll_server.c:153 | strstr returns a CR LF position at or after the search start |
| Slot.FindInString | epoll_server.c:153 | the CR LF that strstr finds lies inside the searched C string |
| Slot.FindIsFirstDelimiter | epoll_server.c:153 | strstr finds exactly the first CR LF of the C string, and finds nothing exactly when the C string holds none |
| Slot.CStrSlice | epoll_server.c:169-171 | the C string at i is the row slice of strlen bytes from i |
| Slot.CStrSuffix | epoll_server.c:165 | moving msg_start forward by k drops the first k bytes of the C string |
| Slot.CStrUpdateBelow | epoll_server.c:155 | a NUL written below msg_start leaves the C string at msg_start unchanged |
| Slot.CLenAt | epoll_server.c:148 | a C string ends exactly at the first NUL |
| Slot.CLenBound | epoll_server.c:169 | a C string ends at or before any NUL after its start |
| Slot.CStrNulFree | epoll_server.c:169 | a C string holds no NUL |
| Slot.Append | epoll_server.c:145-149 | a chunk that fits is placed right behind the stored bytes, which are preserved, and NUL-terminated, with length the sum; one that does not fit leaves the slot as it was |
| Slot.Scan | epoll_server.c:152-166 | the scan keeps the row's size, never moves msg_start backward or out of the row, and never un-counts a reply |
| Slot.Compact | epoll_server.c:168-174 | after compaction the row starts with the C string that was at msg_start, NUL-terminated, and the length is its length, below 2048 |
| Slot.ReadRound | epoll_server.c:143-175 | a read that returned data keeps the slot invariant: length below 2048 and a NUL at the length |
| Slot.Handle | epoll_server.c:129-178 | a call keeps the slot invariant, returns 0 or -1 and only adds replies |
| Slot.ScanStopsAtNul | epoll_server.c:152-166 | the scan never passes or overwrites the terminator at the stored length, so compaction reads only stored bytes |
| Slot.ScanStep | epoll_server.c:153-165 | proof step: one turn of the message loop: a NUL over the CR, a successful reply, and the search resumes two bytes later |
| Slot.ScanEnd | epoll_server.c:153 | proof step: the loop ends without failure when strstr finds nothing |
| Slot.ScanFail | epoll_server.c:155-162 | proof step: a failed reply write ends the loop, with the NUL already written and no reply counted |
| Slot.ScanFrames | epoll_server.c:152-166 | one reply per delimiter: the replies are the messages of the C string at msg_start, answered in order until a write fails; without a failure, msg_start ends at the unterminated tail |
| Slot.ScanFramesAnswered | epoll_server.c:153-165 | the same, when the first delimiter's reply is written |
| Slot.AnsweredShape | epoll_server.c:155-165 | after a delimiter is answered, the C string two bytes later is the remainder, with one message fewer and the same tail |
| Slot.FirstMessage | epoll_server.c:153-155 | the first message of the C string ends where strstr finds CR LF |
| Slot.SkipDelimiter | epoll_server.c:155-165 | the C string after the delimiter is the original one without the message and its CR LF |
| Slot.LeadingOk | epoll_server.c:159-162 | the count of leading successful writes is at most the number attempted |
| Slot.LeadingOkAll | epoll_server.c:159-162 | with no failing write, every reply is written |
| Slot.RoundFrames | epoll_server.c:143-175 | one data read answers the messages of the appended row in order, up to the first failed write; a failure keeps the appended length, otherwise the slot holds exactly the tail |
| Slot.Terminator | epoll_server.c:129-142 | the read loop ends on a result that is not data |
| Slot.Deliver | epoll_server.c:129-175 | the messages answered glued with CR LF, followed by the tail kept, are exactly the stored tail followed by the chunks not dropped; no message and no tail holds CR LF |
| Slot.RegroupStream | epoll_server.c:143-175 | the messages of the tail with one chunk, then those of the later chunks, glue back to the tail followed by all these chunks |
| Slot.ConcatCons | epoll_server.c:146 | proof step: the chunks glued together are the first chunk followed by the rest |
| Slot.DeliverStep | epoll_server.c:143-175 | the stream is taken one chunk at a time, a dropped chunk framing the stored tail alone |
| Slot.DeliverFrames | epoll_server.c:129-175 | fragmentation invariance: however the stream is cut into reads, the messages and the tail are those of the accepted bytes framed in one piece |
| Slot.TwoDeliveriesCount | epoll_server.c:129-175 | over two successive deliveries on one connection, the second starting from the first's tail, the replies of both are the CR LF pairs of the whole stream, pairs split between them included |
| Slot.TwoCallsReplyCount | epoll_server.c:120-179 | two calls on one connection, the first ending on would-block, answer together every CR LF pair of the stored tail followed by everything both read |
| Slot.ReplyCount | epoll_server.c:152-166 | with no chunk dropped, the number of replies is the number of CR LF pairs in the stream, pairs split across reads included |
| Slot.PingInOneRead | epoll_server.c:129-175 | "PING\r\n" in one read is the one message "PING" |
| Slot.PingInTwoReads | epoll_server.c:129-175 | "PI" then "NG\r\n" is the same single message |
| Slot.TwoMessagesInOneRead | epoll_server.c:129-175 | "A\r\nB\r\n" in one read is two messages, "A" then "B" |
| Slot.IncompleteIsTail | epoll_server.c:129-175 | "INCOMPLETE" alone answers nothing and is all kept as the tail |
| Slot.LineFeedOnlyIsTail | test_client.c:16-59 | the test client's "Hello Server\n" answers nothing and is all kept as the tail |
| Slot.ChunkStep | epoll_server.c:143-175 | on a clean slot, a data read answers every message of the stored tail plus the chunk, or of the stored tail alone if the chunk is dropped; the slot is left holding exactly the tail, NUL-free and free of CR LF |
| Slot.RestClean | epoll_server.c:169-174 | the tail kept after compaction holds no NUL and no CR LF |
| Slot.UndelimitedSplit | epoll_server.c:153 | bytes without CR LF are all tail |
| Slot.AppendedString | epoll_server.c:145-149 | after Append, the C string at the row start is the stored tail followed by the chunk if it fit, else the stored tail alone |
| Slot.HandleRefines | epoll_server.c:129-178 | on a clean slot with NUL-free data and no failing write, a call answers exactly the messages of Deliver, keeps its tail, returns 0 exactly on would-block, and leaves length 0 after end of file |
| Slot.DataCount | epoll_server.c:129-143 | counts the leading data results, which are followed by a result that is not data |
| Slot.HandleExits | epoll_server.c:129-142 | exit conditions: a failed write ends the call with -1; otherwise would-block returns 0 with the slot as processed, end of file returns -1 with the length reset, and a read error returns -1 with the slot as processed |
| Slot.HandleData | epoll_server.c:143-176 | proof step: a data read runs one round, then returns -1 if a reply write failed, and reads again otherwise |
| Slot.WriteFailure | epoll_server.c:159-162 | a failed reply write returns -1 at once, keeping the appended length uncompacted and counting only the replies before it |
| Slot.ScanFailNul | epoll_server.c:152-162 | a scan that fails has written a NUL below the terminator it started from |
| Slot.FailureLeavesNul | epoll_server.c:155-161 | a round whose reply write fails leaves a NUL below the kept length |
| Slot.CStrAgree | epoll_server.c:153 | rows that agree up to a NUL hold the same C string before it |
| Slot.NextChunkLost | epoll_server.c:145-174 | on a slot with a NUL below its length, a round answers the messages of the C string before that NUL, whatever the chunk, keeps only its tail, and leaves the length at or below the NUL |
| Slot.FailedRoundLosesNext | epoll_server.c:136-174 | after a round whose reply write failed, the next round on that slot answers and keeps only what the failed round left before its first NUL, with a shorter length, and nothing of its own chunk |
| ClientData.SliceWithin | epoll_server.c:121 | proof step: a slice of a slice of the flat table is a slice of the table |
| ClientData.RowsKept | epoll_server.c:121 | proof step: tables that agree outside row idx agree on every other row |
| ClientData.LensKept | epoll_server.c:122 | proof step: length tables that agree outside entry idx agree on every other entry |
| ClientData.ClientBuffers.Row | epoll_server.c:121 | a row of client_buffers has 2048 bytes |
| ClientData.ClientBuffers.SlotAt | epoll_server.c:121-122 | slot i is row i of client_buffers with entry i of buffer_lens |
| ClientData.ClientBuffers.Valid | epoll_server.c:121-122 | the tables have their declared sizes and every slot satisfies the between-calls invariant |
| ClientData.ClientBuffers.constructor | epoll_server.c:121-122 | both tables start zeroed, which satisfies the slot invariant for every slot |
| ClientData.ClientBuffers.HandleClientData | epoll_server.c:120-179 | the slot fd % 1024 ends as Handle says, with its return code and reply count; every other slot and length is untouched, and the invariant holds for all slots |
| ClientData.ClientBuffers.TwoCalls | epoll_server.c:127 | slot aliasing: a second call on a descriptor congruent modulo 1024 starts from the slot the first call left, and on any other descriptor from its own unchanged slot |
| ClientData.ClientBuffers.ReadChunk | epoll_server.c:143-175 | a data read leaves the slot, the reply count and the failure flag as ReadRound says, touching no other slot |
| ClientData.ClientBuffers.AppendChunk | epoll_server.c:145-149 | the row and length become Append of the old slot |
| ClientData.ClientBuffers.ExtractMessages | epoll_server.c:152-166 | the message loop ends with the row, msg_start, replies and failure that Scan computes from the old row |
| ClientData.ClientBuffers.AnswerNext | epoll_server.c:153-165 | one strstr and, when it finds a delimiter, the NUL store and the reply write; msg_start strictly advances while the loop goes on |
| ClientData.ClientBuffers.CompactRow | epoll_server.c:169-174 | the row and length become Compact of the old row at msg_start |
| ClientData.ClientBuffers.SetByte | epoll_server.c:155 | a single byte store in row idx |
| ClientData.ClientBuffers.SetLen | epoll_server.c:173 | a single length store at entry idx |
| ClientData.ClientBuffers.CopyIn | epoll_server.c:146 | memcpy of the chunk at the stored length; the rest of the row is unchanged |
| ClientData.ClientBuffers.MoveDown | epoll_server.c:171 | memmove of the remaining bytes to the row start; the rest of the row is unchanged |
| ClientData.ClientBuffers.KeepsOthers | epoll_server.c:121-122 | when nothing outside slot idx changed, every other slot is as before |
| EventLoop.Dispatch | epoll_server.c:237-247 | one event closes exactly the failed client it reports, if any; the listener's event never deregisters anything, and a client's event never registers anything |
| EventLoop.DispatchAll | epoll_server.c:236-248 | a batch only appends closes, at most one per event |
| EventLoop.Run | epoll_server.c:225-249 | the loop only appends closes: nothing closed is ever taken back |
| EventLoop.Failed | epoll_server.c:242-246 | the failed client descriptors never include the listening socket |
| EventLoop.FirstFailure | epoll_server.c:228-234 | the index of the first failed epoll_wait, with no failure before it |
| EventLoop.DispatchAllAppend | epoll_server.c:236-248 | dispatching two event lists in a row is dispatching their concatenation |
| EventLoop.ClosedAreFailed | epoll_server.c:242-246 | teardown: the client teardown of a batch closes exactly the clients whose handler returned -1, in order, and never the listening socket |
| EventLoop.FailedDeregistered | epoll_server.c:242-246 | a client whose handler returned -1 is no longer registered, unless a later accept hands out its descriptor again |
| EventLoop.NotReadded | epoll_server.c:236-248 | a deregistered descriptor stays so until an accept returns it |
| EventLoop.ListenerKept | epoll_server.c:225-249 | the listening socket stays registered and is never closed during the loop |
| EventLoop.ListenerKeptBatch | epoll_server.c:236-248 | the same, for one batch of events |
| EventLoop.RunDispatches | epoll_server.c:225-249 | the loop dispatches, in order, every event returned before the first failed wait; interrupted waits change nothing and nothing after a failed wait is looked at |
| EventLoop.Server.constructor | epoll_server.c:211-220 | the listening socket is the one registered descriptor, and nothing is closed yet |
| EventLoop.Server.HandleEvent | epoll_server.c:237-247 | one ready descriptor updates the registry as Dispatch says |
| EventLoop.Server.Serve | epoll_server.c:225-249 | the loop leaves the registry as Run says |
| EventLoop.Server.Shutdown | epoll_server.c:251-253 | only the listening socket and the epoll instance are closed, in that order; the registry is unchanged |

## Left out

- Socket creation, `setsockopt`, `bind`, `listen`, `fcntl` and `set_nonblocking` (lines 17-80) are system calls with no logic to verify beyond their error returns.
- `handle_new_connection` (lines 83-116) is only its effect on the registry. The descriptor it registers, if any, is an input of each event; `accept`, `inet_ntoa` and `epoll_ctl` are not modelled.
- The closes that `handle_new_connection` makes on its own error paths (lines 102, 111) are not recorded in the registry's list of closed descriptors. That list holds only the closes of client teardown (lines 244-245) and cleanup (lines 252-253).
- The `epoll_wait` call itself and its one-second timeout are not modelled. Each result is an input: a batch, possibly empty, an interruption, or a failure.
- The signal handler and the `running` flag (lines 182-186) are not modelled. The loop ends when the given `epoll_wait` results run out.
- The failure exits of `main`'s setup (lines 199-209, 215-219) are left out: the model starts from a registered listening socket.
- `printf`, `perror` and `msg_count` produce output only and are not modelled.
- The reply's bytes are not modelled. A reply is a write that succeeds or fails, and replies are counted.
- Short writes are not modelled. The code treats any return but -1 as success, and so does the model.
- Descriptors are `nat`. The C `int` of a valid descriptor is never negative, so `fd % 1024` is the same under C's truncating `%` and Dafny's.
- Slot.HandleRefines: relates a call to stream framing only for NUL-free data with no failing write. A NUL byte inside a chunk ends the C string early, and `strstr` and `strlen` stop there. `Handle` models that case exactly, and `Slot.HandleExits` and `Slot.WriteFailure` cover failing writes, but no lemma frames a stream that holds NUL.
- Slot.ReplyCount: counts CR LF pairs only when no chunk was dropped. With drops, `Slot.DeliverFrames` states the framing of the accepted chunks.
- EventLoop.Server.Serve: the registry is the descriptors registered with epoll. The per-descriptor calls of `handle_client_data` are modelled by `ClientData.ClientBuffers.HandleClientData` and enter the loop through each event's return code.
