# TechReviewAmicon core, modelled in Dafny

This project models the sequential data-structure and byte-buffer core of
TechReviewAmicon, a C client/server system. Clients send process reports
over UDP, and the server keeps them in a journal. Each C file of the core
is one Dafny module:

| module | file | what it models |
|---|---|---|
| `Common` | — | bytes, NULL-able pointers (`Option`), little-endian `size_t`/`uint32_t` layout, `memcpy` (`MemCopy`, specified by `Spliced`) |
| `Messages` | network/message.c | the message envelope: header plus payload, bounded write and read, size |
| `MessageQueues` | network/message_queue.c | the bounded ring buffer of message pointers that sheds its older half on overflow |
| `NetConnections` | network/net_connection.c | framing of a message in the 2000-byte socket buffers, the `is_running` start/stop rules, one pass of the receive loop, the error order of send, create/delete |
| `Journals` | server/journal.c | the append-only journal whose first 8 bytes store `cur_size` |
| `Lists` | Utils.h | `DEFINE_LIST(int)`: a growable array that doubles from 1 slot |
| `SharedMemories` | server/shared_memory.c | the size rule of create and the bounds-checked write |

The form follows the C code. Each entity that C updates in place is a
`class` with the fields the model needs: `Queue`, `Message`, `Connection`, `Socket`,
`Journal`, `IntList` and `SharedMemory`. Buffers are `array`s. Loops are
`while` loops with invariants: queue eviction, queue deletion and a push
loop over the list. The data-carrying methods are proved against functions on values:

- the queue against `EnqueueContents` and `EnqueueFreed`;
- the connection against `Frame` and `Unframe`;
- memcpy against `Spliced`;
- the list against `PushedSize` and `SizeAfterPushes`.

Lemmas then prove what the system promises about those functions. Examples:

- FIFO order;
- no message leaks with capacity 2 or more: every enqueued message is either still held or reported freed;
- the framing round trip in both directions;
- a list grown by pushes holds the least power of two slots that fits.

Messages that C frees (`SAFE_FREE`, `message_delete`) are returned as
sequences (`freed`), one entry per free, so which messages get freed, and
how often, can be observed.

Every outcome from outside the code becomes a `bool` or `Option` parameter:

- whether a thread spawns or joins (`spawnOk`, `joinOk`);
- what the socket receive delivered (`datagram`, `None` on failure);
- whether the datagram is sent (`sendOk`).

The members whose names end in `Scenario` run fixed inputs through the
model. Those whose row cites a file under test/ follow that unit test;
`Journals.WriteTwice` and `Journals.WriteReadScenario` make two writes,
where the tests they cite make one. The others (`MessageQueues.CapacityOneScenario`,
`Lists.PushAllScenario`, `SharedMemories.WriteScenario`,
`SharedMemories.OutOfBoundsScenario`) have no unit test and exercise the
code lines their row cites.

Where the code and the documentation disagree, the model follows the code:

- `message_create` sets the valid length to the capacity (network/message.c:22). test/network/test_message.c:14 expects 0. `SizeOfNew` states the code's value.
- On overflow, network/message_queue.h:37 and the comment at network/message_queue.c:115 say the queue "clears half". The loop at network/message_queue.c:117 frees `capacity / 2` messages, rounded down, of the `capacity - 1` a full ring holds. That is exactly half of them for an odd capacity (2 of 4 at capacity 5), and the larger half, rounded up, for an even capacity (2 of 3 at capacity 4, the single message at capacity 2). The model follows the loop.

## Model

| member | source | states |
|---|---|---|
| Common.Pow256 | server/journal.c:35-36 | the number of values an n-byte field holds is at least 1, and at least 256 once the field has a byte |
| Common.EncodeLE | server/journal.c:35-36 | the little-endian bytes of a value below 256^n are exactly n bytes long |
| Common.DecodeLE | server/journal.c:117-118 | n bytes read as a little-endian integer give a value below 256^n |
| Common.DecodeEncodeLE | server/journal.c:35-36 | reading back the little-endian bytes `memcpy` stores for an integer gives that integer |
| Common.EncodeDecodeLE | server/journal.c:117-118 | any 8 bytes are the encoding of the `cur_size` they hold, so decoding loses nothing |
| Common.Spliced | server/shared_memory.c:194 | after copying `src` to offset `off` of `dst`: the bytes at `[off, off+len)` are `src`, every other byte is unchanged, the length is kept |
| Common.SplicedRead | network/message.c:64 | bytes copied to an offset are read back from that offset |
| Common.MemCopy | network/message.c:64 | `memcpy` into an array leaves it equal to `Spliced` of its old contents |
| Messages.Message.Init | network/message.c:15-23 | a new message has the given type and a valid length equal to the requested data capacity, and a fresh payload of that many bytes; the owner address and the header's capacity field are zero |
| Messages.Create | network/message.c:8-25 | NULL iff `data_capacity > UINT32_MAX - sizeof(header)`; otherwise the type is the argument and the length equals the capacity |
| Messages.Size | network/message.c:39-46 | 0 for NULL; header size plus valid length otherwise, computed in `uint32_t` |
| Messages.Write | network/message.c:50-70 | NULL_POINTER for a missing message or data; ERROR_WRITE with nothing changed when `length` exceeds the valid length; otherwise the first `length` bytes are copied to the payload start and become the valid length, so a length never grows |
| Messages.ReadCount | network/message.c:81 | the number of bytes read is the smaller of the request and the valid length, and does not exceed either |
| Messages.Read | network/message.c:74-93 | NULL_POINTER for a missing message or buffer; ERROR_READ with the buffer unchanged iff nothing would be copied; otherwise SUCCESS, and the buffer starts with that many payload bytes |
| Messages.WriteThenRead | test/network/test_message.c:19-32 | writing all of some data into a message of that capacity and reading the same length back yields the data, with both calls successful |
| Messages.WritePrefixThenRead | network/message.c:50-93 | for any 0 < n <= capacity, writing the first n bytes of some data and reading n bytes back succeed both and yield exactly those n bytes |
| Messages.WriteEmptyThenRead | network/message.c:50-93 | writing 0 bytes succeeds and sets the valid length to 0, after which any read reports ERROR_READ, so the round trip does not extend to n = 0 |
| Messages.SizeOfNew | test/network/test_message.c:34-41 | a new message of capacity c has size header + c, and its length is c |
| MessageQueues.ModIsWrap | network/message_queue.c:112 | the C `% capacity` on an index below twice the capacity agrees with one conditional subtraction |
| MessageQueues.WrapNext | network/message_queue.c:121 | stepping a wrapped index by one is wrapping the index one further on |
| MessageQueues.WrapInjective | network/message_queue.c:117 | two indices less than a capacity apart that wrap to the same slot are equal, so the eviction loop stops at the intended count |
| MessageQueues.WrapDistinct | network/message_queue.c:113 | two distinct indices less than a capacity apart wrap to distinct slots, so `next_tail != head` while there is room |
| MessageQueues.FullIffNextTailIsHead | network/message_queue.c:112-113 | `(tail + 1) % capacity == head` holds exactly when the ring holds capacity - 1 messages, so the C test is the `Full` predicate |
| MessageQueues.RingDistance | network/message_queue.c:112-126 | the number held is recovered from head and tail as `(tail - head) mod capacity` |
| MessageQueues.EnqueueFreed | network/message_queue.c:113-122 | an enqueue frees no more messages than the queue holds |
| MessageQueues.EnqueueContents | network/message_queue.c:112-126 | after any enqueue the queue still holds at most capacity - 1 messages |
| MessageQueues.EnqueueNotFull | network/message_queue.c:125-126 | below the full mark an enqueue appends the message and frees nothing |
| MessageQueues.EnqueueConserves | network/message_queue.c:113-126 | with capacity at least 2, the freed messages followed by the held ones are exactly the old contents followed by the new message; a full ring keeps capacity - capacity/2 messages |
| MessageQueues.EnqueueCapacityOneLoses | network/message_queue.c:112-126 | with capacity 1 an enqueue leaves the ring reading as empty and frees nothing: the message is lost |
| MessageQueues.EnqueueAll | network/message_queue.c:97-142 | any run of enqueues leaves at most capacity - 1 messages |
| MessageQueues.EnqueueAllInOrder | network/message_queue.c:169-170 | FIFO: enqueues that never fill the ring leave the messages in enqueue order after the old ones |
| MessageQueues.HoldsAdvance | network/message_queue.c:169-170 | the oldest message is in the head slot, and advancing the head by one slot leaves the rest in order |
| MessageQueues.HoldsAppend | network/message_queue.c:125-126 | writing the slot after the last message appends it to the contents |
| MessageQueues.HoldsPrefix | network/message_queue.c:71-80 | the k-th held message is in slot `(head + k) mod capacity` |
| MessageQueues.Queue.EmptyIffHeadIsTail | network/message_queue.c:158 | `head == tail` exactly when the queue is empty |
| MessageQueues.Queue.CountIsDistance | network/message_queue.c:195 | the number held is `(tail - head) mod capacity`, and the invariant bounds it by capacity - 1 |
| MessageQueues.Queue.Init | network/message_queue.c:40-42 | no messages held, `head = tail = 0`, the given capacity |
| MessageQueues.Queue.Enqueue | network/message_queue.c:97-142 | NULL message: NULL_POINTER and nothing changed. Otherwise SUCCESS: the message goes into slot `tail` and `tail` = `(tail+1) % capacity`, all other slots unchanged; head stays, or on a full ring moves by capacity/2; the contents and the freed messages are `EnqueueContents` and `EnqueueFreed` of the old contents |
| MessageQueues.Queue.Store | network/message_queue.c:125-126 | the new message goes into slot `tail`, `tail` advances by one modulo the capacity, and the message is appended to the contents |
| MessageQueues.Queue.EvictOldest | network/message_queue.c:113-122 | the eviction loop frees exactly the capacity/2 oldest messages, oldest first, and moves head by capacity/2 |
| MessageQueues.Queue.Dequeue | network/message_queue.c:144-179 | on a non-empty queue: returns the oldest message, removes it and advances head by one modulo the capacity |
| MessageQueues.Queue.DequeueNonblocking | network/message_queue.c:181-215 | NULL iff the queue is empty, and then nothing changes; otherwise as Dequeue |
| MessageQueues.Queue.Wait | network/message_queue.c:217-221 | exactly Dequeue |
| MessageQueues.Queue.HeldMessages | network/message_queue.c:71-80 | the walk from head to tail visits exactly the held messages, oldest first |
| MessageQueues.Queue.Delete | network/message_queue.c:58-95 | frees exactly the messages at positions head..tail-1 and resets `head = tail = 0` |
| MessageQueues.Create | network/message_queue.c:6-56 | NULL iff the capacity is at most 0; otherwise an empty queue of that capacity with `head = tail = 0` |
| MessageQueues.FillThree | test/network/test_message_queue.c:67-81 | the first three enqueues of the overflow test: a fresh queue of capacity 4 holding m1, m2, m3 with head 0 and tail 3 |
| MessageQueues.OverflowScenario | test/network/test_message_queue.c:65-100 | capacity 4: three enqueues give head 0 and tail 3; the fourth frees m1, m2 and gives head 2 and tail 0; then m3 and m4 are dequeued |
| MessageQueues.FifoScenario | test/network/test_message_queue.c:102-126 | messages come out in enqueue order with head 1 then 2; a further non-blocking dequeue on the now empty queue gets NULL, as test/network/test_message_queue.c:173-182 asserts for an empty queue |
| MessageQueues.CapacityOneScenario | network/message_queue.c:112-126 | with capacity 1 an enqueued message is neither freed nor ever dequeued |
| NetConnections.Pow256Four | network/net_connection.c:265 | a four-byte field holds exactly the `uint32_t` values |
| NetConnections.EncodeHeader | network/net_connection.c:308 | the header bytes are 28 long and carry the owner address at bytes 8..24 |
| NetConnections.DecodeHeader | network/net_connection.c:265 | the header taken from a buffer is well formed and its owner address is bytes 8..24 |
| NetConnections.DecodeHeaderPrefix | network/net_connection.c:265 | only the first `sizeof(message_header_t)` bytes of a buffer determine its header |
| NetConnections.DecodeEncodeHeader | network/net_connection.c:265-308 | a header written to the buffer reads back as the same header |
| NetConnections.EncodeDecodeHeader | network/net_connection.c:265-308 | any 28 bytes are the encoding of the header they hold |
| NetConnections.Frame | network/net_connection.c:308-331 | a frame is the header bytes followed by the payload, of total length header + payload |
| NetConnections.Unframe | network/net_connection.c:256-294 | rejected iff the header's length exceeds 2000 - header; otherwise the header at `[0, H)` and that many payload bytes from offset H |
| NetConnections.UnframeFrame | network/net_connection.c:256-334 | framing round trip: a buffer starting with the frame of a fitting payload unframes to that header and payload |
| NetConnections.FrameUnframe | network/net_connection.c:256-334 | the converse: a buffer that unframes to a header and payload starts with exactly their frame |
| NetConnections.UnframeOversized | network/net_connection.c:286-290 | a header claiming more than 2000 - H bytes is rejected whatever follows it |
| NetConnections.DeliveredFrame | network/net_connection.c:26-60 | a datagram that starts with a frame, received over any earlier buffer contents, unframes to the sent header and payload |
| NetConnections.Socket.Init | network/socket_udp.h:29-30 | two distinct 2000-byte buffers, zeroed |
| NetConnections.Connection.Init | network/net_connection.c:93-96 | stores owner type, socket and queue, and starts not running |
| NetConnections.Connection.StartReceiving | network/net_connection.c:138-162 | already running: SUCCESS with no change; otherwise running on a spawn, and not running with ERROR_THREAD when the spawn fails |
| NetConnections.Connection.StopReceiving | network/net_connection.c:167-190 | not running: SUCCESS with no change (so stop is idempotent); otherwise always stopped, with ERROR_THREAD iff the join fails |
| NetConnections.Connection.ReadHeader | network/net_connection.c:256-271 | NULL_POINTER without a socket; otherwise the header decoded from the incoming buffer's first H bytes |
| NetConnections.Connection.ReadData | network/net_connection.c:276-294 | NULL_POINTER for a missing message or socket, with the payload unchanged when only the socket is missing; MESSAGE_FORMAT with the payload unchanged when the length exceeds 2000 - H; otherwise SUCCESS, with the payload starting with incoming bytes `[H, H+length)` (nothing copied for length 0) |
| NetConnections.Connection.WriteHeader | network/net_connection.c:299-311 | the outgoing buffer gets the header bytes at `[0, H)` and is otherwise unchanged |
| NetConnections.Connection.WriteData | network/net_connection.c:316-334 | NULL_POINTER for a missing message or socket, with the outgoing buffer unchanged when only the message is missing; MESSAGE_FORMAT with the outgoing buffer unchanged when the length does not fit; otherwise the payload's first length bytes are at `[H, H+length)`, and the rest is unchanged |
| NetConnections.Connection.Send | network/net_connection.c:195-225 | NULL_POINTER and no socket send for a missing message or socket, with the outgoing buffer unchanged when the socket is present; MESSAGE_FORMAT and no send when the length does not fit, the header already written at `[0, H)` and the rest of the buffer unchanged; otherwise the outgoing buffer starts with the message's frame, the rest is unchanged, and the send is issued, with SUCCESS or ERROR_SOCKET as the send went. The message is never changed |
| NetConnections.Connection.AddToIncomingQueue | network/net_connection.c:339-357 | NULL_POINTER for a missing message or queue; a message with no queue is freed, a NULL one frees nothing; otherwise enqueued, with the contents and freed messages the queue's Enqueue states |
| NetConnections.Connection.ReceiveIteration | network/net_connection.c:20-71 | a failed receive enqueues and frees nothing and leaves the incoming buffer and the queue (contents, head and tail) unchanged. A datagram is copied into the incoming buffer. An oversized length is rejected with MESSAGE_FORMAT, the new message freed once and the queue's contents, head and tail unchanged. Without a queue the new message is freed twice (NULL_POINTER). Otherwise exactly one new message, carrying the buffer's header and payload, is enqueued, and the freed messages are those Enqueue frees |
| NetConnections.Connection.HandleReceived | network/net_connection.c:36-69 | the steps after a successful receive, on the incoming buffer: an oversized payload is rejected and the new message freed once, with the queue's contents, head and tail unchanged; without a queue it is freed twice; otherwise it is enqueued carrying the buffer's header and payload, with Enqueue's freed messages |
| NetConnections.Connection.Receive | network/net_connection.c:230-238 | NULL without a queue; otherwise the oldest incoming message, removed from the queue |
| NetConnections.Connection.ReceiveNonblocking | network/net_connection.c:243-251 | NULL without a queue or on an empty queue (nothing changed); otherwise the oldest incoming message, removed |
| NetConnections.Connection.Delete | network/net_connection.c:112-133 | stops receiving, drops socket and queue, and frees exactly the messages the queue held |
| NetConnections.Connection.Create | network/net_connection.c:78-108 | NULL iff the socket or queue is missing or the receive thread cannot be spawned; otherwise a running connection over that socket and queue |
| NetConnections.StartStopScenario | test/network/test_net_connection.c:55-76 | a new connection is already receiving; a further start succeeds, stop clears the flag, and a second stop succeeds |
| NetConnections.NewConnection | test/network/test_net_connection.c:107-129 | the test set-up: a running connection over a fresh zeroed socket and an empty queue of capacity 5 |
| NetConnections.SendScenario | test/network/test_net_connection.c:133-146 | a PID message of capacity 100 written with data is sent, and the outgoing buffer starts with the frame of its header and data |
| NetConnections.ReceiveScenario | test/network/test_net_connection.c:151-161 | such a datagram is enqueued by one receive pass, the received message is of type PID, and reading 100 bytes from it gives the data back |
| NetConnections.SendReceiveScenario | test/network/test_net_connection.c:105-166 | end to end, data sent by one connection is received by another as a PID message with the same data |
| Journals.Journal.Init | server/journal.c:26-36 | an empty log in a zero-filled region of the given size whose prefix stores 8 |
| Journals.Journal.Write | server/journal.c:97-138 | PARAMS_NULL for missing data; SUCCESS with no change for 0 bytes; NO_SPACE with no change when `cur_size + data_size > max_size`; otherwise the log grows by the data, `cur_size` by `data_size`, and the bytes past `cur_size` are unchanged. The invariant `8 <= cur_size <= max_size` is kept |
| Journals.Journal.Append | server/journal.c:127-129 | the data lands at offset `cur_size`, the prefix is rewritten as `cur_size + data_size`, and earlier bytes are kept |
| Journals.Journal.Read | server/journal.c:140-178 | PARAMS_NULL for a missing buffer or size, with the buffer unchanged when only the size is missing; ERROR_READ and size 0 when `*buffer_size < cur_size`; otherwise the buffer starts with the whole log and the size becomes `cur_size - 8` |
| Journals.Journal.CurSize | server/journal.c:155-156 | the `cur_size` read from the 8-byte prefix is a `size_t` value, below 2^64 |
| Journals.AppendedLog | server/journal.c:127-129 | after the data is appended and the prefix rewritten, the prefix is the new size, the log is followed by the data, and the bytes after are unchanged |
| Journals.Create | server/journal.c:11-71 | NULL iff `size <= sizeof(size_t)`; otherwise `max_size = size`, nothing logged and stored `cur_size = 8` |
| Journals.CreateScenario | test/server/test_journal.c:11-18 | a 1024-byte journal is created with that maximum and nothing logged |
| Journals.Pow256Eight | server/journal.c:35 | an 8-byte prefix holds exactly the `size_t` values |
| Journals.WriteTwice | test/server/test_journal.c:20-28 | two successful writes into a new 1024-byte journal log the first data and then the second |
| Journals.WriteReadScenario | test/server/test_journal.c:40-55 | reading after two writes yields their concatenation and their total size |
| Journals.NoSpaceScenario | test/server/test_journal.c:30-38 | more than 2 bytes do not fit a 10-byte journal, which stays empty |
| Journals.BufferTooSmallScenario | test/server/test_journal.c:57-70 | after writing n bytes, any buffer size below n + 8 is refused and set to 0, even a size of exactly n |
| Journals.EmptyReadScenario | test/server/test_journal.c:72-83 | reading a new journal succeeds with size 0 |
| Lists.PushedSize | Utils.h:37-40 | a push leaves room beyond the old count: with room the size stays, a full empty list gets 1 slot, and a full list doubles |
| Lists.SizeAfterPushes | Utils.h:36-42 | n pushes on a new list give at least n slots |
| Lists.SizeAfterPushesIsLeastPowerOfTwo | Utils.h:36-42 | n > 0 pushes on a new list leave the least power of two slots that holds them: a power of two, at least n and below 2n |
| Lists.IntList.Elements | Utils.h:24-29 | the live elements are the first `count` slots |
| Lists.IntList.New | Utils.h:31-34 | no elements, `count = size = 0` |
| Lists.IntList.Push | Utils.h:36-42 | the size follows `PushedSize`, the element is appended after the earlier ones, and `count <= size` is kept |
| Lists.IntList.Pop | Utils.h:44 | on a non-empty list: returns the last pushed live element (LIFO) and drops it; the slots are unchanged |
| Lists.IntList.Free | Utils.h:46-49 | no elements, `count = size = 0` |
| Lists.Realloc | Utils.h:39 | the new block has the requested size and starts with the old contents |
| Lists.ListScenario | Utils.h:53-70 | 22 pushed is popped back; 11, 12, 13 pushed lie at indices 0..2 in 4 slots; free gives count = size = 0 |
| Lists.PushAllScenario | Utils.h:36-42 | any pushes on a new list keep their order and take the least power of two slots |
| SharedMemories.SharedMemory.Init | server/shared_memory.c:60 | a zero-filled region of the given size |
| SharedMemories.SharedMemory.Write | server/shared_memory.c:179-202 | NULL_POINTER for missing data and ERROR_MEMORY_ALLOC when `offset + data_size > size`, with the region unchanged in both; otherwise exactly bytes `[offset, offset+data_size)` become the data |
| SharedMemories.Create | server/shared_memory.c:13-63 | NULL iff the size is 0 or above 5 MiB; otherwise a region of exactly that size |
| SharedMemories.WriteScenario | server/shared_memory.c:184-194 | a fitting write into a new region is found at its offset, and every other byte is still 0 |
| SharedMemories.OutOfBoundsScenario | server/shared_memory.c:184-187 | a write running past the end is refused and the region stays all zero |

## Left out

- Mutexes, condition variables and threads are not modelled: operations run one at a time. A blocking dequeue (`Dequeue`, `Wait`, `Connection.Receive`) therefore requires a non-empty queue instead of waiting. Thread spawn and join are the `spawnOk`/`joinOk` outcomes, and the receive loop's liveness is not modelled.
- Failures of malloc, mmap, shm_open, mutex and condvar calls are not modelled, so allocation always succeeds. The statuses that only these paths return are declared but never produced.
- `message_delete` and `SAFE_FREE` on messages are modelled by returning the freed messages (`freed`) instead of deallocating them.
- The `fprintf(stderr, …)` and `DEBUG_LOG` diagnostics on error paths are not modelled: they only write to the log.
- The socket layer (network/socket_udp.c) is not modelled. `udp_socket_receive_message` is the `datagram` parameter (`None` for a failed receive). The send is the `sendOk` outcome. It calls `udp_socket_send_to`, which network/socket_udp.c does not define. The number of bytes sent is not modelled.
- A NULL connection, queue, journal or shared-memory receiver is not modelled: a Dafny receiver is never null. NULL arguments (message, data, buffer, socket, queue) are modelled with `?` types and `Option`.
- Messages.Create: the C header's owner address and capacity are never initialised; the model sets them to zero. The C `data` pointer is never set up (network/message.c:15-23); the model gives the payload its own array of the allocated capacity.
- NetConnections.Connection.ReadHeader: copies all of the header from the wire, capacity and owner address included, as the C code does. Nothing checks them.
- NetConnections.Connection.ReceiveIteration: `message_create` never fails here, because its capacity, 2000, is within bounds and allocation is assumed to succeed. Bytes beyond the datagram are the stale contents of the incoming buffer, as in C. The header-error path (network/net_connection.c:46-51) is unreachable: a receive succeeds only with a socket, and reading the header fails only without one. The double free on the path without a queue is reported as the message appearing twice in `freed`; what a double free does to the C heap is not modelled. AddToIncomingQueue's ERROR_QUEUE path is unreachable, because Enqueue cannot fail once mutex errors are left out.
- MessageQueues.Queue.Enqueue: `next_tail + capacity / 2` is computed in unbounded integers; C `int` overflow for capacities near `INT_MAX` is not modelled. Ring slots that were never written hold null, where C leaves them uninitialised.
- Journals.Journal.Write and SharedMemories.SharedMemory.Write: `size_t` wrap-around in `cur_size + data_size` and `offset + data_size` is not modelled. Adding unbounded integers rejects every write that does not fit, including those for which C would wrap past the check.
- Journals.Create: the size is below 2^64, as a `size_t` is. `journal_delete` (munmap and mutex teardown) is not modelled.
- Journals.Journal.Read: the buffer must hold at least `*buffer_size` bytes, as C callers must ensure. The comparison with `cur_size`, which includes the 8-byte prefix, is kept as written.
- Lists.IntList.Push: the `size << 1` overflow of `size_t` is not modelled. `realloc` always succeeds. `int` elements are a 32-bit `newtype`, because nothing is computed on them.
- Lists.IntList.Pop: an empty list is excluded by the precondition; C reads out of bounds there.
- shared_memory_open, shared_memory_close, shared_memory_destroy and shared_memory_read (with its callback) are not modelled: they only wire up shm_open, mmap and mutexes.
- network/message.h declares `message_read` with four parameters, while network/message.c defines it with three. The model follows the definition.
- The layout of `message_header_t` is fixed at 28 bytes, little-endian: type, length, a 16-byte opaque `sockaddr_in`, capacity. Padding and byte order are assumed for x86-64.
- client.c, server.c, server_worker.c, client_worker.c, the CPU-usage parsers, the logger, the journal transfer and safe_process are not modelled. They are orchestration or I/O outside this core. Several of them use a connection API that network/net_connection.c does not define.
