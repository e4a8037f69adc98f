/**
 * The connection of network/net_connection.c: the framing of a message in
 * the 2000-byte socket buffers (header at [0, H), payload at [H, H + length)),
 * the is_running flag that start/stop receiving set and clear, one pass of
 * the receive loop, and the error ordering of send. Threads are not
 * modelled: spawning and joining the receive thread, receiving a datagram
 * and sending one are outcomes passed in as parameters.
 */
module NetConnections {
  import opened Common
  import opened Messages
  import opened MessageQueues

  /** UDP_SOCKET_BUFFER_SIZE: the size of each socket buffer. */
  const UDP_SOCKET_BUFFER_SIZE: nat := 2000
  /** The largest payload a frame can carry: the buffer less the header. */
  const MAX_PAYLOAD: nat := UDP_SOCKET_BUFFER_SIZE - HEADER_SIZE

  /** owner_type_t. */
  datatype OwnerType = OwnerServer | OwnerClient

  /** net_connection_status_t. */
  datatype ConnectionStatus =
    | ConnSuccess
    | ConnErrorNullPointer
    | ConnErrorSocket
    | ConnErrorQueue
    | ConnErrorThread
    | ConnErrorMessageFormat

  /** A uint32_t field occupies four bytes. */
  lemma Pow256Four()
    ensures Pow256(4) == UINT32_MAX + 1
  {
  }

  /** The bytes of a header as memcpy copies them: type, length, owner address, capacity; integers little-endian. */
  function EncodeHeader(h: Header): (r: seq<byte>)
    requires ValidHeader(h)
    ensures |r| == HEADER_SIZE
    ensures r[8..24] == h.ownerAddr
  {
    Pow256Four();
    EncodeLE(h.kind, 4) + EncodeLE(h.length, 4) + h.ownerAddr + EncodeLE(h.capacity, 4)
  }

  /** The header the first HEADER_SIZE bytes of a buffer hold. */
  function DecodeHeader(s: seq<byte>): (h: Header)
    requires |s| >= HEADER_SIZE
    ensures ValidHeader(h)
    ensures h.ownerAddr == s[8..24]
  {
    Pow256Four();
    Header(DecodeLE(s[0..4]), DecodeLE(s[4..8]), s[8..24], DecodeLE(s[24..28]))
  }

  /** Only the first HEADER_SIZE bytes of a buffer make its header. */
  lemma DecodeHeaderPrefix(s: seq<byte>)
    requires |s| >= HEADER_SIZE
    ensures DecodeHeader(s[..HEADER_SIZE]) == DecodeHeader(s)
  {
    var p := s[..HEADER_SIZE];
    assert p[0..4] == s[0..4] && p[4..8] == s[4..8] && p[8..24] == s[8..24] && p[24..28] == s[24..28];
  }

  /** Reading back the bytes of a header gives the header. */
  lemma DecodeEncodeHeader(h: Header)
    requires ValidHeader(h)
    ensures DecodeHeader(EncodeHeader(h)) == h
  {
    Pow256Four();
    var s := EncodeHeader(h);
    assert s[0..4] == EncodeLE(h.kind, 4);
    assert s[4..8] == EncodeLE(h.length, 4);
    assert s[24..28] == EncodeLE(h.capacity, 4);
    DecodeEncodeLE(h.kind, 4);
    DecodeEncodeLE(h.length, 4);
    DecodeEncodeLE(h.capacity, 4);
  }

  /** Every HEADER_SIZE bytes are the encoding of the header they hold. */
  lemma EncodeDecodeHeader(s: seq<byte>)
    requires |s| == HEADER_SIZE
    ensures EncodeHeader(DecodeHeader(s)) == s
  {
    EncodeDecodeLE(s[0..4]);
    EncodeDecodeLE(s[4..8]);
    EncodeDecodeLE(s[24..28]);
    assert s == s[0..4] + s[4..8] + s[8..24] + s[24..28];
  }

  /** The bytes write_header and write_data place at the start of the outgoing buffer. */
  function Frame(h: Header, payload: seq<byte>): (r: seq<byte>)
    requires ValidHeader(h)
    ensures |r| == HEADER_SIZE + |payload|
    ensures r[HEADER_SIZE..] == payload
  {
    EncodeHeader(h) + payload
  }

  /**
   * What read_header and read_data take from a received buffer: the header,
   * and the payload of its length, or None when that length does not fit.
   */
  function Unframe(buffer: seq<byte>): (r: Option<(Header, seq<byte>)>)
    requires |buffer| == UDP_SOCKET_BUFFER_SIZE
    ensures r.None? <==> DecodeHeader(buffer).length > MAX_PAYLOAD
    ensures r.Some? ==> r.value.0 == DecodeHeader(buffer) && |r.value.1| == r.value.0.length
  {
    var h := DecodeHeader(buffer);
    if h.length > MAX_PAYLOAD then None else Some((h, buffer[HEADER_SIZE..HEADER_SIZE + h.length]))
  }

  /** Framing round trip: a buffer that starts with a frame of a fitting payload unframes to that header and payload. */
  lemma UnframeFrame(h: Header, payload: seq<byte>, buffer: seq<byte>)
    requires ValidHeader(h) && h.length == |payload| <= MAX_PAYLOAD
    requires |buffer| == UDP_SOCKET_BUFFER_SIZE
    requires buffer[..HEADER_SIZE + |payload|] == Frame(h, payload)
    ensures Unframe(buffer) == Some((h, payload))
  {
    assert buffer[..HEADER_SIZE] == Frame(h, payload)[..HEADER_SIZE] == EncodeHeader(h);
    DecodeEncodeHeader(h);
    DecodeHeaderPrefix(buffer);
    assert buffer[HEADER_SIZE..HEADER_SIZE + |payload|] == Frame(h, payload)[HEADER_SIZE..];
  }

  /** The converse: whatever a buffer unframes to, its prefix is exactly that frame. */
  lemma FrameUnframe(buffer: seq<byte>)
    requires |buffer| == UDP_SOCKET_BUFFER_SIZE && Unframe(buffer).Some?
    ensures var (h, payload) := Unframe(buffer).value;
      buffer[..HEADER_SIZE + |payload|] == Frame(h, payload)
  {
    var (h, payload) := Unframe(buffer).value;
    EncodeDecodeHeader(buffer[..HEADER_SIZE]);
    DecodeHeaderPrefix(buffer);
    assert buffer[..HEADER_SIZE + |payload|] == buffer[..HEADER_SIZE] + payload;
  }

  /** A frame whose header claims more than the buffer can carry is refused, whatever follows it. */
  lemma UnframeOversized(h: Header, buffer: seq<byte>)
    requires ValidHeader(h) && h.length > MAX_PAYLOAD
    requires |buffer| == UDP_SOCKET_BUFFER_SIZE && buffer[..HEADER_SIZE] == EncodeHeader(h)
    ensures Unframe(buffer) == None
  {
    DecodeEncodeHeader(h);
    DecodeHeaderPrefix(buffer);
  }

  /**
   * End to end: a datagram that starts with a frame, received into an
   * incoming buffer holding anything at all, unframes to the sent header
   * and payload.
   */
  lemma DeliveredFrame(h: Header, payload: seq<byte>, datagram: seq<byte>, stale: seq<byte>)
    requires ValidHeader(h) && h.length == |payload| <= MAX_PAYLOAD
    requires HEADER_SIZE + |payload| <= |datagram| <= UDP_SOCKET_BUFFER_SIZE == |stale|
    requires datagram[..HEADER_SIZE + |payload|] == Frame(h, payload)
    ensures Unframe(Spliced(stale, 0, datagram)) == Some((h, payload))
  {
    var buffer := Spliced(stale, 0, datagram);
    assert buffer[..HEADER_SIZE + |payload|] == datagram[..HEADER_SIZE + |payload|];
    UnframeFrame(h, payload, buffer);
  }

  /** udp_socket_t: only its two buffers. */
  class Socket {
    var incoming: array<byte>
    var outgoing: array<byte>

    ghost predicate Valid()
      reads this
    {
      incoming.Length == UDP_SOCKET_BUFFER_SIZE && outgoing.Length == UDP_SOCKET_BUFFER_SIZE && incoming != outgoing
    }

    /** udp_socket_create's buffer set-up: both buffers zeroed. */
    constructor Init()
      ensures Valid() && fresh(incoming) && fresh(outgoing)
      ensures forall i :: 0 <= i < UDP_SOCKET_BUFFER_SIZE ==> incoming[i] == 0 && outgoing[i] == 0
    {
      incoming := new byte[UDP_SOCKET_BUFFER_SIZE](_ => 0);
      outgoing := new byte[UDP_SOCKET_BUFFER_SIZE](_ => 0);
    }
  }

  /** What one pass of the receive loop did with the datagram. */
  datatype ReceiveOutcome =
    | ReceiveFailed
    | DataRejected(dataStatus: ConnectionStatus)
    | QueueRejected(queueStatus: ConnectionStatus)
    | Enqueued

  /** net_connection_t, without the thread handle. */
  class Connection {
    var ownerType: OwnerType
    var socket: Socket?
    var queue: Queue?
    var isRunning: bool

    ghost predicate Valid()
      reads this, socket, queue, if queue != null then {queue.buffer} else {}
    {
      && (socket != null ==> socket.Valid())
      && (queue != null ==> queue.Valid())
    }

    /** The field set-up of net_connection_create: not running yet. */
    constructor Init(ownerType: OwnerType, socket: Socket, queue: Queue)
      requires socket.Valid() && queue.Valid()
      ensures Valid()
      ensures this.ownerType == ownerType && this.socket == socket && this.queue == queue && !isRunning
    {
      this.ownerType := ownerType;
      this.socket := socket;
      this.queue := queue;
      isRunning := false;
    }

    /**
     * net_connection_start_receiving: success without change when already
     * running; otherwise sets the flag, and clears it again with
     * ERROR_THREAD when the thread cannot be spawned.
     */
    method StartReceiving(spawnOk: bool) returns (status: ConnectionStatus)
      modifies this
      ensures ownerType == old(ownerType) && socket == old(socket) && queue == old(queue)
      ensures old(isRunning) ==> status == ConnSuccess && isRunning
      ensures !old(isRunning) && spawnOk ==> status == ConnSuccess && isRunning
      ensures !old(isRunning) && !spawnOk ==> status == ConnErrorThread && !isRunning
    {
      if isRunning {
        return ConnSuccess;
      }
      isRunning := true;
      if !spawnOk {
        isRunning := false;
        return ConnErrorThread;
      }
      status := ConnSuccess;
    }

    /**
     * net_connection_stop_receiving: success without change when not
     * running; otherwise clears the flag and reports ERROR_THREAD when the
     * join fails.
     */
    method StopReceiving(joinOk: bool) returns (status: ConnectionStatus)
      modifies this
      ensures ownerType == old(ownerType) && socket == old(socket) && queue == old(queue)
      ensures !isRunning
      ensures !old(isRunning) ==> status == ConnSuccess
      ensures old(isRunning) ==> (status == ConnSuccess <==> joinOk) && (status == ConnErrorThread <==> !joinOk)
    {
      if !isRunning {
        return ConnSuccess;
      }
      isRunning := false;
      if !joinOk {
        return ConnErrorThread;
      }
      status := ConnSuccess;
    }

    /** net_connection_read_header: the header at the start of the incoming buffer. */
    method ReadHeader() returns (status: ConnectionStatus, h: Header)
      requires Valid()
      ensures socket == null ==> status == ConnErrorNullPointer
      ensures socket != null ==> status == ConnSuccess && h == DecodeHeader(socket.incoming[..])
    {
      if socket == null {
        return ConnErrorNullPointer, Header(0, 0, ZeroAddress(), 0);
      }
      h := DecodeHeader(socket.incoming[..HEADER_SIZE]);
      DecodeHeaderPrefix(socket.incoming[..]);
      assert socket.incoming[..][..HEADER_SIZE] == socket.incoming[..HEADER_SIZE];
      status := ConnSuccess;
    }

    /**
     * net_connection_read_data: copies `length` bytes from offset H of the
     * incoming buffer into the payload; MESSAGE_FORMAT and no copy when the
     * length does not fit; nothing to copy for length 0.
     */
    method ReadData(m: Message?) returns (status: ConnectionStatus)
      requires Valid()
      requires m != null && m.header.length <= MAX_PAYLOAD ==> m.header.length <= m.data.Length
      requires m != null && socket != null ==> m.data != socket.incoming
      modifies if m != null then {m.data} else {}
      ensures m == null || socket == null ==> status == ConnErrorNullPointer
      ensures m != null && socket == null ==> m.data[..] == old(m.data[..])
      ensures m != null && socket != null && m.header.length > MAX_PAYLOAD ==>
        status == ConnErrorMessageFormat && m.data[..] == old(m.data[..])
      ensures m != null && socket != null && m.header.length <= MAX_PAYLOAD ==>
        && status == ConnSuccess
        && m.data[..] == Spliced(old(m.data[..]), 0, socket.incoming[HEADER_SIZE..HEADER_SIZE + m.header.length])
    {
      if m == null || socket == null {
        return ConnErrorNullPointer;
      }
      if m.header.length > 0 {
        if m.header.length > MAX_PAYLOAD {
          return ConnErrorMessageFormat;
        }
        MemCopy(m.data, 0, socket.incoming[HEADER_SIZE..HEADER_SIZE + m.header.length]);
      }
      status := ConnSuccess;
    }

    /** net_connection_write_header: the bytes of the header at [0, H) of the outgoing buffer. */
    method WriteHeader(h: Header) returns (status: ConnectionStatus)
      requires Valid() && ValidHeader(h)
      modifies if socket != null then {socket.outgoing} else {}
      ensures socket == null ==> status == ConnErrorNullPointer
      ensures socket != null ==>
        status == ConnSuccess && socket.outgoing[..] == Spliced(old(socket.outgoing[..]), 0, EncodeHeader(h))
    {
      if socket == null {
        return ConnErrorNullPointer;
      }
      MemCopy(socket.outgoing, 0, EncodeHeader(h));
      status := ConnSuccess;
    }

    /**
     * net_connection_write_data: `length` payload bytes at [H, H + length)
     * of the outgoing buffer; MESSAGE_FORMAT and no copy when they do not fit.
     */
    method WriteData(m: Message?) returns (status: ConnectionStatus)
      requires Valid()
      requires m != null ==> m.Valid()
      modifies if socket != null then {socket.outgoing} else {}
      ensures m == null || socket == null ==> status == ConnErrorNullPointer
      ensures m == null && socket != null ==> socket.outgoing[..] == old(socket.outgoing[..])
      ensures m != null && socket != null && m.header.length > MAX_PAYLOAD ==>
        status == ConnErrorMessageFormat && socket.outgoing[..] == old(socket.outgoing[..])
      ensures m != null && socket != null && m.header.length <= MAX_PAYLOAD ==>
        && status == ConnSuccess
        && socket.outgoing[..] == Spliced(old(socket.outgoing[..]), HEADER_SIZE, old(m.data[..m.header.length]))
    {
      if m == null || socket == null {
        return ConnErrorNullPointer;
      }
      if m.header.length > 0 {
        if m.header.length > MAX_PAYLOAD {
          return ConnErrorMessageFormat;
        }
        MemCopy(socket.outgoing, HEADER_SIZE, m.data[..m.header.length]);
      }
      status := ConnSuccess;
    }

    /**
     * net_connection_send: NULL_POINTER for a missing message or socket;
     * otherwise the first failing step's status, header then data, and
     * ERROR_SOCKET when the datagram cannot be sent. `attempted` says
     * whether the socket send was issued; the message is never changed.
     */
    method Send(m: Message?, sendOk: bool) returns (status: ConnectionStatus, attempted: bool)
      requires Valid()
      requires m != null ==> m.Valid()
      requires m != null && socket != null ==> m.data != socket.outgoing
      modifies if socket != null then {socket.outgoing} else {}
      ensures Valid()
      ensures m == null || socket == null ==> status == ConnErrorNullPointer && !attempted
      ensures m == null && socket != null ==> socket.outgoing[..] == old(socket.outgoing[..])
      // The header is already written when the data is found not to fit.
      ensures m != null && socket != null && m.header.length > MAX_PAYLOAD ==>
        && status == ConnErrorMessageFormat && !attempted
        && socket.outgoing[..] == Spliced(old(socket.outgoing[..]), 0, EncodeHeader(m.header))
      ensures m != null && socket != null && m.header.length <= MAX_PAYLOAD ==>
        && attempted
        && (status == ConnSuccess <==> sendOk)
        && (status == ConnErrorSocket <==> !sendOk)
        && socket.outgoing[..HEADER_SIZE + m.header.length] == Frame(m.header, m.data[..m.header.length])
        && socket.outgoing[HEADER_SIZE + m.header.length..] == old(socket.outgoing[HEADER_SIZE + m.header.length..])
    {
      attempted := false;
      if m == null || socket == null {
        return ConnErrorNullPointer, false;
      }
      var headerStatus := WriteHeader(m.header);
      if headerStatus != ConnSuccess {
        return headerStatus, false;
      }
      ghost var afterHeader := socket.outgoing[..];
      var dataStatus := WriteData(m);
      if dataStatus != ConnSuccess {
        return dataStatus, false;
      }
      ghost var n := m.header.length;
      assert socket.outgoing[..HEADER_SIZE] == afterHeader[..HEADER_SIZE] == EncodeHeader(m.header);
      assert socket.outgoing[HEADER_SIZE..HEADER_SIZE + n] == m.data[..n];
      assert socket.outgoing[..HEADER_SIZE + n] == socket.outgoing[..HEADER_SIZE] + socket.outgoing[HEADER_SIZE..HEADER_SIZE + n];
      attempted := true;
      if !sendOk {
        return ConnErrorSocket, true;
      }
      status := ConnSuccess;
    }

    /**
     * net_connection_add_to_incoming_queue: enqueues the message, or
     * refuses with NULL_POINTER when the message or the queue is missing
     * and then frees the message itself. `freed` holds the messages freed:
     * the refused one, or those the enqueue evicts.
     */
    method AddToIncomingQueue(m: Message?) returns (status: ConnectionStatus, freed: seq<Message>)
      requires Valid()
      modifies if queue != null then {queue, queue.buffer} else {}
      ensures Valid()
      ensures m == null || queue == null ==> status == ConnErrorNullPointer
      ensures m == null ==> freed == []
      ensures m != null && queue == null ==> freed == [m]
      ensures queue != null && m != null ==>
        && status == ConnSuccess
        && queue.Contents == EnqueueContents(old(queue.Contents), old(queue.capacity), m)
        && freed == EnqueueFreed(old(queue.Contents), old(queue.capacity))
        && queue.capacity == old(queue.capacity)
      ensures queue != null && m == null ==> queue.Contents == old(queue.Contents)
    {
      if m == null {
        return ConnErrorNullPointer, [];
      }
      if queue == null {
        return ConnErrorNullPointer, [m];
      }
      var queueStatus;
      queueStatus, freed := queue.Enqueue(m);
      status := ConnSuccess;
    }

    /**
     * One pass of the body of net_connection_receive_thread_func, entered
     * while is_running holds. `datagram` is what the socket receive put at
     * the start of the incoming buffer, None when it failed. `freed` holds
     * every message freed on the way.
     */
    method ReceiveIteration(datagram: Option<seq<byte>>) returns (outcome: ReceiveOutcome, m: Message?, freed: seq<Message>)
      requires Valid() && isRunning
      requires datagram.Some? ==> |datagram.value| <= UDP_SOCKET_BUFFER_SIZE
      modifies if socket != null then {socket.incoming} else {}
      modifies if queue != null then {queue, queue.buffer} else {}
      ensures Valid()
      ensures socket == null || datagram.None? ==>
        && outcome == ReceiveFailed && m == null && freed == []
        && (queue != null ==> queue.Contents == old(queue.Contents) && queue.head == old(queue.head) && queue.tail == old(queue.tail))
      ensures socket != null && datagram.None? ==> socket.incoming[..] == old(socket.incoming[..])
      ensures socket != null && datagram.Some? ==>
        socket.incoming[..] == Spliced(old(socket.incoming[..]), 0, datagram.value)
      ensures socket != null && datagram.Some? && Unframe(socket.incoming[..]).None? ==>
        && outcome == DataRejected(ConnErrorMessageFormat) && m != null && fresh(m) && freed == [m]
        && (queue != null ==> queue.Contents == old(queue.Contents) && queue.head == old(queue.head) && queue.tail == old(queue.tail))
      ensures socket != null && datagram.Some? && Unframe(socket.incoming[..]).Some? && queue == null ==>
        outcome == QueueRejected(ConnErrorNullPointer) && m != null && fresh(m) && freed == [m, m]
      ensures socket != null && datagram.Some? && Unframe(socket.incoming[..]).Some? && queue != null ==>
        var (h, payload) := Unframe(socket.incoming[..]).value;
        && m != null && fresh(m) && m.Valid()
        && m.header == h && m.data[..h.length] == payload
        && outcome == Enqueued && freed == EnqueueFreed(old(queue.Contents), old(queue.capacity))
        && queue.Contents == EnqueueContents(old(queue.Contents), old(queue.capacity), m)
    {
      if socket == null || datagram.None? {
        return ReceiveFailed, null, [];
      }
      MemCopy(socket.incoming, 0, datagram.value);
      outcome, m, freed := HandleReceived();
    }

    /**
     * The rest of a receive pass, once a datagram is in the incoming
     * buffer: a message of capacity UDP_SOCKET_BUFFER_SIZE gets the header
     * and then the payload from the buffer and is enqueued. A message
     * refused by read_data is freed by the loop; one refused for want of a
     * queue is freed twice, by add_to_incoming_queue and then by the loop.
     */
    method HandleReceived() returns (outcome: ReceiveOutcome, m: Message?, freed: seq<Message>)
      requires Valid() && socket != null
      modifies if queue != null then {queue, queue.buffer} else {}
      ensures Valid()
      ensures Unframe(socket.incoming[..]).None? ==>
        && outcome == DataRejected(ConnErrorMessageFormat) && m != null && fresh(m) && freed == [m]
        && (queue != null ==> queue.Contents == old(queue.Contents) && queue.head == old(queue.head) && queue.tail == old(queue.tail))
      ensures Unframe(socket.incoming[..]).Some? && queue == null ==>
        outcome == QueueRejected(ConnErrorNullPointer) && m != null && fresh(m) && freed == [m, m]
      ensures Unframe(socket.incoming[..]).Some? && queue != null ==>
        var (h, payload) := Unframe(socket.incoming[..]).value;
        && m != null && fresh(m) && m.Valid()
        && m.header == h && m.data[..h.length] == payload
        && outcome == Enqueued && freed == EnqueueFreed(old(queue.Contents), old(queue.capacity))
        && queue.Contents == EnqueueContents(old(queue.Contents), old(queue.capacity), m)
    {
      m := Messages.Create(MESSAGE_TYPE_NONE, UDP_SOCKET_BUFFER_SIZE);
      var headerStatus, h := ReadHeader();
      if headerStatus != ConnSuccess {
        // read_header fails only without a socket, and there is one here.
        assert false;
      }
      m.header := h;
      var dataStatus := ReadData(m);
      if dataStatus != ConnSuccess {
        return DataRejected(dataStatus), m, [m];
      }
      var queueStatus;
      queueStatus, freed := AddToIncomingQueue(m);
      if queueStatus != ConnSuccess {
        return QueueRejected(queueStatus), m, freed + [m];
      }
      outcome := Enqueued;
    }

    /** net_connection_receive: the oldest incoming message, waiting until there is one; NULL without a queue. */
    method Receive() returns (m: Message?)
      requires Valid()
      requires queue != null ==> queue.Contents != []
      modifies if queue != null then {queue} else {}
      ensures Valid()
      ensures queue == null ==> m == null
      ensures queue != null ==> m == old(queue.Contents)[0] && queue.Contents == old(queue.Contents)[1..]
    {
      if queue == null {
        return null;
      }
      m := queue.Dequeue();
    }

    /** net_connection_receive_nonblocking: as Receive, but NULL at once on an empty queue. */
    method ReceiveNonblocking() returns (m: Message?)
      requires Valid()
      modifies if queue != null then {queue} else {}
      ensures Valid()
      ensures queue == null ==> m == null
      ensures queue != null ==> (m == null <==> old(queue.Contents) == [])
      ensures queue != null && m == null ==> queue.Contents == old(queue.Contents)
      ensures queue != null && m != null ==> m == old(queue.Contents)[0] && queue.Contents == old(queue.Contents)[1..]
    {
      if queue == null {
        return null;
      }
      m := queue.DequeueNonblocking();
    }

    /**
     * net_connection_delete: stops receiving, then lets go of the socket
     * and deletes the queue, whose held messages are freed (returned).
     */
    method Delete(joinOk: bool) returns (freed: seq<Message>)
      requires Valid()
      modifies this, if queue != null then {queue} else {}
      ensures !isRunning && socket == null && queue == null
      ensures old(queue) == null ==> freed == []
      ensures old(queue) != null ==> freed == old(queue.Contents) && old(queue).Contents == []
    {
      var stopStatus := StopReceiving(joinOk);
      freed := [];
      if socket != null {
        socket := null;
      }
      if queue != null {
        freed := queue.Delete();
        queue := null;
      }
    }

    /**
     * net_connection_create: NULL for a missing socket or queue; otherwise a
     * connection that starts receiving at once, or NULL when the receive
     * thread cannot be spawned.
     */
    static method Create(ownerType: OwnerType, socket: Socket?, queue: Queue?, spawnOk: bool) returns (c: Connection?)
      requires socket != null ==> socket.Valid()
      requires queue != null ==> queue.Valid()
      ensures c == null <==> socket == null || queue == null || !spawnOk
      ensures c != null ==>
        && fresh(c) && c.Valid() && c.isRunning
        && c.ownerType == ownerType && c.socket == socket && c.queue == queue
    {
      if socket == null || queue == null {
        return null;
      }
      c := new Connection.Init(ownerType, socket, queue);
      var startStatus := c.StartReceiving(spawnOk);
      if startStatus != ConnSuccess {
        return null;
      }
    }
  }

  /**
   * The start/stop scenario: a new connection is already receiving, so a
   * further start succeeds and keeps the flag; a stop clears it, and a
   * second stop succeeds as well.
   */
  method StartStopScenario(joinOk: bool)
    returns (created: bool, startStatus: ConnectionStatus, runningAfterStart: bool,
             stopStatus: ConnectionStatus, runningAfterStop: bool, secondStopStatus: ConnectionStatus)
    ensures created && startStatus == ConnSuccess && runningAfterStart
    ensures (stopStatus == ConnSuccess <==> joinOk) && !runningAfterStop
    ensures secondStopStatus == ConnSuccess
  {
    var socket := new Socket.Init();
    var queue := MessageQueues.Create(5);
    var c := Connection.Create(OwnerServer, socket, queue, true);
    created := c != null;
    startStatus := c.StartReceiving(false);
    runningAfterStart := c.isRunning;
    stopStatus := c.StopReceiving(joinOk);
    runningAfterStop := c.isRunning;
    secondStopStatus := c.StopReceiving(false);
  }

  /** A connection as the tests set one up: a fresh zeroed socket, an empty queue of capacity 5, receiving. */
  method NewConnection(ownerType: OwnerType) returns (c: Connection)
    ensures fresh(c) && c.Valid() && c.isRunning
    ensures c.socket != null && fresh(c.socket) && fresh(c.socket.incoming) && fresh(c.socket.outgoing)
    ensures c.queue != null && fresh(c.queue) && fresh(c.queue.buffer)
    ensures c.queue.Contents == [] && c.queue.capacity == 5
  {
    var socket := new Socket.Init();
    var queue := MessageQueues.Create(5);
    c := Connection.Create(ownerType, socket, queue, true);
  }

  /**
   * The sending half of the send/receive scenario: a PID message of
   * capacity 100 written with data is sent, and the outgoing buffer then
   * starts with the frame of its header and data.
   */
  method SendScenario(data: seq<byte>) returns (sendStatus: ConnectionStatus, header: Header, datagram: seq<byte>)
    requires 0 < |data| <= 100
    ensures sendStatus == ConnSuccess
    ensures ValidHeader(header) && header.kind == MESSAGE_TYPE_PID && header.length == |data|
    ensures |datagram| == UDP_SOCKET_BUFFER_SIZE
    ensures datagram[..HEADER_SIZE + |data|] == Frame(header, data)
  {
    var sender := NewConnection(OwnerClient);
    var message := Messages.Create(MESSAGE_TYPE_PID, 100);
    var writeStatus := Messages.Write(message, Some(data), |data|);
    assert message.data[..|data|] == data;
    var attempted;
    sendStatus, attempted := sender.Send(message, true);
    header := message.header;
    datagram := sender.socket.outgoing[..];
  }

  /**
   * The receiving half: a datagram that starts with the frame of a PID
   * header and data is enqueued by one receive pass, and reading 100 bytes
   * from the received message gives back the data.
   */
  method ReceiveScenario(header: Header, data: seq<byte>, datagram: seq<byte>)
    returns (outcome: ReceiveOutcome, freed: seq<Message>, receivedKind: nat, readStatus: MessageStatus, readBack: seq<byte>)
    requires 0 < |data| <= 100
    requires ValidHeader(header) && header.kind == MESSAGE_TYPE_PID && header.length == |data|
    requires |datagram| == UDP_SOCKET_BUFFER_SIZE
    requires datagram[..HEADER_SIZE + |data|] == Frame(header, data)
    ensures outcome == Enqueued && freed == []
    ensures receivedKind == MESSAGE_TYPE_PID
    ensures readStatus == MsgSuccess && readBack == data
  {
    var receiver := NewConnection(OwnerServer);
    DeliveredFrame(header, data, datagram, receiver.socket.incoming[..]);
    var received;
    outcome, received, freed := receiver.ReceiveIteration(Some(datagram));
    var m := receiver.Receive();
    receivedKind := m.header.kind;
    var buffer := new byte[100];
    readStatus := Messages.Read(m, buffer, 100);
    readBack := buffer[..|data|];
  }

  /**
   * The send/receive scenario: data sent by one connection, whose outgoing
   * buffer arrives as the datagram of another, is received there as a PID
   * message holding the same data.
   */
  method SendReceiveScenario(data: seq<byte>)
    returns (sendStatus: ConnectionStatus, outcome: ReceiveOutcome, freed: seq<Message>, receivedKind: nat,
             readStatus: MessageStatus, readBack: seq<byte>)
    requires 0 < |data| <= 100
    ensures sendStatus == ConnSuccess && outcome == Enqueued && freed == []
    ensures receivedKind == MESSAGE_TYPE_PID
    ensures readStatus == MsgSuccess && readBack == data
  {
    var header, datagram;
    sendStatus, header, datagram := SendScenario(data);
    outcome, freed, receivedKind, readStatus, readBack := ReceiveScenario(header, data, datagram);
  }
}
