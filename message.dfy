/**
 * The message envelope of network/message.c: a header (type tag, valid
 * length, owner address, capacity) and a payload buffer, with a bounded
 * write, a bounded read and the total size.
 */
module Messages {
  import opened Common

  /** sizeof(message_header_t) on x86-64: 4 (type) + 4 (length) + 16 (sockaddr_in) + 4 (capacity). */
  const HEADER_SIZE: nat := 28
  /** sizeof(struct sockaddr_in). */
  const ADDRESS_SIZE: nat := 16
  const UINT32_MAX: nat := 0xFFFF_FFFF

  /** The values of message_type_t. */
  const MESSAGE_TYPE_NONE: nat := 0
  const MESSAGE_TYPE_PID: nat := 1

  /** message_header_t. The type tag is held as its 32-bit pattern, the owner address as its raw bytes. */
  datatype Header = Header(kind: nat, length: nat, ownerAddr: seq<byte>, capacity: nat)

  /** Every field fits the width it has in the C struct. */
  predicate ValidHeader(h: Header) {
    && h.kind <= UINT32_MAX
    && h.length <= UINT32_MAX
    && |h.ownerAddr| == ADDRESS_SIZE
    && h.capacity <= UINT32_MAX
  }

  /** The all-zero owner address. */
  function ZeroAddress(): (a: seq<byte>)
    ensures |a| == ADDRESS_SIZE
  {
    seq(ADDRESS_SIZE, _ => 0)
  }

  /** message_status_t. */
  datatype MessageStatus =
    | MsgSuccess
    | MsgErrorNullPointer
    | MsgErrorMemoryAlloc
    | MsgErrorWrite
    | MsgErrorRead

  /** message_t: a header and the payload bytes allocated with it. */
  class Message {
    var header: Header
    /** The payload, of the capacity given at creation. */
    var data: array<byte>

    /** The valid length never exceeds the payload actually allocated. */
    ghost predicate Valid()
      reads this
    {
      ValidHeader(header) && header.length <= data.Length
    }

    /** The allocation part of message_create; the size check is in Create. */
    constructor Init(kind: nat, dataCapacity: nat)
      requires kind <= UINT32_MAX && dataCapacity <= UINT32_MAX
      ensures Valid() && fresh(data)
      ensures header == Header(kind, dataCapacity, ZeroAddress(), 0)
      ensures data.Length == dataCapacity
    {
      header := Header(kind, dataCapacity, ZeroAddress(), 0);
      data := new byte[dataCapacity];
    }
  }

  /**
   * message_create: NULL when header plus payload would not fit in 32 bits;
   * otherwise a message of the given type whose length is the whole capacity.
   */
  method Create(kind: nat, dataCapacity: nat) returns (m: Message?)
    requires kind <= UINT32_MAX && dataCapacity <= UINT32_MAX
    ensures m == null <==> dataCapacity > UINT32_MAX - HEADER_SIZE
    ensures m != null ==> fresh(m) && fresh(m.data) && m.Valid()
    ensures m != null ==> m.header.kind == kind && m.header.length == dataCapacity
    ensures m != null ==> m.data.Length == dataCapacity
  {
    if dataCapacity > UINT32_MAX - HEADER_SIZE {
      return null;
    }
    m := new Message.Init(kind, dataCapacity);
  }

  /** message_size: header size plus valid length as a uint32_t; 0 for NULL. */
  function Size(m: Message?): (r: nat)
    reads m
    ensures m == null ==> r == 0
    ensures m != null && m.header.length <= UINT32_MAX - HEADER_SIZE ==> r == HEADER_SIZE + m.header.length
    ensures r <= UINT32_MAX
  {
    if m == null then 0 else (HEADER_SIZE + m.header.length) % (UINT32_MAX + 1)
  }

  /**
   * message_write: copies the first `length` bytes of data into the payload
   * and makes `length` the valid length, provided it does not exceed the
   * current valid length (so a message's length can only shrink).
   */
  method Write(m: Message?, data: Option<seq<byte>>, length: nat) returns (status: MessageStatus)
    requires length <= UINT32_MAX
    requires data.Some? ==> length <= |data.value|
    requires m != null ==> m.Valid()
    modifies m, if m != null then {m.data} else {}
    ensures m == null || data.None? ==> status == MsgErrorNullPointer
    ensures m != null ==> m.data == old(m.data) && m.Valid()
    ensures m != null && data.None? ==> m.header == old(m.header) && m.data[..] == old(m.data[..])
    ensures m != null && data.Some? && length > old(m.header.length) ==>
      status == MsgErrorWrite && m.header == old(m.header) && m.data[..] == old(m.data[..])
    ensures m != null && data.Some? && length <= old(m.header.length) ==>
      && status == MsgSuccess
      && m.header == old(m.header).(length := length)
      && m.data[..] == Spliced(old(m.data[..]), 0, data.value[..length])
  {
    if m == null || data.None? {
      return MsgErrorNullPointer;
    }
    if m.header.length < length {
      return MsgErrorWrite;
    }
    if length > 0 {
      MemCopy(m.data, 0, data.value[..length]);
    }
    m.header := m.header.(length := length);
    status := MsgSuccess;
  }

  /** The number of bytes message_read copies: the smaller of the request and the valid length. */
  function ReadCount(requested: nat, validLength: nat): (n: nat)
    ensures n <= requested && n <= validLength
    ensures n == requested || n == validLength
  {
    if requested < validLength then requested else validLength
  }

  /**
   * message_read: copies min(length, valid length) payload bytes into the
   * caller's buffer; copying nothing is reported as ERROR_READ.
   */
  method Read(m: Message?, buffer: array?<byte>, length: nat) returns (status: MessageStatus)
    requires m != null ==> m.Valid()
    requires buffer != null ==> length <= buffer.Length
    requires m != null ==> m.data != buffer
    modifies buffer
    ensures m == null || buffer == null ==> status == MsgErrorNullPointer
    ensures buffer != null && (m == null || ReadCount(length, m.header.length) == 0) ==>
      buffer[..] == old(buffer[..])
    ensures m != null && buffer != null ==>
      var n := ReadCount(length, m.header.length);
      && (status == MsgErrorRead <==> n == 0)
      && (status == MsgSuccess <==> n > 0)
      && (n > 0 ==> buffer[..] == Spliced(old(buffer[..]), 0, m.data[..n]))
  {
    if m == null || buffer == null {
      return MsgErrorNullPointer;
    }
    var toRead := if length < m.header.length then length else m.header.length;
    if toRead > 0 {
      MemCopy(buffer, 0, m.data[..toRead]);
    } else {
      return MsgErrorRead;
    }
    status := MsgSuccess;
  }

  /**
   * The write-then-read scenario: a message of capacity |data| written with
   * all of data and read back into a buffer of the same size yields data.
   */
  method WriteThenRead(data: seq<byte>) returns (writeStatus: MessageStatus, readStatus: MessageStatus, readBack: seq<byte>)
    requires 0 < |data| <= UINT32_MAX - HEADER_SIZE
    ensures writeStatus == MsgSuccess && readStatus == MsgSuccess
    ensures readBack == data
  {
    var m := Create(MESSAGE_TYPE_PID, |data|);
    writeStatus := Write(m, Some(data), |data|);
    var buffer := new byte[|data|];
    readStatus := Read(m, buffer, |data|);
    readBack := buffer[..];
  }

  /**
   * The round trip for any length: a message of capacity c written with
   * the first n bytes of data, 0 < n <= c, reads back those n bytes when
   * n are requested.
   */
  method WritePrefixThenRead(capacity: nat, data: seq<byte>, n: nat)
    returns (writeStatus: MessageStatus, readStatus: MessageStatus, readBack: seq<byte>)
    requires capacity <= UINT32_MAX - HEADER_SIZE
    requires 0 < n <= capacity && n <= |data|
    ensures writeStatus == MsgSuccess && readStatus == MsgSuccess
    ensures readBack == data[..n]
  {
    var m := Create(MESSAGE_TYPE_PID, capacity);
    writeStatus := Write(m, Some(data), n);
    var buffer := new byte[n];
    readStatus := Read(m, buffer, n);
    readBack := buffer[..];
  }

  /**
   * The zero-length case: writing 0 bytes succeeds and leaves the valid
   * length 0, after which every read copies nothing and reports ERROR_READ.
   */
  method WriteEmptyThenRead(capacity: nat, requested: nat)
    returns (writeStatus: MessageStatus, length: nat, readStatus: MessageStatus)
    requires capacity <= UINT32_MAX - HEADER_SIZE
    ensures writeStatus == MsgSuccess && length == 0
    ensures readStatus == MsgErrorRead
  {
    var m := Create(MESSAGE_TYPE_PID, capacity);
    writeStatus := Write(m, Some([]), 0);
    length := m.header.length;
    var buffer := new byte[requested];
    readStatus := Read(m, buffer, requested);
  }

  /** The size scenario: a fresh message of capacity c has size header + c (its length is c). */
  method SizeOfNew(capacity: nat) returns (size: nat, length: nat)
    requires capacity <= UINT32_MAX - HEADER_SIZE
    ensures length == capacity
    ensures size == HEADER_SIZE + capacity
  {
    var m := Create(MESSAGE_TYPE_PID, capacity);
    size := Size(m);
    length := m.header.length;
  }
}
