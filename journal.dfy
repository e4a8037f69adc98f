/**
 * The append-only journal of server/journal.c: a byte region of max_size
 * bytes whose first sizeof(size_t) = 8 bytes hold cur_size, the number of
 * bytes in use counting that prefix. A write appends after cur_size when
 * there is room; a read copies everything after the prefix. The region
 * stands for the anonymous shared mapping, which starts zero-filled; the
 * mutex is not modelled.
 */
module Journals {
  import opened Common

  /** sizeof(size_t) on the target. */
  const SIZE_T_BYTES: nat := 8

  /** journal_status_t. */
  datatype JournalStatus =
    | JournalSuccess
    | JournalErrorMunmap
    | JournalErrorMmap
    | JournalErrorMalloc
    | JournalErrorMutexInit
    | JournalErrorMutexLock
    | JournalErrorMutexUnlock
    | JournalErrorWrite
    | JournalErrorRead
    | JournalErrorNoSpace
    | JournalErrorParamsNull

  /** journal_t, without the mutex. */
  class Journal {
    const maxSize: nat
    /** The mapped region, journal_ptr[0 .. max_size). */
    var region: array<byte>
    /** The bytes written so far, in order. */
    ghost var Log: seq<byte>

    /** cur_size as stored in the prefix: a size_t. */
    function CurSize(): (r: nat)
      reads this, region
      requires region.Length >= SIZE_T_BYTES
      ensures r < Pow256(SIZE_T_BYTES)
    {
      DecodeLE(region[..SIZE_T_BYTES])
    }

    /** The prefix counts itself and the log, the whole fits, and the log follows the prefix. */
    ghost predicate Valid()
      reads this, region
    {
      && region.Length == maxSize
      && SIZE_T_BYTES < maxSize < Pow256(SIZE_T_BYTES)
      && CurSize() == SIZE_T_BYTES + |Log| <= maxSize
      && region[SIZE_T_BYTES..SIZE_T_BYTES + |Log|] == Log
    }

    /** The mapping part of journal_create: a zero-filled region whose prefix says 8. */
    constructor Init(size: nat)
      requires SIZE_T_BYTES < size < Pow256(SIZE_T_BYTES)
      ensures Valid() && fresh(region)
      ensures maxSize == size && Log == []
      ensures region[..SIZE_T_BYTES] == EncodeLE(SIZE_T_BYTES, SIZE_T_BYTES)
      ensures forall i :: SIZE_T_BYTES <= i < size ==> region[i] == 0
    {
      maxSize := size;
      region := new byte[size](_ => 0);
      Log := [];
      new;
      MemCopy(region, 0, EncodeLE(SIZE_T_BYTES, SIZE_T_BYTES));
      assert region[..SIZE_T_BYTES] == EncodeLE(SIZE_T_BYTES, SIZE_T_BYTES);
      DecodeEncodeLE(SIZE_T_BYTES, SIZE_T_BYTES);
    }

    /**
     * journal_write: PARAMS_NULL for missing data; success with no change
     * for zero bytes; NO_SPACE with no change when cur_size + data_size
     * exceeds max_size; otherwise the data is copied at offset cur_size and
     * the prefix is advanced by data_size. Valid() fixes the prefix and the
     * log, so with the bytes past cur_size the whole region is stated.
     */
    method Write(data: Option<seq<byte>>) returns (status: JournalStatus)
      requires Valid()
      modifies this, region
      ensures Valid() && region == old(region)
      ensures data.None? ==> status == JournalErrorParamsNull && Log == old(Log) && region[..] == old(region[..])
      ensures data.Some? && |data.value| == 0 ==> status == JournalSuccess && Log == old(Log) && region[..] == old(region[..])
      ensures data.Some? && 0 < |data.value| && old(CurSize()) + |data.value| > maxSize ==>
        status == JournalErrorNoSpace && Log == old(Log) && region[..] == old(region[..])
      ensures data.Some? && 0 < |data.value| && old(CurSize()) + |data.value| <= maxSize ==>
        && status == JournalSuccess
        && Log == old(Log) + data.value
        && CurSize() == old(CurSize()) + |data.value|
        && region[CurSize()..] == old(region[..])[CurSize()..]
    {
      if data.None? {
        return JournalErrorParamsNull;
      }
      var d := data.value;
      if |d| == 0 {
        return JournalSuccess;
      }
      var curSize := DecodeLE(region[..SIZE_T_BYTES]);
      if curSize + |d| > maxSize {
        return JournalErrorNoSpace;
      }
      Append(curSize, d);
      status := JournalSuccess;
    }

    /**
     * The copy step of journal_write, once cur_size has been read and the
     * data found to fit: the data goes at offset cur_size and the prefix
     * is rewritten as cur_size + data_size.
     */
    method Append(curSize: nat, d: seq<byte>)
      requires Valid() && curSize == CurSize() && curSize + |d| <= maxSize
      modifies this, region
      ensures Valid() && region == old(region)
      ensures Log == old(Log) + d && CurSize() == curSize + |d|
      ensures region[CurSize()..] == old(region[..])[CurSize()..]
    {
      ghost var before := region[..];
      MemCopy(region, curSize, d);
      ghost var appended := region[..];
      var newSize := curSize + |d|;
      var prefix := EncodeLE(newSize, SIZE_T_BYTES);
      MemCopy(region, 0, prefix);
      Log := Log + d;
      AppendedLog(before, appended, region[..], Log, old(Log), d, prefix);
      DecodeEncodeLE(newSize, SIZE_T_BYTES);
    }

    /**
     * journal_read: PARAMS_NULL for a missing buffer or size, which is left
     * as it was; ERROR_READ and a size of 0 when *buffer_size < cur_size
     * (the prefix included); otherwise the whole log is copied into the
     * buffer and *buffer_size becomes cur_size - 8.
     */
    method Read(buffer: array?<byte>, bufferSize: Option<nat>) returns (status: JournalStatus, newBufferSize: Option<nat>)
      requires Valid()
      requires buffer != null && bufferSize.Some? ==> bufferSize.value <= buffer.Length
      requires buffer != region
      modifies buffer
      ensures buffer == null || bufferSize.None? ==> status == JournalErrorParamsNull && newBufferSize == bufferSize
      ensures buffer != null && bufferSize.None? ==> buffer[..] == old(buffer[..])
      ensures buffer != null && bufferSize.Some? && bufferSize.value < CurSize() ==>
        status == JournalErrorRead && newBufferSize == Some(0) && buffer[..] == old(buffer[..])
      ensures buffer != null && bufferSize.Some? && bufferSize.value >= CurSize() ==>
        && status == JournalSuccess && newBufferSize == Some(|Log|)
        && buffer[..] == Spliced(old(buffer[..]), 0, Log)
    {
      if buffer == null || bufferSize.None? {
        return JournalErrorParamsNull, bufferSize;
      }
      var curSize := DecodeLE(region[..SIZE_T_BYTES]);
      if bufferSize.value < curSize {
        return JournalErrorRead, Some(0);
      }
      MemCopy(buffer, 0, region[SIZE_T_BYTES..curSize]);
      newBufferSize := Some(curSize - SIZE_T_BYTES);
      status := JournalSuccess;
    }
  }

  /**
   * The bytes after the prefix of a region in which a log is followed by d
   * and the prefix is then rewritten hold the log and d.
   */
  lemma AppendedLog(before: seq<byte>, appended: seq<byte>, after: seq<byte>, log: seq<byte>, oldLog: seq<byte>, d: seq<byte>, prefix: seq<byte>)
    requires |prefix| == SIZE_T_BYTES && SIZE_T_BYTES + |oldLog| + |d| <= |before|
    requires before[SIZE_T_BYTES..SIZE_T_BYTES + |oldLog|] == oldLog && log == oldLog + d
    requires appended == Spliced(before, SIZE_T_BYTES + |oldLog|, d)
    requires after == Spliced(appended, 0, prefix)
    ensures after[..SIZE_T_BYTES] == prefix
    ensures after[SIZE_T_BYTES..SIZE_T_BYTES + |log|] == log
    ensures after[SIZE_T_BYTES + |log|..] == before[SIZE_T_BYTES + |log|..]
  {
  }

  /** journal_create: NULL for a size of at most sizeof(size_t); otherwise an empty journal of that size. */
  method Create(size: nat) returns (j: Journal?)
    requires size < Pow256(SIZE_T_BYTES)
    ensures j == null <==> size <= SIZE_T_BYTES
    ensures j != null ==> fresh(j) && fresh(j.region) && j.Valid() && j.maxSize == size && j.Log == [] && j.CurSize() == SIZE_T_BYTES
  {
    if size <= SIZE_T_BYTES {
      return null;
    }
    j := new Journal.Init(size);
  }

  /** The create scenario: a journal of 1024 bytes is created with that maximum and nothing logged. */
  method CreateScenario() returns (created: bool, maxSize: nat, curSize: nat)
    ensures created && maxSize == 1024 && curSize == SIZE_T_BYTES
  {
    Pow256Eight();
    var j := Create(1024);
    created := j != null;
    maxSize := j.maxSize;
    curSize := j.CurSize();
  }

  /** 2^64, the number of values of a size_t. */
  lemma Pow256Eight()
    ensures Pow256(SIZE_T_BYTES) == 0x1_0000_0000_0000_0000
  {
  }

  /** Two successful writes into a new 1024-byte journal log the first data and then the second. */
  method WriteTwice(first: seq<byte>, second: seq<byte>)
    returns (j: Journal, firstStatus: JournalStatus, secondStatus: JournalStatus)
    requires 0 < |first| && 0 < |second| && |first| + |second| <= 1024 - SIZE_T_BYTES
    ensures fresh(j) && fresh(j.region) && j.Valid() && j.maxSize == 1024
    ensures firstStatus == JournalSuccess && secondStatus == JournalSuccess
    ensures j.Log == first + second
  {
    Pow256Eight();
    j := new Journal.Init(1024);
    firstStatus := j.Write(Some(first));
    secondStatus := j.Write(Some(second));
  }

  /**
   * The write/read scenario: two successful writes into a 1024-byte journal
   * are read back, one after the other, into a 1024-byte buffer, with the
   * size set to their total length.
   */
  method WriteReadScenario(first: seq<byte>, second: seq<byte>)
    returns (firstStatus: JournalStatus, secondStatus: JournalStatus, readStatus: JournalStatus,
             readSize: Option<nat>, readBack: seq<byte>)
    requires 0 < |first| && 0 < |second| && |first| + |second| <= 1024 - SIZE_T_BYTES
    ensures firstStatus == JournalSuccess && secondStatus == JournalSuccess && readStatus == JournalSuccess
    ensures readSize == Some(|first| + |second|)
    ensures readBack == first + second
  {
    var j;
    j, firstStatus, secondStatus := WriteTwice(first, second);
    var buffer := new byte[1024];
    ghost var stale := buffer[..];
    readStatus, readSize := j.Read(buffer, Some(1024));
    readBack := buffer[..|first| + |second|];
    SplicedRead(stale, 0, first + second);
  }

  /** The no-space scenario: more than two bytes do not fit a 10-byte journal, and the log stays empty. */
  method NoSpaceScenario(data: seq<byte>) returns (status: JournalStatus, curSize: nat)
    requires |data| > 10 - SIZE_T_BYTES
    ensures status == JournalErrorNoSpace && curSize == SIZE_T_BYTES
  {
    Pow256Eight();
    var j := new Journal.Init(10);
    status := j.Write(Some(data));
    curSize := j.CurSize();
  }

  /**
   * The too-small-buffer scenario: after writing n bytes, a buffer size below
   * n + 8 is refused and set to 0; even a size of exactly n, room enough
   * for the log, is refused, because it is compared with cur_size.
   */
  method BufferTooSmallScenario(data: seq<byte>, size: nat) returns (status: JournalStatus, newSize: Option<nat>)
    requires 0 < |data| <= 1024 - SIZE_T_BYTES && size < |data| + SIZE_T_BYTES
    ensures status == JournalErrorRead && newSize == Some(0)
  {
    Pow256Eight();
    var j := new Journal.Init(1024);
    var writeStatus := j.Write(Some(data));
    var buffer := new byte[size];
    status, newSize := j.Read(buffer, Some(size));
  }

  /** The empty-journal scenario: reading a fresh journal succeeds with size 0. */
  method EmptyReadScenario() returns (status: JournalStatus, newSize: Option<nat>)
    ensures status == JournalSuccess && newSize == Some(0)
  {
    Pow256Eight();
    var j := new Journal.Init(1024);
    var buffer := new byte[1024];
    status, newSize := j.Read(buffer, Some(1024));
  }
}
