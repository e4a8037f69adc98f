/**
 * The shared region of server/shared_memory.c: the size rule of
 * shared_memory_create and the bounds-checked copy of shared_memory_write.
 * The region stands for the mapped shared-memory object, which a fresh
 * ftruncate leaves zero-filled; opening, mapping and the mutex are not
 * modelled.
 */
module SharedMemories {
  import opened Common

  /** SHARED_MEMORY_SIZE: 5 MiB. */
  const SHARED_MEMORY_SIZE: nat := 5 * 1024 * 1024

  /** shared_memory_status_t. */
  datatype SharedMemoryStatus =
    | ShmSuccess
    | ShmErrorNullPointer
    | ShmErrorMemoryAlloc
    | ShmErrorShmOpen
    | ShmErrorMmap
    | ShmErrorMutexInit
    | ShmErrorMutexLock
    | ShmErrorMutexUnlock
    | ShmErrorMutexDestroy
    | ShmErrorMunmap
    | ShmErrorShmUnlink

  /** shared_memory_t: the mapped region and its size. */
  class SharedMemory {
    const size: nat
    var region: array<byte>

    ghost predicate Valid()
      reads this
    {
      0 < size <= SHARED_MEMORY_SIZE && region.Length == size
    }

    /** The mapping part of shared_memory_create: a zero-filled region of the given size. */
    constructor Init(size: nat)
      requires 0 < size <= SHARED_MEMORY_SIZE
      ensures Valid() && fresh(region) && this.size == size
      ensures forall i :: 0 <= i < size ==> region[i] == 0
    {
      this.size := size;
      region := new byte[size](_ => 0);
    }

    /**
     * shared_memory_write: NULL_POINTER for missing data;
     * ERROR_MEMORY_ALLOC with nothing changed when offset + data_size
     * exceeds the size; otherwise the data is copied at the offset.
     */
    method Write(data: Option<seq<byte>>, offset: nat) returns (status: SharedMemoryStatus)
      requires Valid()
      modifies region
      ensures data.None? ==> status == ShmErrorNullPointer && region[..] == old(region[..])
      ensures data.Some? && offset + |data.value| > size ==>
        status == ShmErrorMemoryAlloc && region[..] == old(region[..])
      ensures data.Some? && offset + |data.value| <= size ==>
        status == ShmSuccess && region[..] == Spliced(old(region[..]), offset, data.value)
    {
      if data.None? {
        return ShmErrorNullPointer;
      }
      if offset + |data.value| > size {
        return ShmErrorMemoryAlloc;
      }
      MemCopy(region, offset, data.value);
      status := ShmSuccess;
    }
  }

  /** The size rule of shared_memory_create: NULL for 0 or more than 5 MiB, else a region of that size. */
  method Create(size: nat) returns (shm: SharedMemory?)
    ensures shm == null <==> size == 0 || size > SHARED_MEMORY_SIZE
    ensures shm != null ==> fresh(shm) && fresh(shm.region) && shm.Valid() && shm.size == size
    ensures shm != null ==> forall i :: 0 <= i < size ==> shm.region[i] == 0
  {
    if size == 0 || size > SHARED_MEMORY_SIZE {
      return null;
    }
    shm := new SharedMemory.Init(size);
  }

  /**
   * The write scenario: data written at an offset into a fresh region is
   * found there, and every other byte is still 0.
   */
  method WriteScenario(size: nat, data: seq<byte>, offset: nat) returns (status: SharedMemoryStatus, contents: seq<byte>)
    requires 0 < size <= SHARED_MEMORY_SIZE && offset + |data| <= size
    ensures status == ShmSuccess && |contents| == size
    ensures contents[offset..offset + |data|] == data
    ensures forall i :: 0 <= i < size && !(offset <= i < offset + |data|) ==> contents[i] == 0
  {
    var shm := Create(size);
    ghost var zeros := shm.region[..];
    status := shm.Write(Some(data), offset);
    contents := shm.region[..];
    SplicedRead(zeros, offset, data);
  }

  /** The bounds scenario: a write running past the end of a fresh region is refused and the region stays zero. */
  method OutOfBoundsScenario(size: nat, data: seq<byte>, offset: nat) returns (status: SharedMemoryStatus, contents: seq<byte>)
    requires 0 < size <= SHARED_MEMORY_SIZE && offset + |data| > size
    ensures status == ShmErrorMemoryAlloc
    ensures contents == seq(size, _ => 0)
  {
    var shm := Create(size);
    status := shm.Write(Some(data), offset);
    contents := shm.region[..];
  }
}
