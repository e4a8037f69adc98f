/**
 * The bounded message queue of network/message_queue.c: a circular array
 * of message pointers with `head` and `tail` indices, where head == tail
 * means empty (so at most capacity - 1 messages are held) and an enqueue
 * that would fill the ring first frees the capacity / 2 oldest messages.
 * The mutex and condition variable are not modelled: operations run one
 * at a time, and a blocking dequeue is entered only on a non-empty queue.
 */
module MessageQueues {
  import opened Messages

  /** message_queue_status_t. */
  datatype QueueStatus =
    | QueueSuccess
    | QueueErrorNullPointer
    | QueueErrorMemoryAlloc
    | QueueErrorMutex
    | QueueErrorCondvar
    | QueueErrorQueueFull

  /** Reduces an index below 2 * capacity into the ring. */
  function Wrap(x: nat, capacity: nat): (r: nat)
    requires 0 < capacity && x < 2 * capacity
    ensures r < capacity
  {
    if x < capacity then x else x - capacity
  }

  /** The C expression x % capacity agrees with Wrap on the indices the queue computes. */
  lemma ModIsWrap(x: nat, capacity: nat)
    requires 0 < capacity && x < 2 * capacity
    ensures x % capacity == Wrap(x, capacity)
  {
  }

  /** One step past a wrapped index is the wrapped index one further on. */
  lemma WrapNext(x: nat, capacity: nat)
    requires 0 < capacity && x + 1 < 2 * capacity
    ensures Wrap(Wrap(x, capacity) + 1, capacity) == Wrap(x + 1, capacity)
  {
  }

  /** Indices less than a capacity apart wrap to the same slot only if equal. */
  lemma WrapInjective(a: nat, b: nat, capacity: nat)
    requires 0 < capacity && a < 2 * capacity && b < 2 * capacity
    requires a <= b < a + capacity
    requires Wrap(a, capacity) == Wrap(b, capacity)
    ensures a == b
  {
  }

  /** Distinct indices less than a capacity apart wrap to distinct slots. */
  lemma WrapDistinct(a: nat, b: nat, capacity: nat)
    requires 0 < capacity && a < b < a + capacity && b < 2 * capacity
    ensures Wrap(a, capacity) != Wrap(b, capacity)
  {
  }

  /** A count below the capacity is recovered from the wrapped end index. */
  lemma RingDistance(h: nat, n: nat, capacity: nat)
    requires h < capacity && n < capacity
    ensures n == (Wrap(h + n, capacity) - h) % capacity
  {
  }

  /** True when an enqueue on a queue holding `count` messages finds next_tail == head. */
  predicate Full(count: nat, capacity: nat) {
    count + 1 >= capacity
  }

  /**
   * Full is the test of message_queue_enqueue: with `count` messages from
   * `head`, the tail is Wrap(head + count), and (tail + 1) % capacity is
   * the head exactly when the ring is full.
   */
  lemma FullIffNextTailIsHead(head: nat, count: nat, capacity: nat)
    requires head < capacity && count < capacity
    ensures Full(count, capacity) <==> (Wrap(head + count, capacity) + 1) % capacity == head
  {
    var tail := Wrap(head + count, capacity);
    ModIsWrap(tail + 1, capacity);
    WrapNext(head + count, capacity);
    if !Full(count, capacity) {
      WrapDistinct(head, head + count + 1, capacity);
    }
  }

  /** The messages enqueue frees: on a full ring, the capacity / 2 oldest. */
  function EnqueueFreed<T>(contents: seq<T>, capacity: nat): (r: seq<T>)
    requires 0 < capacity && |contents| < capacity
    ensures |r| <= |contents|
  {
    if Full(|contents|, capacity) then contents[..capacity / 2] else []
  }

  /**
   * The messages held, oldest first, after enqueuing m. A full ring keeps
   * its survivors and then m, except with capacity 1, where the new tail
   * equals the head and the ring reads as empty.
   */
  function EnqueueContents<T>(contents: seq<T>, capacity: nat, m: T): (r: seq<T>)
    requires 0 < capacity && |contents| < capacity
    ensures |r| < capacity
  {
    if !Full(|contents|, capacity) then contents + [m]
    else if capacity == 1 then []
    else contents[capacity / 2..] + [m]
  }

  /** Below the full mark, enqueue appends and frees nothing. */
  lemma EnqueueNotFull<T>(contents: seq<T>, capacity: nat, m: T)
    requires 0 < capacity && |contents| + 1 < capacity
    ensures EnqueueContents(contents, capacity, m) == contents + [m]
    ensures EnqueueFreed(contents, capacity) == []
  {
  }

  /**
   * With capacity at least 2 no message is lost: the freed messages followed
   * by the held ones are exactly the old contents followed by m, and on a
   * full ring capacity - capacity / 2 messages remain.
   */
  lemma EnqueueConserves<T>(contents: seq<T>, capacity: nat, m: T)
    requires 2 <= capacity && |contents| < capacity
    ensures EnqueueFreed(contents, capacity) + EnqueueContents(contents, capacity, m) == contents + [m]
    ensures Full(|contents|, capacity) ==>
      |EnqueueContents(contents, capacity, m)| == capacity - capacity / 2
  {
  }

  /** With capacity 1 every enqueue leaves the ring empty and frees nothing: the message is lost. */
  lemma EnqueueCapacityOneLoses<T>(contents: seq<T>, m: T)
    requires |contents| < 1
    ensures EnqueueContents(contents, 1, m) == []
    ensures EnqueueFreed(contents, 1) == []
  {
  }

  /** The contents after enqueuing every element of ms in turn. */
  function EnqueueAll<T>(contents: seq<T>, capacity: nat, ms: seq<T>): (r: seq<T>)
    requires 0 < capacity && |contents| < capacity
    ensures |r| < capacity
    decreases |ms|
  {
    if ms == [] then contents
    else EnqueueAll(EnqueueContents(contents, capacity, ms[0]), capacity, ms[1..])
  }

  /** FIFO: enqueues that never fill the ring leave the messages in the order they were enqueued. */
  lemma {:induction false} EnqueueAllInOrder<T>(contents: seq<T>, capacity: nat, ms: seq<T>)
    requires 0 < capacity && |contents| + |ms| < capacity
    ensures EnqueueAll(contents, capacity, ms) == contents + ms
    decreases |ms|
  {
    if ms != [] {
      EnqueueNotFull(contents, capacity, ms[0]);
      EnqueueAllInOrder(contents + [ms[0]], capacity, ms[1..]);
      assert contents + [ms[0]] + ms[1..] == contents + ms;
    }
  }

  /** The ring slots from `head` on hold `contents`, oldest first. */
  ghost predicate Holds<T>(slots: seq<T>, head: nat, contents: seq<T>)
    requires 0 < |slots| && head < |slots| && |contents| < |slots|
  {
    forall j {:trigger contents[j]} :: 0 <= j < |contents| ==> slots[Wrap(head + j, |slots|)] == contents[j]
  }

  /** Taking the oldest element off advances the head by one slot. */
  lemma HoldsAdvance<T>(slots: seq<T>, head: nat, contents: seq<T>)
    requires 0 < |slots| && head < |slots| && 0 < |contents| < |slots|
    requires Holds(slots, head, contents)
    ensures slots[head] == contents[0]
    ensures Holds(slots, Wrap(head + 1, |slots|), contents[1..])
  {
  }

  /** Writing a new element in the slot after the last one appends it. */
  lemma HoldsAppend<T>(slots: seq<T>, head: nat, contents: seq<T>, m: T)
    requires 0 < |slots| && head < |slots| && |contents| + 1 < |slots|
    requires Holds(slots, head, contents)
    ensures Holds(slots[Wrap(head + |contents|, |slots|) := m], head, contents + [m])
  {
  }

  /** The slot count positions past head is reached by count steps of one slot. */
  lemma HoldsPrefix<T>(slots: seq<T>, head: nat, contents: seq<T>, k: nat)
    requires 0 < |slots| && head < |slots| && k < |contents| < |slots|
    requires Holds(slots, head, contents)
    ensures slots[Wrap(head + k, |slots|)] == contents[k]
  {
  }

  /** message_queue_t. */
  class Queue {
    var buffer: array<Message?>
    var capacity: nat
    var head: nat
    var tail: nat
    /** The messages held, oldest (at head) first. */
    ghost var Contents: seq<Message>

    /** The slots head, head + 1, ..., tail - 1 (mod capacity) hold Contents. */
    ghost predicate Valid()
      reads this, buffer
    {
      && 0 < capacity == buffer.Length
      && head < capacity
      && |Contents| < capacity
      && tail == Wrap(head + |Contents|, capacity)
      && Holds(buffer[..], head, Contents)
    }

    /** The allocation part of message_queue_create; the capacity check is in Create. */
    constructor Init(capacity: nat)
      requires capacity > 0
      ensures Valid() && fresh(buffer)
      ensures this.capacity == capacity && head == 0 && tail == 0 && Contents == []
    {
      buffer := new Message?[capacity];
      this.capacity := capacity;
      head, tail := 0, 0;
      Contents := [];
    }

    /** head == tail exactly when the queue is empty. */
    lemma EmptyIffHeadIsTail()
      requires Valid()
      ensures head == tail <==> Contents == []
    {
    }

    /** The number held is (tail - head) mod capacity, taken as a mathematical (non-negative) remainder. */
    lemma CountIsDistance()
      requires Valid()
      ensures |Contents| == (tail - head) % capacity
    {
      RingDistance(head, |Contents|, capacity);
    }

    /**
     * message_queue_enqueue. A NULL message is refused with nothing changed.
     * Otherwise, on a full ring the capacity / 2 oldest messages are freed
     * (returned in `freed`), then the message is written at `tail` and
     * `tail` advances by one modulo the capacity.
     */
    method Enqueue(m: Message?) returns (status: QueueStatus, freed: seq<Message>)
      requires Valid()
      modifies this, buffer
      ensures Valid() && buffer == old(buffer) && capacity == old(capacity)
      ensures m == null ==>
        && status == QueueErrorNullPointer && freed == []
        && Contents == old(Contents) && head == old(head) && tail == old(tail)
        && buffer[..] == old(buffer[..])
      ensures m != null ==>
        && status == QueueSuccess
        && Contents == EnqueueContents(old(Contents), capacity, m)
        && freed == EnqueueFreed(old(Contents), capacity)
        && tail == (old(tail) + 1) % capacity
        && buffer[..] == old(buffer[..])[old(tail) := m]
      ensures m != null && !Full(|old(Contents)|, capacity) ==> head == old(head)
      ensures m != null && Full(|old(Contents)|, capacity) ==> head == (old(head) + capacity / 2) % capacity
    {
      if m == null {
        return QueueErrorNullPointer, [];
      }
      var nextTail := (tail + 1) % capacity;
      FullIffNextTailIsHead(head, |Contents|, capacity);
      freed := [];
      if nextTail == head {
        freed := EvictOldest(nextTail);
      }
      Store(m);
      status := QueueSuccess;
    }

    /**
     * The tail step of message_queue_enqueue, on a ring with room for one
     * more: buffer[tail] = m, then tail = (tail + 1) % capacity.
     */
    method Store(m: Message)
      requires Valid() && (capacity == 1 || |Contents| + 1 < capacity)
      modifies this, buffer
      ensures Valid() && buffer == old(buffer) && capacity == old(capacity) && head == old(head)
      ensures tail == (old(tail) + 1) % capacity
      ensures buffer[..] == old(buffer[..])[old(tail) := m]
      // A ring of capacity 1 reads as empty once tail == head again.
      ensures Contents == if capacity == 1 then [] else old(Contents) + [m]
    {
      ghost var slots := buffer[..];
      ModIsWrap(tail + 1, capacity);
      WrapNext(head + |Contents|, capacity);
      if capacity > 1 {
        HoldsAppend(slots, head, Contents, m);
      }
      buffer[tail] := m;
      assert buffer[..] == slots[tail := m];
      tail := (tail + 1) % capacity;
      Contents := if capacity == 1 then [] else Contents + [m];
    }

    /**
     * The overflow loop of message_queue_enqueue: frees messages from head
     * until head reaches (next_tail + capacity / 2) % capacity, where
     * next_tail == head on a full ring, so the capacity / 2 oldest go.
     */
    method EvictOldest(nextTail: nat) returns (freed: seq<Message>)
      requires Valid() && Full(|Contents|, capacity) && nextTail == head
      modifies this
      ensures Valid() && buffer == old(buffer) && capacity == old(capacity) && tail == old(tail)
      ensures head == (old(head) + capacity / 2) % capacity
      ensures Contents == old(Contents)[capacity / 2..] && freed == old(Contents)[..capacity / 2]
    {
      ghost var half := capacity / 2;
      ModIsWrap(nextTail + half, capacity);
      var target := (nextTail + capacity / 2) % capacity;
      ghost var k := 0;
      ghost var held := Contents;
      freed := [];
      while head != target
        invariant Valid() && buffer == old(buffer) && capacity == old(capacity) && tail == old(tail)
        invariant 0 <= k <= half
        invariant head == Wrap(nextTail + k, capacity)
        invariant Contents == held[k..] && freed == held[..k]
        decreases half - k
      {
        if k == half {
          assert false;
        }
        // tmp = buffer[head]; SAFE_FREE(tmp); head = (head + 1) % capacity
        var tmp := Dequeue();
        WrapNext(nextTail + k, capacity);
        assert held[..k + 1] == held[..k] + [tmp];
        freed := freed + [tmp];
        k := k + 1;
        assert held[k..] == held[k - 1..][1..];
      }
      WrapInjective(nextTail + k, nextTail + half, capacity);
    }

    /** message_queue_dequeue, entered once the queue is non-empty: returns the oldest message. */
    method Dequeue() returns (m: Message)
      requires Valid() && Contents != []
      modifies this
      ensures Valid() && buffer == old(buffer) && capacity == old(capacity)
      ensures m == old(Contents)[0] && Contents == old(Contents)[1..]
      ensures head == (old(head) + 1) % capacity == Wrap(old(head) + 1, capacity) && tail == old(tail)
    {
      HoldsAdvance(buffer[..], head, Contents);
      m := buffer[head];
      ModIsWrap(head + 1, capacity);
      head := (head + 1) % capacity;
      Contents := Contents[1..];
    }

    /** message_queue_dequeue_nonblocking: NULL and no change on an empty queue, otherwise as Dequeue. */
    method DequeueNonblocking() returns (m: Message?)
      requires Valid()
      modifies this
      ensures Valid() && buffer == old(buffer) && capacity == old(capacity)
      ensures m == null <==> old(Contents) == []
      ensures m == null ==> Contents == old(Contents) && head == old(head) && tail == old(tail)
      ensures m != null ==>
        && m == old(Contents)[0] && Contents == old(Contents)[1..]
        && head == (old(head) + 1) % capacity && tail == old(tail)
    {
      if head == tail {
        return null;
      }
      m := Dequeue();
    }

    /** message_queue_wait: exactly message_queue_dequeue. */
    method Wait() returns (m: Message)
      requires Valid() && Contents != []
      modifies this
      ensures Valid() && buffer == old(buffer) && capacity == old(capacity)
      ensures m == old(Contents)[0] && Contents == old(Contents)[1..]
      ensures head == (old(head) + 1) % capacity && tail == old(tail)
    {
      m := Dequeue();
    }

    /**
     * message_queue_delete: frees (returns in `freed`) every message in
     * positions head .. tail - 1, oldest first, and resets head = tail = 0.
     */
    method Delete() returns (freed: seq<Message>)
      requires Valid()
      modifies this
      ensures Valid() && buffer == old(buffer) && capacity == old(capacity)
      ensures freed == old(Contents)
      ensures head == 0 && tail == 0 && Contents == []
    {
      freed := HeldMessages();
      head, tail := 0, 0;
      Contents := [];
    }

    /**
     * The loop of message_queue_delete: visits positions head, head + 1,
     * ... (mod capacity) up to tail and collects the message in each, so
     * exactly the held messages, oldest first, are the ones freed.
     */
    method HeldMessages() returns (freed: seq<Message>)
      requires Valid()
      ensures freed == Contents
    {
      var i := head;
      freed := [];
      ghost var k := 0;
      while i != tail
        invariant i < capacity && 0 <= k <= |Contents|
        invariant i == Wrap(head + k, capacity)
        invariant freed == Contents[..k]
        decreases |Contents| - k
      {
        HoldsPrefix(buffer[..], head, Contents, k);
        var tmp := buffer[i];
        assert Contents[..k + 1] == Contents[..k] + [Contents[k]];
        if tmp != null {
          freed := freed + [tmp];
        }
        ModIsWrap(i + 1, capacity);
        i := (i + 1) % capacity;
        k := k + 1;
      }
      assert k == |Contents|;
    }
  }

  /** message_queue_create: NULL for a capacity <= 0, otherwise an empty queue with head = tail = 0. */
  method Create(capacity: int) returns (q: Queue?)
    ensures q == null <==> capacity <= 0
    ensures q != null ==>
      && fresh(q) && fresh(q.buffer) && q.Valid()
      && q.capacity == capacity && q.head == 0 && q.tail == 0 && q.Contents == []
  {
    if capacity <= 0 {
      return null;
    }
    q := new Queue.Init(capacity);
  }

  /** The first half of the overflow scenario: three enqueues into a fresh queue of capacity 4. */
  method FillThree(m1: Message, m2: Message, m3: Message) returns (q: Queue)
    ensures fresh(q) && fresh(q.buffer) && q.Valid() && q.capacity == 4
    ensures q.head == 0 && q.tail == 3 && q.Contents == [m1, m2, m3]
  {
    var created := Create(4);
    q := created;
    var s, f;
    s, f := q.Enqueue(m1);
    s, f := q.Enqueue(m2);
    s, f := q.Enqueue(m3);
  }

  /**
   * The overflow scenario: in a queue of capacity 4, three enqueues leave
   * head = 0, tail = 3; a fourth frees the two oldest and leaves head = 2,
   * tail = 0, after which the third and fourth messages are dequeued.
   */
  method OverflowScenario(m1: Message, m2: Message, m3: Message, m4: Message)
    returns (headBefore: nat, tailBefore: nat, headAfter: nat, tailAfter: nat,
             freed: seq<Message>, first: Message, second: Message)
    ensures headBefore == 0 && tailBefore == 3
    ensures headAfter == 2 && tailAfter == 0
    ensures freed == [m1, m2]
    ensures first == m3 && second == m4
  {
    var q := FillThree(m1, m2, m3);
    headBefore, tailBefore := q.head, q.tail;
    var s;
    s, freed := q.Enqueue(m4);
    headAfter, tailAfter := q.head, q.tail;
    first := q.Dequeue();
    second := q.Dequeue();
  }

  /**
   * The FIFO scenario: two messages enqueued in a queue of capacity 3 come
   * out in the same order, head advancing to 1 and then 2.
   */
  method FifoScenario(m1: Message, m2: Message)
    returns (first: Message, headAfterFirst: nat, second: Message, headAfterSecond: nat, rest: Message?)
    ensures first == m1 && headAfterFirst == 1
    ensures second == m2 && headAfterSecond == 2
    ensures rest == null
  {
    var q := Create(3);
    var s, f;
    s, f := q.Enqueue(m1);
    s, f := q.Enqueue(m2);
    first := q.Dequeue();
    headAfterFirst := q.head;
    second := q.Dequeue();
    headAfterSecond := q.head;
    rest := q.DequeueNonblocking();
  }

  /** With capacity 1 an enqueued message can never be dequeued, and it is not freed either. */
  method CapacityOneScenario(m: Message) returns (status: QueueStatus, freed: seq<Message>, out: Message?)
    ensures status == QueueSuccess && freed == [] && out == null
  {
    var q := Create(1);
    status, freed := q.Enqueue(m);
    out := q.DequeueNonblocking();
  }
}
