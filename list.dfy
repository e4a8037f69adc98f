/**
 * The growable list that the DEFINE_LIST macro of Utils.h expands to,
 * instantiated for int as that header does: a data array of `size` slots
 * of which the first `count` are in use, grown by realloc to 1 slot and
 * then by doubling whenever a push finds it full.
 */
module Lists {

  /** C int. */
  newtype int32 = x: int | -0x8000_0000 <= x < 0x8000_0000

  /** The size after a push on a list holding `count` elements in `size` slots. */
  function PushedSize(count: nat, size: nat): (r: nat)
    requires count <= size
    ensures count < r
    ensures count < size ==> r == size
    ensures count == size && size == 0 ==> r == 1
    ensures count == size && size > 0 ==> r == 2 * size
  {
    if count != size then size else if size == 0 then 1 else 2 * size
  }

  /** n is 1, 2, 4, 8, ... */
  predicate IsPowerOfTwo(n: nat)
    decreases n
  {
    n == 1 || (n > 1 && n % 2 == 0 && IsPowerOfTwo(n / 2))
  }

  /** The size of a new list after n pushes and no pops. */
  function SizeAfterPushes(n: nat): (r: nat)
    ensures n <= r
  {
    if n == 0 then 0 else PushedSize(n - 1, SizeAfterPushes(n - 1))
  }

  /**
   * n pushes onto a new list leave it with the least power of two slots
   * that holds them: a power of two, at least n and less than 2n.
   */
  lemma {:induction false} SizeAfterPushesIsLeastPowerOfTwo(n: nat)
    requires n > 0
    ensures IsPowerOfTwo(SizeAfterPushes(n))
    ensures n <= SizeAfterPushes(n) < 2 * n
  {
    if n > 1 {
      var s := SizeAfterPushes(n - 1);
      SizeAfterPushesIsLeastPowerOfTwo(n - 1);
      if s == n - 1 {
        assert SizeAfterPushes(n) == 2 * s;
        assert (2 * s) / 2 == s;
      }
    }
  }

  /** list_int: `data` holds `size` slots, the first `count` in use. */
  class IntList {
    var data: array<int32>
    var count: nat
    var size: nat

    ghost predicate Valid()
      reads this
    {
      count <= size == data.Length
    }

    /** The elements in use, oldest first. */
    function Elements(): (r: seq<int32>)
      reads this, data
      requires Valid()
      ensures |r| == count
    {
      data[..count]
    }

    /** list_int_new: no data, count = size = 0. */
    constructor New()
      ensures Valid() && fresh(data) && count == 0 && size == 0 && Elements() == []
    {
      data := new int32[0];
      count, size := 0, 0;
    }

    /**
     * list_int_push: on a full list, grows the data to 1 slot or to twice
     * its slots, keeping the elements; then stores elem at index count and
     * increments count.
     */
    method Push(elem: int32)
      requires Valid()
      modifies this, data
      ensures Valid()
      ensures count == old(count) + 1 && size == PushedSize(old(count), old(size))
      ensures Elements() == old(Elements()) + [elem]
      ensures old(count) < old(size) ==> data == old(data)
      ensures old(count) == old(size) ==> fresh(data)
    {
      if count == size {
        size := if size != 0 then 2 * size else 1;
        data := Realloc(data, size);
      }
      data[count] := elem;
      count := count + 1;
    }

    /** list_int_pop, defined only for a non-empty list: the element pushed last. */
    method Pop() returns (elem: int32)
      requires Valid() && count > 0
      modifies this
      ensures Valid() && size == old(size) && data == old(data) && data[..] == old(data[..])
      ensures count == old(count) - 1
      ensures elem == old(Elements())[old(count) - 1]
      ensures Elements() == old(Elements())[..old(count) - 1]
    {
      count := count - 1;
      elem := data[count];
    }

    /** list_int_free: drops the data and leaves count = size = 0. */
    method Free()
      requires Valid()
      modifies this
      ensures Valid() && fresh(data) && count == 0 && size == 0 && Elements() == []
    {
      data := new int32[0];
      count, size := 0, 0;
    }
  }

  /** realloc to newSize slots: a new block holding the old block's contents first. */
  method Realloc(block: array<int32>, newSize: nat) returns (a: array<int32>)
    requires block.Length <= newSize
    ensures fresh(a) && a.Length == newSize
    ensures a[..block.Length] == block[..]
  {
    a := new int32[newSize];
    forall i | 0 <= i < block.Length {
      a[i] := block[i];
    }
  }

  /**
   * The scenario of test_list: 22 pushed and popped comes back; then 11,
   * 12, 13 pushed lie at indices 0, 1, 2 in a list of 4 slots, and free
   * empties it.
   */
  method ListScenario() returns (popped: int32, elements: seq<int32>, size: nat, countAfterFree: nat, sizeAfterFree: nat)
    ensures popped == 22
    ensures elements == [11, 12, 13] && size == 4
    ensures countAfterFree == 0 && sizeAfterFree == 0
  {
    var numbers := new IntList.New();
    numbers.Push(22);
    popped := numbers.Pop();
    numbers.Push(11);
    numbers.Push(12);
    numbers.Push(13);
    elements, size := numbers.Elements(), numbers.size;
    numbers.Free();
    countAfterFree, sizeAfterFree := numbers.count, numbers.size;
  }

  /** Pushes on a new list keep the pushed order and need the least power of two slots. */
  method PushAllScenario(xs: seq<int32>) returns (elements: seq<int32>, size: nat)
    requires |xs| > 0
    ensures elements == xs
    ensures IsPowerOfTwo(size) && |xs| <= size < 2 * |xs|
  {
    var l := new IntList.New();
    var i := 0;
    while i < |xs|
      invariant 0 <= i <= |xs|
      invariant l.Valid() && l.Elements() == xs[..i] && l.size == SizeAfterPushes(i)
      invariant fresh(l) && fresh(l.data)
      decreases |xs| - i
    {
      l.Push(xs[i]);
      assert xs[..i + 1] == xs[..i] + [xs[i]];
      i := i + 1;
    }
    assert xs[..i] == xs;
    SizeAfterPushesIsLeastPowerOfTwo(|xs|);
    elements, size := l.Elements(), l.size;
  }
}
