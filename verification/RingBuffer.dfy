/** The fixed-size queue of one producer and one consumer, a circular buffer with one place kept free. */
module RingBuffer {
  import opened Machine

  /** The next place around a buffer of n places. */
  function Next(i: nat, n: nat): nat {
    if i + 1 < n then i + 1 else 0
  }

  /** The elements from start up to end, going round the buffer. */
  ghost function Items<T>(buffer: seq<T>, start: nat, end: nat): (r: seq<T>)
    requires start < |buffer| && end < |buffer|
    ensures |r| == if start <= end then end - start else end - start + |buffer|
  {
    if start <= end then buffer[start..end] else buffer[start..] + buffer[..end]
  }

  /** Writing at the free place at the end and then moving the end appends the element. */
  lemma ItemsPushed<T>(buffer: seq<T>, start: nat, end: nat, x: T)
    requires start < |buffer| && end < |buffer| && Next(end, |buffer|) != start
    ensures Items(buffer[end := x], start, end) == Items(buffer, start, end)
    ensures Items(buffer[end := x], start, Next(end, |buffer|)) == Items(buffer, start, end) + [x]
  {
  }

  lemma ItemsPopped<T>(buffer: seq<T>, start: nat, end: nat)
    requires start < |buffer| && end < |buffer| && start != end
    ensures Items(buffer, start, end) == [buffer[start]] + Items(buffer, Next(start, |buffer|), end)
  {
    if start < end {
      assert buffer[start..end] == [buffer[start]] + buffer[start + 1..end];
    } else if start + 1 < |buffer| {
      assert buffer[start..] == [buffer[start]] + buffer[start + 1..];
      assert buffer[start..] + buffer[..end] == [buffer[start]] + (buffer[start + 1..] + buffer[..end]);
    } else {
      assert buffer[start..] == [buffer[start]];
      assert buffer[0..end] == buffer[..end];
    }
  }

  /** One place stays free: the queue is full with one element less than the buffer has places. */
  lemma FullExactly<T>(buffer: seq<T>, start: nat, end: nat)
    requires start < |buffer| && end < |buffer|
    ensures Next(end, |buffer|) == start <==> |Items(buffer, start, end)| == |buffer| - 1
  {
  }

  class Ring<T> {
    const buffer: array<T>
    const size: uint32
    var start: uint32
    var end: uint32

    ghost predicate Valid()
      reads this, buffer
    {
      buffer.Length == size && IsPowerOfTwo(size) && start < size && end < size
    }

    ghost function Contents(): (r: seq<T>)
      requires Valid()
      reads this, buffer
      ensures |r| < size
    {
      Items(buffer[..], start, end)
    }

    constructor (size: uint32, blank: T)
      requires IsPowerOfTwo(size)
      ensures Valid() && Contents() == [] && this.size == size && fresh(buffer)
    {
      this.size := size;
      buffer := new T[size](_ => blank);
      start, end := 0, 0;
    }

    /** ring_create: there is no queue for a size that is not a power of two. */
    static method Create(size: uint32, blank: T) returns (r: Ring?<T>)
      ensures r == null <==> !IsPowerOfTwo(size)
      ensures r != null ==> fresh(r) && fresh(r.buffer) && r.Valid() && r.size == size && r.Contents() == []
    {
      if size > 0 {
        PowerOfTwoTest(size);
      }
      if size <= 0 || And(size, size - 1) != 0 {
        return null;
      }
      r := new Ring(size, blank);
    }

    /** _ring_next. */
    function NextIndex(i: uint32): (r: uint32)
      requires IsPowerOfTwo(size) && i < size
      ensures r == Next(i, size)
    {
      NextMask(i, size);
      And((i + 1) % TWO_32, size - 1)
    }

    static lemma NextMask(i: uint32, size: uint32)
      requires IsPowerOfTwo(size) && i < size
      ensures And((i + 1) % TWO_32, size - 1) == Next(i, size)
    {
      hide And, IsPowerOfTwo;
      WrapMask(i + 1, size);
    }

    /** ring_push_back. */
    method PushBack(x: T) returns (ok: bool)
      requires Valid()
      modifies this`end, buffer
      ensures Valid() && ok == (|old(Contents())| < size - 1)
      ensures Contents() == if ok then old(Contents()) + [x] else old(Contents())
    {
      FullExactly(buffer[..], start, end);
      var next := NextIndex(end);
      if next == start {
        return false;
      }
      ItemsPushed(buffer[..], start, end, x);
      buffer[end] := x;
      end := next;
      assert buffer[..] == old(buffer[..])[old(end) := x];
      return true;
    }

    /** ring_pop_front. */
    method PopFront(blank: T) returns (ok: bool, x: T)
      requires Valid()
      modifies this`start
      ensures Valid() && ok == (old(Contents()) != [])
      ensures if ok then old(Contents()) == [x] + Contents() else Contents() == []
    {
      if start == end {
        return false, blank;
      }
      ItemsPopped(buffer[..], start, end);
      x := buffer[start];
      start := NextIndex(start);
      return true, x;
    }

    /** ring_count. */
    method Count() returns (n: uint32)
      requires Valid()
      ensures n == |Contents()|
    {
      WrapDifference(end, start, size);
      n := And((end - start) % TWO_32, size - 1);
    }

    /** ring_full. */
    method IsFull() returns (full: bool)
      requires Valid()
      ensures full <==> |Contents()| == size - 1
    {
      FullExactly(buffer[..], start, end);
      full := NextIndex(end) == start;
    }

    /** ring_empty. */
    method IsEmpty() returns (empty: bool)
      requires Valid()
      ensures empty <==> Contents() == []
    {
      empty := start == end;
    }
  }
}
