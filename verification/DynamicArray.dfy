/** The deque kept in a circular buffer that doubles when it is full and shrinks when it is mostly empty. */
module DynamicArrayModule {
  import opened Machine

  /** Place of the i-th element: elements follow the start, going round the first size places. */
  function Slot(start: nat, size: nat, i: nat): (p: nat)
    requires start < size && i < size
    ensures p < size
  {
    if start + 1 + i < size then start + 1 + i else start + 1 + i - size
  }

  ghost function Elements<T>(b: seq<T>, start: nat, size: nat, count: nat): (r: seq<T>)
    requires start < size <= |b| && count <= size
    ensures |r| == count
  {
    seq(count, i requires 0 <= i < count => b[Slot(start, size, i)])
  }

  lemma PushedFront<T>(b: seq<T>, start: nat, size: nat, count: nat, x: T)
    requires start < size <= |b| && count < size
    ensures
      var back := if start > 0 then start - 1 else size - 1;
      Elements(b[start := x], back, size, count + 1) == [x] + Elements(b, start, size, count)
  {
    var back := if start > 0 then start - 1 else size - 1;
    assert Slot(back, size, 0) == start;
    forall i | 0 <= i < count ensures Slot(back, size, i + 1) == Slot(start, size, i) != start {
    }
  }

  lemma PushedBack<T>(b: seq<T>, start: nat, size: nat, count: nat, x: T)
    requires start < size <= |b| && count < size
    ensures Elements(b[Slot(start, size, count) := x], start, size, count + 1) == Elements(b, start, size, count) + [x]
  {
    forall i | 0 <= i < count ensures Slot(start, size, i) != Slot(start, size, count) {
    }
  }

  /** Elements moved to the front of a buffer that is to have the given size. */
  lemma MovedToFront<T>(b: seq<T>, b': seq<T>, start: nat, size: nat, count: nat, newSize: nat)
    requires start < size <= |b| && count < newSize <= |b'| && count <= size
    requires start + 1 + count <= size || start + 1 == size
    requires forall i :: 0 <= i < count ==> b'[i] == b[if start + 1 == size then i else start + 1 + i]
    ensures Elements(b', newSize - 1, newSize, count) == Elements(b, start, size, count)
  {
  }

  /** The elements that do not go round moved to the end of a buffer of the given size. */
  lemma MovedToEnd<T>(b: seq<T>, b': seq<T>, start: nat, size: nat, count: nat, newSize: nat)
    requires start < size <= |b| && count < newSize <= |b'| && count <= size
    requires size - start - 1 <= count
    requires forall j :: newSize - (size - start - 1) <= j < newSize ==> b'[j] == b[j - newSize + size]
    requires forall i :: 0 <= i < count - (size - start - 1) ==> b'[i] == b[i]
    ensures Elements(b', newSize - (size - start - 1) - 1, newSize, count) == Elements(b, start, size, count)
  {
  }

  lemma Swapped<T>(b: seq<T>, start: nat, size: nat, count: nat, i: nat, j: nat)
    requires start < size <= |b| && count <= size && i < count && j < count
    ensures
      var p, q, s := Slot(start, size, i), Slot(start, size, j), Elements(b, start, size, count);
      Elements(b[p := b[q]][q := b[p]], start, size, count) == s[i := s[j]][j := s[i]]
  {
    forall k | 0 <= k < count ensures (Slot(start, size, k) == Slot(start, size, i) <==> k == i) &&
      (Slot(start, size, k) == Slot(start, size, j) <==> k == j) {
    }
  }

  /** The size to shrink to; __builtin_clz is undefined on zero, and clzOfZero is what it yields there. */
  function ShrunkSize(count: uint32, clzOfZero: nat): nat
    requires count > 0 && clzOfZero <= 32
  {
    Pow2(32 - if count == 1 then clzOfZero else Clz(count - 1))
  }

  /** Sizes are powers of two; a quarter of the places are in use, and at least one is free. One element may also be
      left in eight places, since clz decides what becomes of it (see ClzOfZeroDecides). */
  ghost predicate Fitting(count: nat, size: nat) {
    && IsPowerOfTwo(size)
    && if size == 1 then count == 0 else count < size && (size <= 4 * count || (count == 1 && size == 8))
  }

  /** A pop that leaves too few elements shrinks to a quarter of the size; with one element left in eight places that
      depends on clz, see ClzOfZeroDecides. */
  lemma ShrinksFitting(count: uint32, size: nat, clzOfZero: nat)
    requires IsPowerOfTwo(size) && count > 0 && 4 * (count + 1) == size && clzOfZero <= 32
    requires count == 1 ==> 29 <= clzOfZero <= 31
    ensures Fitting(count, ShrunkSize(count, clzOfZero)) && ShrunkSize(count, clzOfZero) <= size
    ensures ShrunkSize(count, clzOfZero) == size <==> count == 1 && clzOfZero == 29
    ensures count > 1 || clzOfZero == 31 ==> ShrunkSize(count, clzOfZero) == size / 4
  {
    PowerOfTwoDoubles(size);
    PowerOfTwoDoubles(size / 2);
    var m: nat :| size / 4 == Pow2(m);
    if count > 1 {
      assert Pow2(m) == 2 * Pow2(m - 1);
      BitLengthExact(count - 1, m);
    } else {
      assert Pow2(0) == 1 && Pow2(1) == 2 && Pow2(2) == 4 && Pow2(3) == 8;
    }
  }

  lemma BitLengthExact(x: nat, k: nat)
    requires k > 0 && Pow2(k - 1) <= x < Pow2(k)
    ensures BitLength(x) == k
  {
    BitLengthBelow(x, k);
    BitLengthBounds(x);
    if BitLength(x) < k {
      Pow2Monotone(BitLength(x), k - 1);
    }
  }

  /** Leaving one element in eight places, the deque fits its new size exactly when clz yields 29, 30 or 31 on zero: 29
      keeps all places, 32 leaves none free, and with less than 29 the size exceeds the buffer. */
  lemma ClzOfZeroDecides(clzOfZero: nat)
    requires clzOfZero <= 32
    ensures Fitting(1, ShrunkSize(1, clzOfZero)) <==> 29 <= clzOfZero <= 31
  {
    assert Pow2(0) == 1 && Pow2(1) == 2 && Pow2(2) == 4 && Pow2(3) == 8 && Pow2(4) == 16;
    if clzOfZero < 29 {
      Pow2Monotone(4, 32 - clzOfZero);
    }
  }

  lemma OneIsPower()
    ensures IsPowerOfTwo(1)
  {
    assert Pow2(0) == 1;
  }

  class DynamicArray<T(0)> {
    var buffer: array<T>
    var start: uint32
    var end: uint32
    var size: uint32
    var count: uint32

    ghost predicate Valid()
      reads this
    {
      && Fitting(count, size)
      && start < size <= buffer.Length && size <= 0x4000_0000
      && end == Slot(start, size, count)
    }

    ghost function Contents(): (r: seq<T>)
      requires Valid()
      reads this, buffer
      ensures |r| == count
    {
      Raw()
    }

    /** The elements, also while the buffer is full. */
    ghost function Raw(): (r: seq<T>)
      requires start < size <= buffer.Length && count <= size
      reads this, buffer
      ensures |r| == count
    {
      Elements(buffer[..], start, size, count)
    }

    /** dynamic_array_create. */
    constructor ()
      ensures Valid() && Contents() == [] && fresh(buffer)
    {
      buffer := new T[1];
      start, end, size, count := 0, 0, 1, 0;
      new;
      OneIsPower();
    }

    /** dynamic_array_get_by_index. */
    function Get(i: int): (x: T)
      requires Valid() && 0 <= i < count
      reads this, buffer
      ensures x == Contents()[i]
    {
      WrapMask(start + i + 1, size);
      buffer[And(start + i + 1, size - 1)]
    }

    /** dynamic_array_push_back. */
    method PushBack(x: T)
      requires Valid() && size <= 0x2000_0000
      modifies this, buffer
      ensures Valid() && Contents() == old(Contents()) + [x]
      ensures size == if old(count) + 1 == old(size) then 2 * old(size) else old(size)
      ensures buffer == old(buffer) || fresh(buffer)
    {
      hide And, IsPowerOfTwo, Elements;
      buffer[end] := x;
      count := count + 1;
      WrapMask(end + 1, size);
      end := And(end + 1, size - 1);
      assert buffer[..] == old(buffer[..])[old(end) := x];
      PushedBack(old(buffer[..]), start, size, old(count), x);
      if count == size {
        Expand();
      }
    }

    /** dynamic_array_push_front. */
    method PushFront(x: T)
      requires Valid() && size <= 0x2000_0000
      modifies this, buffer
      ensures Valid() && Contents() == [x] + old(Contents())
      ensures size == if old(count) + 1 == old(size) then 2 * old(size) else old(size)
      ensures buffer == old(buffer) || fresh(buffer)
    {
      hide And, IsPowerOfTwo, Elements;
      buffer[start] := x;
      count := count + 1;
      BackMask(start, size);
      start := And((start - 1) % TWO_32, size - 1);
      assert buffer[..] == old(buffer[..])[old(start) := x];
      PushedFront(old(buffer[..]), old(start), size, old(count), x);
      if count == size {
        Expand();
      }
    }

    method Realloc(n: nat)
      modifies this`buffer
      ensures fresh(buffer) && buffer.Length == n
      ensures forall i :: 0 <= i < n && i < old(buffer.Length) ==> buffer[i] == old(buffer[i])
    {
      var b := new T[n];
      forall i | 0 <= i < n && i < buffer.Length {
        b[i] := buffer[i];
      }
      buffer := b;
    }

    /** memcpy inside the buffer, upwards; the source is not overwritten before it is read. */
    method Move(dst: nat, src: nat, n: nat)
      requires src + n <= buffer.Length && dst + n <= buffer.Length && (dst <= src || src + n <= dst)
      modifies buffer
      ensures forall i :: dst <= i < dst + n ==> buffer[i] == old(buffer[i - dst + src])
      ensures forall i :: 0 <= i < buffer.Length && !(dst <= i < dst + n) ==> buffer[i] == old(buffer[i])
    {
      for k := 0 to n
        invariant forall i :: dst <= i < dst + k ==> buffer[i] == old(buffer[i - dst + src])
        invariant forall i :: 0 <= i < buffer.Length && !(dst <= i < dst + k) ==> buffer[i] == old(buffer[i])
      {
        buffer[dst + k] := buffer[src + k];
      }
    }

    /** array_expand_ of a full buffer: the elements on the right move to the end of the doubled buffer. */
    method Expand()
      requires IsPowerOfTwo(size) && start < size <= buffer.Length && size <= 0x2000_0000
      requires count == size && end == if start + 1 < size then start + 1 else 0
      modifies this
      ensures Valid() && Raw() == old(Raw()) && fresh(buffer) && size == 2 * old(size) && count == old(count)
    {
      hide And, IsPowerOfTwo, Elements;
      PowerOfTwoDoubles(size);
      Realloc(2 * size);
      if size == 1 {
        start, end := 1, 1;
        MovedToFront(old(buffer[..]), buffer[..], old(start), size, count, 2);
      } else if start < end {
        var right := size - start - 1;
        Move(2 * size - right, start + 1, right);
        start := 2 * size - right - 1;
        MovedToEnd(old(buffer[..]), buffer[..], old(start), size, count, 2 * size);
      } else {
        start := 2 * size - 1;
        end := count;
        MovedToFront(old(buffer[..]), buffer[..], old(start), size, count, 2 * size);
      }
      size := 2 * size;
    }

    /** array_shrink_ of a buffer with less than a quarter of its places in use. */
    method Shrink(clzOfZero: nat)
      requires IsPowerOfTwo(size) && start < size <= buffer.Length && size <= 0x4000_0000
      requires 1 < size && count < size && end == Slot(start, size, count)
      requires if count == 0 then size <= 8 else size == 4 * (count + 1)
      requires clzOfZero <= 32 && (count == 1 ==> 29 <= clzOfZero <= 31)
      modifies this, buffer
      ensures Valid() && Raw() == old(Raw()) && buffer == old(buffer)
      ensures count != 1 || clzOfZero == 31 ==> size == if count == 0 then 1 else old(size) / 4
    {
      hide And, IsPowerOfTwo;
      if count == 0 && size != 1 {
        size, start, end := 1, 0, 0;
        OneIsPower();
        return;
      }
      var newSize := ShrunkSize(count, clzOfZero);
      ShrinksFitting(count, size, clzOfZero);
      if newSize == size {
        return;
      }
      Compact(newSize);
    }

    /** The moves in array_shrink_ to the first newSize places. */
    method Compact(newSize: nat)
      requires start < size <= buffer.Length && size <= 0x4000_0000
      requires 0 < count && Fitting(count, newSize) && newSize < size && end == Slot(start, size, count)
      modifies this, buffer
      ensures Valid() && Raw() == old(Raw()) && buffer == old(buffer) && size == newSize
    {
      hide And, IsPowerOfTwo, Elements;
      if start < end || end == 0 {
        CompactToFront(newSize);
      } else if start > end {
        CompactToEnd(newSize);
      }
      size := newSize;
    }

    /** All elements move to the front. */
    method CompactToFront(newSize: nat)
      requires start < size <= buffer.Length && size <= 0x4000_0000
      requires 0 < count < newSize < size && IsPowerOfTwo(newSize) && end == Slot(start, size, count)
      requires start < end || end == 0
      modifies this`start, this`end, buffer
      ensures start < newSize && end == Slot(start, newSize, count)
      ensures Elements(buffer[..], start, newSize, count) == old(Raw())
    {
      hide And, IsPowerOfTwo, Elements;
      Move(0, start + 1, count);
      start := newSize - 1;
      WrapMask(count, newSize);
      end := And(count, newSize - 1);
      MovedToFront(old(buffer[..]), buffer[..], old(start), size, count, newSize);
    }

    /** The elements that do not go round move to the end. */
    method CompactToEnd(newSize: nat)
      requires start < size <= buffer.Length && size <= 0x4000_0000
      requires 0 < count < newSize < size && end == Slot(start, size, count) && 0 < end < start
      modifies this`start, buffer
      ensures start < newSize && end == Slot(start, newSize, count)
      ensures Elements(buffer[..], start, newSize, count) == old(Raw())
    {
      hide Elements;
      var right := size - start - 1;
      Move(newSize - right, start + 1, right);
      start := newSize - right - 1;
      MovedToEnd(old(buffer[..]), buffer[..], old(start), size, count, newSize);
    }

    /** What is left after a pop either still fits or is to be shrunk. */
    static lemma AfterPop(count0: nat, size: nat)
      requires Fitting(count0, size) && count0 > 0
      ensures size > 1 && (4 * (count0 - 1) >= size ==> Fitting(count0 - 1, size))
      ensures 4 * (count0 - 1) < size ==> if count0 == 1 then size <= 8 else size == 4 * count0
    {
      hide IsPowerOfTwo;
      PowerOfTwoDoubles(size);
      PowerOfTwoDoubles(size / 2);
    }

    /** The size after a pop: it stays while a quarter of the places is in use, and otherwise becomes a quarter, or one
        for the empty deque. */
    static ghost predicate Resized(count0: nat, size0: nat, count: nat, size: nat, clzOfZero: nat) {
      if count0 == 0 || 4 * count >= size0 then size == size0
      else if count == 0 then size == 1
      else (count == 1 && clzOfZero != 31) || size == size0 / 4
    }

    /** dynamic_array_pop_back. */
    method PopBack(clzOfZero: nat)
      requires Valid() && clzOfZero <= 32 && (size == 8 && count == 2 ==> 29 <= clzOfZero <= 31)
      modifies this, buffer
      ensures Valid() && buffer == old(buffer)
      ensures Contents() == if old(count) == 0 then [] else old(Contents())[..old(count) - 1]
      ensures Resized(old(count), old(size), count, size, clzOfZero)
    {
      hide And, IsPowerOfTwo;
      if count == 0 {
        return;
      }
      AfterPop(count, size);
      BackMask(end, size);
      end := And((end - 1) % TWO_32, size - 1);
      count := count - 1;
      assert Raw() == old(Raw())[..old(count) - 1];
      if size > 1 && count * 4 < size {
        Shrink(clzOfZero);
      }
    }

    /** dynamic_array_pop_front. */
    method PopFront(clzOfZero: nat)
      requires Valid() && clzOfZero <= 32 && (size == 8 && count == 2 ==> 29 <= clzOfZero <= 31)
      modifies this, buffer
      ensures Valid() && buffer == old(buffer)
      ensures Contents() == if old(count) == 0 then [] else old(Contents())[1..]
      ensures Resized(old(count), old(size), count, size, clzOfZero)
    {
      hide And, IsPowerOfTwo;
      if count == 0 {
        return;
      }
      AfterPop(count, size);
      WrapMask(start + 1, size);
      start := And(start + 1, size - 1);
      count := count - 1;
      assert Raw() == old(Raw())[1..];
      if size > 1 && count * 4 < size {
        Shrink(clzOfZero);
      }
    }

    /** dynamic_array_clear. */
    method Clear()
      requires Valid()
      modifies this
      ensures Valid() && Contents() == [] && size == if old(count) == 0 then old(size) else 1
      ensures buffer == old(buffer) || fresh(buffer)
    {
      if count == 0 {
        return;
      }
      start, end, count, size := 0, 0, 0, 1;
      Realloc(1);
      OneIsPower();
    }

    /** memswap of two elements found by their indices. */
    method Swap(i: int, j: int)
      requires Valid() && 0 <= i < count && 0 <= j < count
      modifies buffer
      ensures Valid() && Contents() == old(Contents())[i := old(Contents()[j])][j := old(Contents()[i])]
    {
      hide And, IsPowerOfTwo, Elements;
      WrapMask(start + i + 1, size);
      WrapMask(start + j + 1, size);
      var p, q := And(start + i + 1, size - 1), And(start + j + 1, size - 1);
      buffer[p], buffer[q] := buffer[q], buffer[p];
      assert buffer[..] == old(buffer[..])[p := old(buffer[q])][q := old(buffer[p])];
      Swapped(old(buffer[..]), start, size, count, i, j);
    }
  }
}
