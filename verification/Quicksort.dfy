/** Hoare's quicksort on the deque, and the memory swap under it. */
module Quicksort {
  import opened Machine
  import opened DynamicArrayModule

  ghost predicate StrictWeakOrder<T(!new)>(less: (T, T) -> bool) {
    && (forall x :: !less(x, x))
    && (forall x, y, z :: less(x, y) && less(y, z) ==> less(x, z))
    && (forall x, y, z :: less(x, z) ==> less(x, y) || less(y, z))
  }

  ghost predicate Sorted<T>(s: seq<T>, lo: nat, hi: nat, less: (T, T) -> bool)
    requires lo <= hi <= |s|
  {
    forall i, j :: lo <= i < j < hi ==> !less(s[j], s[i])
  }

  /** The places from lo up to hi hold the same elements, and all others are as they were. */
  ghost predicate Rearranged<T>(s: seq<T>, t: seq<T>, lo: nat, hi: nat) {
    && lo <= hi <= |s| == |t|
    && s[..lo] == t[..lo] && s[hi..] == t[hi..]
    && multiset(s[lo..hi]) == multiset(t[lo..hi])
  }

  ghost function Exchanged<T>(s: seq<T>, i: nat, j: nat): (t: seq<T>)
    requires i < |s| && j < |s|
    ensures |t| == |s|
  {
    s[i := s[j]][j := s[i]]
  }

  lemma SwapRearranges<T>(s: seq<T>, lo: nat, hi: nat, i: nat, j: nat)
    requires lo <= i < hi <= |s| && lo <= j < hi
    ensures Rearranged(s, Exchanged(s, i, j), lo, hi)
  {
    var t := Exchanged(s, i, j);
    assert t[lo..hi] == s[lo..hi][i - lo := s[j]][j - lo := s[i]];
  }

  lemma Rearranged2<T>(s: seq<T>, t: seq<T>, u: seq<T>, lo: nat, hi: nat)
    requires Rearranged(s, t, lo, hi) && Rearranged(t, u, lo, hi)
    ensures Rearranged(s, u, lo, hi)
  {
  }

  lemma RearrangedWithin<T>(s: seq<T>, t: seq<T>, lo: nat, hi: nat, lo': nat, hi': nat)
    requires Rearranged(s, t, lo', hi') && lo <= lo' && hi' <= hi <= |s|
    ensures Rearranged(s, t, lo, hi)
  {
    assert s[lo..hi] == s[..lo'][lo..] + s[lo'..hi'] + s[hi'..][..hi - hi'];
    assert t[lo..hi] == t[..lo'][lo..] + t[lo'..hi'] + t[hi'..][..hi - hi'];
    assert s[..lo] == s[..lo'][..lo] && t[..lo] == t[..lo'][..lo];
    assert s[hi..] == s[hi'..][hi - hi'..] && t[hi..] == t[hi'..][hi - hi'..];
  }

  lemma RearrangedFrom<T>(s: seq<T>, t: seq<T>, lo: nat, hi: nat, k: nat) returns (j: nat)
    requires Rearranged(s, t, lo, hi) && lo <= k < hi
    ensures lo <= j < hi && t[k] == s[j]
  {
    assert t[k] == t[lo..hi][k - lo] && t[k] in multiset(t[lo..hi]);
    var i :| 0 <= i < hi - lo && s[lo..hi][i] == t[k];
    j := i + lo;
  }

  ghost predicate AtMost<T>(s: seq<T>, lo: nat, hi: int, p: T, less: (T, T) -> bool)
    requires hi <= |s|
  {
    forall k :: lo <= k < hi ==> !less(p, s[k])
  }

  ghost predicate AtLeast<T>(s: seq<T>, lo: nat, hi: int, p: T, less: (T, T) -> bool)
    requires hi <= |s|
  {
    forall k :: lo <= k < hi ==> !less(s[k], p)
  }

  lemma RearrangedBounds<T>(s: seq<T>, t: seq<T>, lo: nat, hi: nat, p: T, less: (T, T) -> bool)
    requires Rearranged(s, t, lo, hi)
    ensures AtMost(s, lo, hi, p, less) ==> AtMost(t, lo, hi, p, less)
    ensures AtLeast(s, lo, hi, p, less) ==> AtLeast(t, lo, hi, p, less)
  {
    forall k | lo <= k < hi
      ensures AtMost(s, lo, hi, p, less) ==> !less(p, t[k])
      ensures AtLeast(s, lo, hi, p, less) ==> !less(t[k], p)
    {
      var j := RearrangedFrom(s, t, lo, hi, k);
    }
  }

  /** A sorted part of elements up to p, elements like p, and a sorted part of elements from p on. */
  lemma SortedParts<T(!new)>(s: seq<T>, lo: nat, a: nat, b: nat, hi: nat, p: T, less: (T, T) -> bool)
    requires StrictWeakOrder(less) && lo <= a <= b <= hi <= |s|
    requires Sorted(s, lo, a, less) && Sorted(s, b, hi, less)
    requires AtMost(s, lo, b, p, less) && AtLeast(s, a, hi, p, less)
    ensures Sorted(s, lo, hi, less)
  {
  }

  lemma Stops<T(!new)>(s: seq<T>, lo: nat, l: nat, r: int, hi: nat, p: T, less: (T, T) -> bool)
    requires hi < |s| && l <= hi + 1 && lo - 1 <= r && AtMost(s, lo, l, p, less) && AtLeast(s, r + 1, hi + 1, p, less)
    requires StrictWeakOrder(less)
    ensures !less(p, p) && (lo < l ==> !less(p, s[l - 1])) && (r < hi ==> !less(s[r + 1], p))
  {
  }

  lemma NothingParted<T>(s: seq<T>, lo: nat, hi: nat, p: T, less: (T, T) -> bool)
    requires lo < hi < |s|
    ensures Rearranged(s, s, lo, hi + 1) && AtMost(s, lo, lo, p, less) && AtLeast(s, hi + 1, hi + 1, p, less)
  {
  }

  /** What both searches and the swap do to the parts. */
  lemma SearchesPart<T(!new)>(s: seq<T>, lo: nat, l0: nat, l: nat, r: nat, r0: int, hi: nat, p: T, less: (T, T) -> bool)
    requires StrictWeakOrder(less) && lo <= l0 <= l < |s| && r <= r0 <= hi < |s|
    requires AtMost(s, lo, l0, p, less) && AtLeast(s, r0 + 1, hi + 1, p, less)
    requires (forall k :: l0 <= k < l ==> less(s[k], p)) && !less(s[l], p)
    requires (forall k :: r < k <= r0 ==> less(p, s[k])) && !less(p, s[r])
    ensures AtMost(s, lo, l, p, less) && AtLeast(s, r + 1, hi + 1, p, less)
    ensures l <= r ==> AtMost(Exchanged(s, l, r), lo, l + 1, p, less) && AtLeast(Exchanged(s, l, r), r, hi + 1, p, less)
  {
    assert forall k :: 0 <= k < |s| ==> !(less(s[k], p) && less(p, s[k]));
  }

  /** What a call of the sort does to a range. */
  ghost predicate SortedFrom<T>(s: seq<T>, t: seq<T>, lo: int, hi: int, less: (T, T) -> bool) {
    if lo >= hi then t == s
    else 0 <= lo && hi < |s| && Rearranged(s, t, lo, hi + 1) && Sorted(t, lo, hi + 1, less)
  }

  /** A call on a range, even an empty one, keeps what is there within the range. */
  lemma SortedFromKeeps<T>(s: seq<T>, t: seq<T>, lo: nat, hi: int, less: (T, T) -> bool)
    requires SortedFrom(s, t, lo, hi, less) && lo <= hi + 1 <= |s|
    ensures Rearranged(s, t, lo, hi + 1) && Sorted(t, lo, hi + 1, less)
  {
  }

  lemma SortedNothing<T>(s: seq<T>, lo: int, hi: int, less: (T, T) -> bool)
    requires lo >= hi
    ensures SortedFrom(s, s, lo, hi, less)
  {
  }

  lemma SortedStays<T>(t: seq<T>, u: seq<T>, lo: nat, a: nat, b: nat, hi: nat, less: (T, T) -> bool)
    requires lo <= a <= b <= |t| && Sorted(t, lo, a, less) && Rearranged(t, u, b, hi)
    ensures Sorted(u, lo, a, less)
  {
    forall k | 0 <= k < b ensures u[k] == t[k] {
      assert u[k] == u[..b][k] == t[..b][k];
    }
  }

  lemma BothSorted<T(!new)>(s: seq<T>, t: seq<T>, u: seq<T>, lo: nat, l: nat, r: int, hi: nat, p: T,
    less: (T, T) -> bool)
    requires StrictWeakOrder(less) && hi < |s| && lo < l <= hi + 1 && lo - 1 <= r < hi && r < l
    requires AtMost(s, lo, l, p, less) && AtLeast(s, r + 1, hi + 1, p, less)
    requires SortedFrom(s, t, lo, r, less) && SortedFrom(t, u, l, hi, less)
    ensures SortedFrom(s, u, lo, hi, less)
  {
    hide StrictWeakOrder, AtMost, AtLeast, Rearranged, Sorted;
    SortedFromKeeps(s, t, lo, r, less);
    SortedFromKeeps(t, u, l, hi, less);
    RearrangedWithin(s, t, lo, hi + 1, lo, r + 1);
    RearrangedWithin(t, u, lo, hi + 1, l, hi + 1);
    Rearranged2(s, t, u, lo, hi + 1);
    BoundsKept(s, t, u, lo, l, r, hi, p, less);
    SortedStays(t, u, lo, r + 1, l, hi + 1, less);
    SortedParts(u, lo, r + 1, l, hi + 1, p, less);
  }

  lemma SortedAfter<T>(s: seq<T>, t: seq<T>, u: seq<T>, lo: nat, hi: nat, less: (T, T) -> bool)
    requires lo < hi && Rearranged(s, t, lo, hi + 1) && SortedFrom(t, u, lo, hi, less)
    ensures SortedFrom(s, u, lo, hi, less)
  {
    Rearranged2(s, t, u, lo, hi + 1);
  }

  lemma BoundsKept<T>(s: seq<T>, t: seq<T>, u: seq<T>, lo: nat, l: nat, r: int, hi: nat, p: T, less: (T, T) -> bool)
    requires hi < |s| && lo < l <= hi + 1 && lo - 1 <= r < hi && r < l
    requires AtMost(s, lo, l, p, less) && AtLeast(s, r + 1, hi + 1, p, less)
    requires Rearranged(s, t, lo, r + 1) && Rearranged(t, u, l, hi + 1)
    ensures AtMost(u, lo, l, p, less) && AtLeast(u, r + 1, hi + 1, p, less)
  {
    RearrangedBounds(s, t, lo, r + 1, p, less);
    forall k | r < k < |s| ensures t[k] == s[k] {
      assert t[k] == t[r + 1..][k - r - 1] == s[r + 1..][k - r - 1];
    }
    RearrangedBounds(t, u, l, hi + 1, p, less);
    forall k | 0 <= k < l ensures u[k] == t[k] {
      assert u[k] == u[..l][k] == t[..l][k];
    }
  }

  // ---- the sort ----

  /** The first search goes up to an element that is not less than p. */
  method SearchUp<T(0)>(a: DynamicArray<T>, l0: nat, p: T, less: (T, T) -> bool, ghost stop: nat) returns (l: nat)
    requires a.Valid() && l0 <= stop < a.count && !less(a.Contents()[stop], p)
    ensures l0 <= l <= stop && !less(a.Contents()[l], p)
    ensures forall k :: l0 <= k < l ==> less(a.Contents()[k], p)
  {
    l := l0;
    while less(a.Get(l), p)
      invariant l0 <= l <= stop && forall k :: l0 <= k < l ==> less(a.Contents()[k], p)
      decreases stop - l
    {
      l := l + 1;
    }
  }

  /** The second search goes down to an element that p is not less than. */
  method SearchDown<T(0)>(a: DynamicArray<T>, r0: nat, p: T, less: (T, T) -> bool, ghost stop: nat) returns (r: nat)
    requires a.Valid() && stop <= r0 < a.count && !less(p, a.Contents()[stop])
    ensures stop <= r <= r0 && !less(p, a.Contents()[r])
    ensures forall k :: r < k <= r0 ==> less(p, a.Contents()[k])
  {
    r := r0;
    while less(p, a.Get(r))
      invariant stop <= r <= r0 && forall k :: r < k <= r0 ==> less(p, a.Contents()[k])
      decreases r - stop
    {
      r := r - 1;
    }
  }

  /** Both searches of a round: they stop at the pivot, or at the places the round before has left behind. */
  method Searches<T(0,!new)>(a: DynamicArray<T>, ghost lo: nat, l0: nat, r0: nat, ghost hi: nat, p: T,
    less: (T, T) -> bool, ghost first: bool, ghost at: nat)
    returns (l: nat, r: nat)
    requires a.Valid() && StrictWeakOrder(less) && lo <= l0 <= r0 <= hi < a.count
    requires if first then lo <= at <= hi && l0 == lo && r0 == hi && a.Contents()[at] == p else lo < l0 && r0 < hi
    requires AtMost(a.Contents(), lo, l0, p, less) && AtLeast(a.Contents(), r0 + 1, hi + 1, p, less)
    ensures l0 <= l <= r0 + 1 && l0 - 1 <= r <= r0 && (first ==> l <= r)
    ensures AtMost(a.Contents(), lo, l, p, less) && AtLeast(a.Contents(), r + 1, hi + 1, p, less)
    ensures l <= r ==> AtMost(Exchanged(a.Contents(), l, r), lo, l + 1, p, less)
    ensures l <= r ==> AtLeast(Exchanged(a.Contents(), l, r), r, hi + 1, p, less)
  {
    hide Exchanged, StrictWeakOrder, AtMost, AtLeast, DynamicArray.Valid, DynamicArray.Contents;
    Stops(a.Contents(), lo, l0, r0, hi, p, less);
    l := SearchUp(a, l0, p, less, if first then at else r0 + 1);
    r := SearchDown(a, r0, p, less, if first then at else l0 - 1);
    SearchesPart(a.Contents(), lo, l0, l, r, r0, hi, p, less);
  }

  /** The swap of the two elements found. */
  method Exchange<T(0)>(a: DynamicArray<T>, l: nat, r: nat)
    requires a.Valid() && l <= r < a.count
    modifies a.buffer
    ensures a.Valid() && a.Contents() == Exchanged(old(a.Contents()), l, r)
  {
    hide DynamicArray.Valid, DynamicArray.Contents;
    if l < r {
      a.Swap(l, r);
    }
  }

  /** One round of the loop of dynamic_array_quicksort. */
  method Round<T(0,!new)>(a: DynamicArray<T>, ghost lo: nat, l0: nat, r0: nat, ghost hi: nat, p: T,
    less: (T, T) -> bool, ghost first: bool, ghost at: nat)
    returns (l: nat, r: int)
    requires a.Valid() && StrictWeakOrder(less) && lo <= l0 <= r0 <= hi < a.count
    requires if first then lo <= at <= hi && l0 == lo && r0 == hi && a.Contents()[at] == p else lo < l0 && r0 < hi
    requires AtMost(a.Contents(), lo, l0, p, less) && AtLeast(a.Contents(), r0 + 1, hi + 1, p, less)
    modifies a.buffer
    ensures a.Valid() && Rearranged(old(a.Contents()), a.Contents(), lo, hi + 1)
    ensures lo < l <= hi + 1 && lo - 1 <= r < hi && r - l < r0 - l0
    ensures AtMost(a.Contents(), lo, l, p, less) && AtLeast(a.Contents(), r + 1, hi + 1, p, less)
  {
    hide Exchanged, Rearranged, StrictWeakOrder, AtMost, AtLeast, DynamicArray.Valid, DynamicArray.Contents;
    ghost var s := a.Contents();
    l, r := Searches(a, lo, l0, r0, hi, p, less, first, at);
    if l <= r {
      Exchange(a, l, r);
      SwapRearranges(s, lo, hi + 1, l, r);
      l := l + 1;
      r := r - 1;
    } else {
      SameRearranged(s, lo, hi + 1);
    }
  }

  lemma SameRearranged<T(!new)>(s: seq<T>, lo: nat, hi: nat)
    requires lo <= hi <= |s|
    ensures Rearranged(s, s, lo, hi)
  {
  }

  /** The loop of dynamic_array_quicksort, for any choice of the pivot. */
  method Partition<T(0,!new)>(a: DynamicArray<T>, lo: nat, hi: nat, less: (T, T) -> bool)
    returns (l: nat, r: int, ghost p: T)
    requires a.Valid() && lo < hi < a.count && StrictWeakOrder(less)
    modifies a.buffer
    ensures a.Valid() && Rearranged(old(a.Contents()), a.Contents(), lo, hi + 1)
    ensures lo < l <= hi + 1 && lo - 1 <= r < hi && r < l
    ensures AtMost(a.Contents(), lo, l, p, less) && AtLeast(a.Contents(), r + 1, hi + 1, p, less)
  {
    hide Exchanged, Rearranged, StrictWeakOrder, AtMost, AtLeast, DynamicArray.Valid, DynamicArray.Contents;
    var at :| lo <= at <= hi;
    var mid := a.Get(at);
    p := mid;
    l, r := lo, hi;
    NothingParted(a.Contents(), lo, hi, p, less);
    while l <= r
      invariant lo <= l <= hi + 1 && lo - 1 <= r <= hi
      invariant (l == lo && r == hi && a.Contents()[at] == p) || (lo < l && r < hi)
      invariant a.Valid() && Rearranged(old(a.Contents()), a.Contents(), lo, hi + 1)
      invariant AtMost(a.Contents(), lo, l, p, less) && AtLeast(a.Contents(), r + 1, hi + 1, p, less)
      decreases r - l
    {
      ghost var s := a.Contents();
      l, r := Round(a, lo, l, r, hi, mid, less, l == lo, at);
      Rearranged2(old(a.Contents()), s, a.Contents(), lo, hi + 1);
    }
  }

  /** dynamic_array_quicksort: for any strict weak order and any pivots, the range from lo to hi becomes a sorted
      permutation of itself, and nothing else changes. */
  method Sort<T(0,!new)>(a: DynamicArray<T>, lo: int, hi: int, less: (T, T) -> bool)
    requires a.Valid() && StrictWeakOrder(less) && (lo < hi ==> 0 <= lo && hi < a.count)
    modifies a.buffer
    ensures a.Valid()
    ensures SortedFrom(old(a.Contents()), a.Contents(), lo, hi, less)
    decreases hi - lo
  {
    hide Rearranged, StrictWeakOrder, AtMost, AtLeast, Sorted, SortedFrom, DynamicArray.Valid, DynamicArray.Contents;
    ghost var s0 := a.Contents();
    if lo >= hi {
      SortedNothing(s0, lo, hi, less);
      return;
    }
    var l, r, p := Partition(a, lo, hi, less);
    ghost var s := a.Contents();
    Sort(a, lo, r, less);
    ghost var t := a.Contents();
    Sort(a, l, hi, less);
    BothSorted(s, t, a.Contents(), lo, l, r, hi, p, less);
    SortedAfter(s0, s, a.Contents(), lo, hi, less);
  }

  // ---- memswap ----

  /** The pointers of memswap never advance: an odd number of words exchanges the first word, an odd number of left-over
      bytes the first byte. */
  predicate Exchanges(size: nat, i: nat) {
    (size / 4 % 2 == 1 && i < 4) != (size % 4 % 2 == 1 && i == 0)
  }

  ghost predicate SwapsSome(a: seq<byte>, b: seq<byte>, a': seq<byte>, b': seq<byte>, size: nat) {
    && |a| == |b| == |a'| == |b'| == size
    && forall i :: 0 <= i < size ==>
      if Exchanges(size, i) then a'[i] == b[i] && b'[i] == a[i] else a'[i] == a[i] && b'[i] == b[i]
  }

  /** The first loop of memswap. */
  method SwapWords(a: array<byte>, b: array<byte>, size: nat) returns (i: nat)
    requires a != b && a.Length == b.Length == size < 0xFFFF_FFFC
    modifies a, b
    ensures i == size / 4 * 4
    ensures forall k :: 0 <= k < size ==>
      if size / 4 % 2 == 1 && k < 4 then a[k] == old(b[k]) && b[k] == old(a[k])
      else a[k] == old(a[k]) && b[k] == old(b[k])
  {
    i := 0;
    ghost var odd := false;
    while i + 4 <= size
      invariant i <= size && i % 4 == 0 && odd == (i / 4 % 2 == 1)
      invariant forall k :: 0 <= k < size ==>
        if odd && k < 4 then a[k] == old(b[k]) && b[k] == old(a[k]) else a[k] == old(a[k]) && b[k] == old(b[k])
      decreases size - i
    {
      var t0, t1, t2, t3 := a[0], a[1], a[2], a[3];
      a[0], a[1], a[2], a[3] := b[0], b[1], b[2], b[3];
      b[0], b[1], b[2], b[3] := t0, t1, t2, t3;
      i := i + 4;
      odd := !odd;
    }
  }

  /** memswap. */
  method Memswap(a: array<byte>, b: array<byte>, size: nat)
    requires a != b && a.Length == b.Length == size < 0xFFFF_FFFC
    modifies a, b
    ensures SwapsSome(old(a[..]), old(b[..]), a[..], b[..], size)
  {
    var i := SwapWords(a, b, size);
    ghost var a0, b0 := a[..], b[..];
    ghost var odd := false;
    while i < size
      invariant size / 4 * 4 <= i <= size && odd == ((i - size / 4 * 4) % 2 == 1)
      invariant forall k :: 0 < k < size ==> a[k] == a0[k] && b[k] == b0[k]
      invariant size > 0 ==> if odd then a[0] == b0[0] && b[0] == a0[0] else a[0] == a0[0] && b[0] == b0[0]
    {
      var tmp := a[0];
      a[0] := b[0];
      b[0] := tmp;
      i := i + 1;
      odd := !odd;
    }
  }

  /** memswap exchanges all pairs of elements of a size exactly when the size is 0, 1 or 4 bytes. */
  lemma MemswapExchangesExactly(size: nat)
    ensures (forall a: seq<byte>, b: seq<byte>, a': seq<byte>, b': seq<byte> :: SwapsSome(a, b, a', b', size) ==>
      a' == b && b' == a)
      <==> size == 0 || size == 1 || size == 4
  {
    if size == 0 || size == 1 || size == 4 {
      assert forall i: nat :: i < size ==> Exchanges(size, i);
    } else {
      var zeros: seq<byte>, ones: seq<byte> := seq(size, _ => 0), seq(size, _ => 1);
      var a: seq<byte> := seq(size, (i: nat) => if Exchanges(size, i) then 1 else 0);
      var b: seq<byte> := seq(size, (i: nat) => if Exchanges(size, i) then 0 else 1);
      assert SwapsSome(zeros, ones, a, b, size);
      assert a[if size > 4 then 4 else 1] == 0;
    }
  }
}
